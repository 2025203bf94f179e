/** Properties of document parsing, selector matching and filtering. */
module ManifestProperties {
  import opened Wrappers
  import opened Yaml
  import opened Config
  import opened Manifest

  /*************************************************************************************
   * Parsing
   *************************************************************************************/

  /** A single decoded document parses to itself with its identity, unless it is empty. */
  lemma ParseOneDocument(items: seq<Item>)
    ensures ParseDocuments([Document(items)]) ==
      Success(if |items| == 0 then [] else [ParsedDocument(ExtractSelector(items), items)])
  {
    assert [Document(items)][1..] == [];
    assert ParseDocuments([]) == Success([]);
    assert [ParsedDocument(ExtractSelector(items), items)] + [] == [ParsedDocument(ExtractSelector(items), items)];
  }

  /**
   Parsing distributes over concatenation of streams: the documents of the first part
   come first, in order, and an error in the second part fails the whole parse.
   */
  lemma {:induction false} ParseConcat(a: seq<Decoded>, b: seq<Decoded>)
    requires ParseDocuments(a).Success?
    ensures ParseDocuments(a + b) ==
      match ParseDocuments(b)
      case Failure(e) => Failure(e)
      case Success(rest) => Success(ParseDocuments(a).value + rest)
  {
    if |a| == 0 {
      assert a + b == b;
      assert ParseDocuments(a) == Success([]);
      if ParseDocuments(b).Success? {
        assert [] + ParseDocuments(b).value == ParseDocuments(b).value;
      }
    } else {
      assert a[0].Document?;
      var items := a[0].items;
      assert (a + b)[0] == a[0];
      assert (a + b)[1..] == a[1..] + b;
      assert ParseDocuments(a[1..]).Success?;
      ParseConcat(a[1..], b);
      var front := ParseDocuments(a[1..]).value;
      var head := if |items| == 0 then [] else [ParsedDocument(ExtractSelector(items), items)];
      assert ParseDocuments(a).value == head + front;
      match ParseDocuments(b)
      case Failure(e) =>
        assert ParseDocuments(a[1..] + b) == Failure(e);
      case Success(rest) =>
        assert ParseDocuments(a[1..] + b) == Success(front + rest);
        ConcatAssociative(head, front, rest);
    }
  }

  lemma ConcatAssociative<T>(x: seq<T>, y: seq<T>, z: seq<T>)
    ensures x + (y + z) == (x + y) + z
  {
  }

  /** The stream with every empty document removed. */
  function WithoutEmptyDocuments(stream: seq<Decoded>): (r: seq<Decoded>)
  {
    if |stream| == 0 then []
    else (if stream[0] == Document([]) then [] else [stream[0]]) + WithoutEmptyDocuments(stream[1..])
  }

  /** Interleaved empty documents do not change the parse. */
  lemma {:induction false} EmptyDocumentsIgnored(stream: seq<Decoded>)
    ensures ParseDocuments(WithoutEmptyDocuments(stream)) == ParseDocuments(stream)
  {
    if |stream| > 0 {
      EmptyDocumentsIgnored(stream[1..]);
      var tail := WithoutEmptyDocuments(stream[1..]);
      if stream[0] != Document([]) {
        var s := [stream[0]] + tail;
        assert s[0] == stream[0];
        assert s[1..] == tail;
      } else {
        assert WithoutEmptyDocuments(stream) == tail;
      }
    }
  }

  /*************************************************************************************
   * Selectors
   *************************************************************************************/

  /** The selector with every field unset. */
  const MatchAll := Selector("", "", None)

  /** A selector with no constraint matches every document, with or without metadata. */
  lemma UnconstrainedSelectorMatchesAll(d: ParsedDocument)
    ensures MatchesSelector(d, MatchAll) == Success(true)
    ensures MatchesSelector(d, Selector("", "", Some(MetadataSelector("", "", map[])))) == Success(true)
  {
  }

  /**
   With a label-only selector, a document with metadata matches exactly when it carries
   every selector label with the same value; any other labels it has do not matter.
   */
  lemma LabelSelectorIsSubsetTest(d: ParsedDocument, wanted: map<string, string>, extra: map<string, string>)
    requires d.metadata.metadata.Some?
    requires extra.Keys !! d.metadata.metadata.value.labels.Keys
    ensures MatchesSelector(d, Selector("", "", Some(MetadataSelector("", "", wanted)))) ==
      Success(LabelsSubset(wanted, d.metadata.metadata.value.labels))
    ensures LabelsSubset(wanted, d.metadata.metadata.value.labels) ==>
      LabelsSubset(wanted, d.metadata.metadata.value.labels + extra)
  {
    var labels := d.metadata.metadata.value.labels;
    if LabelsSubset(wanted, labels) {
      forall k | k in wanted
        ensures k in labels + extra && (labels + extra)[k] == wanted[k]
      {
        assert k in labels && k !in extra;
      }
    }
  }

  /*************************************************************************************
   * Filters
   *************************************************************************************/

  /** The filter semantics on normalised identities: some include (if any) and no exclude accept. */
  ghost predicate Included(id: Identity, f: Filter)
  {
    && (|f.includes| == 0 || exists i | 0 <= i < |f.includes| :: Accepts(id, f.includes[i]))
    && !(exists j | 0 <= j < |f.excludes| :: Accepts(id, f.excludes[j]))
  }

  /** With the document's metadata present no selector panics, and the search is a plain "exists". */
  lemma {:induction false} AnyMatchesWithMetadata(selectors: seq<Selector>, d: ParsedDocument)
    requires d.metadata.metadata.Some?
    ensures AnyMatches(selectors, d) ==
      Success(exists i | 0 <= i < |selectors| :: Accepts(IdentityOf(d.metadata), selectors[i]))
  {
    var id := IdentityOf(d.metadata);
    var r := AnyMatches(selectors, d);
    if exists i | 0 <= i < |selectors| :: Accepts(id, selectors[i]) {
      var i :| 0 <= i < |selectors| && Accepts(id, selectors[i]);
      assert MatchesSelector(d, selectors[i]) == Success(true);
      assert r != Success(false);
      assert r.Success? && r.value;
    } else {
      assert forall i | 0 <= i < |selectors| :: MatchesSelector(d, selectors[i]) == Success(false);
    }
  }

  /** For documents with metadata, `Matches` is the declarative include/exclude decision. */
  lemma MatchesIsIncluded(d: ParsedDocument, f: Filter)
    requires d.metadata.metadata.Some?
    ensures Matches(d, Some(f)) == Success(Included(IdentityOf(d.metadata), f))
  {
    AnyMatchesWithMetadata(f.includes, d);
    AnyMatchesWithMetadata(f.excludes, d);
  }

  /**
   A matching exclude selector rejects the document whatever the include list says; the
   outcome is a plain rejection once the document has metadata.
   */
  lemma ExcludeWins(d: ParsedDocument, f: Filter, j: int)
    requires 0 <= j < |f.excludes|
    requires MatchesSelector(d, f.excludes[j]) == Success(true)
    ensures Matches(d, Some(f)) != Success(true)
    ensures d.metadata.metadata.Some? ==> Matches(d, Some(f)) == Success(false)
  {
    if d.metadata.metadata.Some? {
      MatchesIsIncluded(d, f);
    }
  }

  /** A search that answers "yes" found a selector that answers "yes". */
  lemma {:induction false} AnyMatchesWitness(selectors: seq<Selector>, d: ParsedDocument)
    requires AnyMatches(selectors, d) == Success(true)
    ensures exists i | 0 <= i < |selectors| :: MatchesSelector(d, selectors[i]) == Success(true)
  {
    if MatchesSelector(d, selectors[0]) != Success(true) {
      AnyMatchesWitness(selectors[1..], d);
      var i :| 0 <= i < |selectors[1..]| && MatchesSelector(d, selectors[1..][i]) == Success(true);
      assert selectors[1..][i] == selectors[i + 1];
    }
  }

  /** With a non-empty include list, a document is kept only if some include selector matches it. */
  lemma IncludeRequired(d: ParsedDocument, f: Filter)
    requires |f.includes| > 0
    requires Matches(d, Some(f)) == Success(true)
    ensures exists i | 0 <= i < |f.includes| :: MatchesSelector(d, f.includes[i]) == Success(true)
    ensures d.metadata.metadata.Some? ==> exists i | 0 <= i < |f.includes| :: Accepts(IdentityOf(d.metadata), f.includes[i])
  {
    AnyMatchesWitness(f.includes, d);
    if d.metadata.metadata.Some? {
      MatchesIsIncluded(d, f);
    }
  }

  /**
   The documented meaning of the filter's lists: an empty include list behaves like a list
   holding the match-all selector, and an empty exclude list excludes nothing.
   */
  lemma EmptyListsMeanAllAndNothing(d: ParsedDocument, includes: seq<Selector>, excludes: seq<Selector>)
    ensures Matches(d, Some(Filter([], excludes))) == Matches(d, Some(Filter([MatchAll], excludes)))
    ensures |includes| > 0 ==> Matches(d, Some(Filter(includes, []))) == AnyMatches(includes, d)
  {
    assert FirstDecisive([MatchAll], d, 0);
  }

  /** A missing metadata section is a panic, not a rejection, once a selector reads metadata. */
  lemma MissingMetadataPanics(d: ParsedDocument, f: Filter)
    requires d.metadata.metadata.None?
    requires |f.includes| > 0
    requires ReadsMetadata(f.includes[0])
    requires FieldAccepts(f.includes[0].kind, d.metadata.kind)
    requires FieldAccepts(f.includes[0].apiVersion, d.metadata.apiVersion)
    ensures Matches(d, Some(f)) == Failure(NilDereference)
  {
    assert FirstDecisive(f.includes, d, 0);
  }

  /** Include everything except the `kube-system` namespace. */
  const KubeSystemFilter := Filter([MatchAll], [Selector("", "", Some(MetadataSelector("", "kube-system", map[])))])

  /**
   Excluding a namespace keeps exactly the documents in other namespaces (including those
   with no namespace) and panics on a document without metadata.
   */
  lemma NamespaceExclusion(d: ParsedDocument)
    ensures d.metadata.metadata.Some? ==>
      Matches(d, Some(KubeSystemFilter)) == Success(d.metadata.metadata.value.namespace != "kube-system")
    ensures d.metadata.metadata.None? ==> Matches(d, Some(KubeSystemFilter)) == Failure(NilDereference)
  {
    assert FirstDecisive(KubeSystemFilter.includes, d, 0);
  }
}
