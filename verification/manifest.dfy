/**
 Rendered manifests: parsing the decoder's output into documents, extracting each
 document's identity, and deciding whether a document passes a target's filter.

 The extracted identity reuses the selector record. When a document has no usable
 metadata its metadata part is nil (`None`), and the Go code then dereferences that nil
 in two places; the model returns `Failure(NilDereference)` there instead of a verdict.
 */
module Manifest {
  import opened Wrappers
  import opened Yaml
  import opened Config

  /** A Go runtime panic caused by dereferencing a nil pointer. */
  datatype Panic = NilDereference

  /** A rendered manifest, kept in key order, with the identity extracted from it. */
  datatype ParsedDocument = ParsedDocument(metadata: Selector, document: seq<Item>)

  /*************************************************************************************
   * Key lookup in ordered mappings
   *************************************************************************************/

  /** Entry `i` is the first one whose key is the string `key`. */
  predicate FirstEntry(items: seq<Item>, key: string, i: int)
  {
    && 0 <= i < |items|
    && items[i].key == Str(key)
    && forall j | 0 <= j < i :: items[j].key != Str(key)
  }

  /** `getMapSliceValue`: the value of the first entry keyed by the string `key`. */
  function GetMapSliceValue(items: seq<Item>, key: string): (r: Option<Value>)
    ensures r.None? <==> forall i | 0 <= i < |items| :: items[i].key != Str(key)
    ensures forall i {:trigger FirstEntry(items, key, i)} | FirstEntry(items, key, i) :: r == Some(items[i].value)
  {
    if |items| == 0 then None
    else if items[0].key.Str? && items[0].key.s == key then Some(items[0].value)
    else
      assert forall i | FirstEntry(items, key, i) :: FirstEntry(items[1..], key, i - 1);
      GetMapSliceValue(items[1..], key)
  }

  /**
   `s` is what a top-level string lookup of `key` must yield: the first entry's value if
   that is a string, and the empty string if there is no entry or its value is not a string.
   */
  ghost predicate StoredString(items: seq<Item>, key: string, s: string)
  {
    && ((forall i | 0 <= i < |items| :: items[i].key != Str(key)) ==> s == "")
    && (forall i {:trigger FirstEntry(items, key, i)} | FirstEntry(items, key, i) :: s == StringOrEmpty(items[i].value))
  }

  /** `extractMapSliceString`. */
  function ExtractMapSliceString(document: seq<Item>, key: string): (r: string)
    ensures StoredString(document, key, r)
  {
    match GetMapSliceValue(document, key)
    case None => ""
    case Some(value) => StringOrEmpty(value)
  }

  /** `getNestedString`: a string field of a mapping node in either representation. */
  function GetNestedString(node: Value, key: string): (r: string)
    ensures node.MapSlice? ==> StoredString(node.items, key, r)
    ensures node.PlainMap? && key in node.entries ==> r == StringOrEmpty(node.entries[key])
    ensures node.PlainMap? && key !in node.entries ==> r == ""
    ensures !node.MapSlice? && !node.PlainMap? ==> r == ""
  {
    match node
    case MapSlice(items) => ExtractMapSliceString(items, key)
    case PlainMap(entries) => if key in entries then StringOrEmpty(entries[key]) else ""
    case _ => ""
  }

  /*************************************************************************************
   * Labels
   *************************************************************************************/

  /** Entry `i` maps the string `k` to a string. */
  predicate StringEntry(items: seq<Item>, i: int, k: string)
  {
    0 <= i < |items| && items[i].key == Str(k) && items[i].value.Str?
  }

  /** Entry `i` is the last entry that maps the string `k` to a string. */
  predicate LastStringEntry(items: seq<Item>, i: int, k: string)
  {
    StringEntry(items, i, k) && forall j | i < j < |items| :: !StringEntry(items, j, k)
  }

  /**
   The string-to-string entries of an ordered mapping, written into a map in order, so a
   later entry for a key overrides an earlier one; entries with a non-string key or value
   are skipped.
   */
  function StringPairs(items: seq<Item>): (r: map<string, string>)
    ensures forall k | k in r :: exists i :: StringEntry(items, i, k)
    ensures forall i, k {:trigger LastStringEntry(items, i, k)} | LastStringEntry(items, i, k) :: k in r && r[k] == items[i].value.s
    decreases |items|
  {
    if |items| == 0 then map[]
    else
      var prefix := items[..|items| - 1];
      var last := items[|items| - 1];
      assert forall i, k | StringEntry(prefix, i, k) :: StringEntry(items, i, k);
      assert forall i, k | LastStringEntry(items, i, k) && i < |items| - 1 :: LastStringEntry(prefix, i, k);
      var earlier := StringPairs(prefix);
      if last.key.Str? && last.value.Str? then
        assert StringEntry(items, |items| - 1, last.key.s);
        earlier[last.key.s := last.value.s]
      else earlier
  }

  /**
   The string-valued entries of a labels node, whichever representation the decoder chose;
   any other node yields no labels.
   */
  function StringEntries(node: Value): (r: map<string, string>)
    ensures node.PlainMap? ==> forall k :: k in r <==> k in node.entries && node.entries[k].Str?
    ensures node.PlainMap? ==> forall k | k in r :: node.entries[k] == Str(r[k])
    ensures node.MapSlice? ==> forall k | k in r :: exists i :: StringEntry(node.items, i, k)
    ensures node.MapSlice? ==> forall i, k {:trigger LastStringEntry(node.items, i, k)} | LastStringEntry(node.items, i, k) :: k in r && r[k] == node.items[i].value.s
    ensures !node.MapSlice? && !node.PlainMap? ==> r == map[]
  {
    match node
    case MapSlice(items) => StringPairs(items)
    case PlainMap(entries) => map k | k in entries && entries[k].Str? :: entries[k].s
    case _ => map[]
  }

  /**
   `getNestedLabels`: the string entries of the metadata node's `labels` node, found by
   first-match lookup in an ordered mapping or by map lookup in a plain map; no labels when
   there is no such node or the metadata node is not a mapping.
   */
  function GetNestedLabels(metadata: Value): (r: map<string, string>)
    ensures metadata.MapSlice? && (forall i | 0 <= i < |metadata.items| :: metadata.items[i].key != Str("labels")) ==>
      r == map[]
    ensures metadata.MapSlice? ==> forall i {:trigger FirstEntry(metadata.items, "labels", i)} | FirstEntry(metadata.items, "labels", i) ::
      r == StringEntries(metadata.items[i].value)
    ensures metadata.PlainMap? && "labels" in metadata.entries ==> r == StringEntries(metadata.entries["labels"])
    ensures metadata.PlainMap? && "labels" !in metadata.entries ==> r == map[]
    ensures !metadata.MapSlice? && !metadata.PlainMap? ==> r == map[]
  {
    match metadata
    case MapSlice(items) =>
      (match GetMapSliceValue(items, "labels")
       case None => map[]
       case Some(node) => StringEntries(node))
    case PlainMap(entries) => if "labels" in entries then StringEntries(entries["labels"]) else map[]
    case _ => map[]
  }

  /*************************************************************************************
   * Identity extraction
   *************************************************************************************/

  /** The metadata a node contributes, before the all-empty check. */
  function MetadataOf(node: Value): (r: MetadataSelector)
  {
    MetadataSelector(GetNestedString(node, "name"), GetNestedString(node, "namespace"), GetNestedLabels(node))
  }

  predicate IsEmptyMetadata(m: MetadataSelector)
  {
    m.name == "" && m.namespace == "" && |m.labels| == 0
  }

  /**
   `extractMetadata`: nil when the document has no `metadata` entry, or when that entry
   yields no name, no namespace and no labels.
   */
  function ExtractMetadata(document: seq<Item>): (r: Option<MetadataSelector>)
    ensures (forall i | 0 <= i < |document| :: document[i].key != Str("metadata")) ==> r.None?
    ensures forall i {:trigger FirstEntry(document, "metadata", i)} | FirstEntry(document, "metadata", i) && IsEmptyMetadata(MetadataOf(document[i].value)) :: r.None?
    ensures forall i {:trigger FirstEntry(document, "metadata", i)} | FirstEntry(document, "metadata", i) && !IsEmptyMetadata(MetadataOf(document[i].value)) ::
      r == Some(MetadataOf(document[i].value))
    ensures r.Some? ==> !IsEmptyMetadata(r.value)
  {
    match GetMapSliceValue(document, "metadata")
    case None => None
    case Some(node) =>
      var found := MetadataOf(node);
      if IsEmptyMetadata(found) then None else Some(found)
  }

  /** `extractSelector`: the identity of a document. */
  function ExtractSelector(document: seq<Item>): (r: Selector)
    ensures StoredString(document, "kind", r.kind)
    ensures StoredString(document, "apiVersion", r.apiVersion)
    ensures r.metadata == ExtractMetadata(document)
  {
    Selector(ExtractMapSliceString(document, "kind"), ExtractMapSliceString(document, "apiVersion"), ExtractMetadata(document))
  }

  /*************************************************************************************
   * Parsing the decoder's output
   *************************************************************************************/

  const DecodeErrorPrefix := "decoding YAML document: "

  /** Entry `i` is the first decode error of the stream. */
  predicate FirstDecodeError(stream: seq<Decoded>, i: int)
  {
    0 <= i < |stream| && stream[i].DecodeError? && forall j | 0 <= j < i :: stream[j].Document?
  }

  /**
   `ParseDocuments` after decoding: the decoded documents in stream order, without the
   empty ones, each with its identity; the first decode error fails the whole parse.
   */
  function ParseDocuments(stream: seq<Decoded>): (r: Result<seq<ParsedDocument>, string>)
    ensures r.Failure? <==> exists i | 0 <= i < |stream| :: stream[i].DecodeError?
    ensures forall i {:trigger FirstDecodeError(stream, i)} | FirstDecodeError(stream, i) :: r == Failure(DecodeErrorPrefix + stream[i].cause)
    ensures r.Success? ==> |r.value| <= |stream|
    ensures r.Success? ==> forall k | 0 <= k < |r.value| ::
      |r.value[k].document| > 0 && r.value[k].metadata == ExtractSelector(r.value[k].document)
  {
    if |stream| == 0 then Success([])
    else
      match stream[0]
      case DecodeError(cause) => Failure(DecodeErrorPrefix + cause)
      case Document(items) =>
        assert forall i | FirstDecodeError(stream, i) :: FirstDecodeError(stream[1..], i - 1);
        match ParseDocuments(stream[1..])
        case Failure(e) => Failure(e)
        case Success(rest) =>
          if |items| == 0 then Success(rest)
          else Success([ParsedDocument(ExtractSelector(items), items)] + rest)
  }

  /*************************************************************************************
   * Selector matching and filtering
   *************************************************************************************/

  /** Every wanted label is present in `labels` with the same value; other labels are ignored. */
  predicate LabelsSubset(wanted: map<string, string>, labels: map<string, string>)
  {
    forall k | k in wanted :: k in labels && labels[k] == wanted[k]
  }

  /**
   The label loop of `matchesSelector`: the wanted labels are visited in whatever order the
   Go map yields them, and the first absent or different one rejects.
   */
  method MatchLabels(wanted: map<string, string>, labels: map<string, string>) returns (ok: bool)
    ensures ok <==> LabelsSubset(wanted, labels)
  {
    var remaining := wanted.Keys;
    while remaining != {}
      invariant remaining <= wanted.Keys
      invariant forall k | k in wanted && k !in remaining :: k in labels && labels[k] == wanted[k]
      decreases remaining
    {
      var k :| k in remaining;
      if k !in labels {
        return false;
      }
      if labels[k] != wanted[k] {
        return false;
      }
      remaining := remaining - {k};
    }
    return true;
  }

  /** The normalised identity: absent metadata reads as empty name, namespace and labels. */
  datatype Identity = Identity(kind: string, apiVersion: string, name: string, namespace: string, labels: map<string, string>)

  function IdentityOf(metadata: Selector): (r: Identity)
  {
    match metadata.metadata
    case None => Identity(metadata.kind, metadata.apiVersion, "", "", map[])
    case Some(m) => Identity(metadata.kind, metadata.apiVersion, m.name, m.namespace, m.labels)
  }

  /** A field constraint: empty is a wildcard, anything else must be equal. */
  predicate FieldAccepts(wanted: string, actual: string)
  {
    wanted == "" || wanted == actual
  }

  /** The selector semantics on normalised identities: a conjunction of optional constraints. */
  predicate Accepts(id: Identity, selector: Selector)
  {
    && FieldAccepts(selector.kind, id.kind)
    && FieldAccepts(selector.apiVersion, id.apiVersion)
    && (selector.metadata.Some? ==>
          && FieldAccepts(selector.metadata.value.name, id.name)
          && FieldAccepts(selector.metadata.value.namespace, id.namespace)
          && LabelsSubset(selector.metadata.value.labels, id.labels))
  }

  /** The selector constrains metadata, so matching it reads the document's metadata. */
  predicate ReadsMetadata(selector: Selector)
  {
    selector.metadata.Some? && !IsEmptyMetadata(selector.metadata.value)
  }

  /**
   `matchesSelector`: kind, then apiVersion, then (if the selector has metadata) name,
   namespace and labels. Reading the name, the namespace or the labels of a document whose
   metadata is nil panics.
   */
  function MatchesSelector(d: ParsedDocument, selector: Selector): (r: Result<bool, Panic>)
    ensures r.Failure? <==>
      && d.metadata.metadata.None?
      && ReadsMetadata(selector)
      && FieldAccepts(selector.kind, d.metadata.kind)
      && FieldAccepts(selector.apiVersion, d.metadata.apiVersion)
    ensures r.Success? ==> r.value == Accepts(IdentityOf(d.metadata), selector)
  {
    if selector.kind != "" && selector.kind != d.metadata.kind then Success(false)
    else if selector.apiVersion != "" && selector.apiVersion != d.metadata.apiVersion then Success(false)
    else if selector.metadata.None? then Success(true)
    else
      var wanted := selector.metadata.value;
      var actual := d.metadata.metadata;
      if wanted.name != "" && actual.None? then Failure(NilDereference)
      else if wanted.name != "" && wanted.name != actual.value.name then Success(false)
      else if wanted.namespace != "" && actual.None? then Failure(NilDereference)
      else if wanted.namespace != "" && wanted.namespace != actual.value.namespace then Success(false)
      else if |wanted.labels| > 0 && actual.None? then Failure(NilDereference)
      else Success(|wanted.labels| == 0 || LabelsSubset(wanted.labels, actual.value.labels))
  }

  /** Selector `i` is the first one whose outcome is not a plain "no match". */
  predicate FirstDecisive(selectors: seq<Selector>, d: ParsedDocument, i: int)
  {
    && 0 <= i < |selectors|
    && MatchesSelector(d, selectors[i]) != Success(false)
    && forall j | 0 <= j < i :: MatchesSelector(d, selectors[j]) == Success(false)
  }

  /**
   `slices.ContainsFunc(selectors, d.matchesSelector)`: selectors are tried in order and
   the first match or the first panic ends the search.
   */
  function AnyMatches(selectors: seq<Selector>, d: ParsedDocument): (r: Result<bool, Panic>)
    ensures r == Success(false) <==> forall i | 0 <= i < |selectors| :: MatchesSelector(d, selectors[i]) == Success(false)
    ensures forall i {:trigger FirstDecisive(selectors, d, i)} | FirstDecisive(selectors, d, i) :: r == MatchesSelector(d, selectors[i])
    ensures r.Failure? ==> exists i | 0 <= i < |selectors| :: MatchesSelector(d, selectors[i]).Failure?
  {
    if |selectors| == 0 then Success(false)
    else
      assert forall i | FirstDecisive(selectors, d, i) && i > 0 :: FirstDecisive(selectors[1..], d, i - 1);
      match MatchesSelector(d, selectors[0])
      case Failure(p) => Failure(p)
      case Success(true) => Success(true)
      case Success(false) => AnyMatches(selectors[1..], d)
  }

  /** `ParsedDocument.Matches`: the include/exclude decision of a (possibly nil) filter. */
  function Matches(d: ParsedDocument, filter: Option<Filter>): (r: Result<bool, Panic>)
    ensures filter.None? ==> r == Success(true)
    ensures filter.Some? && |filter.value.includes| == 0 && |filter.value.excludes| == 0 ==> r == Success(true)
    ensures forall j | filter.Some? && 0 <= j < |filter.value.excludes| ::
      MatchesSelector(d, filter.value.excludes[j]) == Success(true) ==> r != Success(true)
    ensures (&& filter.Some?
             && |filter.value.includes| > 0
             && forall i | 0 <= i < |filter.value.includes| :: MatchesSelector(d, filter.value.includes[i]) == Success(false))
            ==> r == Success(false)
    ensures r == Success(true) && filter.Some? && |filter.value.includes| > 0 ==>
      exists i | 0 <= i < |filter.value.includes| :: MatchesSelector(d, filter.value.includes[i]) != Success(false)
    ensures r.Failure? ==>
      && filter.Some?
      && exists s | s in filter.value.includes + filter.value.excludes :: MatchesSelector(d, s).Failure?
    ensures filter.Some? && AnyMatches(filter.value.includes, d).Failure? ==> r.Failure?
    ensures (&& filter.Some?
             && (AnyMatches(filter.value.includes, d) == Success(true) || |filter.value.includes| == 0)
             && |filter.value.excludes| > 0
             && AnyMatches(filter.value.excludes, d).Failure?)
            ==> r.Failure?
    ensures (&& filter.Some?
             && (AnyMatches(filter.value.includes, d) == Success(true) || |filter.value.includes| == 0)
             && (|filter.value.excludes| == 0 || AnyMatches(filter.value.excludes, d) == Success(false)))
            ==> r == Success(true)
    ensures (&& filter.Some?
             && (AnyMatches(filter.value.includes, d) == Success(true) || |filter.value.includes| == 0)
             && |filter.value.excludes| > 0
             && AnyMatches(filter.value.excludes, d) == Success(true))
            ==> r == Success(false)
  {
    if filter.None? then Success(true)
    else
      var f := filter.value;
      match AnyMatches(f.includes, d)
      case Failure(p) =>
        assert forall s | s in f.includes :: s in f.includes + f.excludes;
        Failure(p)
      case Success(found) =>
        var included := found || |f.includes| == 0;
        if !included then Success(false)
        else if |f.excludes| == 0 then Success(true)
        else
          assert forall s | s in f.excludes :: s in f.includes + f.excludes;
          match AnyMatches(f.excludes, d)
          case Failure(p) => Failure(p)
          case Success(excluded) => Success(!excluded)
  }
}
