/**
 The output set of one target: a file per surviving document, named after its identity,
 plus the `kustomization.yaml` index listing them.

 Serialisation is abstract: a document's file holds the document itself, and the index
 holds its `Kustomization` record.
 */
module Commands {
  import opened Wrappers
  import opened Yaml
  import opened Config
  import opened Manifest
  import opened Kustomize
  import opened Sorting

  datatype FileContent =
    | DocumentFile(document: seq<Item>)
    | IndexFile(kustomization: Kustomization)

  /**
   `generateFilename`: `kind--name.yaml`, or `kind--namespace--name.yaml` when there is a
   namespace. It reads the metadata unconditionally, so nil metadata panics.
   */
  function GenerateFilename(metadata: Selector): (r: Result<string, Panic>)
    ensures r.Failure? <==> metadata.metadata.None?
    ensures r.Success? && metadata.metadata.value.namespace == "" ==>
      r.value == metadata.kind + "--" + metadata.metadata.value.name + ".yaml"
    ensures r.Success? && metadata.metadata.value.namespace != "" ==>
      r.value == metadata.kind + "--" + metadata.metadata.value.namespace + "--" + metadata.metadata.value.name + ".yaml"
    ensures r.Success? ==> r.value != KustomizationPath
  {
    match metadata.metadata
    case None => Failure(NilDereference)
    case Some(m) =>
      var name := if m.namespace == "" then metadata.kind + "--" + m.name + ".yaml"
                  else metadata.kind + "--" + m.namespace + "--" + m.name + ".yaml";
      assert name[|metadata.kind|] == '-';
      assert forall i | 0 <= i < |KustomizationPath| :: KustomizationPath[i] != '-';
      Success(name)
  }

  /**
   Two documents of one kind and name in different namespaces are written to different files,
   whatever their apiVersions and labels.
   */
  lemma {:induction false} NamespacesSeparateFiles(s1: Selector, s2: Selector)
    requires s1.kind == s2.kind
    requires s1.metadata.Some? && s2.metadata.Some?
    requires s1.metadata.value.name == s2.metadata.value.name
    requires s1.metadata.value.namespace != s2.metadata.value.namespace
    ensures GenerateFilename(s1).Success? && GenerateFilename(s2).Success?
    ensures GenerateFilename(s1) != GenerateFilename(s2)
  {
    var kind := s1.kind;
    var ns1 := s1.metadata.value.namespace;
    var ns2 := s2.metadata.value.namespace;
    var f1 := GenerateFilename(s1).value;
    var f2 := GenerateFilename(s2).value;
    if |ns1| != |ns2| {
      assert |f1| != |f2|;
    } else {
      var k :| 0 <= k < |ns1| && ns1[k] != ns2[k];
      assert f1[|kind| + 2 + k] == ns1[k];
      assert f2[|kind| + 2 + k] == ns2[k];
    }
  }

  /**
   The name is not an injective function of the identity: a namespaced document and a
   cluster-wide one whose name spells out the namespace share a file, and the later one wins.
   */
  lemma FilenamesCanCollide()
    ensures GenerateFilename(Selector("ConfigMap", "v1", Some(MetadataSelector("b--c", "", map[])))) ==
            GenerateFilename(Selector("ConfigMap", "v1", Some(MetadataSelector("c", "b", map[])))) ==
            Success("ConfigMap--b--c.yaml")
  {
    assert "ConfigMap" + "--" + "b--c" + ".yaml" == "ConfigMap--b--c.yaml";
    assert "ConfigMap" + "--" + "b" + "--" + "c" + ".yaml" == "ConfigMap--b--c.yaml";
  }

  /** What the loop of `getTargetDocuments` does with one document: skip it, name it, or panic. */
  function Step(d: ParsedDocument, filter: Option<Filter>): (r: Result<Option<string>, Panic>)
  {
    match Matches(d, filter)
    case Failure(p) => Failure(p)
    case Success(false) => Success(None)
    case Success(true) =>
      match GenerateFilename(d.metadata)
      case Failure(p) => Failure(p)
      case Success(name) => Success(Some(name))
  }

  /** Document `i` survives the filter and is written to file `name`. */
  predicate Writes(docs: seq<ParsedDocument>, filter: Option<Filter>, i: int, name: string)
  {
    0 <= i < |docs| && Step(docs[i], filter) == Success(Some(name))
  }

  /** Document `i` is the last one written to file `name`, so its content is the one kept. */
  predicate LastWriter(docs: seq<ParsedDocument>, filter: Option<Filter>, i: int, name: string)
  {
    Writes(docs, filter, i, name) && forall j | i < j < |docs| :: !Writes(docs, filter, j, name)
  }

  /** What happened to one document in the loop, with the content it would be written with. */
  datatype Fate = Fate(step: Result<Option<string>, Panic>, document: seq<Item>)

  function Fates(docs: seq<ParsedDocument>, filter: Option<Filter>): (r: seq<Fate>)
    ensures |r| == |docs|
    ensures forall i | 0 <= i < |docs| :: r[i] == Fate(Step(docs[i], filter), docs[i].document)
  {
    seq(|docs|, i requires 0 <= i < |docs| => Fate(Step(docs[i], filter), docs[i].document))
  }

  predicate WritesAt(fates: seq<Fate>, i: int, name: string)
  {
    0 <= i < |fates| && fates[i].step == Success(Some(name))
  }

  predicate LastWriteAt(fates: seq<Fate>, i: int, name: string)
  {
    WritesAt(fates, i, name) && forall j | i < j < |fates| :: !WritesAt(fates, j, name)
  }

  lemma PrefixWrites(fates: seq<Fate>)
    requires |fates| > 0
    ensures forall i, n {:trigger WritesAt(fates[..|fates| - 1], i, n)} {:trigger WritesAt(fates, i, n)} | 0 <= i < |fates| - 1 ::
      WritesAt(fates[..|fates| - 1], i, n) == WritesAt(fates, i, n)
  {
  }

  /** A skipped last document changes no last writer. */
  lemma LastWriteAfterSkip(fates: seq<Fate>)
    requires |fates| > 0 && fates[|fates| - 1].step == Success(None)
    ensures forall i, n {:trigger LastWriteAt(fates, i, n)} {:trigger LastWriteAt(fates[..|fates| - 1], i, n)} ::
      LastWriteAt(fates, i, n) <==> LastWriteAt(fates[..|fates| - 1], i, n)
  {
    PrefixWrites(fates);
    var prefix := fates[..|fates| - 1];
    forall i, n
      ensures LastWriteAt(fates, i, n) <==> LastWriteAt(prefix, i, n)
    {
      if LastWriteAt(fates, i, n) {
        assert !WritesAt(fates, |fates| - 1, n);
        forall j | i < j < |prefix|
          ensures !WritesAt(prefix, j, n)
        {
          assert !WritesAt(fates, j, n);
        }
      }
      if LastWriteAt(prefix, i, n) {
        forall j | i < j < |fates|
          ensures !WritesAt(fates, j, n)
        {
          if j < |prefix| {
            assert !WritesAt(prefix, j, n);
          }
        }
      }
    }
  }

  /** A last document written to `name` becomes its last writer and changes no other. */
  lemma LastWriteAfterWrite(fates: seq<Fate>, name: string)
    requires |fates| > 0 && fates[|fates| - 1].step == Success(Some(name))
    ensures LastWriteAt(fates, |fates| - 1, name)
    ensures forall i {:trigger LastWriteAt(fates, i, name)} | LastWriteAt(fates, i, name) :: i == |fates| - 1
    ensures forall i, n {:trigger LastWriteAt(fates, i, n)} {:trigger LastWriteAt(fates[..|fates| - 1], i, n)} | n != name ::
      LastWriteAt(fates, i, n) <==> LastWriteAt(fates[..|fates| - 1], i, n)
  {
    PrefixWrites(fates);
    var prefix := fates[..|fates| - 1];
    forall i | LastWriteAt(fates, i, name)
      ensures i == |fates| - 1
    {
      assert WritesAt(fates, |fates| - 1, name);
    }
    forall i, n | n != name
      ensures LastWriteAt(fates, i, n) <==> LastWriteAt(prefix, i, n)
    {
      if LastWriteAt(fates, i, n) {
        assert !WritesAt(fates, |fates| - 1, n);
        forall j | i < j < |prefix|
          ensures !WritesAt(prefix, j, n)
        {
          assert !WritesAt(fates, j, n);
        }
      }
      if LastWriteAt(prefix, i, n) {
        forall j | i < j < |fates|
          ensures !WritesAt(fates, j, n)
        {
          if j < |prefix| {
            assert !WritesAt(prefix, j, n);
          }
        }
      }
    }
  }

  /** The per-document files, with the order in which their names were first written. */
  datatype Collected = Collected(files: map<string, FileContent>, order: seq<string>)

  /** `c.order` enumerates the names of `c.files`, each once. */
  ghost predicate Enumerates(c: Collected)
  {
    && Distinct(c.order)
    && |c.order| == |c.files|
    && (forall n :: n in c.order <==> n in c.files)
  }

  /** `files` holds a file for every name written in `fates`, with the document last written to it. */
  ghost predicate Records(fates: seq<Fate>, files: map<string, FileContent>)
  {
    && (forall n | n in files :: exists i :: LastWriteAt(fates, i, n))
    && (forall i, n {:trigger LastWriteAt(fates, i, n)} | LastWriteAt(fates, i, n) ::
          n in files && files[n] == DocumentFile(fates[i].document))
    && (forall i, n {:trigger WritesAt(fates, i, n)} | WritesAt(fates, i, n) :: n in files)
  }

  /**
   `c` is what the loop leaves after the documents of `fates`: a file for every name written,
   holding the document last written to it, and a duplicate-free enumeration of the names.
   */
  ghost predicate Summarises(fates: seq<Fate>, c: Collected)
  {
    Enumerates(c) && Records(fates, c.files)
  }

  lemma SkipKeepsRecords(fates: seq<Fate>, files: map<string, FileContent>)
    requires |fates| > 0 && fates[|fates| - 1].step == Success(None)
    requires Records(fates[..|fates| - 1], files)
    ensures Records(fates, files)
  {
    PrefixWrites(fates);
    LastWriteAfterSkip(fates);
  }

  /** A name written for the first time is appended to the enumeration; a known one is not. */
  lemma WriteKeepsEnumeration(c: Collected, name: string, content: FileContent)
    requires Enumerates(c)
    ensures Enumerates(Collected(c.files[name := content], if name in c.files then c.order else c.order + [name]))
  {
    if name !in c.files {
      assert c.files[name := content].Keys == c.files.Keys + {name};
    } else {
      assert c.files[name := content].Keys == c.files.Keys;
    }
  }

  lemma WriteUpdatesRecords(fates: seq<Fate>, files: map<string, FileContent>, name: string)
    requires |fates| > 0 && fates[|fates| - 1].step == Success(Some(name))
    requires Records(fates[..|fates| - 1], files)
    ensures Records(fates, files[name := DocumentFile(fates[|fates| - 1].document)])
  {
    PrefixWrites(fates);
    LastWriteAfterWrite(fates, name);
  }

  /** The document loop of `getTargetDocuments`: a later file of the same name overwrites. */
  function Collect(fates: seq<Fate>): (r: Result<Collected, Panic>)
    ensures r.Failure? <==> exists i | 0 <= i < |fates| :: fates[i].step.Failure?
    decreases |fates|
  {
    if |fates| == 0 then Success(Collected(map[], []))
    else
      var prefix := fates[..|fates| - 1];
      var last := |fates| - 1;
      assert forall i | 0 <= i < last :: prefix[i] == fates[i];
      match Collect(prefix)
      case Failure(p) => Failure(p)
      case Success(c) =>
        match fates[last].step
        case Failure(p) => Failure(p)
        case Success(None) =>
          Success(c)
        case Success(Some(name)) =>
          Success(Collected(c.files[name := DocumentFile(fates[last].document)],
                            if name in c.files then c.order else c.order + [name]))
  }

  /** Whatever the loop leaves summarises the documents it went through. */
  lemma {:induction false} CollectSummarises(fates: seq<Fate>)
    requires Collect(fates).Success?
    ensures Summarises(fates, Collect(fates).value)
    decreases |fates|
  {
    if |fates| > 0 {
      var prefix := fates[..|fates| - 1];
      CollectSummarises(prefix);
      var c := Collect(prefix).value;
      match fates[|fates| - 1].step
      case Success(None) =>
        SkipKeepsRecords(fates, c.files);
      case Success(Some(name)) =>
        var content := DocumentFile(fates[|fates| - 1].document);
        WriteKeepsEnumeration(c, name, content);
        WriteUpdatesRecords(fates, c.files, name);
    }
  }

  /** The loop's view of the documents agrees with the documents themselves. */
  lemma FatesAgree(docs: seq<ParsedDocument>, filter: Option<Filter>)
    ensures forall i, n {:trigger Writes(docs, filter, i, n)} {:trigger WritesAt(Fates(docs, filter), i, n)} ::
      Writes(docs, filter, i, n) == WritesAt(Fates(docs, filter), i, n)
    ensures forall i, n {:trigger LastWriter(docs, filter, i, n)} {:trigger LastWriteAt(Fates(docs, filter), i, n)} ::
      LastWriter(docs, filter, i, n) == LastWriteAt(Fates(docs, filter), i, n)
  {
  }

  /** The index built from the loop's enumeration lists exactly the document files. */
  lemma IndexListsFiles(fates: seq<Fate>, c: Collected)
    requires Summarises(fates, c)
    requires forall i | 0 <= i < |fates| :: !WritesAt(fates, i, KustomizationPath)
    ensures KustomizationPath !in c.files
    ensures var index := GenerateKustomizationFile(c.order).1;
      && (forall n :: n in index.resources <==> n in c.files)
      && |index.resources| == |c.files|
  {
    var index := GenerateKustomizationFile(c.order).1;
    assert |index.resources| == |multiset(index.resources)| == |c.order|;
    assert forall n :: n in index.resources <==> n in multiset(index.resources);
    assert forall n :: n in c.order <==> n in multiset(c.order);
  }

  /**
   `getTargetDocuments`: the files of one target. Only documents that pass the filter get a
   file, a later document overwrites an earlier one of the same file name, and the index
   lists every document file name in ascending order. A panic of the filter or of the
   file naming aborts the whole target.
   */
  function GetTargetDocuments(docs: seq<ParsedDocument>, filter: Option<Filter>): (r: Result<map<string, FileContent>, Panic>)
    ensures r.Failure? <==> exists i | 0 <= i < |docs| :: Step(docs[i], filter).Failure?
    ensures r.Success? ==> KustomizationPath in r.value && r.value[KustomizationPath].IndexFile?
    ensures r.Success? ==>
      var index := r.value[KustomizationPath].kustomization;
      && index.apiVersion == KustomizeApiVersion
      && index.kind == KustomizationKind
      && StrictlySorted(index.resources)
      && (forall n :: n in index.resources <==> n in r.value && n != KustomizationPath)
      && |r.value| == |index.resources| + 1
    ensures r.Success? ==> forall n | n in r.value && n != KustomizationPath :: exists i :: LastWriter(docs, filter, i, n)
    ensures r.Success? ==> forall i, n {:trigger LastWriter(docs, filter, i, n)} | LastWriter(docs, filter, i, n) ::
      n in r.value && r.value[n] == DocumentFile(docs[i].document)
    ensures r.Success? ==> forall i, n {:trigger Writes(docs, filter, i, n)} | Writes(docs, filter, i, n) ::
      n in r.value && n != KustomizationPath
  {
    var fates := Fates(docs, filter);
    FatesAgree(docs, filter);
    match Collect(fates)
    case Failure(p) => Failure(p)
    case Success(c) =>
      CollectSummarises(fates);
      assert forall i | 0 <= i < |fates| :: !WritesAt(fates, i, KustomizationPath);
      IndexListsFiles(fates, c);
      var (path, index) := GenerateKustomizationFile(c.order);
      Success(c.files[path := IndexFile(index)])
  }
}
