# kubesource, modelled in Dafny

kubesource renders Kubernetes manifests with Kustomize. It splits the rendered YAML stream into
documents and fans them out to target directories. Each target keeps the documents its filter
accepts, one file per document, plus a `kustomization.yaml` index listing them. This project
models the pure heart of that pipeline and proves what it does:

- **Manifests** (`Manifest`, `ManifestProperties`, over the tagged YAML values of `Yaml`):
  - the post-decode loop of `ParseDocuments`;
  - first-match key lookup in ordered mappings (`MapSlice`) and in plain maps;
  - extraction of a document's identity (kind, apiVersion, optional metadata with name,
    namespace and labels);
  - `matchesSelector` and `Matches`, evaluated against include and exclude selectors.
  A document without usable metadata has nil metadata, and Go dereferences that nil in
  `matchesSelector` and `generateFilename`. The model makes this the explicit outcome
  `Failure(NilDereference)`, distinct from "no match".
- **Output set of a target** (`Commands`, `Kustomize`): `generateFilename`, the document loop
  of `getTargetDocuments` (a later document with the same file name overwrites an earlier one),
  and `GenerateKustomizationFile` with its sorted `resources`. Serialisation is abstract: a
  document file holds the document, the index holds its `Kustomization` record.
- **Configuration** (`Config`): the configuration records and `validateConfig`.
- **Directory discovery** (`Discovery`, `Paths`): `FindDirectories` over the sequence of entries
  the file-system walk visits (an input), with Go's `path.Clean`, `path.Base` and `path.Dir`
  stated over path elements.
- **Fake executor** (`FakeExec`): the test double that answers commands from handlers keyed by
  the full command text and resolves binaries from a table.

Shared pieces: `Wrappers` (`Option`, `Result`, `Outcome`), `Strings` (`Join`, `Split`,
`LastIndexOf`) and `Sorting` (Go's byte-wise string order and a sort proved to be an ascending
permutation).

## Model

| member | source | states |
|---|---|---|
| Config.ValidateConfig | pkg/config/config.go:69-79 | validation passes iff sourceDir is non-empty and there is a target; an empty sourceDir reports "sourceDir is required" even when targets are missing too; otherwise no target reports "at least one target is required" |
| Config.ValidationInspectsOnlyTwoFacts | pkg/config/config.go:69-79 | two configurations that agree on whether sourceDir is empty and whether targets is empty validate alike, so no other field is inspected |
| Manifest.GetMapSliceValue | internal/manifest/manifest.go:155-168 | the lookup finds nothing iff no entry has the string key; otherwise it yields the value of the first such entry, whatever non-string keys come first |
| Manifest.ExtractMapSliceString | internal/manifest/manifest.go:112-124 | the result is the first entry's value when that is a string, and "" when the key is absent or its value is not a string |
| Manifest.GetNestedString | internal/manifest/manifest.go:216-246 | the same first-match string rule for an ordered mapping; map lookup for a plain map; "" for any other node |
| Manifest.StringPairs | internal/manifest/manifest.go:187-201 | every label key comes from an entry with a string key and a string value, and each such key maps to the value of its last entry, so later entries override earlier ones |
| Manifest.StringEntries | internal/manifest/manifest.go:187-211 | labels of a plain map are exactly its string-valued entries; labels of an ordered mapping follow the last-entry rule; any other node has no labels |
| Manifest.GetNestedLabels | internal/manifest/manifest.go:170-214 | the labels are the string entries of the first labels entry of an ordered mapping, or of the labels entry of a plain map; a mapping without a labels entry, or any other metadata node, has no labels |
| Manifest.ExtractMetadata | internal/manifest/manifest.go:126-145 | metadata is nil iff the document has no metadata entry or that entry yields empty name, empty namespace and no labels; otherwise it is what the first metadata entry yields |
| Manifest.ExtractSelector | internal/manifest/manifest.go:147-153 | kind and apiVersion follow the first-match string rule, and the metadata part is the extracted metadata |
| Manifest.ParseDocuments | internal/manifest/manifest.go:84-110 | parsing fails iff the stream holds a decode error, with the first error wrapped in the decoding prefix; otherwise every document is non-empty and carries its extracted identity |
| Manifest.MatchLabels | internal/manifest/manifest.go:65-74 | the label loop, in any map order, accepts iff every wanted label is present with an equal value |
| Manifest.MatchesSelector | internal/manifest/manifest.go:44-77 | a panic happens iff the document's metadata is nil, kind and apiVersion pass, and the selector constrains name, namespace or labels; otherwise the verdict is the declarative conjunction of wildcard-or-equal fields and label subset |
| Manifest.AnyMatches | internal/manifest/manifest.go:28 | the search is a plain "no" iff every selector answers "no"; otherwise the first selector that matches or panics decides it |
| Manifest.Matches | internal/manifest/manifest.go:23-42 | the verdict is fixed by the outcomes of the include and exclude searches, with or without metadata: a nil filter accepts; a document the include search admits (or any document, under an empty include list) is accepted when no exclude says "yes" and plainly rejected when the exclude search says "yes", without evaluating later selectors; a matching exclude rejects; a document every include selector answers "no" to is a plain rejection, before any exclude is read; acceptance under a non-empty include list needs an include that did not answer "no"; a panic needs a selector that panics, and a panic in the include search, or in the exclude search once the document is included, is propagated as a panic |
| ManifestProperties.ParseOneDocument | internal/manifest/manifest.go:99-106 | a one-document stream parses to that document with its identity, or to nothing when the document is empty |
| ManifestProperties.ParseConcat | internal/manifest/manifest.go:84-110 | parsing distributes over stream concatenation: documents keep stream order, and an error in the later part fails the whole parse |
| ManifestProperties.EmptyDocumentsIgnored | internal/manifest/manifest.go:99-101 | removing every empty document from the stream leaves the parse unchanged |
| ManifestProperties.UnconstrainedSelectorMatchesAll | internal/manifest/manifest.go:44-55 | a selector with empty kind, empty apiVersion and nil or empty metadata matches every document, with or without metadata |
| ManifestProperties.LabelSelectorIsSubsetTest | internal/manifest/manifest.go:65-76 | a label-only selector matches a document with metadata iff its labels are a subset of the document's; extra document labels do not matter |
| ManifestProperties.AnyMatchesWithMetadata | internal/manifest/manifest.go:28 | when the document has metadata, no selector panics, and the search answers whether some selector accepts the identity |
| ManifestProperties.MatchesIsIncluded | internal/manifest/manifest.go:23-42 | for a document with metadata, Matches equals the declarative decision: some include (or no includes) and no exclude accepts |
| ManifestProperties.ExcludeWins | internal/manifest/manifest.go:37-41 | a matching exclude selector rejects the document whatever the includes say |
| ManifestProperties.AnyMatchesWitness | internal/manifest/manifest.go:28 | a search that answers "yes" found a selector that answers "yes" |
| ManifestProperties.IncludeRequired | internal/manifest/manifest.go:28-35 | with a non-empty include list, every accepted document, with or without metadata, is accepted by some include selector; with metadata, that selector declaratively accepts its identity |
| ManifestProperties.EmptyListsMeanAllAndNothing | pkg/config/config.go:26-28 | an empty include list behaves as a list holding the match-all selector, and an empty exclude list excludes nothing |
| ManifestProperties.MissingMetadataPanics | internal/manifest/manifest.go:57-66 | a document without metadata panics, rather than being rejected, when the first include selector passes kind and apiVersion and constrains metadata |
| ManifestProperties.NamespaceExclusion | internal/manifest/manifest.go:61-63 | excluding kube-system keeps exactly the documents in other namespaces, including those without one, and panics on documents without metadata |
| Kustomize.GenerateKustomizationFile | internal/kustomize/kustomize.go:41-56 | the path is kustomization.yaml; apiVersion and kind are the Kustomize constants; resources are an ascending permutation of the input names, strictly ascending when the names are distinct |
| Kustomize.IndexIgnoresEnumerationOrder | internal/commands/kubesource.go:135 | two duplicate-free enumerations of the same file names, as Go's random map order may give, produce the same index |
| Commands.GenerateFilename | internal/commands/kubesource.go:107-117 | naming panics iff the metadata is nil; otherwise the name is kind--name.yaml without a namespace and kind--namespace--name.yaml with one, and never the index path, since every generated name contains a dash and kustomization.yaml does not |
| Commands.NamespacesSeparateFiles | internal/commands/kubesource.go:107-117 | two documents of the same kind and name in different namespaces get different file names, whatever their apiVersions and labels |
| Commands.FilenamesCanCollide | internal/commands/kubesource.go:112-116 | a cluster-wide ConfigMap named b--c and a ConfigMap c in namespace b share the file ConfigMap--b--c.yaml |
| Commands.Collect | internal/commands/kubesource.go:121-133 | the document loop fails iff some document's filter or naming panics |
| Commands.CollectSummarises | internal/commands/kubesource.go:121-133 | after the loop, every written name has a file holding the content of the last document written to it, no other file exists, and the recorded order lists each name once |
| Commands.IndexListsFiles | internal/commands/kubesource.go:135-140 | the index built from the loop's names lists exactly the document files, each once, and no document file is named like the index |
| Commands.GetTargetDocuments | internal/commands/kubesource.go:119-143 | the target fails iff some document panics; otherwise the index is present, its resources are the strictly ascending document file names, there is one more key than resources, each file holds its last writer's document, and only accepted documents get files |
| Discovery.CollectMarkers | internal/kubesource/kubesource.go:16-35 | the walk fails iff some callback step fails, with the first failure's error; otherwise the set holds exactly the directories some step recorded |
| Discovery.SortedKeys | internal/kubesource/kubesource.go:37-38 | the directory set, enumerated in any order and sorted, is strictly ascending with the same elements |
| Discovery.CallbackOutcomes | internal/kubesource/kubesource.go:16-31 | the callback fails exactly on walk errors, wrapping the cause in "walking dir: ", and records exactly the directories of marker files |
| Discovery.FindDirectories | internal/kubesource/kubesource.go:13-41 | the search fails iff the walk reports an error, with the first cause doubly wrapped; otherwise the result is strictly ascending and holds exactly the Dir of every visited non-directory entry whose Base is kubesource.yaml |
| Discovery.MarkerAtTop | internal/kubesource/kubesource_test.go:66-75 | a marker file at the top of the walk marks "." |
| Discovery.MarkerBelow | internal/kubesource/kubesource_test.go:27-40 | a marker file inside a clean relative directory marks that directory |
| Discovery.OtherFileMarksNothing | internal/kubesource/kubesource_test.go:76-84 | any other file name, at the top or inside a clean directory, marks nothing |
| Paths.Resolve | internal/kubesource/kubesource.go:26 | the surviving elements come from the input and are normal or "..", a rooted path keeps no "..", and ".." only leads |
| Paths.ResolveAppendsNormal | internal/kubesource/kubesource.go:26 | a normal element is appended to what the elements before it resolve to |
| Paths.ResolveSkips | internal/kubesource/kubesource.go:26 | an empty or "." element leaves the resolution unchanged |
| Paths.ResolvePops | internal/kubesource/kubesource.go:26 | a ".." cancels the normal element the resolution ends with |
| Paths.ResolveKeepsParent | internal/kubesource/kubesource.go:26 | in a relative path, a ".." is appended whenever what precedes it resolves to nothing or ends in ".." |
| Paths.ResolveDropsParentAtRoot | internal/kubesource/kubesource.go:26 | in a rooted path, a ".." whose preceding elements resolve to nothing is dropped |
| Paths.ResolveLeadingEmpty | internal/kubesource/kubesource.go:26 | the empty element a leading slash produces changes nothing |
| Paths.ResolveResolved | internal/kubesource/kubesource.go:26 | a sequence already in the form Resolve produces is its own resolution |
| Paths.ResolveIdempotent | internal/kubesource/kubesource.go:26 | resolving twice is resolving once |
| Paths.ResolvedPieces | internal/kubesource/kubesource.go:26 | every element that survives resolution of a slash-separated path is non-empty and slash-free |
| Paths.Clean | internal/kubesource/kubesource.go:26 | Clean never yields the empty path |
| Paths.JoinNonEmpty | internal/kubesource/kubesource.go:26 | joining at least one non-empty element with slashes gives a non-empty path |
| Paths.CleanDot | internal/kubesource/kubesource.go:26 | "." cleans to itself |
| Paths.CleanRoot | internal/kubesource/kubesource.go:26 | "/" cleans to itself |
| Paths.CleanRootedJoin | internal/kubesource/kubesource.go:26 | a rooted path joined from resolved elements cleans to itself |
| Paths.CleanRelativeJoin | internal/kubesource/kubesource.go:26 | a relative path joined from resolved elements cleans to itself |
| Paths.CleanIdempotent | internal/kubesource/kubesource.go:26 | Clean is idempotent for every path: a cleaned path is clean |
| Paths.CleanTrailingSlash | internal/kubesource/kubesource.go:26 | a trailing slash does not change what a non-empty path cleans to |
| Paths.TrimTrailingSlashes | internal/kubesource/kubesource.go:25 | the result is a prefix of the path, does not end in a slash, and only slashes were removed |
| Paths.Base | internal/kubesource/kubesource.go:25 | Base is never empty, holds a slash only when it is the root "/", is "." for the empty path, and is the path itself when that is non-empty and has no slash |
| Paths.BaseIsLastElement | internal/kubesource/kubesource.go:25 | for every path q/f with a non-empty, slash-free last element f, Base is f |
| Paths.Dir | internal/kubesource/kubesource.go:26 | Dir is never empty, and is "." for a path without a slash |
| Paths.DirIsCleanedPrefix | internal/kubesource/kubesource.go:26 | for every path q/f with non-empty q and slash-free f, Dir is Clean(q) |
| Paths.ResolveNormal | internal/kubesource/kubesource.go:26 | normal elements all survive, in order |
| Paths.CleanKeepsCleanPath | internal/kubesource/kubesource.go:26 | Clean leaves a clean relative path unchanged |
| Paths.CleanJoin | internal/kubesource/kubesource.go:26 | normal slash-free elements joined by slashes form a clean relative path |
| Paths.FileAtTop | internal/kubesource/kubesource.go:25-26 | a bare file name lies in "." and is its own Base |
| Paths.FileInDirectory | internal/kubesource/kubesource.go:25-26 | for a file f in the clean directory d, Dir and Base take d/f back apart into d and f |
| Paths.CleanDropsDots | internal/kubesource/kubesource.go:26 | "." elements are dropped and ".." cancels the element before it |
| Paths.ResolveDropsDots | internal/kubesource/kubesource.go:26 | the elements a, ".", "..", b resolve to b alone |
| Paths.CleanStopsAtRoot | internal/kubesource/kubesource.go:26 | a ".." above the root of a rooted path is dropped |
| Paths.CleanKeepsLeadingParent | internal/kubesource/kubesource.go:26 | a ".." above the start of a relative path is kept, and doubled or trailing slashes disappear |
| Paths.BaseIgnoresTrailingSlash | internal/kubesource/kubesource.go:25 | Base ignores a trailing slash, and a path of slashes alone has Base "/" |
| Paths.DirAtRoot | internal/kubesource/kubesource.go:26 | a file at the root of a rooted path lies in "/" |
| Sorting.Sort | internal/kustomize/kustomize.go:47 | sorting yields an ascending permutation of its input in Go's byte-wise string order |
| Sorting.SortDistinct | internal/kubesource/kubesource.go:37-38 | sorting distinct names yields a strictly ascending sequence |
| Sorting.StrictlySortedUnique | internal/kubesource/kubesource.go:37-38 | a strictly ascending sequence is determined by its elements |
| Sorting.SortIgnoresEnumerationOrder | internal/kubesource/kubesource.go:37-38 | two duplicate-free enumerations of the same keys sort to the same sequence |
| FakeExec.NewExecutorKnowsNothing | pkg/commandexec/commandexectest/exec.go:21-26 | a fresh executor answers every command with ErrNotFound and no output, and resolves no binary |
| FakeExec.RegisteredHandlerAnswers | pkg/commandexec/commandexectest/exec.go:39-48 | a handler registered under a command's full text answers that command with its own output and error, replacing any earlier handler |
| FakeExec.AddHandlerKeepsOthers | pkg/commandexec/commandexectest/exec.go:29-31 | registering a handler changes no other command's answer |
| FakeExec.AddBinaryThenLookPath | pkg/commandexec/commandexectest/exec.go:51-58 | LookPath resolves the latest registered path for a name, and other names as before |
| FakeExec.CommandStringSplits | pkg/commandexec/commandexectest/exec.go:60-66 | without spaces in the name and arguments, splitting the full text at spaces gives back the name followed by the arguments |
| FakeExec.CommandStringInjective | pkg/commandexec/commandexectest/exec.go:60-66 | for such commands the full text determines the name and the arguments |
| FakeExec.SpacedArgumentCollides | pkg/commandexec/commandexectest/exec.go:60-66 | one argument holding a space and the two arguments it spells out have the same full text, so they reach the same handler |

## Left out

- YAML decoding: the decoder's tokenisation and document splitting are not modelled. `ParseDocuments` takes the decoder's results, in stream order, as its input; the end of that sequence stands for EOF.
- `yaml.Marshal`: the bytes are not modelled, and neither are its errors. A document file holds the document, and the index holds its `Kustomization` record. The marshal error paths of `getTargetDocuments` and `GenerateKustomizationFile` are therefore absent.
- `afero.Walk`: the traversal order and the file system are not modelled. `FindDirectories` takes the visited entries, in visiting order, as its input; the walk's error values are reduced to their message text.
- `kustomize.Build`, `checkKustomizeAvailable` and `VerifyHasKustomizationFile` are left out: they run an external program and check file existence.
- `LoadConfig` is left out: it reads a file and unmarshals YAML. Only the validation it calls is modelled.
- The orchestration in `internal/commands/kubesource.go` (`runKubesourceCommand`, `processSingleDirectory`, `saveFiles`) is left out: it is command-line wiring, printing and file-system writes. It also iterates `cfg.Sources`, a field the `Config` type in `pkg/config/config.go` does not declare; the model follows the declared type.
- `pkg/commandexec/exec.go` and `cmd/kubesource/main.go` are not part of this model: they spawn processes and wire the command line.
- Go's `path` package is part of the Go standard library, not of this repository; `Paths` follows its lexical rules, and its rows cite the calls to `path.Base` and `path.Dir` in `FindDirectories`.
- FakeExec: the Go executor is a pointer whose maps are updated in place. Here `AddHandler` and `AddBinary` return the updated executor. Go returns a nil byte slice where the model returns an empty output.
- Commands.Collect: its own contract states only when the loop fails; what the loop leaves is stated separately by `Commands.CollectSummarises`.
- Paths.Clean: its own contract states only that the result is non-empty. Its rules are stated by the step lemmas of `Paths.Resolve`, and `Paths.CleanIdempotent` holds for every path; that the result is the shortest path naming the same place is not proved.
- Paths.Base: the last-element rule is proved for every path whose last element is non-empty (`Paths.BaseIsLastElement`); for a path with trailing slashes it is proved only for a single trailing slash after a slash-free element (`Paths.BaseIgnoresTrailingSlash`).
- Discovery.MarkerBelow: stated only for clean relative directories, the shape the walk produces under a relative root.
- Discovery.OtherFileMarksNothing: stated only for clean relative directories, for the same reason.
- Go's empty-versus-nil slice distinction (`FindDirectories` and `ParseDocuments` return nil when nothing is found) is not modelled: both are the empty sequence.
