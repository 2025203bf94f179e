/** The index file listing a target's manifests. */
module Kustomize {
  import opened Sorting

  const KustomizationPath := "kustomization.yaml"
  const KustomizeApiVersion := "kustomize.config.k8s.io/v1beta1"
  const KustomizationKind := "Kustomization"

  /** The content of `kustomization.yaml`, before serialisation. */
  datatype Kustomization = Kustomization(apiVersion: string, kind: string, resources: seq<string>)

  /**
   `GenerateKustomizationFile`: the index's relative path and content, whose resources are
   the given manifest file names in ascending order.
   */
  function GenerateKustomizationFile(manifestFiles: seq<string>): (r: (string, Kustomization))
    ensures r.0 == KustomizationPath
    ensures r.1.apiVersion == KustomizeApiVersion && r.1.kind == KustomizationKind
    ensures Sorted(r.1.resources)
    ensures multiset(r.1.resources) == multiset(manifestFiles)
    ensures Distinct(manifestFiles) ==> StrictlySorted(r.1.resources)
  {
    var resources := Sort(manifestFiles);
    if Distinct(manifestFiles) then
      SortDistinct(manifestFiles);
      (KustomizationPath, Kustomization(KustomizeApiVersion, KustomizationKind, resources))
    else
      (KustomizationPath, Kustomization(KustomizeApiVersion, KustomizationKind, resources))
  }

  /**
   The index does not depend on the order in which the file names are enumerated (Go
   enumerates map keys in random order): any two duplicate-free enumerations of the same
   names give the same index.
   */
  lemma IndexIgnoresEnumerationOrder(a: seq<string>, b: seq<string>)
    requires Distinct(a) && Distinct(b)
    requires forall x :: x in a <==> x in b
    ensures GenerateKustomizationFile(a) == GenerateKustomizationFile(b)
  {
    SortIgnoresEnumerationOrder(a, b);
  }
}
