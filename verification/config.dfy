/** The kubesource.yaml configuration and its validation. */
module Config {
  import opened Wrappers

  /** Metadata constraints of a selector; an empty field is a wildcard. */
  datatype MetadataSelector = MetadataSelector(name: string, namespace: string, labels: map<string, string>)

  /**
   A resource selector; every non-empty field must match. The same record holds the
   identity extracted from a rendered document.
   */
  datatype Selector = Selector(kind: string, apiVersion: string, metadata: Option<MetadataSelector>)

  /** An empty include list includes everything; an empty exclude list excludes nothing. */
  datatype Filter = Filter(includes: seq<Selector>, excludes: seq<Selector>)

  /** One output directory, with an optional (nil-able) filter. */
  datatype Target = Target(directory: string, filter: Option<Filter>)

  datatype Config = Config(apiVersion: string, kind: string, sourceDir: string, targets: seq<Target>)

  const SourceDirRequired := "sourceDir is required"
  const TargetRequired := "at least one target is required"

  /** `validateConfig`: two rules, checked in order, the first failure reported. */
  function ValidateConfig(config: Config): (r: Outcome<string>)
    ensures r.Pass? <==> config.sourceDir != "" && |config.targets| > 0
    ensures config.sourceDir == "" ==> r == Fail(SourceDirRequired)
    ensures config.sourceDir != "" && |config.targets| == 0 ==> r == Fail(TargetRequired)
  {
    if config.sourceDir == "" then Fail(SourceDirRequired)
    else if |config.targets| == 0 then Fail(TargetRequired)
    else Pass
  }

  /**
   Validation looks at nothing but whether the source directory is empty and whether
   there is a target: configurations that agree on those two facts validate alike.
   */
  lemma ValidationInspectsOnlyTwoFacts(c: Config, d: Config)
    requires (c.sourceDir == "") == (d.sourceDir == "")
    requires (|c.targets| == 0) == (|d.targets| == 0)
    ensures ValidateConfig(c) == ValidateConfig(d)
  {
  }
}
