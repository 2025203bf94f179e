/**
 `FindDirectories`: the directories, below a root, that hold a `kubesource.yaml` marker.

 The file system walk is an input: the entries the walk visits, in the order it visits them,
 each a path (as the walk builds it from the root) and whether it is a directory, or an
 error the walk reports instead of an entry. The first error ends the search.
 */
module Discovery {
  import opened Wrappers
  import opened Sorting
  import opened Paths

  datatype Visit =
    | Visited(path: string, isDir: bool)
    | WalkError(cause: string)

  const ConfigFileName: string := "kubesource.yaml"

  /** What the walk callback records for entry `v`: the directory of a marker file, if it is one. */
  function MarkerOf(v: Visit): (r: Option<string>)
  {
    if v.Visited? && !v.isDir && Base(v.path) == ConfigFileName then Some(Dir(v.path)) else None
  }

  /** Entry `v` is a marker file, and `d` is the directory that holds it. */
  predicate MarksDirectory(v: Visit, d: string)
  {
    MarkerOf(v) == Some(d)
  }

  /** Entry `i` is the first error of the walk. */
  predicate FirstWalkError(walk: seq<Visit>, i: int)
  {
    0 <= i < |walk| && walk[i].WalkError? && forall j | 0 <= j < i :: walk[j].Visited?
  }

  /**
   The walk callback: an error stops the walk, wrapped as `walking dir: ...`; an entry yields
   the directory it marks, if any.
   */
  function WalkCallback(v: Visit): (r: Result<Option<string>, string>)
  {
    match v
    case WalkError(cause) => Failure("walking dir: " + cause)
    case Visited(_, _) => Success(MarkerOf(v))
  }

  /** Step `i` is the first that fails. */
  predicate FirstFailure(steps: seq<Result<Option<string>, string>>, i: int)
  {
    0 <= i < |steps| && steps[i].Failure? && forall j | 0 <= j < i :: steps[j].Success?
  }

  lemma FirstFailureUnique(steps: seq<Result<Option<string>, string>>, i: int)
    requires 0 <= i < |steps| && steps[i].Failure? && forall j | 0 <= j < i :: steps[j].Success?
    ensures FirstFailure(steps, i)
    ensures forall k {:trigger FirstFailure(steps, k)} | FirstFailure(steps, k) :: k == i
  {
  }

  /**
   The walk over the callback's outcomes, in visiting order: the first error ends it,
   otherwise every recorded directory is kept once.
   */
  method CollectMarkers(steps: seq<Result<Option<string>, string>>) returns (r: Result<set<string>, string>)
    ensures r.Failure? <==> exists i | 0 <= i < |steps| :: steps[i].Failure?
    ensures forall i {:trigger FirstFailure(steps, i)} | FirstFailure(steps, i) :: r == Failure(steps[i].error)
    ensures r.Success? ==> forall d :: d in r.value <==> Success(Some(d)) in steps
  {
    var dirs: set<string> := {};
    var i := 0;
    while i < |steps|
      invariant 0 <= i <= |steps|
      invariant forall j | 0 <= j < i :: steps[j].Success?
      invariant forall d :: d in dirs <==> Success(Some(d)) in steps[..i]
    {
      assert steps[..i + 1] == steps[..i] + [steps[i]];
      if steps[i].Failure? {
        FirstFailureUnique(steps, i);
        return Failure(steps[i].error);
      }
      if steps[i].value.Some? {
        dirs := dirs + {steps[i].value.value};
      }
      i := i + 1;
    }
    assert steps[..i] == steps;
    return Success(dirs);
  }

  /** The keys of the directory set in ascending order, from an enumeration in arbitrary order. */
  method SortedKeys(dirs: set<string>) returns (r: seq<string>)
    ensures StrictlySorted(r)
    ensures forall d :: d in r <==> d in dirs
  {
    var keys: seq<string> := [];
    var remaining := dirs;
    while remaining != {}
      invariant remaining <= dirs
      invariant Distinct(keys)
      invariant forall d :: d in keys <==> d in dirs && d !in remaining
      decreases |remaining|
    {
      var d :| d in remaining;
      keys := keys + [d];
      remaining := remaining - {d};
    }
    r := Sort(keys);
    SortDistinct(keys);
    forall d
      ensures d in r <==> d in keys
    {
      assert d in r <==> d in multiset(r);
      assert d in keys <==> d in multiset(keys);
    }
  }

  /** The callback's outcomes say what the walk's entries are. */
  lemma CallbackOutcomes(walk: seq<Visit>, steps: seq<Result<Option<string>, string>>)
    requires |steps| == |walk|
    requires forall j | 0 <= j < |walk| :: steps[j] == WalkCallback(walk[j])
    ensures (exists i | 0 <= i < |steps| :: steps[i].Failure?) <==> (exists i | 0 <= i < |walk| :: walk[i].WalkError?)
    ensures forall i {:trigger FirstWalkError(walk, i)} | FirstWalkError(walk, i) ::
      FirstFailure(steps, i) && steps[i].error == "walking dir: " + walk[i].cause
    ensures forall d :: Success(Some(d)) in steps <==>
      exists i {:trigger MarksDirectory(walk[i], d)} | 0 <= i < |walk| :: MarksDirectory(walk[i], d)
  {
    forall d
      ensures Success(Some(d)) in steps <==>
        exists i {:trigger MarksDirectory(walk[i], d)} | 0 <= i < |walk| :: MarksDirectory(walk[i], d)
    {
      if Success(Some(d)) in steps {
        var i :| 0 <= i < |steps| && steps[i] == Success(Some(d));
        assert MarksDirectory(walk[i], d);
      }
      if exists i {:trigger MarksDirectory(walk[i], d)} | 0 <= i < |walk| :: MarksDirectory(walk[i], d) {
        var i :| 0 <= i < |walk| && MarksDirectory(walk[i], d);
        assert steps[i] == Success(Some(d));
      }
    }
  }

  /** `FindDirectories`: the marker directories in ascending order, or the first walk error. */
  method FindDirectories(walk: seq<Visit>) returns (r: Result<seq<string>, string>)
    ensures r.Failure? <==> exists i | 0 <= i < |walk| :: walk[i].WalkError?
    ensures forall i {:trigger FirstWalkError(walk, i)} | FirstWalkError(walk, i) ::
      r == Failure("searching directories: walking dir: " + walk[i].cause)
    ensures r.Success? ==> StrictlySorted(r.value)
    ensures r.Success? ==> forall d :: d in r.value <==>
      exists i {:trigger MarksDirectory(walk[i], d)} | 0 <= i < |walk| :: MarksDirectory(walk[i], d)
  {
    var steps := seq(|walk|, j requires 0 <= j < |walk| => WalkCallback(walk[j]));
    CallbackOutcomes(walk, steps);
    var collected := CollectMarkers(steps);
    match collected
    case Failure(e) =>
      assert forall cause :: "searching directories: " + ("walking dir: " + cause) ==
                             "searching directories: walking dir: " + cause;
      r := Failure("searching directories: " + e);
    case Success(dirs) =>
      var directories := SortedKeys(dirs);
      r := Success(directories);
  }

  /** A marker file at the top of the walk marks `.`. */
  lemma MarkerAtTop(v: Visit)
    requires v == Visited(ConfigFileName, false)
    ensures MarkerOf(v) == Some(".")
  {
    FileAtTop(ConfigFileName);
  }

  /** A marker file below the clean directory `d` marks `d`. */
  lemma MarkerBelow(d: string, v: Visit)
    requires CleanRelative(d)
    requires v == Visited(d + "/" + ConfigFileName, false)
    ensures MarkerOf(v) == Some(d)
  {
    FileInDirectory(d, ConfigFileName);
  }

  /** Any other file name, at the top or below a clean directory, marks nothing. */
  lemma OtherFileMarksNothing(d: string, f: string, v: Visit)
    requires f != "" && '/' !in f && f != ConfigFileName
    requires d == "" || CleanRelative(d)
    requires v == Visited(if d == "" then f else d + "/" + f, false)
    ensures MarkerOf(v) == None
  {
    if d == "" {
      FileAtTop(f);
    } else {
      FileInDirectory(d, f);
    }
  }
}
