/**
 Go's `path` package on slash-separated paths: `Clean`, `Base` and `Dir`, which
 `FindDirectories` uses to recognise a marker file and to name its directory.

 `Clean` is stated over the path's elements: it drops empty and `.` elements, lets each
 `..` cancel the element before it, drops a `..` that would climb above the root of a
 rooted path, and keeps one that would climb above the start of a relative one.
 */
module Paths {
  import opened Wrappers
  import opened Strings

  /** An element that names a child: not empty, not `.`, not `..`. */
  predicate Normal(element: string)
  {
    element != "" && element != "." && element != ".."
  }

  /** A relative path already in clean form, such as `srv/app1`: every element is normal. */
  predicate CleanRelative(p: string)
  {
    var elements := Split(p, '/');
    forall i | 0 <= i < |elements| :: Normal(elements[i])
  }

  /**
   The elements that survive lexical processing of `elements`, taken left to right.
   A relative result holds `..` only before its first normal element; a rooted one none.
   */
  function Resolve(elements: seq<string>, rooted: bool): (r: seq<string>)
    ensures forall i | 0 <= i < |r| :: (r[i] in elements && Normal(r[i])) || r[i] == ".."
    ensures rooted ==> forall i | 0 <= i < |r| :: r[i] != ".."
    ensures forall i, j | 0 <= i < j < |r| :: r[j] == ".." ==> r[i] == ".."
    decreases |elements|
  {
    if |elements| == 0 then []
    else
      var previous := elements[..|elements| - 1];
      var out := Resolve(previous, rooted);
      var element := elements[|elements| - 1];
      assert forall x | x in previous :: x in elements;
      if element == "" || element == "." then out
      else if element == ".." then
        if |out| > 0 && out[|out| - 1] != ".." then out[..|out| - 1]
        else if rooted then out
        else out + [".."]
      else out + [element]
  }

  /** `path.Clean`: the shortest path naming the same place by purely lexical processing. */
  function Clean(p: string): (r: string)
    ensures r != ""
  {
    if p == "" then "."
    else
      var rooted := p[0] == '/';
      var out := Resolve(Split(p, '/'), rooted);
      if rooted then "/" + Join(out, '/')
      else if out == [] then "."
      else JoinNonEmpty(out)
  }

  /** Joining at least one non-empty element gives a non-empty path. */
  function JoinNonEmpty(out: seq<string>): (r: string)
    requires |out| > 0 && forall i | 0 <= i < |out| :: out[i] != ""
    ensures r == Join(out, '/') && r != ""
  {
    if |out| == 1 then out[0] else out[0] + "/" + JoinNonEmpty(out[1..])
  }

  /** `p` without its trailing slashes. */
  function TrimTrailingSlashes(p: string): (r: string)
    ensures |r| <= |p| && r == p[..|r|]
    ensures r == "" || r[|r| - 1] != '/'
    ensures forall i | |r| <= i < |p| :: p[i] == '/'
  {
    if |p| > 0 && p[|p| - 1] == '/' then TrimTrailingSlashes(p[..|p| - 1]) else p
  }

  /** `path.Base`: the last element, after trailing slashes are removed. */
  function Base(p: string): (r: string)
    ensures r != ""
    ensures '/' in r ==> r == "/"
    ensures p != "" && '/' !in p ==> r == p
    ensures p == "" ==> r == "."
  {
    if p == "" then "."
    else
      var q := TrimTrailingSlashes(p);
      var last := match LastIndexOf(q, '/')
                  case None => q
                  case Some(i) => q[i + 1..];
      if last == "" then "/" else last
  }

  /** `path.Dir`: everything before the last slash, cleaned. */
  function Dir(p: string): (r: string)
    ensures r != ""
    ensures '/' !in p ==> r == "."
  {
    match LastIndexOf(p, '/')
    case None => Clean("")
    case Some(i) => Clean(p[..i + 1])
  }

  /** Normal elements are kept as they are. */
  lemma {:induction false} ResolveNormal(elements: seq<string>, rooted: bool)
    requires forall i | 0 <= i < |elements| :: Normal(elements[i])
    ensures Resolve(elements, rooted) == elements
    decreases |elements|
  {
    if |elements| > 0 {
      var previous := elements[..|elements| - 1];
      ResolveNormal(previous, rooted);
      assert previous + [elements[|elements| - 1]] == elements;
    }
  }

  /**
   The form `Resolve` produces: normal elements, preceded (only when relative) by `..`
   elements.
   */
  predicate ResolvedForm(elements: seq<string>, rooted: bool)
  {
    && (forall i | 0 <= i < |elements| :: Normal(elements[i]) || elements[i] == "..")
    && (rooted ==> forall i | 0 <= i < |elements| :: elements[i] != "..")
    && (forall i | 0 < i < |elements| :: elements[i] == ".." ==> elements[i - 1] == "..")
  }

  lemma ResolvedFormPrefix(elements: seq<string>, rooted: bool)
    requires |elements| > 0 && ResolvedForm(elements, rooted)
    ensures ResolvedForm(elements[..|elements| - 1], rooted)
  {
    var previous := elements[..|elements| - 1];
    assert forall i | 0 <= i < |previous| :: previous[i] == elements[i];
  }

  /** A sequence already in resolved form is its own resolution. */
  lemma {:induction false} ResolveResolved(elements: seq<string>, rooted: bool)
    requires ResolvedForm(elements, rooted)
    ensures Resolve(elements, rooted) == elements
    decreases |elements|
  {
    if |elements| > 0 {
      var n := |elements|;
      var previous := elements[..n - 1];
      var last := elements[n - 1];
      ResolvedFormPrefix(elements, rooted);
      ResolveResolved(previous, rooted);
      assert previous + [last] == elements;
      if last == ".." {
        if n > 1 {
          assert previous[n - 2] == elements[n - 2];
        }
        ResolveKeepsParent(previous, rooted);
      } else {
        ResolveAppendsNormal(previous, last, rooted);
      }
    }
  }

  /** A `..` with nothing to cancel is kept by a relative path. */
  lemma ResolveKeepsParent(previous: seq<string>, rooted: bool)
    requires !rooted
    requires var out := Resolve(previous, rooted); |out| == 0 || out[|out| - 1] == ".."
    ensures Resolve(previous + [".."], rooted) == Resolve(previous, rooted) + [".."]
  {
    assert (previous + [".."])[..|previous|] == previous;
  }

  /** A `..` with nothing to cancel is dropped by a rooted path. */
  lemma ResolveDropsParentAtRoot(previous: seq<string>)
    requires |Resolve(previous, true)| == 0
    ensures Resolve(previous + [".."], true) == Resolve(previous, true)
  {
    assert (previous + [".."])[..|previous|] == previous;
  }

  /** A normal element is appended to what the elements before it resolve to. */
  lemma ResolveAppendsNormal(previous: seq<string>, element: string, rooted: bool)
    requires Normal(element)
    ensures Resolve(previous + [element], rooted) == Resolve(previous, rooted) + [element]
  {
    assert (previous + [element])[..|previous|] == previous;
  }

  /** An empty or `.` element is skipped. */
  lemma ResolveSkips(previous: seq<string>, element: string, rooted: bool)
    requires element == "" || element == "."
    ensures Resolve(previous + [element], rooted) == Resolve(previous, rooted)
  {
    assert (previous + [element])[..|previous|] == previous;
  }

  /** A `..` cancels the normal element before it. */
  lemma ResolvePops(previous: seq<string>, rooted: bool)
    requires var out := Resolve(previous, rooted); |out| > 0 && out[|out| - 1] != ".."
    ensures var out := Resolve(previous, rooted); Resolve(previous + [".."], rooted) == out[..|out| - 1]
  {
    assert (previous + [".."])[..|previous|] == previous;
  }

  /** Resolving twice is resolving once. */
  lemma ResolveIdempotent(elements: seq<string>, rooted: bool)
    ensures Resolve(Resolve(elements, rooted), rooted) == Resolve(elements, rooted)
  {
    ResolveResolved(Resolve(elements, rooted), rooted);
  }

  /** A leading empty element, as a rooted path's split begins with, changes nothing. */
  lemma {:induction false} ResolveLeadingEmpty(elements: seq<string>, rooted: bool)
    ensures Resolve([""] + elements, rooted) == Resolve(elements, rooted)
    decreases |elements|
  {
    var withEmpty := [""] + elements;
    if |elements| == 0 {
      assert withEmpty[..0] == [];
    } else {
      var n := |elements|;
      ResolveLeadingEmpty(elements[..n - 1], rooted);
      assert withEmpty[..|withEmpty| - 1] == [""] + elements[..n - 1];
      assert withEmpty[|withEmpty| - 1] == elements[n - 1];
    }
  }

  /** The elements that survive `Clean` are non-empty and hold no slash. */
  lemma ResolvedPieces(p: string, rooted: bool)
    ensures var out := Resolve(Split(p, '/'), rooted);
      forall i | 0 <= i < |out| :: out[i] != "" && '/' !in out[i]
  {
    var elements := Split(p, '/');
    var out := Resolve(elements, rooted);
    forall i | 0 <= i < |out|
      ensures out[i] != "" && '/' !in out[i]
    {
      if out[i] != ".." {
        var j :| 0 <= j < |elements| && elements[j] == out[i];
      }
    }
  }

  /** The path `.` cleans to itself. */
  lemma CleanDot()
    ensures Clean(".") == "."
  {
    SplitWithoutSeparator(".", '/');
    assert ["."][..0] == [];
  }

  /** The root cleans to itself. */
  lemma CleanRoot()
    ensures Clean("/") == "/"
  {
    assert Split("/", '/') == ["", ""] by {
      assert "/" == "" + ['/'] + "";
      SplitConcat("", "", '/');
    }
    assert ["", ""][..1] == [""];
    assert [""][..0] == [];
  }

  /** A rooted path joined from resolved elements cleans to itself. */
  lemma CleanRootedJoin(out: seq<string>)
    requires forall i | 0 <= i < |out| :: out[i] != "" && '/' !in out[i]
    requires Resolve(out, true) == out
    ensures Clean("/" + Join(out, '/')) == "/" + Join(out, '/')
  {
    if out == [] {
      CleanRoot();
    } else {
      var joined := Join(out, '/');
      var c := "/" + joined;
      SplitLeadingSeparator(joined, '/');
      SplitJoin(out, '/');
      var parts := Split(c, '/');
      assert parts == [""] + out;
      ResolveLeadingEmpty(out, true);
      assert Resolve(parts, true) == out;
      assert c[0] == '/';
    }
  }

  /** A relative path joined from resolved elements cleans to itself. */
  lemma CleanRelativeJoin(out: seq<string>)
    requires |out| > 0
    requires forall i | 0 <= i < |out| :: out[i] != "" && '/' !in out[i]
    requires Resolve(out, false) == out
    ensures Clean(JoinNonEmpty(out)) == JoinNonEmpty(out)
  {
    var c := JoinNonEmpty(out);
    assert c[0] == out[0][0] by {
      if |out| > 1 {
        assert Join(out, '/') == out[0] + ['/'] + Join(out[1..], '/');
      }
    }
    assert c[0] in out[0];
    SplitJoin(out, '/');
  }

  /** `Clean` is idempotent: a cleaned path is clean. */
  lemma CleanIdempotent(p: string)
    ensures Clean(Clean(p)) == Clean(p)
  {
    if p == "" {
      CleanDot();
    } else {
      var rooted := p[0] == '/';
      var out := Resolve(Split(p, '/'), rooted);
      ResolvedPieces(p, rooted);
      ResolveIdempotent(Split(p, '/'), rooted);
      if rooted {
        CleanRootedJoin(out);
      } else if out == [] {
        CleanDot();
      } else {
        CleanRelativeJoin(out);
      }
    }
  }

  /** `Base` is the last element: what follows the last slash. */
  lemma BaseIsLastElement(q: string, f: string)
    requires f != "" && '/' !in f
    ensures Base(q + "/" + f) == f
  {
    var p := q + "/" + f;
    assert p[|q|] == '/';
    assert forall j | |q| < j < |p| :: p[j] == f[j - |q| - 1];
    assert LastIndexOf(p, '/') == Some(|q|);
    assert p[|q| + 1..] == f;
    assert TrimTrailingSlashes(p) == p;
  }

  /** A trailing slash does not change what a non-empty path cleans to. */
  lemma CleanTrailingSlash(q: string)
    requires q != ""
    ensures Clean(q + "/") == Clean(q)
  {
    var elements := Split(q, '/');
    SplitConcat(q, "", '/');
    assert q + "/" == q + ['/'] + "";
    var withSlash := elements + [""];
    assert Split(q + "/", '/') == withSlash;
    assert withSlash[..|withSlash| - 1] == elements;
    assert (q + "/")[0] == q[0];
  }

  /** `Dir` is the cleaned part before the last slash. */
  lemma DirIsCleanedPrefix(q: string, f: string)
    requires q != "" && '/' !in f
    ensures Dir(q + "/" + f) == Clean(q)
  {
    var p := q + "/" + f;
    assert p[|q|] == '/';
    assert forall j | |q| < j < |p| :: p[j] == f[j - |q| - 1];
    assert LastIndexOf(p, '/') == Some(|q|);
    assert p[..|q| + 1] == q + "/";
    CleanTrailingSlash(q);
  }

  /** A path already in clean form is left alone by `Clean`. */
  lemma CleanKeepsCleanPath(p: string)
    requires CleanRelative(p)
    ensures Clean(p) == p
  {
    var elements := Split(p, '/');
    assert Normal(elements[0]);
    assert p != "";
    assert p[0] != '/';
    ResolveNormal(elements, false);
    JoinSplit(p, '/');
  }

  /** Normal elements without slashes, joined by slashes, form a clean relative path. */
  lemma CleanJoin(elements: seq<string>)
    requires |elements| > 0
    requires forall i | 0 <= i < |elements| :: Normal(elements[i]) && '/' !in elements[i]
    ensures CleanRelative(Join(elements, '/'))
  {
    SplitJoin(elements, '/');
  }

  /** A file name alone: its directory is `.` and its base is the name itself. */
  lemma FileAtTop(f: string)
    requires f != "" && '/' !in f
    ensures Dir(f) == "."
    ensures Base(f) == f
  {
  }

  /** A file `f` inside the clean directory `d`: `Dir` and `Base` take `d/f` apart again. */
  lemma FileInDirectory(d: string, f: string)
    requires CleanRelative(d)
    requires f != "" && '/' !in f
    ensures Dir(d + "/" + f) == d
    ensures Base(d + "/" + f) == f
  {
    assert Normal(Split(d, '/')[0]);
    DirIsCleanedPrefix(d, f);
    CleanKeepsCleanPath(d);
    BaseIsLastElement(d, f);
  }

  /** `.` elements are dropped and `..` cancels the element before it. */
  lemma CleanDropsDots(a: string, b: string)
    requires Normal(a) && '/' !in a && Normal(b) && '/' !in b
    ensures Clean(a + "/./../" + b) == b
  {
    var elements := [a, ".", "..", b];
    assert Split(a + "/./../" + b, '/') == elements by {
      assert elements[1..] == [".", "..", b] && elements[2..] == ["..", b] && elements[3..] == [b];
      assert Join([b], '/') == b;
      assert Join(["..", b], '/') == ".." + "/" + b;
      assert Join([".", "..", b], '/') == "." + "/" + (".." + "/" + b);
      assert Join(elements, '/') == a + "/" + ("." + "/" + (".." + "/" + b));
      assert a + "/./../" + b == a + "/" + ("." + "/" + (".." + "/" + b));
      SplitJoin(elements, '/');
    }
    ResolveDropsDots(a, b);
    assert (a + "/./../" + b)[0] == a[0];
  }

  lemma ResolveDropsDots(a: string, b: string)
    requires Normal(a) && Normal(b)
    ensures Resolve([a, ".", "..", b], false) == [b]
  {
    var e0: seq<string> := [];
    var e1 := e0 + [a];
    var e2 := e1 + ["."];
    var e3 := e2 + [".."];
    var e4 := e3 + [b];
    ResolveAppendsNormal(e0, a, false);
    ResolveSkips(e1, ".", false);
    ResolvePops(e2, false);
    ResolveAppendsNormal(e3, b, false);
    assert e4 == [a, ".", "..", b];
  }

  /** A `..` above the root of a rooted path is dropped. */
  lemma CleanStopsAtRoot(x: string)
    requires Normal(x) && '/' !in x
    ensures Clean("/../" + x) == "/" + x
  {
    var elements := ["", "..", x];
    assert elements[1..] == ["..", x] && elements[2..] == [x];
    assert Join([x], '/') == x;
    assert Join(["..", x], '/') == ".." + "/" + x;
    assert Join(elements, '/') == "" + "/" + (".." + "/" + x);
    assert "/../" + x == "" + "/" + (".." + "/" + x);
    SplitJoin(elements, '/');
    assert ["", ".."][..1] == [""];
    assert elements[..2] == ["", ".."];
    assert Resolve(["", ".."], true) == [];
    assert Resolve(elements, true) == [x];
  }

  /** A `..` above the start of a relative path is kept; doubled and trailing slashes go. */
  lemma CleanKeepsLeadingParent(a: string)
    requires Normal(a) && '/' !in a
    ensures Clean("../" + a + "//") == "../" + a
  {
    var out := ["..", a];
    ResolveResolved(out, false);
    CleanRelativeJoin(out);
    assert JoinNonEmpty(out) == "../" + a by {
      assert out[1..] == [a];
    }
    CleanTrailingSlash("../" + a);
    CleanTrailingSlash("../" + a + "/");
    assert "../" + a + "//" == ("../" + a + "/") + "/";
  }

  /** `Base` ignores trailing slashes, and a path of slashes alone is the root. */
  lemma BaseIgnoresTrailingSlash(a: string, b: string)
    requires '/' !in a && Normal(b) && '/' !in b
    ensures Base(a + "/" + b + "/") == b
    ensures Base("///") == "/"
  {
    var p := a + "/" + b + "/";
    assert TrimTrailingSlashes(p) == a + "/" + b by {
      assert p[..|p| - 1] == a + "/" + b;
    }
    var q := a + "/" + b;
    assert q[|a|] == '/';
    assert forall j | |a| < j < |q| :: q[j] == b[j - |a| - 1];
    assert LastIndexOf(q, '/') == Some(|a|);
    assert q[|a| + 1..] == b;
    assert TrimTrailingSlashes("///") == "";
  }

  /** A file at the root of a rooted path lies in `/`. */
  lemma DirAtRoot(f: string)
    requires '/' !in f
    ensures Dir("/" + f) == "/"
  {
    var p := "/" + f;
    assert forall j | 0 < j < |p| :: p[j] == f[j - 1];
    assert LastIndexOf(p, '/') == Some(0);
    assert p[..1] == "/";
    assert Split("/", '/') == ["", ""] by {
      SplitConcat("", "", '/');
    }
    assert [""][..0] == [];
    assert Resolve([""], true) == [];
    assert ["", ""][..1] == [""];
    assert Resolve(["", ""], true) == [];
  }
}
