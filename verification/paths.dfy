/** POSIX path strings and the parent-directory function the recursive upload
    walks with (Python's `posixpath.dirname`). '/' is the only separator. */
module Paths {

  /** A path exactly as the client passes it around: a plain string. */
  type Path = string

  /** The filesystem root, the value the ancestor walk stops at. */
  const Root: Path := "/"

  /** True if every character of `s` is a separator (also true of ""). */
  predicate AllSlashes(s: Path) {
    forall k :: 0 <= k < |s| ==> s[k] == '/'
  }

  /** Absolute, with exactly one leading separator ("/", "/a", "/a//b/"):
      the paths whose dirname chain reaches Root. */
  predicate SingleRooted(p: Path) {
    |p| >= 1 && p[0] == '/' && (|p| == 1 || p[1] != '/')
  }

  /** Length of the head of `p`, everything up to and including its last
      separator (0 when there is none): `p.rfind('/') + 1`. */
  function HeadLength(p: Path): (i: nat)
    ensures i <= |p|
    ensures i > 0 ==> p[i - 1] == '/'
    ensures forall k :: i <= k < |p| ==> p[k] != '/'
    decreases |p|
  {
    if p == [] then 0
    else if p[|p| - 1] == '/' then |p|
    else HeadLength(p[..|p| - 1])
  }

  /** `h.rstrip('/')`: `h` without its trailing separators. */
  function StripTrailing(h: Path): (t: Path)
    ensures t <= h
    ensures t == [] || t[|t| - 1] != '/'
    ensures forall k :: |t| <= k < |h| ==> h[k] == '/'
    decreases |h|
  {
    if h != [] && h[|h| - 1] == '/' then StripTrailing(h[..|h| - 1]) else h
  }

  /** `posixpath.dirname(p)`: the head of `p` with its trailing separators
      removed, unless the head consists of separators only (exactly when
      stripping leaves nothing). */
  function Dirname(p: Path): (d: Path)
    // the parent is a prefix of the path
    ensures d <= p
  {
    var head := p[..HeadLength(p)];
    var stripped := StripTrailing(head);
    if stripped == [] then head else stripped
  }

  /** What dirname keeps and what it drops. */
  lemma DirnameShape(p: Path)
    ensures var d := Dirname(p);
      // it is empty exactly for paths without any separator
      && (d == [] <==> '/' !in p)
      // it never ends in a separator, unless it is made of separators only
      && (d == [] || d[|d| - 1] != '/' || AllSlashes(d))
      // what it drops is a run of separators followed by a separator-free name
      && (forall j, k :: |Dirname(p)| <= j < k < |p| && p[j] != '/' ==> p[k] != '/')
      // it keeps everything up to the last separator, except trailing separators
      && (forall k :: 0 <= k < |d| ==> '/' in p[k..])
      // a head made of separators only is kept whole
      && (AllSlashes(d) ==> '/' !in p[|d|..])
  {
    var i := HeadLength(p);
    var head := p[..i];
    var d := Dirname(p);
    if '/' in p {
      var k :| 0 <= k < |p| && p[k] == '/';
      assert k < i;
      if !AllSlashes(head) {
        var m :| 0 <= m < |head| && head[m] != '/';
        assert |StripTrailing(head)| > m;
      }
    }
    forall k | 0 <= k < |d|
      ensures '/' in p[k..]
    {
      assert p[k..][i - 1 - k] == p[i - 1];
    }
    if AllSlashes(d) && d != [] {
      assert d == head;
      assert p[|d|..] == p[i..];
    }
  }

  /** Three fixed points of dirname: Root, where the walk of the source
      stops, and "" and "//", two of the points where it spins (every run of
      separators is one, see DirnameFixedPointsAreSeparatorRuns). */
  lemma DirnameFixedPoints()
    ensures Dirname(Root) == Root
    ensures Dirname("") == ""
    ensures Dirname("//") == "//"
  {
    assert HeadLength(Root) == 1;
    assert HeadLength("//") == 2;
  }

  /** The fixed points of dirname are exactly "" and the runs of one or more
      separators: Root, and the points where a walk that stops only at Root
      spins forever ("" for relative paths, "//", "///", ...). */
  lemma DirnameFixedPointsAreSeparatorRuns(p: Path)
    ensures Dirname(p) == p <==> AllSlashes(p)
  {
    var i := HeadLength(p);
    var d := Dirname(p);
    if AllSlashes(p) && p != [] {
      assert i == |p|;
      assert p[..i] == p;
    }
    if d == p && p != [] {
      DirnameShape(p);
    }
  }

  /** dirname of a file path and of a top-level directory. */
  lemma DirnameExample()
    ensures Dirname("/tmp/a.txt") == "/tmp"
    ensures Dirname("/tmp") == "/"
  {
    assert HeadLength("/tmp/") == 5;
    assert HeadLength("/tmp/a") == 5 by { assert "/tmp/a"[..5] == "/tmp/"; }
    assert HeadLength("/tmp/a.") == 5 by { assert "/tmp/a."[..6] == "/tmp/a"; }
    assert HeadLength("/tmp/a.t") == 5 by { assert "/tmp/a.t"[..7] == "/tmp/a."; }
    assert HeadLength("/tmp/a.tx") == 5 by { assert "/tmp/a.tx"[..8] == "/tmp/a.t"; }
    assert HeadLength("/tmp/a.txt") == 5 by { assert "/tmp/a.txt"[..9] == "/tmp/a.tx"; }
    assert "/tmp/a.txt"[..5] == "/tmp/";
    assert "/tmp/"[1] != '/';
    assert StripTrailing("/tmp/") == "/tmp" by {
      assert "/tmp/"[..4] == "/tmp";
    }
    assert HeadLength("/") == 1;
    assert HeadLength("/t") == 1 by { assert "/t"[..1] == "/"; }
    assert HeadLength("/tm") == 1 by { assert "/tm"[..2] == "/t"; }
    assert HeadLength("/tmp") == 1 by { assert "/tmp"[..3] == "/tm"; }
    assert "/tmp"[..1] == "/";
  }

  /** A single-rooted path has a single-rooted parent, strictly shorter
      unless the path is Root itself. */
  lemma DirnameStaysSingleRooted(p: Path)
    requires SingleRooted(p)
    ensures SingleRooted(Dirname(p))
    ensures p != Root ==> |Dirname(p)| < |p|
  {
    var i := HeadLength(p);
    var head := p[..i];
    assert i >= 1 by {
      assert p[0] == '/';
    }
    if AllSlashes(head) {
      assert i == 1;
      assert Dirname(p) == head;
    } else {
      var m :| 0 <= m < |head| && head[m] != '/';
      var t := StripTrailing(head);
      assert Dirname(p) == t;
      assert |t| > m;
      assert m >= 1;
      assert t[0] == p[0] && t[1] == p[1];
      if i == |p| {
        assert head == p;
      }
    }
  }

  /** A path that is not single-rooted never has a single-rooted parent, so
      its dirname chain never meets Root. */
  lemma DirnameStaysOffRoot(p: Path)
    requires !SingleRooted(p)
    ensures !SingleRooted(Dirname(p))
    ensures Dirname(p) != Root
  {
    var d := Dirname(p);
    if d != [] && d[0] == '/' {
      // d is a prefix of p, so p starts with a separator and so has a second one
      assert p[0] == '/';
      assert |p| >= 2 && p[1] == '/';
      var i := HeadLength(p);
      var head := p[..i];
      assert i >= 2;
      if AllSlashes(head) {
        assert d == head;
        assert d[1] == '/';
      } else {
        var m :| 0 <= m < |head| && head[m] != '/';
        var t := StripTrailing(head);
        assert d == t;
        assert |t| > m;
        assert m >= 2 by {
          assert head[0] == '/' && head[1] == '/';
        }
        assert d[1] == p[1];
      }
    }
  }
}
