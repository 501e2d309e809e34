/** The ancestor walk of `put_r`: starting from the local path, apply dirname
    repeatedly and collect every result, stopping once Root is reached. */
module ParentWalk {
  import opened Paths

  datatype Option<T> = None | Some(value: T)

  /** The directories the source's loop collects from a single-rooted path:
      its parent, that parent's parent, and so on, Root included (the loop
      computes dirname before it tests for Root). */
  function Ancestors(p: Path): (dirs: seq<Path>)
    requires SingleRooted(p)
    ensures dirs == [] <==> p == Root
    ensures dirs != [] ==> dirs[|dirs| - 1] == Root
    decreases |p|
  {
    if p == Root then []
    else
      DirnameStaysSingleRooted(p);
      var d := Dirname(p);
      [d] + Ancestors(d)
  }

  /** The source's `while parent != '/'` loop run for at most `fuel`
      iterations: None when it has not stopped by then. */
  function BoundedWalk(parent: Path, fuel: nat): (r: Option<seq<Path>>)
    // a finished walk has run at most `fuel` iterations, one per directory
    ensures r.Some? ==> |r.value| <= fuel
    // and it finished because it reached Root
    ensures r.Some? && r.value != [] ==> r.value[|r.value| - 1] == Root
    decreases fuel
  {
    if parent == Root then Some([])
    else if fuel == 0 then None
    else
      var d := Dirname(parent);
      match BoundedWalk(d, fuel - 1)
      case None => None
      case Some(rest) => Some([d] + rest)
  }

  /** Each collected element is the dirname of the one before, starting
      from the path itself. */
  lemma {:induction false} AncestorsChain(p: Path)
    requires SingleRooted(p)
    ensures var dirs := Ancestors(p);
      && (dirs != [] ==> dirs[0] == Dirname(p))
      && (forall i :: 0 <= i < |dirs| - 1 ==> dirs[i + 1] == Dirname(dirs[i]))
    decreases |p|
  {
    if p != Root {
      DirnameStaysSingleRooted(p);
      var d := Dirname(p);
      AncestorsChain(d);
      assert Ancestors(p) == [d] + Ancestors(d);
    }
  }

  /** Each collected element is single-rooted and a proper prefix of the
      path and of every earlier element, so the elements are distinct and
      Root occurs exactly once, last. */
  lemma {:induction false} AncestorsShrink(p: Path)
    requires SingleRooted(p)
    ensures var dirs := Ancestors(p);
      && (forall i :: 0 <= i < |dirs| ==> SingleRooted(dirs[i]) && dirs[i] < p)
      && (forall i, j :: 0 <= i < j < |dirs| ==> dirs[j] < dirs[i])
    decreases |p|
  {
    if p != Root {
      DirnameStaysSingleRooted(p);
      var d := Dirname(p);
      AncestorsShrink(d);
      var dirs := Ancestors(p);
      assert dirs == [d] + Ancestors(d);
      assert d < p;
      forall i, j | 0 <= i < j < |dirs|
        ensures dirs[j] < dirs[i]
      {
        if i > 0 {
          assert dirs[j] == Ancestors(d)[j - 1];
        }
      }
      forall i | 0 <= i < |dirs|
        ensures SingleRooted(dirs[i]) && dirs[i] < p
      {
        if i > 0 {
          assert dirs[i] == Ancestors(d)[i - 1];
        }
      }
    }
  }

  /** For a path that is not single-rooted the source's loop never stops:
      no number of iterations reaches Root. */
  lemma {:induction false} WalkDivergesOffRoot(p: Path, fuel: nat)
    requires !SingleRooted(p)
    ensures BoundedWalk(p, fuel) == None
    decreases fuel
  {
    if fuel > 0 {
      DirnameStaysOffRoot(p);
      WalkDivergesOffRoot(Dirname(p), fuel - 1);
    }
  }

  /** For a single-rooted path the loop stops within |p| iterations and
      collects exactly Ancestors(p). */
  lemma {:induction false} WalkReachesRoot(p: Path, fuel: nat)
    requires SingleRooted(p) && fuel >= |p|
    ensures BoundedWalk(p, fuel) == Some(Ancestors(p))
    decreases |p|
  {
    if p != Root {
      DirnameStaysSingleRooted(p);
      WalkReachesRoot(Dirname(p), fuel - 1);
    }
  }

  /** The loop terminates exactly on single-rooted paths, and whenever it
      terminates its result is Ancestors(p), however long it ran. */
  lemma WalkTerminatesIff(p: Path)
    ensures (exists fuel: nat :: BoundedWalk(p, fuel).Some?) <==> SingleRooted(p)
    ensures forall fuel: nat :: BoundedWalk(p, fuel).Some? ==>
      SingleRooted(p) && BoundedWalk(p, fuel).value == Ancestors(p)
  {
    if SingleRooted(p) {
      WalkReachesRoot(p, |p|);
      forall fuel: nat | BoundedWalk(p, fuel).Some?
        ensures BoundedWalk(p, fuel).value == Ancestors(p)
      {
        WalkResultIndependentOfFuel(p, fuel);
      }
    } else {
      forall fuel: nat
        ensures BoundedWalk(p, fuel) == None
      {
        WalkDivergesOffRoot(p, fuel);
      }
    }
  }

  lemma {:induction false} WalkResultIndependentOfFuel(p: Path, fuel: nat)
    requires SingleRooted(p) && BoundedWalk(p, fuel).Some?
    ensures BoundedWalk(p, fuel).value == Ancestors(p)
    decreases fuel
  {
    if p != Root {
      DirnameStaysSingleRooted(p);
      WalkResultIndependentOfFuel(Dirname(p), fuel - 1);
    }
  }

  /** The walk with the loop test the source evidently meant: stop when
      dirname reaches a fixed point (Root, "" or a run of separators)
      instead of only at Root. Defined, and finite, for every path. */
  function Lineage(p: Path): (dirs: seq<Path>)
    ensures |dirs| <= |p|
    ensures dirs == [] <==> Dirname(p) == p
    ensures dirs != [] ==> Dirname(dirs[|dirs| - 1]) == dirs[|dirs| - 1]
    decreases |p|
  {
    var d := Dirname(p);
    if d == p then [] else [d] + Lineage(d)
  }

  /** On every path where the source's loop terminates, the corrected walk
      collects exactly what the source collects. */
  lemma {:induction false} LineageMatchesSourceWalk(p: Path)
    requires SingleRooted(p)
    ensures Lineage(p) == Ancestors(p)
    decreases |p|
  {
    DirnameFixedPoints();
    if p != Root {
      DirnameStaysSingleRooted(p);
      LineageMatchesSourceWalk(Dirname(p));
    }
  }

  /** Where the source's loop runs forever the corrected walk stops at the
      fixed point: "" for a relative path, "//" for a double-rooted one. */
  lemma LineageOffRootExamples()
    ensures Lineage("a/b") == ["a", ""]
    ensures Lineage("//x") == ["//"]
  {
    DirnameFixedPoints();
    assert HeadLength("a/b") == 2;
    assert "a/b"[..2] == "a/";
    assert "a/"[0] != '/';
    assert StripTrailing("a/") == StripTrailing("a") == "a";
    assert HeadLength("a") == 0;
    assert Dirname("a") == "";
    assert HeadLength("//x") == 2;
    assert Dirname("//x") == "//";
  }

  /** The walk from a file two levels deep: its directory, then Root. */
  lemma LineageExample()
    ensures Lineage("/tmp/a.txt") == ["/tmp", "/"]
  {
    DirnameExample();
    DirnameFixedPoints();
  }

  /** The source's loop written imperatively: `parent = local`, then
      `parent = dirname(parent); dirs.append(parent)` until Root. */
  method CollectParents(local: Path) returns (dirs: seq<Path>)
    requires SingleRooted(local)
    ensures dirs == Ancestors(local)
  {
    var parent := local;
    dirs := [];
    while parent != Root
      invariant SingleRooted(parent)
      invariant dirs + Ancestors(parent) == Ancestors(local)
      decreases |parent|
    {
      DirnameStaysSingleRooted(parent);
      var d := Dirname(parent);
      AncestorsStep(dirs, parent);
      parent := d;
      dirs := dirs + [parent];
    }
  }

  /** One iteration of the source loop: the collected list plus what remains
      to be collected stays Ancestors(local). */
  lemma AncestorsStep(dirs: seq<Path>, parent: Path)
    requires SingleRooted(parent) && parent != Root
    ensures SingleRooted(Dirname(parent))
    ensures dirs + Ancestors(parent) == (dirs + [Dirname(parent)]) + Ancestors(Dirname(parent))
  {
    DirnameStaysSingleRooted(parent);
    var d := Dirname(parent);
    assert Ancestors(parent) == [d] + Ancestors(d);
  }
}
