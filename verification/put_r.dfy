/** `put_r(local, remote)`, the recursive upload shared by the three
    backends: try `put`; on any failure, `mkdir` every directory of the
    ancestor walk of `local`, root first, ignoring each failure; then
    retry `put` once and let its failure escape. */
module RecursivePut {
  import opened Paths
  import opened ParentWalk
  import opened RemoteFs

  /** Python's `reversed`. */
  function Reversed<T>(s: seq<T>): (r: seq<T>)
    ensures |r| == |s|
    ensures forall i :: 0 <= i < |s| ==> r[i] == s[|s| - 1 - i]
    decreases |s|
  {
    if s == [] then [] else Reversed(s[1..]) + [s[0]]
  }

  /** The `for d in reversed(dirs)` loop: one `mkdir` per directory, in
      order, each failure swallowed by its own `try`/`except`. */
  function MkdirEach(p: Primitives, s: Remote, dirs: seq<Path>): (r: Run)
    // no mkdir failure escapes the loop
    ensures r.outcome == Ok
    // every directory is attempted exactly once, in order, whatever the outcomes
    ensures |r.trace| == |dirs|
    ensures forall i :: 0 <= i < |dirs| ==> r.trace[i] == Mkdir(dirs[i])
    decreases |dirs|
  {
    if dirs == [] then Run(Ok, s, [])
    else
      var rest := MkdirEach(p, p.mkdir(s, dirs[0]).after, dirs[1..]);
      Run(Ok, rest.after, [Mkdir(dirs[0])] + rest.trace)
  }

  /** The directories the recovery branch creates, root first: the walk
      from `local`, reversed. */
  function RecoveryDirs(local: Path): (dirs: seq<Path>)
    // nothing to create exactly when dirname cannot go further up
    ensures dirs == [] <==> Dirname(local) == local
    // the first directory created is a fixed point of dirname, the last is the parent
    ensures dirs != [] ==> Dirname(dirs[0]) == dirs[0] && dirs[|dirs| - 1] == Dirname(local)
    decreases |local|
  {
    var d := Dirname(local);
    if d == local then [] else RecoveryDirs(d) + [d]
  }

  /** The recovery order is the corrected walk from `local`, reversed. */
  lemma {:induction false} RecoveryDirsReverseLineage(local: Path)
    ensures RecoveryDirs(local) == Reversed(Lineage(local))
    decreases |local|
  {
    var d := Dirname(local);
    if d != local {
      RecoveryDirsReverseLineage(d);
      var l := Lineage(local);
      assert l == [d] + Lineage(d);
      assert l[1..] == Lineage(d);
    }
  }

  /** `put_r(local, remote)` against a server in state `s`. */
  function PutR(p: Primitives, s: Remote, local: Path, remote: Path): (r: Run)
    // every run starts with the put and ends with a put of the same file
    ensures |r.trace| >= 1
    ensures r.trace[0] == Put(local, remote) && r.trace[|r.trace| - 1] == Put(local, remote)
    // put is issued at most twice: everything in between is a mkdir
    ensures forall i :: 0 < i < |r.trace| - 1 ==> r.trace[i].Mkdir?
    // a failure reaches the caller only after the retry
    ensures r.outcome.Raised? ==> |r.trace| >= 2
  {
    var first := p.put(s, local, remote);
    if first.outcome.Ok? then Run(Ok, first.after, [Put(local, remote)])
    else
      var made := MkdirEach(p, first.after, RecoveryDirs(local));
      var second := p.put(made.after, local, remote);
      Run(second.outcome, second.after, [Put(local, remote)] + made.trace + [Put(local, remote)])
  }

  /** When the first put succeeds, put is called once and nothing else. */
  lemma FirstPutSucceeds(p: Primitives, s: Remote, local: Path, remote: Path)
    requires p.put(s, local, remote).outcome.Ok?
    ensures var r := PutR(p, s, local, remote);
      && r.outcome == Ok
      && r.trace == [Put(local, remote)]
      && r.after == p.put(s, local, remote).after
  {
  }

  /** Any failure of the first put, whatever its error, starts recovery:
      one mkdir per directory of the recovery order, in that order (root
      first on a single-rooted local path, see RecoveryDirsRootFirst), then
      the retry. */
  lemma AnyFailureStartsRecovery(p: Primitives, s: Remote, local: Path, remote: Path)
    requires p.put(s, local, remote).outcome.Raised?
    ensures var r := PutR(p, s, local, remote); var dirs := RecoveryDirs(local);
      && |r.trace| == |dirs| + 2
      && r.trace[0] == Put(local, remote)
      && (forall i :: 0 <= i < |dirs| ==> r.trace[i + 1] == Mkdir(dirs[i]))
      && r.trace[|dirs| + 1] == Put(local, remote)
  {
    var dirs := RecoveryDirs(local);
    var made := MkdirEach(p, p.put(s, local, remote).after, dirs);
    RecoveryUnfolds(p, s, local, remote);
    var r := PutR(p, s, local, remote);
    assert r.trace == [Put(local, remote)] + made.trace + [Put(local, remote)];
    forall i | 0 <= i < |dirs|
      ensures r.trace[i + 1] == Mkdir(dirs[i])
    {
      BetweenEnds(Put(local, remote), made.trace, Put(local, remote), i);
    }
  }

  /** Indexing into a sequence bracketed by one element at each end. */
  lemma BetweenEnds<T>(x: T, m: seq<T>, y: T, i: nat)
    requires i < |m|
    ensures ([x] + m + [y])[i + 1] == m[i]
  {
  }

  /** The mkdir loop depends only on the effects of mkdir, not on what it reports. */
  lemma {:induction false} MkdirEachIgnoresOutcomes(p: Primitives, q: Primitives, s: Remote, dirs: seq<Path>)
    requires forall t, d :: p.mkdir(t, d).after == q.mkdir(t, d).after
    ensures MkdirEach(p, s, dirs) == MkdirEach(q, s, dirs)
    decreases |dirs|
  {
    if dirs != [] {
      MkdirEachIgnoresOutcomes(p, q, p.mkdir(s, dirs[0]).after, dirs[1..]);
    }
  }

  /** A failing mkdir neither stops the later ones nor escapes: two servers
      whose mkdirs have the same effects but report different outcomes give
      the same run. */
  lemma MkdirFailuresSwallowed(p: Primitives, q: Primitives, s: Remote, local: Path, remote: Path)
    requires forall t, l, r :: p.put(t, l, r) == q.put(t, l, r)
    requires forall t, d :: p.mkdir(t, d).after == q.mkdir(t, d).after
    ensures PutR(p, s, local, remote) == PutR(q, s, local, remote)
  {
    MkdirEachIgnoresOutcomes(p, q, p.put(s, local, remote).after, RecoveryDirs(local));
  }

  /** A failure seen by the caller is the failure of the first put's retry,
      issued once every mkdir has been attempted. */
  lemma FailureComesFromRetry(p: Primitives, s: Remote, local: Path, remote: Path)
    requires PutR(p, s, local, remote).outcome.Raised?
    ensures var first := p.put(s, local, remote);
      && first.outcome.Raised?
      && var made := MkdirEach(p, first.after, RecoveryDirs(local));
         Reply(PutR(p, s, local, remote).outcome, PutR(p, s, local, remote).after)
           == p.put(made.after, local, remote)
  {
  }

  /** The mkdir loop removes no directory when no primitive does. */
  lemma {:induction false} MkdirEachKeepsDirs(p: Primitives, s: Remote, dirs: seq<Path>)
    requires KeepsDirs(p)
    ensures s.dirs <= MkdirEach(p, s, dirs).after.dirs
    decreases |dirs|
  {
    if dirs != [] {
      var t := p.mkdir(s, dirs[0]).after;
      MkdirEachKeepsDirs(p, t, dirs[1..]);
    }
  }

  /** There is no rollback: with primitives that never remove a directory,
      every directory that existed before still exists after, success or
      failure. */
  lemma NoDirectoryRemoved(p: Primitives, s: Remote, local: Path, remote: Path)
    requires KeepsDirs(p)
    ensures s.dirs <= PutR(p, s, local, remote).after.dirs
  {
    var first := p.put(s, local, remote);
    if first.outcome.Raised? {
      MkdirEachKeepsDirs(p, first.after, RecoveryDirs(local));
      var made := MkdirEach(p, first.after, RecoveryDirs(local));
      assert s.dirs <= first.after.dirs <= made.after.dirs <= p.put(made.after, local, remote).after.dirs;
    }
  }

  /** Every directory of the recovery is a proper prefix of `local`. */
  lemma {:induction false} RecoveryDirsArePrefixes(local: Path)
    ensures var dirs := RecoveryDirs(local);
      forall j :: 0 <= j < |dirs| ==> dirs[j] < local
    decreases |local|
  {
    var d := Dirname(local);
    if d != local {
      RecoveryDirsArePrefixes(d);
      assert d < local;
      var dirs := RecoveryDirs(local);
      assert dirs == RecoveryDirs(d) + [d];
      forall j | 0 <= j < |dirs|
        ensures dirs[j] < local
      {
        if j < |dirs| - 1 {
          assert dirs[j] == RecoveryDirs(d)[j];
        }
      }
    }
  }

  /** The directories passed to mkdir come from `local` alone: they are
      proper prefixes of `local`, and two runs with the same `local` that
      both recover issue the same mkdirs, whatever their `remote`, server
      or state. */
  lemma MkdirTargetsIgnoreRemote(p: Primitives, q: Primitives, s: Remote, t: Remote,
                                 local: Path, remote1: Path, remote2: Path)
    requires p.put(s, local, remote1).outcome.Raised?
    requires q.put(t, local, remote2).outcome.Raised?
    ensures var r1 := PutR(p, s, local, remote1); var r2 := PutR(q, t, local, remote2);
      && r1.trace[1..|r1.trace| - 1] == r2.trace[1..|r2.trace| - 1]
      && (forall i :: 0 < i < |r1.trace| - 1 ==> r1.trace[i].dir < local)
  {
    var dirs := RecoveryDirs(local);
    RecoveryUnfolds(p, s, local, remote1);
    RecoveryUnfolds(q, t, local, remote2);
    var m1 := MkdirEach(p, p.put(s, local, remote1).after, dirs).trace;
    var m2 := MkdirEach(q, q.put(t, local, remote2).after, dirs).trace;
    assert m1 == m2;
    var r1 := PutR(p, s, local, remote1);
    var r2 := PutR(q, t, local, remote2);
    assert r1.trace[1..|r1.trace| - 1] == m1;
    assert r2.trace[1..|r2.trace| - 1] == m2;
    RecoveryDirsArePrefixes(local);
    forall i | 0 < i < |r1.trace| - 1
      ensures r1.trace[i].dir < local
    {
      assert r1.trace[i] == m1[i - 1] == Mkdir(dirs[i - 1]);
    }
  }

  /** Reversing a child-first dirname chain gives a parent-first one. */
  lemma ReversedChainIsParentFirst(anc: seq<Path>)
    requires forall i :: 0 <= i < |anc| - 1 ==> anc[i + 1] == Dirname(anc[i])
    ensures var dirs := Reversed(anc);
      forall j :: 0 < j < |dirs| ==> Dirname(dirs[j]) == dirs[j - 1]
  {
    var dirs := Reversed(anc);
    forall j | 0 < j < |dirs|
      ensures Dirname(dirs[j]) == dirs[j - 1]
    {
      assert dirs[j] == anc[|anc| - 1 - j];
      assert dirs[j - 1] == anc[|anc| - 1 - j + 1];
    }
  }

  /** On a single-rooted path the recovery order is the source's collected
      list, reversed. */
  lemma RecoveryDirsReverseAncestors(local: Path)
    requires SingleRooted(local)
    ensures var dirs := RecoveryDirs(local); var anc := Ancestors(local);
      && |dirs| == |anc|
      && (forall i :: 0 <= i < |anc| ==> dirs[|anc| - 1 - i] == anc[i])
  {
    LineageMatchesSourceWalk(local);
    RecoveryDirsReverseLineage(local);
    ReversedIndex(Ancestors(local), RecoveryDirs(local));
  }

  /** Reading a reversal back to front gives the original. */
  lemma ReversedIndex<T>(s: seq<T>, r: seq<T>)
    requires r == Reversed(s)
    ensures |r| == |s|
    ensures forall i :: 0 <= i < |s| ==> r[|s| - 1 - i] == s[i]
  {
    forall i | 0 <= i < |s|
      ensures r[|s| - 1 - i] == s[i]
    {
      assert r[|s| - 1 - i] == s[|s| - 1 - (|s| - 1 - i)];
    }
  }

  /** For a single-rooted path other than Root, the recovery order starts
      at Root and lists every directory right after its parent. */
  lemma RecoveryDirsRootFirst(local: Path)
    requires SingleRooted(local) && local != Root
    ensures var dirs := RecoveryDirs(local);
      && |dirs| >= 1 && dirs[0] == Root
      && (forall j :: 0 < j < |dirs| ==> Dirname(dirs[j]) == dirs[j - 1])
  {
    LineageMatchesSourceWalk(local);
    RecoveryDirsReverseLineage(local);
    AncestorsChain(local);
    ReversedChainIsParentFirst(Ancestors(local));
  }

  /** For a single-rooted local path the recovery creates Root first, and
      each later directory only after its parent. */
  lemma MkdirRootFirst(p: Primitives, s: Remote, local: Path, remote: Path)
    requires SingleRooted(local) && local != Root
    requires p.put(s, local, remote).outcome.Raised?
    ensures var r := PutR(p, s, local, remote);
      && r.trace[1] == Mkdir(Root)
      && (forall i :: 1 < i < |r.trace| - 1 ==> r.trace[i - 1].dir == Dirname(r.trace[i].dir))
  {
    RecoveryDirsRootFirst(local);
    AnyFailureStartsRecovery(p, s, local, remote);
    var dirs := RecoveryDirs(local);
    var r := PutR(p, s, local, remote);
    forall i | 1 < i < |r.trace| - 1
      ensures r.trace[i - 1].dir == Dirname(r.trace[i].dir)
    {
      assert r.trace[i] == Mkdir(dirs[i - 1]) && r.trace[i - 1] == Mkdir(dirs[i - 2]);
    }
  }

  /** Root-first creation is what makes the best-effort loop sufficient:
      under a server whose mkdir creates a directory whose parent exists,
      each mkdir finds its parent already made. */
  lemma {:induction false} MkdirEachBuildsChain(p: Primitives, s: Remote, dirs: seq<Path>)
    requires KeepsDirs(p) && MkdirUnderParent(p)
    requires dirs != [] ==> Dirname(dirs[0]) in s.dirs
    requires forall j :: 0 < j < |dirs| ==> Dirname(dirs[j]) == dirs[j - 1]
    ensures forall i :: 0 <= i < |dirs| ==> dirs[i] in MkdirEach(p, s, dirs).after.dirs
    decreases |dirs|
  {
    if dirs != [] {
      var t := p.mkdir(s, dirs[0]).after;
      assert dirs[0] in t.dirs;
      var rest := dirs[1..];
      MkdirEachBuildsChain(p, t, rest);
      MkdirEachKeepsDirs(p, t, rest);
      var last := MkdirEach(p, t, rest).after;
      assert MkdirEach(p, s, dirs).after == last;
      forall i | 0 <= i < |dirs|
        ensures dirs[i] in last.dirs
      {
        if i > 0 {
          assert dirs[i] == rest[i - 1];
        }
      }
    }
  }

  /** On a server that keeps its directories, has a root, and whose mkdir
      creates a directory under an existing parent, a recovery leaves every
      ancestor of the LOCAL path in place (the remote path's ancestors are
      not involved). */
  lemma RecoveryCreatesLocalChain(p: Primitives, s: Remote, local: Path, remote: Path)
    requires KeepsDirs(p) && MkdirUnderParent(p) && Root in s.dirs
    requires SingleRooted(local)
    requires p.put(s, local, remote).outcome.Raised?
    ensures var anc := Ancestors(local);
      forall i :: 0 <= i < |anc| ==> anc[i] in PutR(p, s, local, remote).after.dirs
  {
    if local != Root {
      RecoveryCreatesRecoveryDirs(p, s, local, remote);
      RecoveryDirsReverseAncestors(local);
      ReversedMembers(RecoveryDirs(local), Ancestors(local), PutR(p, s, local, remote).after.dirs);
    }
  }

  /** Every element of `dirs` is in `made`. */
  predicate AllIn(dirs: seq<Path>, made: set<Path>) {
    forall j :: 0 <= j < |dirs| ==> dirs[j] in made
  }

  /** Membership carries over from a sequence to its reversal. */
  lemma ReversedMembers(dirs: seq<Path>, anc: seq<Path>, made: set<Path>)
    requires |dirs| == |anc|
    requires forall i :: 0 <= i < |anc| ==> dirs[|anc| - 1 - i] == anc[i]
    requires AllIn(dirs, made)
    ensures AllIn(anc, made)
  {
    forall i | 0 <= i < |anc|
      ensures anc[i] in made
    {
      assert dirs[|anc| - 1 - i] == anc[i];
    }
  }

  /** Under the same server assumptions, every directory of the recovery
      order exists after the retry. */
  lemma RecoveryCreatesRecoveryDirs(p: Primitives, s: Remote, local: Path, remote: Path)
    requires KeepsDirs(p) && MkdirUnderParent(p) && Root in s.dirs
    requires SingleRooted(local) && local != Root
    requires p.put(s, local, remote).outcome.Raised?
    ensures AllIn(RecoveryDirs(local), PutR(p, s, local, remote).after.dirs)
  {
    var first := p.put(s, local, remote);
    assert Root in first.after.dirs;
    RecoveryDirsRootFirst(local);
    DirnameFixedPoints();
    var dirs := RecoveryDirs(local);
    MkdirEachBuildsChain(p, first.after, dirs);
    var made := MkdirEach(p, first.after, dirs);
    var final := p.put(made.after, local, remote).after;
    assert made.after.dirs <= final.dirs;
    RecoveryUnfolds(p, s, local, remote);
  }

  /** With a put that always raises (whatever the state and arguments),
      the caller always sees the exception, and only after the whole
      recovery has been attempted. */
  lemma PutThatAlwaysFailsEscapes(p: Primitives, s: Remote, local: Path, remote: Path)
    requires forall t: Remote, l: Path, r: Path :: p.put(t, l, r).outcome.Raised?
    ensures var r := PutR(p, s, local, remote);
      && r.outcome.Raised?
      && |r.trace| == |RecoveryDirs(local)| + 2
  {
    AnyFailureStartsRecovery(p, s, local, remote);
    RecoveryUnfolds(p, s, local, remote);
  }

  /** A put that times out once and then works: the first put of a file at
      Root fails and only advances the world, the retry succeeds, so put_r
      returns normally after one failure. */
  lemma TransientFailureRecovered()
    ensures var p := Primitives(
        (t: Remote, l: Path, r: Path) =>
          if t.world == 0 then Reply(Raised("timed out"), t.(world := 1))
          else Reply(Ok, t.(files := t.files + {r})),
        (t: Remote, d: Path) => Reply(Ok, t.(dirs := t.dirs + {d})));
      var s := Remote({Root}, {}, 0);
      && p.put(s, Root, "/f").outcome.Raised?
      && PutR(p, s, Root, "/f").outcome == Ok
      && "/f" in PutR(p, s, Root, "/f").after.files
  {
    DirnameFixedPoints();
  }

  /** Uploading /tmp/a.txt to /data/a.txt with no /data on the server:
      the recovery requests "/" and "/tmp", never "/data". */
  lemma ChainFollowsLocalNotRemote(p: Primitives, s: Remote)
    requires p.put(s, "/tmp/a.txt", "/data/a.txt").outcome.Raised?
    ensures PutR(p, s, "/tmp/a.txt", "/data/a.txt").trace
      == [Put("/tmp/a.txt", "/data/a.txt"), Mkdir("/"), Mkdir("/tmp"), Put("/tmp/a.txt", "/data/a.txt")]
  {
    DirnameExample();
    DirnameFixedPoints();
    assert RecoveryDirs("/tmp/a.txt") == RecoveryDirs("/tmp") + ["/tmp"] == ["/", "/tmp"];
    AnyFailureStartsRecovery(p, s, "/tmp/a.txt", "/data/a.txt");
  }

  /** The recovery branch of PutR, spelled out. */
  lemma RecoveryUnfolds(p: Primitives, s: Remote, local: Path, remote: Path)
    requires p.put(s, local, remote).outcome.Raised?
    ensures var made := MkdirEach(p, p.put(s, local, remote).after, RecoveryDirs(local));
      var second := p.put(made.after, local, remote);
      PutR(p, s, local, remote)
        == Run(second.outcome, second.after, [Put(local, remote)] + made.trace + [Put(local, remote)])
  {
  }

  /** One iteration of the mkdir loop, from position `k` of the order. */
  lemma MkdirEachStep(p: Primitives, s: Remote, dirs: seq<Path>, k: nat)
    requires k < |dirs|
    ensures var rest := MkdirEach(p, p.mkdir(s, dirs[k]).after, dirs[k + 1..]);
      MkdirEach(p, s, dirs[k..]) == Run(Ok, rest.after, [Mkdir(dirs[k])] + rest.trace)
  {
    assert dirs[k..][1..] == dirs[k + 1..];
  }

  /** One iteration of the source's mkdir loop keeps "calls so far + calls
      still to come = all calls" and the final state unchanged. */
  lemma MkdirLoopStep(p: Primitives, start: Remote, order: seq<Path>, state: Remote, calls: seq<Call>, k: nat)
    requires k < |order|
    requires MkdirEach(p, state, order[k..]).after == MkdirEach(p, start, order).after
    requires calls + MkdirEach(p, state, order[k..]).trace == MkdirEach(p, start, order).trace
    ensures var next := p.mkdir(state, order[k]).after;
      && MkdirEach(p, next, order[k + 1..]).after == MkdirEach(p, start, order).after
      && (calls + [Mkdir(order[k])]) + MkdirEach(p, next, order[k + 1..]).trace == MkdirEach(p, start, order).trace
  {
    MkdirEachStep(p, state, order, k);
    var rest := MkdirEach(p, p.mkdir(state, order[k]).after, order[k + 1..]);
    Regroup(calls, Mkdir(order[k]), rest.trace, MkdirEach(p, start, order).trace);
  }

  /** Moving one element across a concatenation. */
  lemma Regroup<T>(a: seq<T>, x: T, b: seq<T>, c: seq<T>)
    requires a + ([x] + b) == c
    ensures (a + [x]) + b == c
  {
  }

  /** The source's `for d in reversed(dirs)` loop: `mkdir(d)` inside its
      own `try`/`except: pass`. */
  method MkdirLoop(p: Primitives, start: Remote, order: seq<Path>) returns (state: Remote, calls: seq<Call>)
    ensures Run(Ok, state, calls) == MkdirEach(p, start, order)
  {
    state := start;
    calls := [];
    var k := 0;
    assert order[0..] == order;
    while k < |order|
      invariant 0 <= k <= |order|
      invariant MkdirEach(p, state, order[k..]).after == MkdirEach(p, start, order).after
      invariant calls + MkdirEach(p, state, order[k..]).trace == MkdirEach(p, start, order).trace
    {
      MkdirLoopStep(p, start, order, state, calls, k);
      var d := order[k];
      var reply := p.mkdir(state, d);
      state := reply.after;
      calls := calls + [Mkdir(d)];
      k := k + 1;
    }
    assert order[k..] == [];
  }

  /** `put_r` written as the source writes it, with its `while` and `for`
      loops. After a failed first put it terminates only on single-rooted
      local paths. */
  method RecursivePutLoop(p: Primitives, s: Remote, local: Path, remote: Path) returns (r: Run)
    requires p.put(s, local, remote).outcome.Raised? ==> SingleRooted(local)
    ensures r == PutR(p, s, local, remote)
  {
    var first := p.put(s, local, remote);
    if first.outcome.Ok? {
      return Run(Ok, first.after, [Put(local, remote)]);
    }
    var dirs := CollectParents(local);
    LineageMatchesSourceWalk(local);
    RecoveryDirsReverseLineage(local);
    var state, calls := MkdirLoop(p, first.after, Reversed(dirs));
    var second := p.put(state, local, remote);
    r := Run(second.outcome, second.after, [Put(local, remote)] + calls + [Put(local, remote)]);
    RecoveryUnfolds(p, s, local, remote);
  }
}
