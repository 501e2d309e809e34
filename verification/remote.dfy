/** The remote side as `put_r` sees it: an abstract state and two primitives,
    `put` and `mkdir`, that may fail for any reason and may change the state
    even when they fail. */
module RemoteFs {
  import opened Paths

  /** What exists on the server, directories and files, together with
      everything else the primitives may depend on and change (connection,
      time, load), abstracted as a counter: a primitive can fail once and
      succeed when called again with the same arguments. */
  datatype Remote = Remote(dirs: set<Path>, files: set<Path>, world: nat)

  /** How a primitive ends: normally, or with an exception. */
  datatype Outcome = Ok | Raised(error: string)

  /** A primitive's outcome and the server state it leaves behind. */
  datatype Reply = Reply(outcome: Outcome, after: Remote)

  /** A backend's `put(local, remote)` and its directory primitive
      (`mkdir` for ftputil and paramiko, `mkd` for ftplib), uninterpreted. */
  datatype Primitives = Primitives(
    put: (Remote, Path, Path) -> Reply,
    mkdir: (Remote, Path) -> Reply
  )

  /** One call `put_r` issues to the server. */
  datatype Call = Put(local: Path, remote: Path) | Mkdir(dir: Path)

  /** The result of a sequence of calls: how it ended, the server state
      after it, and the calls in the order they were issued. */
  datatype Run = Run(outcome: Outcome, after: Remote, trace: seq<Call>)

  /** Neither primitive ever removes a directory, whether it fails or not. */
  ghost predicate KeepsDirs(p: Primitives) {
    && (forall s: Remote, l: Path, r: Path {:trigger p.put(s, l, r)} :: s.dirs <= p.put(s, l, r).after.dirs)
    && (forall s: Remote, d: Path {:trigger p.mkdir(s, d)} :: s.dirs <= p.mkdir(s, d).after.dirs)
  }

  /** `mkdir(d)` leaves `d` existing whenever the parent of `d` exists,
      either by creating it or because it was already there. */
  ghost predicate MkdirUnderParent(p: Primitives) {
    forall s: Remote, d: Path {:trigger p.mkdir(s, d)} :: Dirname(d) in s.dirs ==> d in p.mkdir(s, d).after.dirs
  }
}
