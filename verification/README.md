# put_r: recursive upload with parent-directory recovery

The file-transfer helpers in `ftp.py` come in three backends: `FTPClient`
(ftputil), `SFTPClient` (paramiko) and `TestFTPClient` (ftplib). Each has a
`put_r(local, remote)` that uploads a file and, if the upload fails for any
reason, tries to create the missing directories and then uploads once more.
All three copies follow the same policy:

1. call `put(local, remote)`; if it returns, stop;
2. otherwise walk up from the LOCAL path with `os.path.dirname` until the
   walk reaches `/`, collecting every result (so `/` itself is collected);
3. call `mkdir` on each collected directory, root first, swallowing every
   failure;
4. call `put(local, remote)` again and let any failure reach the caller.

The model has four modules:

- `Paths` (`paths.dfy`): path strings and `Dirname`, Python's
  `posixpath.dirname`. It is the head up to the last `/`, with trailing
  separators stripped unless the head is all separators.
- `ParentWalk` (`parent_walk.dfy`): the source's `while parent != '/'` loop.
  `Ancestors` is its result on the inputs where it stops. `BoundedWalk` is
  the loop with an iteration budget, used to prove when it stops. `Lineage`
  is the corrected walk (see Findings). `CollectParents` is the loop written
  imperatively.
- `RemoteFs` (`remote.dfy`): the server as an abstract state (directories,
  files, and a `world` counter for everything else a call may depend on,
  such as the connection and time) and two uninterpreted primitives, `put` and `mkdir`. Each
  returns an outcome (`Ok` or `Raised`) and a new state. It also has a call
  trace, and two optional assumptions about a server: it never removes a
  directory, and `mkdir` succeeds under an existing parent.
- `RecursivePut` (`put_r.dfy`): `PutR`, the policy as a function returning
  outcome, final state and trace. `RecursivePutLoop` and `MkdirLoop` write
  it with the source's loops. The lemmas state what the policy promises.

The three copies differ only in `print` calls and in the name of the
directory primitive (`mkdir` for ftputil and paramiko, `mkd` for ftplib).
So one `PutR` models all three. The directory primitive is the `mkdir`
field of `Primitives`.

The only promise the source makes about `put_r` is its docstring,
"recursive put, mkdir if directory does not exist" (ftp.py:44). What the
code does in detail:

- The walk collects `/` too, because it calls dirname before testing for
  `/`. `Ancestors` ends with Root, and on a single-rooted local path other than
  `"/"` the recovery's first mkdir is `mkdir("/")` (for `"/"` itself the
  recovery issues no mkdir, only the retry).
- All three backends walk the LOCAL path, not the remote one. The directories
  requested are the local file's ancestors. The remote path's ancestors are
  never requested (`MkdirTargetsIgnoreRemote`, `ChainFollowsLocalNotRemote`).
- Nothing guarantees that the remote directory chain exists after
  `put_r`. What does hold is stated in `RecoveryCreatesLocalChain`: under a
  cooperative server, the LOCAL path's ancestors exist afterwards.
- On a local path that is not single-rooted (relative, or starting with two
  or more `/`), the walk never ends once the first put has failed (see
  Findings). There the model's recovery order is that of the corrected walk
  (for `"a/b"` it is `mkdir("")`, `mkdir("a")`), which the source never
  reaches.

## Model

| member | source | states |
|---|---|---|
| Paths.HeadLength | ftp.py:91 | `p.rfind('/') + 1`: the head ends in a separator, and there is no separator after it |
| Paths.StripTrailing | ftp.py:91 | `h.rstrip('/')`: a prefix of `h` that does not end in a separator, and everything removed is a separator |
| Paths.Dirname | ftp.py:91 | `os.path.dirname` on POSIX: the parent is a prefix of the path |
| Paths.DirnameShape | ftp.py:91 | characterises dirname without its helpers: it is empty exactly when the path has no separator; it ends in a separator only when it is all separators; each kept position has a separator at or after it; what it drops is separators followed by one separator-free name; a head made of separators only is kept whole |
| Paths.DirnameFixedPoints | ftp.py:90-91 | dirname leaves "/" unchanged, so the loop test `parent != '/'` is reached; it also leaves "" and "//" unchanged, two of the points where the loop would spin |
| Paths.DirnameFixedPointsAreSeparatorRuns | ftp.py:90-92 | dirname leaves a path unchanged if and only if the path is "" or a run of separators ("/", "//", "///", ...); every such path other than "/" is a point where the loop spins |
| Paths.DirnameExample | ftp.py:91 | dirname("/tmp/a.txt") is "/tmp" and dirname("/tmp") is "/" |
| Paths.DirnameStaysSingleRooted | ftp.py:90-92 | a path with exactly one leading separator has a parent of the same kind, strictly shorter unless it is "/": each loop iteration makes progress toward "/" |
| Paths.DirnameStaysOffRoot | ftp.py:90-92 | a path without exactly one leading separator never has such a parent and never has "/" as parent: the loop can never reach its exit |
| ParentWalk.BoundedWalk | ftp.py:90-92 | the `while parent != '/'` loop with an iteration budget: a finished run has collected at most one directory per iteration, and its last directory is "/" |
| ParentWalk.Ancestors | ftp.py:88-92 | the collected list is empty exactly when the local path is "/", and otherwise ends with "/" |
| ParentWalk.AncestorsChain | ftp.py:90-92 | the first collected directory is dirname(local) and each later one is the dirname of the one before |
| ParentWalk.AncestorsShrink | ftp.py:90-92 | every collected directory is single-rooted and a proper prefix of the local path and of all earlier ones, so the list has no repeats |
| ParentWalk.WalkDivergesOffRoot | ftp.py:90-92 | for a relative path or one starting with "//", no number of iterations ends the loop |
| ParentWalk.WalkReachesRoot | ftp.py:90-92 | for a single-rooted path, the loop ends within len(local) iterations with exactly Ancestors(local) |
| ParentWalk.WalkTerminatesIff | ftp.py:140-142 | for a `str` local path, the loop terminates if and only if the path is single-rooted; whenever it terminates it has collected Ancestors(local) |
| ParentWalk.WalkResultIndependentOfFuel | ftp.py:193-195 | whenever the loop has stopped, what it collected is Ancestors(local), however many iterations were allowed |
| ParentWalk.Lineage | ftp.py:90-92 | the corrected walk is defined for every path, collects at most len(p) directories, is empty exactly at a dirname fixed point, and ends at a fixed point |
| ParentWalk.LineageMatchesSourceWalk | ftp.py:88-92 | on every path where the source's loop terminates, the corrected walk collects exactly what the source collects |
| ParentWalk.LineageOffRootExamples | ftp.py:90-92 | where the source's loop spins, the corrected walk stops at a separator run or "": "a/b" gives ["a", ""], "//x" gives ["//"] |
| ParentWalk.LineageExample | ftp.py:88-92 | the walk from "/tmp/a.txt" collects "/tmp" and then "/" |
| ParentWalk.CollectParents | ftp.py:188-195 | the imperative loop returns exactly Ancestors(local) and terminates on single-rooted paths |
| RecursivePut.Reversed | ftp.py:93 | `reversed` keeps the length and puts element i at position len-1-i |
| RecursivePut.RecoveryDirsReverseLineage | ftp.py:93 | the recovery order is the corrected walk reversed |
| RecursivePut.RecoveryDirs | ftp.py:93 | the `reversed(dirs)` order PutR uses: empty exactly when dirname cannot go further up, starting at a dirname fixed point ("/" on single-rooted paths) and ending at the parent of the local path |
| RecursivePut.MkdirEach | ftp.py:93-98 | the mkdir loop never raises, and it issues exactly one mkdir per directory, in the given order, whatever each mkdir does |
| RecursivePut.PutR | ftp.py:83-100 | every run starts and ends with put(local, remote), with only mkdirs in between; a failure reaches the caller only after a retry |
| RecursivePut.FirstPutSucceeds | ftp.py:84-86 | when the first put returns normally, put_r returns normally after that single call, with the put's effect as the final state |
| RecursivePut.AnyFailureStartsRecovery | ftp.py:87-99 | any exception from the first put (the bare `except` catches all) leads to one mkdir per directory of the recovery order, in that order, then exactly one retry; on a single-rooted local path that order is root first (RecoveryDirsRootFirst), otherwise it is the corrected walk's order, which the source never reaches |
| RecursivePut.MkdirEachIgnoresOutcomes | ftp.py:94-98 | the mkdir loop depends on the effects of mkdir only, never on whether it raised |
| RecursivePut.MkdirFailuresSwallowed | ftp.py:143-147 | two servers whose mkdirs have the same effects but raise differently give identical runs: a failing mkdir neither stops later ones nor escapes |
| RecursivePut.FailureComesFromRetry | ftp.py:148 | an exception seen by the caller comes from the retry, issued after the first put failed and every mkdir was attempted; on a local path that is not single-rooted the source instead never returns, and this describes the corrected walk |
| RecursivePut.MkdirEachKeepsDirs | ftp.py:93-98 | on a server that never removes directories, the mkdir loop keeps every existing directory |
| RecursivePut.NoDirectoryRemoved | ftp.py:186-201 | there is no rollback: on such a server, every directory existing before put_r still exists after it, whether it succeeds or fails |
| RecursivePut.RecoveryDirsArePrefixes | ftp.py:193-196 | every directory in the recovery order is a proper prefix of the local path |
| RecursivePut.MkdirTargetsIgnoreRemote | ftp.py:196-200 | the mkdir targets are proper prefixes of the local path, and two recovering runs with the same local path issue the same mkdirs, whatever their remote path, server or state |
| RecursivePut.ReversedChainIsParentFirst | ftp.py:93 | reversing a child-first dirname chain gives a parent-first one |
| RecursivePut.RecoveryDirsReverseAncestors | ftp.py:90-93 | on a single-rooted path, the recovery order is the source's collected list reversed, element by element |
| RecursivePut.RecoveryDirsRootFirst | ftp.py:93 | for a single-rooted path other than "/", the recovery order starts at "/" and lists each directory right after its parent |
| RecursivePut.MkdirRootFirst | ftp.py:93-95 | the first mkdir issued is mkdir("/"), and each later mkdir targets a child of the previous one |
| RecursivePut.MkdirEachBuildsChain | ftp.py:93-98 | on a server that keeps directories and creates a directory whose parent exists, a parent-first mkdir loop leaves every directory in the order existing |
| RecursivePut.RecoveryCreatesRecoveryDirs | ftp.py:143-148 | on such a server with a root, after a recovery every directory of the recovery order exists |
| RecursivePut.RecoveryCreatesLocalChain | ftp.py:87-99 | on such a server with a root, after a recovery every ancestor of the LOCAL path exists (the remote path's ancestors are not involved) |
| RecursivePut.PutThatAlwaysFailsEscapes | ftp.py:134-148 | when put always raises, put_r on a single-rooted local path always raises, and only after one mkdir per recovery directory and a retry; on other local paths the source never returns, and this describes the corrected walk |
| RecursivePut.ChainFollowsLocalNotRemote | ftp.py:186-201 | uploading /tmp/a.txt to /data/a.txt after a failed put issues exactly put, mkdir("/"), mkdir("/tmp"), put: "/data" is never requested |
| RecursivePut.TransientFailureRecovered | ftp.py:87-99 | a put that fails once (a time-out that only advances the server's world) and then works makes put_r return normally, with the file uploaded |
| RecursivePut.MkdirLoop | ftp.py:143-147 | the imperative `for d in reversed(dirs)` loop with try/except produces the same state and calls as MkdirEach |
| RecursivePut.RecursivePutLoop | ftp.py:134-148 | put_r written with the source's while and for loops computes the same outcome, state and trace as PutR whenever the first put succeeds, and on every single-rooted local path when it fails |

## Left out

- Constructors and session setup (`__init__` of all three classes): network I/O, outside the policy.
- `cd`, `pwd`, `ls`, `get`, `getsize`, `getmtime`, `close`: thin pass-throughs to the backend libraries, unrelated to `put_r`.
- The bodies of `put` and of the library `mkdir`/`mkd` (ftputil, paramiko, ftplib, local file reads): the network and the local filesystem. They are uninterpreted primitives that may fail or change the state however they like. `FTPClient.put` (ftp.py:80-81) passes `self` as an extra first argument to ftputil's `upload`; how ftputil reacts is not part of this model.
- The `print` calls (ftp.py:86, 96, 100, 189): console output. In the source, a failing `print` after a successful first put would also start the recovery. The model assumes printing does not raise.
- Paths other than `str`: `local` and `remote` are modelled as Python `str` only. For a `bytes` path, `posixpath.dirname` still reaches `b"/"`, but `b"/" != '/'` always holds. So after a failed put the loop at ftp.py:90 (140, 193) never ends on any `bytes` path, single-rooted ones included. For an `os.PathLike` such as `PurePosixPath`, the path object is never equal to `'/'`, so the first iteration always runs. `PurePosixPath("/")` collects `["/"]` and issues `mkdir("/")`, where the string `"/"` collects nothing. Neither behaviour is modelled.
- Concurrency between clients on one server: other clients, time-outs and dropped connections appear only through the `world` component of the server state, which the primitives may read and advance; no other party changes the directories or files between two calls.
- The abstract base class (ftp.py:13-59) beyond the promise of `put_r` at ftp.py:43-45, and `amqp.py` and `postgres.py`, which do not take part in the upload.
- RecursivePut.PutR: it uses the corrected walk (Lineage) and is total. The source's loop diverges on local paths that are not single-rooted. That divergence is modelled by ParentWalk.BoundedWalk and ParentWalk.WalkDivergesOffRoot. RecursivePutLoop, which follows the source's loops, requires a single-rooted local path only when the first put fails, because only then does the source reach the walk.
- RecursivePut.RecoveryCreatesLocalChain: directory creation is promised only under the stated server assumptions (directories never removed, mkdir succeeds under an existing parent, root present), since the source itself promises nothing about the server.

## Findings

| source | as written | input that shows it | evidently intended | confidence | as-written member | corrected member |
|---|---|---|---|---|---|---|
| ftp.py:90-92 (also 140-142, 193-195) | the walk stops only when dirname reaches "/"; dirname of a relative path ends at "" and of a path starting with two or more separators at that run of separators ("//", "///", ...), all fixed points, so the loop appends forever and never reaches the upload retry | `put_r("a.txt", "x")` after a failing put (also `"//tmp/a.txt"`, `"///x"`) | stop when dirname reaches a fixed point, which gives the same list wherever the original stops | high, not executed | ParentWalk.WalkDivergesOffRoot | ParentWalk.LineageMatchesSourceWalk |
