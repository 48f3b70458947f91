# File-versioning monitor and singleton cache: a Dafny model

This project models two parts of the design-patterns repository.

**The file-versioning engine.** It exists twice, once in C++ (`monitor-cpp/main.cpp`) and once in Go (`monitor-golang/monitor.go`). Each program watches an input directory. When a file is new or its modification time has changed, the program hashes it with SHA-256 and copies it into a backup directory as `name + "_" + hexdigest`. Each program also offers two one-shot modes: `--list <file>` prints the digest suffixes stored for a file, and `--revert <file> <partial-hash>` restores the first snapshot whose suffix starts with the partial hash. The model covers:

- the hex rendering of the digest;
- listing and restoring;
- the argument dispatch and its exit status;
- one pass of the monitoring loop: the C++ `directory_iterator` body, or the Go `WalkDir` callback.

**The singleton demo.** `CacheWithSingleton` is a string-to-string cache over one map. `ServiceLocator<T>` is a lazily created, single registry of services by name.

Modules:

- `Common`: `Option` and `Result`.
- `FsModel`: directories as the sequence of entries their enumeration yields; `Put` (create or truncate, then write); `Find`/`Lookup`.
- `HexEncoding`: the lowercase, zero-padded hex rendering, its inverse, and the rendering loop.
- `BackupStore`: snapshot names, listing (`Versions`), the first restore match (`FirstMatch`), and content addressing.
- `Watch`: the state of one poll (`PollState`), shared by both monitors.
- `Commands`: the modes and the command lines that select them.
- `MonitorCpp`, `MonitorGo`: each program's operations. Each also has one poll pass as a spec function (`Step`, `PollAll`) and a `Monitor` class whose `Visit`/`Poll` methods update the record and the backup directory in place, proved equal to those functions.
- `CacheWithSingleton`, `ServiceLocatorModel`: the classes of the singleton example.
- `SingletonDemo`: the demo's client sequence.

Environment inputs are parameters of the model:

- SHA-256 is a function `sha: Bytes -> Digest` with 32-byte results.
- Whether a destination can be written is `canWrite: string -> bool`. It is false for a name held by a directory, since `copy_file` and `os.Create` fail there.
- The modification time given to newly written files is `now`.
- Times are an abstract type that only supports equality.
- A file that cannot be opened has `content == None`.

The two programs differ in ways the model keeps apart:

- The Go program exits 0 even for an invalid argument list or a missing input directory, where the C++ program exits 1.
- The Go program stops only when the input path does not exist. A path that exists but is not a directory passes its check; the C++ program rejects it.
- The Go monitor walks the input directory recursively and keys its record by basename, so same-named files in different sub-folders share one record. The C++ monitor looks only at the files directly inside the directory.
- The C++ monitor advances the record only after a successful copy. The Go monitor advances it whether or not the copy succeeded, but not when hashing fails.
- In C++, a restore whose `copy_file` throws ends the program through the uncaught exception, so `main` returns no status. Go ignores the copy's errors.

Both programs select their modes with the same arguments: `--help`, `--list <file>` and `--revert <file> <partial-hash>`.

## Model

| member | source | states |
|---|---|---|
| HexEncoding.Hex | monitor-cpp/main.cpp:32-33 | A rendering has two characters per byte, and every character is a lowercase hex digit. |
| HexEncoding.HexAt | monitor-cpp/main.cpp:32-33 | Byte i is rendered at positions 2i and 2i+1, high nibble first and zero-padded. |
| HexEncoding.RenderHex | monitor-cpp/main.cpp:32-35 | The loop that appends two digits per digest byte produces exactly `Hex` of the digest. |
| HexEncoding.UnhexHex | monitor-cpp/main.cpp:29-35 | Every rendering is a hex text that decodes back to the original bytes. |
| HexEncoding.HexUnhex | monitor-cpp/main.cpp:29-35 | Every lowercase hex text of even length is the rendering of the bytes it decodes to. |
| HexEncoding.HexInjective | monitor-cpp/main.cpp:29-35 | Distinct digests have distinct renderings. |
| MonitorCpp.ComputeHash | monitor-cpp/main.cpp:14-36 | The result is "" for a file that cannot be opened. Otherwise it is 64 characters that decode back to the file's SHA-256 digest. |
| MonitorCpp.ListHashes | monitor-cpp/main.cpp:57-77 | The result is the suffixes after `base + "_"` of the regular backup files whose names start with it, in enumeration order. A suffix is listed iff some such file carries it. The result is empty iff no such file exists. |
| BackupStore.Versions | monitor-cpp/main.cpp:60-68 | Listing yields at most one suffix per entry. |
| BackupStore.VersionsComplete | monitor-golang/monitor.go:72-84 | A suffix is listed iff a selected entry named `base + "_" + suffix` exists (both directions). |
| BackupStore.VersionsEmpty | monitor-cpp/main.cpp:70-71 | The "no version found" case occurs iff no selected entry is a version of the base. |
| BackupStore.SnapshotName | monitor-cpp/main.cpp:145 | A snapshot name starts with `base + "_"`, and the digest is recovered exactly as the suffix after it. |
| BackupStore.SnapshotIsListed | monitor-cpp/main.cpp:63-65 | A selected backup file named `base + "_" + h` is listed for `base` with suffix exactly `h`. |
| BackupStore.SeparatorInBaseIsAmbiguous | monitor-cpp/main.cpp:44-45 | Prefix matching takes a snapshot of `a_b` for a snapshot of `a`, with suffix `b_<hash>`. |
| BackupStore.FirstMatch | monitor-cpp/main.cpp:41-47 | The match returned is a version of the base whose suffix starts with the partial hash, and no earlier entry matches. None means no entry matches. |
| BackupStore.PutKeepsContentAddressed | monitor-cpp/main.cpp:144-148 | Writing data under the name built from its digest keeps every readable top-level snapshot named by its own digest. |
| FsModel.Find | monitor-cpp/main.cpp:47 | The position found is the first top-level entry with the name, or the end of the directory. |
| FsModel.Put | monitor-cpp/main.cpp:145-148 | After the write the name holds exactly the new bytes. Every other name opens as before, other entries keep their places, and the directory grows by at most one entry. |
| FsModel.FirstWalkError | monitor-golang/monitor.go:72-75 | The position found is the first entry the walk reports an error for, or the end of the directory. |
| MonitorCpp.RestoreByHash | monitor-cpp/main.cpp:39-54 | With no match the input directory is unchanged and the outcome is "not found". Otherwise the first match is copied over `input/base` and reported. A copy that cannot read the snapshot or write the target ends the program, leaving the input unchanged. |
| MonitorCpp.Dispatch | monitor-cpp/main.cpp:97-131 | The mode `main` runs for a directory state and argument list. Its properties are the lemmas `DispatchCommandLine`, `DispatchOnlyCommandLine` and `ExitsWithError`. |
| MonitorCpp.ExitStatus | monitor-cpp/main.cpp:97-131 | The status `main` returns for a mode: 1 for an invalid directory or a bad argument list, 0 for help, list and a revert whose restore returns, none for monitoring or a throwing restore. Its properties are the lemmas `ExitsWithError` and `RevertStatus`. |
| MonitorCpp.DispatchCommandLine | monitor-cpp/main.cpp:105-131 | Each of `--help`, `--revert b h`, `--list b` and the empty argument list selects its own mode. |
| MonitorCpp.DispatchOnlyCommandLine | monitor-cpp/main.cpp:97-131 | A mode is selected only by its own command line. Monitoring runs iff the directory is valid and there are no arguments. An invalid directory wins over every argument list. |
| MonitorCpp.ExitsWithError | monitor-cpp/main.cpp:97-131 | Whatever a revert's restore did, the exit status is 1 iff the directory is invalid, or there are arguments that form no command line. |
| MonitorCpp.RevertStatus | monitor-cpp/main.cpp:112-117 | A revert exits 0 when its restore returns, whether found or not. It returns no status when `copy_file` throws. |
| MonitorCpp.Step | monitor-cpp/main.cpp:139-155 | The loop body for one entry. Its properties are the lemmas `FailureIsIsolated`, `RecordMovesOnlyWithSnapshot` and `ChangedIsSaved`, and `Monitor.Visit` is proved equal to it. |
| MonitorCpp.PollAll | monitor-cpp/main.cpp:138-156 | One pass of the directory iterator. Its properties are the lemmas below, from `PollAllConcat` to `ChangedIsSaved`, and `Monitor.Poll` is proved equal to it. |
| MonitorCpp.PollAllConcat | monitor-cpp/main.cpp:138-156 | A pass over two runs of entries is the pass over the first, then over the second. |
| MonitorCpp.FailureIsIsolated | monitor-cpp/main.cpp:147-153 | A file whose copy fails leaves the pass exactly as if the file were absent: no snapshot, no record change, no message. |
| MonitorCpp.SettledPollIsNoOp | monitor-cpp/main.cpp:139-153 | A pass changes nothing when every regular file is either recorded with its current time or one whose copy fails. |
| MonitorCpp.UnchangedPollIsNoOp | monitor-cpp/main.cpp:139-143 | A pass where every regular file is recorded with its current time changes nothing. |
| MonitorCpp.PollSettles | monitor-cpp/main.cpp:139-153 | After any pass over uniquely named files, each regular file is recorded with its current time or is one whose copy fails. |
| MonitorCpp.PollBringsUpToDate | monitor-cpp/main.cpp:143-150 | When basenames are unique and every copy succeeds, a pass records every regular file with its current time. |
| MonitorCpp.PollIsIdempotent | monitor-cpp/main.cpp:139-153 | With unique basenames, a second pass with no change in between copies nothing and changes nothing, whether or not copies failed in the first. |
| MonitorCpp.PollKeepsContentAddressed | monitor-cpp/main.cpp:144-148 | A pass keeps every snapshot named by the digest of its content. |
| MonitorCpp.SavedAreStored | monitor-cpp/main.cpp:148-149 | If every destination announced before the pass is stored, then after the pass every announced destination, old or new, is a regular file of the backup directory. |
| MonitorCpp.SavedIsListed | monitor-cpp/main.cpp:145-149 | A saved snapshot of `base` with digest `h` is then listed for `base` with suffix `h`. |
| MonitorCpp.RecordMovesOnlyWithSnapshot | monitor-cpp/main.cpp:145-153 | The record of a name `n` moves only when `SnapshotName(n, h)` is announced in the same pass for some digest text `h`, and earlier announcements are kept. |
| BackupStore.SnapshotNameDeterminesBase | monitor-cpp/main.cpp:145 | Two snapshot names with hashes of one length are equal only if their bases are. |
| MonitorCpp.OtherNamesLeaveAlone | monitor-cpp/main.cpp:139-153 | Files with other basenames leave the record of `n` and the backup entry `n + "_" + h` (for a 64-digit `h`) unchanged. |
| MonitorCpp.ChangedIsSaved | monitor-cpp/main.cpp:143-150 | With unique basenames, every regular file that is unrecorded or has a new time and can be copied has its snapshot announced. At the end of the pass the backup holds that snapshot as a regular file with the file's content. |
| MonitorCpp.Monitor.constructor | monitor-cpp/main.cpp:134 | The record of last-seen times starts empty. |
| MonitorCpp.Monitor.Visit | monitor-cpp/main.cpp:139-155 | One entry: the new record, backup directory and announcements equal `Step` of the old ones. |
| MonitorCpp.Monitor.Poll | monitor-cpp/main.cpp:138-156 | One pass of the loop: the new record, backup directory and announcements equal `PollAll` of the old ones over the enumeration. |
| MonitorGo.ComputeHash | monitor-golang/monitor.go:19-30 | The result is an error iff the file cannot be opened or read. Otherwise it is 64 characters that decode back to the file's SHA-256 digest. |
| MonitorGo.ListHashes | monitor-golang/monitor.go:69-94 | The result is the suffixes of the non-directory versions of the base met before the first walk error, in walk order. A suffix is listed iff such an entry carries it. Without walk errors, the result is empty iff there is no version. |
| MonitorGo.RestoreByHash | monitor-golang/monitor.go:34-66 | The first matching non-directory entry before any walk error is restored over `input/base` when the target can be created; an unreadable snapshot leaves the target empty. With no match the input is unchanged, and the outcome is the walk's error if the walk stopped early, else "not found". |
| MonitorGo.Dispatch | monitor-golang/monitor.go:110-113 | The invalid-directory exit is taken iff the input path does not exist. |
| MonitorGo.DispatchCommandLine | monitor-golang/monitor.go:118-141 | Each runnable mode is selected by its own command line whenever the input path exists, directory or not. |
| MonitorGo.DispatchOnlyCommandLine | monitor-golang/monitor.go:118-141 | Help, Revert and List are chosen only by their own command lines. Monitoring runs iff the input path exists and there are no arguments. The usage text is shown iff the path exists and the arguments form no command line. |
| MonitorGo.ExitStatus | monitor-golang/monitor.go:109-141 | The status `main` returns for a mode: 0 for every mode except monitoring, which never returns. Its property is `NeverExitsWithError`. |
| MonitorGo.NeverExitsWithError | monitor-golang/monitor.go:109-141 | No invocation exits with status 1. |
| MonitorGo.Step | monitor-golang/monitor.go:148-172 | The `WalkDir` callback for one entry. Its properties are the lemmas `FailureIsIsolated`, `FailedCopyIsNotRetried` and `ChangedIsSaved`, and `Monitor.Visit` is proved equal to it. |
| MonitorGo.PollAll | monitor-golang/monitor.go:148-173 | One walk of the input directory. Its properties are the lemmas below, from `PollAllConcat` to `ChangedIsSaved`, and `Monitor.Poll` is proved equal to it. |
| MonitorGo.PollAllConcat | monitor-golang/monitor.go:148-173 | A walk over two runs of entries is the walk over the first, then over the second. |
| MonitorGo.FailureIsIsolated | monitor-golang/monitor.go:149-161 | A walk error, a directory, or a file that cannot be hashed leaves the walk exactly as if the entry were absent. |
| MonitorGo.SettledPollIsNoOp | monitor-golang/monitor.go:156-161 | A walk changes nothing when every non-directory is either recorded with its current time or cannot be hashed. |
| MonitorGo.UnchangedPollIsNoOp | monitor-golang/monitor.go:156 | A walk where every non-directory is recorded with its current time changes nothing. |
| MonitorGo.PollSettles | monitor-golang/monitor.go:156-169 | After any walk over uniquely named files, each non-directory is recorded with its current time or cannot be hashed. |
| MonitorGo.PollBringsUpToDate | monitor-golang/monitor.go:156-169 | When every file can be hashed and basenames are unique, a walk records every file with its time, copied or not. |
| MonitorGo.PollIsIdempotent | monitor-golang/monitor.go:148-173 | With unique basenames, a second walk with no change in between announces nothing and changes nothing, whether or not hashing failed in the first. |
| MonitorGo.SharedRecordRepolls | monitor-golang/monitor.go:152-169 | Two same-named files in different sub-folders with different times are announced again on every walk, because the record is keyed by basename. |
| MonitorGo.FailedCopyIsNotRetried | monitor-golang/monitor.go:162-169 | A copy that fails leaves the backup unchanged, is still announced, and moves the record, so the next walk does not retry it. |
| MonitorGo.PollKeepsContentAddressed | monitor-golang/monitor.go:157-167 | A walk keeps every snapshot named by the digest of its content. |
| MonitorGo.AnnouncementsKept | monitor-golang/monitor.go:168 | A walk only appends to the destinations announced as saved. |
| MonitorGo.OtherNamesLeaveAlone | monitor-golang/monitor.go:152-169 | Entries with other basenames leave the record of `n` and the backup entry `n + "_" + h` (for a 64-digit `h`) unchanged. |
| MonitorGo.ChangedIsSaved | monitor-golang/monitor.go:156-169 | With unique basenames, every non-directory that is unrecorded or has a new time, can be hashed, and whose destination can be created has its snapshot announced. At the end of the walk the backup holds that snapshot as a regular file with the entry's content. |
| MonitorGo.Monitor.constructor | monitor-golang/monitor.go:144 | The record of last-seen times starts empty. |
| MonitorGo.Monitor.Visit | monitor-golang/monitor.go:148-172 | The callback for one entry: the new record, backup directory and announcements equal `Step` of the old ones. |
| MonitorGo.Monitor.Poll | monitor-golang/monitor.go:148-173 | One walk: the new record, backup directory and announcements equal `PollAll` of the old ones over the walk order. |
| Commands.CommandLine | monitor-cpp/main.cpp:106-127 | The command line for a mode starts with the program name. |
| CacheWithSingleton.Cache.constructor | singleton/src/cacheWithSingleton.cpp:3 | A new cache is empty. |
| CacheWithSingleton.Cache.Put | singleton/src/cacheWithSingleton.cpp:5-7 | The key maps to the new value afterwards (overwriting any old one), and every other key keeps its value. |
| CacheWithSingleton.Cache.Get | singleton/src/cacheWithSingleton.cpp:9-12 | The stored value for a present key, "" for an absent one; the cache is not changed. |
| CacheWithSingleton.Cache.Remove | singleton/src/cacheWithSingleton.cpp:14-16 | The key is absent afterwards, removing an absent key changes nothing, and every other key keeps its value. |
| CacheWithSingleton.Cache.Clear | singleton/src/cacheWithSingleton.cpp:18-20 | The cache is empty afterwards, so every lookup yields "". |
| ServiceLocatorModel.ServiceLocator.constructor | singleton/include/serviceLocator.h:14 | A new locator has no services. |
| ServiceLocatorModel.ServiceLocator.RegisterService | singleton/include/serviceLocator.h:25-27 | The name maps to the new service, replacing any previous one, and every other name keeps its service. |
| ServiceLocatorModel.ServiceLocator.GetService | singleton/include/serviceLocator.h:29-35 | The stored service iff the name is registered, the "Service not found" error otherwise; the registry is not changed. |
| ServiceLocatorModel.LocatorSlot.constructor | singleton/include/serviceLocator.h:39-40 | The static instance starts as null. |
| ServiceLocatorModel.LocatorSlot.GetInstance | singleton/include/serviceLocator.h:18-23 | The first call creates an empty locator; every later call returns that same locator. |
| SingletonDemo.Run | singleton/main.cpp:19-30 | Two lookups of "cache" yield the same object, so a value put through the first is read back through the second. |

## Left out

- SHA-256 itself (OpenSSL in C++, `crypto/sha256` in Go) is a foreign library. It is a parameter with 32-byte results, and nothing is assumed about collisions. The 4096-byte chunked streaming into the hash context is left out with it.
- Real filesystem I/O is left out: directory enumeration, `copy_file`, `os.Create`/`io.Copy`, `last_write_time`/`os.Stat`. The model uses directories as entry sequences, a `canWrite` parameter for whether a destination can be written, and an abstract time type.
- `create_directories` / `os.MkdirAll` of the backup directory is left out: the backup directory is an input.
- The infinite monitoring loops and the 2-second sleep are left out. One pass (`Poll`) is modelled; repeating it is timing.
- Console output and the help text are left out. Their effects appear as the returned mode, the outcome value, the exit status and the list of announced destinations.
- MonitorCpp.PollKeepsContentAddressed, MonitorGo.PollKeepsContentAddressed: the race between hashing and copying is not modelled. Both programs read a file twice: they hash it (main.cpp:144, monitor.go:157) and then copy it (main.cpp:148, monitor.go:163-167). The model fixes each file's content for the whole pass, so a file that changes in between is always stored under its own digest. In Go, a file that becomes unreadable in between leaves an empty snapshot under the old digest.
- A read error part-way through a C++ copy or hash is not distinguished from a file that cannot be opened.
- The exceptions `directory_iterator` can throw while enumerating are not modelled.
- Go's `os.Stat` failure inside the callback, which would dereference a nil `info`, is not modelled: every walked non-directory has a time.
- Go's lexical walk order is not imposed. The model takes any walk order as the given sequence, and entries of sub-folders carry their basename.
- Files written by a pass are placed last in the enumeration order when they are new. Whether a real directory iterator would visit them later in the same pass is left open.
- `unique_ptr` ownership, the deleted copy operations and the static-member definition are C++ memory management and are not modelled. The static `instance` is a field of a holder object, `LocatorSlot`.
- The other programs of the repository (`threads`, `factoryMethod`, `concepts`) are not part of this model.
