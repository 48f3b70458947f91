/**
  The C++ monitor: hashing, listing, restoring, argument dispatch and one
  pass of the monitoring loop over the watched directory.
*/
module MonitorCpp {
  import opened Common
  import opened FsModel
  import opened HexEncoding
  import opened BackupStore
  import opened Watch
  import opened Commands

  /** What calcular_hash yields: "" when the file cannot be opened, else the hex digest. */
  function DigestText(sha: Bytes -> Digest, content: Option<Bytes>): string {
    match content
    case None => ""
    case Some(data) => Hex(sha(data))
  }

  /** calcular_hash: the digest as 64 lowercase hex digits, or "" for a file that cannot be opened. */
  method ComputeHash(sha: Bytes -> Digest, content: Option<Bytes>) returns (h: string)
    ensures h == DigestText(sha, content)
    ensures content.None? ==> h == ""
    ensures content.Some? ==> |h| == 64 && ReadsBackAs(h, sha(content.value))
  {
    if content.None? {
      return "";
    }
    var digest := sha(content.value);
    h := RenderHex(digest);
    UnhexHex(digest);
  }

  /** listar_hashes: the suffixes of the regular backup files named `base + "_" + ...`, in enumeration order. */
  method ListHashes(backup: Dir, base: string) returns (hashes: seq<string>)
    ensures hashes == Versions(backup, base, RegularOnly)
    ensures forall h :: h in hashes <==>
      exists i :: 0 <= i < |backup| && IsVersionOf(backup[i], base, RegularOnly) && SuffixAfter(backup[i].name, base) == h
    ensures hashes == [] <==> forall i :: 0 <= i < |backup| ==> !IsVersionOf(backup[i], base, RegularOnly)
  {
    hashes := [];
    for i := 0 to |backup|
      invariant hashes == Versions(backup[..i], base, RegularOnly)
    {
      assert backup[..i + 1][..i] == backup[..i];
      var entry := backup[i];
      if entry.kind == RegularFile {
        var nome := entry.name;
        if HasPrefix(nome, base + "_") {
          hashes := hashes + [nome[|base| + 1..]];
        }
      }
    }
    assert backup[..|backup|] == backup;
    forall h {
      VersionsComplete(backup, base, RegularOnly, h);
    }
    VersionsEmpty(backup, base, RegularOnly);
  }

  /**
    restaurar_por_hash: copies the first regular snapshot of `base` whose
    digest starts with `partial` to `input/base` and stops. A copy that
    fails throws out of the program (Aborted); no match leaves the input
    directory as it was.
  */
  method RestoreByHash(backup: Dir, input: Dir, base: string, partial: string, canWrite: string -> bool, now: Time)
    returns (outcome: RestoreOutcome, input': Dir)
    ensures FirstMatch(backup, base, partial, RegularOnly).None? ==> outcome == NotFound && input' == input
    ensures FirstMatch(backup, base, partial, RegularOnly).Some? ==>
      var e := backup[FirstMatch(backup, base, partial, RegularOnly).value];
      if e.content.Some? && canWrite(base) then
        outcome == Restored(e.name) && input' == Put(input, base, e.content.value, now)
      else
        outcome == Aborted(e.name) && input' == input
  {
    for i := 0 to |backup|
      invariant forall j :: 0 <= j < i ==> !Matches(backup[j], base, partial, RegularOnly)
    {
      var entry := backup[i];
      if entry.kind == RegularFile {
        var nome := entry.name;
        if HasPrefix(nome, base + "_") && HasPrefix(nome[|base| + 1..], partial) {
          FirstMatchIs(backup, base, partial, RegularOnly, i);
          // copy_file with overwrite_existing: throws when the snapshot cannot be read or the target written
          if entry.content.Some? && canWrite(base) {
            return Restored(nome), Put(input, base, entry.content.value, now);
          }
          return Aborted(nome), input;
        }
      }
    }
    return NotFound, input;
  }

  /** main's choice of mode: an invalid watched directory first, then the argument count and first argument. */
  function Dispatch(dir: DirState, args: seq<string>): Mode {
    if dir != IsDirectory then BadDirectory
    else if |args| == 2 && args[1] == "--help" then Help
    else if |args| == 4 && args[1] == "--revert" then Revert(args[2], args[3])
    else if |args| == 3 && args[1] == "--list" then List(args[2])
    else if |args| > 1 then Usage
    else Monitor
  }

  /**
    The status main returns for a mode, given what a Revert's restore did.
    None when main does not return: monitoring runs forever, and a restore
    whose copy_file throws ends the program through the uncaught exception.
  */
  function ExitStatus(m: Mode, restore: RestoreOutcome): Option<int> {
    match m
    case BadDirectory => Some(1)
    case Usage => Some(1)
    case Monitor => None
    case Revert(_, _) => if restore.Aborted? then None else Some(0)
    case _ => Some(0)
  }

  /** Each runnable mode is chosen by its own command line. */
  lemma DispatchCommandLine(program: string, m: Mode)
    requires Runnable(m)
    ensures Dispatch(IsDirectory, CommandLine(program, m)) == m
  {
  }

  /** Conversely, a runnable mode is chosen only by its command line (or, for Monitor, by no arguments). */
  lemma DispatchOnlyCommandLine(dir: DirState, args: seq<string>)
    ensures var m := Dispatch(dir, args);
      (m.Help? || m.Revert? || m.List?) ==> args == CommandLine(args[0], m)
    ensures Dispatch(dir, args).Monitor? <==> dir == IsDirectory && |args| <= 1
    ensures Dispatch(dir, args) == BadDirectory <==> dir != IsDirectory
  {
  }

  /** A revert returns 0 when its restore returns, and no status when its copy throws. */
  lemma RevertStatus(program: string, base: string, partial: string, restore: RestoreOutcome)
    ensures ExitStatus(Dispatch(IsDirectory, CommandLine(program, Revert(base, partial))), restore) ==
      if restore.Aborted? then None else Some(0)
  {
  }

  /** The program exits 1 exactly when the directory is invalid or the arguments form no command. */
  lemma {:induction false} ExitsWithError(dir: DirState, args: seq<string>, restore: RestoreOutcome)
    ensures ExitStatus(Dispatch(dir, args), restore) == Some(1) <==>
      dir != IsDirectory || (|args| > 1 && forall m :: Runnable(m) ==> args != CommandLine(args[0], m))
  {
    var m := Dispatch(dir, args);
    if dir == IsDirectory && |args| > 1 && m != Usage {
      DispatchCommandLine(args[0], m);
    }
  }

  /** When copy_file throws while copying this file into the backup directory: it cannot be read, or the destination cannot be written. */
  predicate CopyFails(sha: Bytes -> Digest, canWrite: string -> bool, e: Entry) {
    e.content.None? || !canWrite(SnapshotName(e.name, DigestText(sha, e.content)))
  }

  /**
    One file of the loop body: a regular file whose time differs from the
    record (or that is unrecorded) is hashed and copied to
    `backup/(nome + "_" + hash)`; the record moves to its time only when the
    copy succeeds.
  */
  function Step(sha: Bytes -> Digest, canWrite: string -> bool, now: Time, s: PollState, e: Entry): PollState {
    if e.kind != RegularFile || !Candidate(s.previous, e) then s
    else if CopyFails(sha, canWrite, e) then s
    else
      var dest := SnapshotName(e.name, DigestText(sha, e.content));
      PollState(s.previous[e.name := e.mtime], Put(s.backup, dest, e.content.value, now), s.saved + [dest])
  }

  /** One pass of the directory iterator, file by file in enumeration order. */
  function PollAll(sha: Bytes -> Digest, canWrite: string -> bool, now: Time, s: PollState, es: Dir): PollState {
    if es == [] then s
    else Step(sha, canWrite, now, PollAll(sha, canWrite, now, s, es[..|es| - 1]), es[|es| - 1])
  }

  lemma {:induction false} PollAllConcat(sha: Bytes -> Digest, canWrite: string -> bool, now: Time, s: PollState, a: Dir, b: Dir)
    ensures PollAll(sha, canWrite, now, s, a + b) == PollAll(sha, canWrite, now, PollAll(sha, canWrite, now, s, a), b)
  {
    if b == [] {
      assert a + b == a;
    } else {
      PollAllConcat(sha, canWrite, now, s, a, b[..|b| - 1]);
      assert (a + b)[..|a + b| - 1] == a + b[..|b| - 1];
    }
  }

  /** Failures are handled per file: a file whose copy fails leaves the pass exactly as if it were absent. */
  lemma FailureIsIsolated(sha: Bytes -> Digest, canWrite: string -> bool, now: Time, s: PollState, a: Dir, f: Entry, b: Dir)
    requires CopyFails(sha, canWrite, f)
    ensures PollAll(sha, canWrite, now, s, a + [f] + b) == PollAll(sha, canWrite, now, s, a + b)
  {
    PollAllConcat(sha, canWrite, now, s, a + [f], b);
    PollAllConcat(sha, canWrite, now, s, a, [f]);
    PollAllConcat(sha, canWrite, now, s, a, b);
    assert [f][..0] == [];
  }

  /** Every regular file is either recorded with its current time or one whose copy fails. */
  predicate Settled(sha: Bytes -> Digest, canWrite: string -> bool, previous: map<string, Time>, es: Dir) {
    forall i :: 0 <= i < |es| && es[i].kind == RegularFile ==>
      !Candidate(previous, es[i]) || CopyFails(sha, canWrite, es[i])
  }

  /** A pass from a settled record changes nothing: each file is either unchanged or fails again. */
  lemma {:induction false} SettledPollIsNoOp(sha: Bytes -> Digest, canWrite: string -> bool, now: Time, s: PollState, es: Dir)
    requires Settled(sha, canWrite, s.previous, es)
    ensures PollAll(sha, canWrite, now, s, es) == s
  {
    if es != [] {
      var init := es[..|es| - 1];
      assert forall i :: 0 <= i < |init| ==> init[i] == es[i];
      SettledPollIsNoOp(sha, canWrite, now, s, init);
    }
  }

  /** A pass over a directory in which nothing changed since the record does nothing. */
  lemma UnchangedPollIsNoOp(sha: Bytes -> Digest, canWrite: string -> bool, now: Time, s: PollState, es: Dir)
    requires UpToDate(s.previous, es, RegularOnly)
    ensures PollAll(sha, canWrite, now, s, es) == s
  {
    SettledPollIsNoOp(sha, canWrite, now, s, es);
  }

  /** Whatever fails, a pass over uniquely named files leaves a settled record. */
  lemma {:induction false} PollSettles(sha: Bytes -> Digest, canWrite: string -> bool, now: Time, s: PollState, es: Dir)
    requires UniqueNames(es, RegularOnly)
    ensures Settled(sha, canWrite, PollAll(sha, canWrite, now, s, es).previous, es)
  {
    if es != [] {
      var init := es[..|es| - 1];
      PollSettles(sha, canWrite, now, s, init);
      var mid := PollAll(sha, canWrite, now, s, init);
      var r := Step(sha, canWrite, now, mid, es[|es| - 1]);
      forall i | 0 <= i < |es| && es[i].kind == RegularFile
        ensures !Candidate(r.previous, es[i]) || CopyFails(sha, canWrite, es[i])
      {
        if i < |es| - 1 {
          assert init[i] == es[i];
          assert !Candidate(mid.previous, es[i]) || CopyFails(sha, canWrite, es[i]);
        }
      }
    }
  }

  /** When every copy succeeds, a pass records every regular file of a directory with its current time. */
  lemma {:induction false} PollBringsUpToDate(sha: Bytes -> Digest, canWrite: string -> bool, now: Time, s: PollState, es: Dir)
    requires UniqueNames(es, RegularOnly)
    requires forall i :: 0 <= i < |es| && es[i].kind == RegularFile ==> !CopyFails(sha, canWrite, es[i])
    ensures UpToDate(PollAll(sha, canWrite, now, s, es).previous, es, RegularOnly)
  {
    if es != [] {
      var init := es[..|es| - 1];
      PollBringsUpToDate(sha, canWrite, now, s, init);
      var mid := PollAll(sha, canWrite, now, s, init);
      var r := Step(sha, canWrite, now, mid, es[|es| - 1]);
      forall i | 0 <= i < |es| && es[i].kind == RegularFile
        ensures !Candidate(r.previous, es[i])
      {
        if i < |es| - 1 {
          assert init[i] == es[i];
          assert !Candidate(mid.previous, es[i]);
        }
      }
    }
  }

  /** A second pass with no change in between copies nothing and changes nothing, even where copies failed. */
  lemma PollIsIdempotent(sha: Bytes -> Digest, canWrite: string -> bool, now: Time, now': Time, s: PollState, es: Dir)
    requires UniqueNames(es, RegularOnly)
    ensures var first := PollAll(sha, canWrite, now, s, es);
      PollAll(sha, canWrite, now', first, es) == first
  {
    PollSettles(sha, canWrite, now, s, es);
    SettledPollIsNoOp(sha, canWrite, now', PollAll(sha, canWrite, now, s, es), es);
  }

  /** A pass keeps every snapshot named by the digest of its content. */
  lemma {:induction false} PollKeepsContentAddressed(sha: Bytes -> Digest, canWrite: string -> bool, now: Time, s: PollState, es: Dir)
    requires ContentAddressed(sha, s.backup)
    ensures ContentAddressed(sha, PollAll(sha, canWrite, now, s, es).backup)
  {
    if es != [] {
      PollKeepsContentAddressed(sha, canWrite, now, s, es[..|es| - 1]);
      var mid := PollAll(sha, canWrite, now, s, es[..|es| - 1]);
      var e := es[|es| - 1];
      if e.content.Some? {
        PutKeepsContentAddressed(sha, mid.backup, e.name, e.content.value, now);
      }
    }
  }

  /** The name is a regular file directly inside the directory. */
  predicate Stored(d: Dir, name: string) {
    Lookup(d, name).Some? && Lookup(d, name).value.kind == RegularFile
  }

  /** Every destination announced as saved is a regular file of the backup directory afterwards. */
  lemma {:induction false} SavedAreStored(sha: Bytes -> Digest, canWrite: string -> bool, now: Time, s: PollState, es: Dir)
    requires forall n :: n in s.saved ==> Stored(s.backup, n)
    ensures forall n :: n in PollAll(sha, canWrite, now, s, es).saved ==> Stored(PollAll(sha, canWrite, now, s, es).backup, n)
  {
    if es != [] {
      var mid := PollAll(sha, canWrite, now, s, es[..|es| - 1]);
      SavedAreStored(sha, canWrite, now, s, es[..|es| - 1]);
      assert forall n :: n in mid.saved ==> Stored(mid.backup, n);
      var r := Step(sha, canWrite, now, mid, es[|es| - 1]);
      if r != mid {
        var dest := r.saved[|r.saved| - 1];
        assert r.backup == Put(mid.backup, dest, es[|es| - 1].content.value, now);
        forall n | n in r.saved
          ensures Stored(r.backup, n)
        {
          if n != dest {
            assert n in mid.saved;
            assert Stored(mid.backup, n);
            assert Lookup(r.backup, n) == Lookup(mid.backup, n);
          } else {
            assert Lookup(r.backup, dest).Some?;
          }
        }
      }
    }
  }

  /** A saved snapshot of `base` is listed for `base`. */
  lemma SavedIsListed(sha: Bytes -> Digest, canWrite: string -> bool, now: Time, s: PollState, es: Dir, base: string, hash: string)
    requires forall n :: n in s.saved ==> Stored(s.backup, n)
    requires SnapshotName(base, hash) in PollAll(sha, canWrite, now, s, es).saved
    ensures hash in Versions(PollAll(sha, canWrite, now, s, es).backup, base, RegularOnly)
  {
    SavedAreStored(sha, canWrite, now, s, es);
    var backup := PollAll(sha, canWrite, now, s, es).backup;
    SnapshotIsListed(backup, Find(backup, SnapshotName(base, hash)), base, hash, RegularOnly);
  }

  /** The record of a name only moves when a snapshot of that name was saved in the same pass. */
  lemma {:induction false} RecordMovesOnlyWithSnapshot(sha: Bytes -> Digest, canWrite: string -> bool, now: Time, s: PollState, es: Dir, n: string)
    ensures |s.saved| <= |PollAll(sha, canWrite, now, s, es).saved|
    ensures PollAll(sha, canWrite, now, s, es).saved[..|s.saved|] == s.saved
    ensures var r := PollAll(sha, canWrite, now, s, es);
      n in r.previous && !(n in s.previous && s.previous[n] == r.previous[n]) ==>
        exists k, h :: |s.saved| <= k < |r.saved| && r.saved[k] == SnapshotName(n, h)
  {
    if es != [] {
      RecordMovesOnlyWithSnapshot(sha, canWrite, now, s, es[..|es| - 1], n);
      var mid := PollAll(sha, canWrite, now, s, es[..|es| - 1]);
      var r := Step(sha, canWrite, now, mid, es[|es| - 1]);
      if r != mid {
        assert r.saved[..|mid.saved|] == mid.saved;
        assert forall k :: |s.saved| <= k < |mid.saved| ==> r.saved[k] == mid.saved[k];
        var e := es[|es| - 1];
        assert r.saved[|mid.saved|] == SnapshotName(e.name, DigestText(sha, e.content));
      }
    }
  }

  /**
    Files named other than `n` leave the record of `n` and its snapshot for
    a 64-digit hash alone.
  */
  lemma {:induction false} OtherNamesLeaveAlone(sha: Bytes -> Digest, canWrite: string -> bool, now: Time, s: PollState, es: Dir, n: string, h: string)
    requires |h| == 64
    requires forall j :: 0 <= j < |es| && es[j].kind == RegularFile ==> es[j].name != n
    ensures var r := PollAll(sha, canWrite, now, s, es);
      (n in r.previous <==> n in s.previous) && (n in s.previous ==> r.previous[n] == s.previous[n])
    ensures Lookup(PollAll(sha, canWrite, now, s, es).backup, SnapshotName(n, h)) == Lookup(s.backup, SnapshotName(n, h))
  {
    if es != [] {
      OtherNamesLeaveAlone(sha, canWrite, now, s, es[..|es| - 1], n, h);
      var e := es[|es| - 1];
      if e.content.Some? {
        SnapshotNameDeterminesBase(e.name, DigestText(sha, e.content), n, h);
      }
    }
  }

  /**
    A pass saves every regular file that differs from the record and can be
    copied: its snapshot is announced and holds the file's content at the
    end of the pass.
  */
  lemma ChangedIsSaved(sha: Bytes -> Digest, canWrite: string -> bool, now: Time, s: PollState, es: Dir, i: nat)
    requires UniqueNames(es, RegularOnly)
    requires i < |es| && es[i].kind == RegularFile && Candidate(s.previous, es[i]) && !CopyFails(sha, canWrite, es[i])
    ensures var r := PollAll(sha, canWrite, now, s, es);
      var dest := SnapshotName(es[i].name, Hex(sha(es[i].content.value)));
      dest in r.saved && Lookup(r.backup, dest) == Some(Entry("", dest, RegularFile, now, es[i].content))
  {
    var e := es[i];
    var h := Hex(sha(e.content.value));
    var dest := SnapshotName(e.name, h);
    var a, b := es[..i], es[i + 1..];
    assert es == (a + [e]) + b;
    PollAllConcat(sha, canWrite, now, s, a + [e], b);
    assert (a + [e])[..|a + [e]| - 1] == a;
    var mid := PollAll(sha, canWrite, now, s, a);
    OtherNamesLeaveAlone(sha, canWrite, now, s, a, e.name, h);
    var after := Step(sha, canWrite, now, mid, e);
    assert after.saved[|after.saved| - 1] == dest;
    OtherNamesLeaveAlone(sha, canWrite, now, after, b, e.name, h);
    RecordMovesOnlyWithSnapshot(sha, canWrite, now, after, b, e.name);
    var r := PollAll(sha, canWrite, now, after, b);
    assert r.saved[|after.saved| - 1] == dest;
  }

  /** The monitoring loop's state: the record of last-seen times and the backup directory. */
  class Monitor {
    const sha: Bytes -> Digest
    var previous: map<string, Time>
    var backup: Dir

    /** The record starts empty on every start of the program. */
    constructor (sha: Bytes -> Digest, backup: Dir)
      ensures this.sha == sha && previous == map[] && this.backup == backup
    {
      this.sha := sha;
      previous := map[];
      this.backup := backup;
    }

    /** The loop body for one directory entry. */
    method Visit(entry: Entry, canWrite: string -> bool, now: Time, saved: seq<string>) returns (saved': seq<string>)
      modifies this
      ensures PollState(previous, backup, saved') == Step(sha, canWrite, now, PollState(old(previous), old(backup), saved), entry)
    {
      saved' := saved;
      if entry.kind == RegularFile {
        var nome := entry.name;
        var modTime := entry.mtime;
        if nome !in previous || previous[nome] != modTime {
          var hash := ComputeHash(sha, entry.content);
          var destino := SnapshotName(nome, hash);
          assert destino == SnapshotName(entry.name, DigestText(sha, entry.content));
          // copy_file throws when the file cannot be read or the destination written
          if entry.content.Some? && canWrite(destino) {
            backup := Put(backup, destino, entry.content.value, now);
            saved' := saved' + [destino];
            previous := previous[nome := modTime];
          }
        }
      }
    }

    /** One iteration of the `while (true)` loop: the directory_iterator pass, without the sleep. */
    method Poll(input: Dir, canWrite: string -> bool, now: Time) returns (saved: seq<string>)
      modifies this
      ensures PollState(previous, backup, saved) ==
        PollAll(sha, canWrite, now, PollState(old(previous), old(backup), []), input)
    {
      saved := [];
      ghost var start := PollState(previous, backup, []);
      for i := 0 to |input|
        invariant PollState(previous, backup, saved) == PollAll(sha, canWrite, now, start, input[..i])
      {
        assert input[..i + 1][..i] == input[..i];
        saved := Visit(input[i], canWrite, now, saved);
      }
      assert input[..|input|] == input;
    }
  }
}
