/**
  The Go monitor: the same engine over filepath.WalkDir, which walks
  recursively, hands walk errors to its callback and looks at every entry
  that is not a directory.
*/
module MonitorGo {
  import opened Common
  import opened FsModel
  import opened HexEncoding
  import opened BackupStore
  import opened Watch
  import opened Commands

  /** The error calcularHash returns when os.Open or io.Copy fails. */
  datatype HashError = Unreadable

  /** calcularHash: the lowercase hex digest, or "" with an error when the file cannot be opened or read. */
  function ComputeHash(sha: Bytes -> Digest, content: Option<Bytes>): (r: Result<string, HashError>)
    ensures r.Failure? <==> content.None?
    ensures r.Success? ==> |r.value| == 64 && ReadsBackAs(r.value, sha(content.value))
  {
    match content
    case None => Failure(Unreadable)
    case Some(data) =>
      UnhexHex(sha(data));
      Success(Hex(sha(data)))
  }

  /**
    listarHashes: the suffixes of the non-directory entries named
    `base + "_" + ...`, in walk order. The callback returns the walk's error,
    which stops the walk; what was collected before it is still printed.
  */
  method ListHashes(backup: Dir, base: string) returns (hashes: seq<string>)
    ensures hashes == Versions(backup[..FirstWalkError(backup)], base, NonDirectory)
    ensures forall h :: h in hashes <==>
      exists i :: 0 <= i < FirstWalkError(backup) && IsVersionOf(backup[i], base, NonDirectory) && SuffixAfter(backup[i].name, base) == h
    ensures FirstWalkError(backup) == |backup| ==> (hashes == [] <==> forall i :: 0 <= i < |backup| ==> !IsVersionOf(backup[i], base, NonDirectory))
  {
    hashes := [];
    var i := 0;
    while i < |backup| && backup[i].kind != WalkError
      invariant 0 <= i <= FirstWalkError(backup)
      invariant hashes == Versions(backup[..i], base, NonDirectory)
    {
      assert backup[..i + 1][..i] == backup[..i];
      var d := backup[i];
      if d.kind != Directory {
        var nome := d.name;
        if HasPrefix(nome, base + "_") {
          hashes := hashes + [nome[|base| + 1..]];
        }
      }
      i := i + 1;
    }
    assert i == FirstWalkError(backup);
    WalkedVersions(backup, base);
  }

  /** Listing and emptiness for the entries a walk reaches before its first error. */
  lemma WalkedVersions(backup: Dir, base: string)
    ensures forall h :: h in Versions(backup[..FirstWalkError(backup)], base, NonDirectory) <==>
      exists i :: 0 <= i < FirstWalkError(backup) && IsVersionOf(backup[i], base, NonDirectory) && SuffixAfter(backup[i].name, base) == h
    ensures FirstWalkError(backup) == |backup| ==>
      (Versions(backup[..FirstWalkError(backup)], base, NonDirectory) == [] <==> forall i :: 0 <= i < |backup| ==> !IsVersionOf(backup[i], base, NonDirectory))
  {
    var walked := backup[..FirstWalkError(backup)];
    assert forall j :: 0 <= j < |walked| ==> walked[j] == backup[j];
    forall h {
      VersionsComplete(walked, base, NonDirectory, h);
    }
    if FirstWalkError(backup) == |backup| {
      assert walked == backup;
      VersionsEmpty(backup, base, NonDirectory);
    }
  }

  /**
    restaurarPorHash: the first non-directory entry in walk order named
    `base + "_" + suffix` with `suffix` starting with `partial` is copied to
    `input/base`, and the walk stops. The copy's errors are ignored: a
    target that cannot be created stays as it was, and a snapshot that
    cannot be opened leaves the freshly truncated target empty. A walk
    error met before any match ends the restore with an error message.
  */
  method RestoreByHash(backup: Dir, input: Dir, base: string, partial: string, canWrite: string -> bool, now: Time)
    returns (outcome: RestoreOutcome, input': Dir)
    ensures var walked := backup[..FirstWalkError(backup)];
      var m := FirstMatch(walked, base, partial, NonDirectory);
      && (m.Some? ==>
            outcome == Restored(walked[m.value].name) &&
            input' == if canWrite(base) then Put(input, base, walked[m.value].content.GetOr([]), now) else input)
      && (m.None? ==> input' == input && outcome == if |walked| < |backup| then WalkFailed else NotFound)
  {
    for i := 0 to |backup|
      invariant forall j :: 0 <= j < i ==> backup[j].kind != WalkError && !Matches(backup[j], base, partial, NonDirectory)
    {
      var d := backup[i];
      if d.kind == WalkError {
        // the callback returns the error: "Erro ao restaurar"
        assert FirstWalkError(backup) == i;
        assert FirstMatch(backup[..i], base, partial, NonDirectory).None? by {
          assert forall j :: 0 <= j < i ==> backup[..i][j] == backup[j];
        }
        return WalkFailed, input;
      }
      if d.kind != Directory {
        var nome := d.name;
        if HasPrefix(nome, base + "_") && HasPrefix(nome[|base| + 1..], partial) {
          var walked := backup[..FirstWalkError(backup)];
          assert forall j :: 0 <= j <= i ==> walked[j] == backup[j];
          FirstMatchIs(walked, base, partial, NonDirectory, i);
          // os.Create truncates the target; io.Copy from a snapshot that did not open copies nothing
          var restored := if canWrite(base) then Put(input, base, d.content.GetOr([]), now) else input;
          return Restored(nome), restored;
        }
      }
    }
    assert FirstWalkError(backup) == |backup|;
    assert backup[..|backup|] == backup;
    return NotFound, input;
  }

  /** main's choice of mode: only a missing input path stops it, then the argument count and first argument. */
  function Dispatch(dir: DirState, args: seq<string>): (m: Mode)
    ensures m == BadDirectory <==> dir == Missing
  {
    if dir == Missing then BadDirectory
    else if |args| == 2 && args[1] == "--help" then Help
    else if |args| == 4 && args[1] == "--revert" then Revert(args[2], args[3])
    else if |args| == 3 && args[1] == "--list" then List(args[2])
    else if |args| > 1 then Usage
    else Monitor
  }

  /** Every mode returns from main, so the process exits 0; monitoring never returns. */
  function ExitStatus(m: Mode): Option<int> {
    if m.Monitor? then None else Some(0)
  }

  /** Each runnable mode is chosen by its own command line, also when the input path is not a directory. */
  lemma DispatchCommandLine(dir: DirState, program: string, m: Mode)
    requires dir != Missing && Runnable(m)
    ensures Dispatch(dir, CommandLine(program, m)) == m
  {
  }

  /**
    Conversely, Help, Revert and List are chosen only by their own command
    lines, monitoring only without arguments, and the usage text exactly for
    arguments that form no command line.
  */
  lemma {:induction false} DispatchOnlyCommandLine(dir: DirState, args: seq<string>)
    ensures var m := Dispatch(dir, args);
      (m.Help? || m.Revert? || m.List?) ==> args == CommandLine(args[0], m)
    ensures Dispatch(dir, args).Monitor? <==> dir != Missing && |args| <= 1
    ensures Dispatch(dir, args).Usage? <==>
      dir != Missing && |args| > 1 && forall m :: Runnable(m) ==> args != CommandLine(args[0], m)
  {
    var m := Dispatch(dir, args);
    if dir != Missing && |args| > 1 && !m.Usage? {
      DispatchCommandLine(dir, args[0], m);
    }
  }

  /** Unlike the C++ program, no invocation exits with a non-zero status. */
  lemma NeverExitsWithError(dir: DirState, args: seq<string>)
    ensures ExitStatus(Dispatch(dir, args)) != Some(1)
  {
  }

  /** The entry is left alone by the WalkDir callback whatever the record says: a walk error, a directory, or a file that cannot be hashed. */
  predicate Skipped(e: Entry) {
    !Selects(NonDirectory, e.kind) || e.content.None?
  }

  /**
    The WalkDir callback for one entry: an unrecorded or changed
    non-directory is hashed (a hash error skips it), copied to
    `backup/(nome + "_" + hash)` if that can be created, announced as saved,
    and recorded with its time whether or not the copy succeeded.
  */
  function Step(sha: Bytes -> Digest, canWrite: string -> bool, now: Time, s: PollState, e: Entry): PollState {
    if !Selects(NonDirectory, e.kind) || !Candidate(s.previous, e) then s
    else match ComputeHash(sha, e.content)
      case Failure(_) => s
      case Success(hash) =>
        var dest := SnapshotName(e.name, hash);
        PollState(s.previous[e.name := e.mtime],
                  if canWrite(dest) then Put(s.backup, dest, e.content.value, now) else s.backup,
                  s.saved + [dest])
  }

  /** One walk of the input directory, entry by entry in walk order. */
  function PollAll(sha: Bytes -> Digest, canWrite: string -> bool, now: Time, s: PollState, es: Dir): PollState {
    if es == [] then s
    else Step(sha, canWrite, now, PollAll(sha, canWrite, now, s, es[..|es| - 1]), es[|es| - 1])
  }

  lemma {:induction false} PollAllConcat(sha: Bytes -> Digest, canWrite: string -> bool, now: Time, s: PollState, a: Dir, b: Dir)
    ensures PollAll(sha, canWrite, now, s, a + b) == PollAll(sha, canWrite, now, PollAll(sha, canWrite, now, s, a), b)
  {
    if b == [] {
      assert a + b == a;
    } else {
      PollAllConcat(sha, canWrite, now, s, a, b[..|b| - 1]);
      assert (a + b)[..|a + b| - 1] == a + b[..|b| - 1];
    }
  }

  /** Errors are handled per entry: a skipped entry leaves the walk exactly as if it were absent. */
  lemma FailureIsIsolated(sha: Bytes -> Digest, canWrite: string -> bool, now: Time, s: PollState, a: Dir, f: Entry, b: Dir)
    requires Skipped(f)
    ensures PollAll(sha, canWrite, now, s, a + [f] + b) == PollAll(sha, canWrite, now, s, a + b)
  {
    PollAllConcat(sha, canWrite, now, s, a + [f], b);
    PollAllConcat(sha, canWrite, now, s, a, [f]);
    PollAllConcat(sha, canWrite, now, s, a, b);
    assert [f][..0] == [];
  }

  /** Every non-directory is either recorded with its current time or cannot be hashed. */
  predicate Settled(previous: map<string, Time>, es: Dir) {
    forall i :: 0 <= i < |es| && Selects(NonDirectory, es[i].kind) ==>
      !Candidate(previous, es[i]) || es[i].content.None?
  }

  /** A walk from a settled record changes nothing: each file is either unchanged or fails to hash again. */
  lemma {:induction false} SettledPollIsNoOp(sha: Bytes -> Digest, canWrite: string -> bool, now: Time, s: PollState, es: Dir)
    requires Settled(s.previous, es)
    ensures PollAll(sha, canWrite, now, s, es) == s
  {
    if es != [] {
      var init := es[..|es| - 1];
      assert forall i :: 0 <= i < |init| ==> init[i] == es[i];
      SettledPollIsNoOp(sha, canWrite, now, s, init);
    }
  }

  /** A walk over a directory in which nothing changed since the record does nothing. */
  lemma UnchangedPollIsNoOp(sha: Bytes -> Digest, canWrite: string -> bool, now: Time, s: PollState, es: Dir)
    requires UpToDate(s.previous, es, NonDirectory)
    ensures PollAll(sha, canWrite, now, s, es) == s
  {
    SettledPollIsNoOp(sha, canWrite, now, s, es);
  }

  /** Whatever fails, a walk over uniquely named files leaves a settled record. */
  lemma {:induction false} PollSettles(sha: Bytes -> Digest, canWrite: string -> bool, now: Time, s: PollState, es: Dir)
    requires UniqueNames(es, NonDirectory)
    ensures Settled(PollAll(sha, canWrite, now, s, es).previous, es)
  {
    if es != [] {
      var init := es[..|es| - 1];
      PollSettles(sha, canWrite, now, s, init);
      var mid := PollAll(sha, canWrite, now, s, init);
      var r := Step(sha, canWrite, now, mid, es[|es| - 1]);
      forall i | 0 <= i < |es| && Selects(NonDirectory, es[i].kind)
        ensures !Candidate(r.previous, es[i]) || es[i].content.None?
      {
        if i < |es| - 1 {
          assert init[i] == es[i];
          assert !Candidate(mid.previous, es[i]) || es[i].content.None?;
        }
      }
    }
  }

  /** When every file can be hashed and basenames are unique, a walk records every file with its time, copied or not. */
  lemma {:induction false} PollBringsUpToDate(sha: Bytes -> Digest, canWrite: string -> bool, now: Time, s: PollState, es: Dir)
    requires UniqueNames(es, NonDirectory)
    requires forall i :: 0 <= i < |es| && Selects(NonDirectory, es[i].kind) ==> es[i].content.Some?
    ensures UpToDate(PollAll(sha, canWrite, now, s, es).previous, es, NonDirectory)
  {
    if es != [] {
      var init := es[..|es| - 1];
      PollBringsUpToDate(sha, canWrite, now, s, init);
      var mid := PollAll(sha, canWrite, now, s, init);
      var r := Step(sha, canWrite, now, mid, es[|es| - 1]);
      forall i | 0 <= i < |es| && Selects(NonDirectory, es[i].kind)
        ensures !Candidate(r.previous, es[i])
      {
        if i < |es| - 1 {
          assert init[i] == es[i];
          assert !Candidate(mid.previous, es[i]);
        }
      }
    }
  }

  /** A second walk with no change in between announces nothing and changes nothing, even where hashing failed. */
  lemma PollIsIdempotent(sha: Bytes -> Digest, canWrite: string -> bool, now: Time, now': Time, s: PollState, es: Dir)
    requires UniqueNames(es, NonDirectory)
    ensures var first := PollAll(sha, canWrite, now, s, es);
      PollAll(sha, canWrite, now', first, es) == first
  {
    PollSettles(sha, canWrite, now, s, es);
    SettledPollIsNoOp(sha, canWrite, now', PollAll(sha, canWrite, now, s, es), es);
  }

  /**
    The record is keyed by basename only: two files of the same name in
    different sub-folders with different times are hashed, announced and
    copied again on every walk.
  */
  lemma SharedRecordRepolls(sha: Bytes -> Digest, canWrite: string -> bool, now: Time, s: PollState, e1: Entry, e2: Entry)
    requires e1.name == e2.name && e1.folder != e2.folder && e1.mtime != e2.mtime
    requires Selects(NonDirectory, e1.kind) && Selects(NonDirectory, e2.kind)
    requires e1.content.Some? && e2.content.Some?
    ensures var first := PollAll(sha, canWrite, now, s, [e1, e2]);
      var second := PollAll(sha, canWrite, now, first, [e1, e2]);
      |second.saved| == |first.saved| + 2
  {
    var es := [e1, e2];
    assert es[..1] == [e1] && [e1][..0] == [];
    var first := PollAll(sha, canWrite, now, s, es);
    assert first.previous[e2.name] == e2.mtime;
    var afterOne := Step(sha, canWrite, now, first, e1);
    assert |afterOne.saved| == |first.saved| + 1 && afterOne.previous[e1.name] == e1.mtime;
    var second := Step(sha, canWrite, now, afterOne, e2);
    assert |second.saved| == |afterOne.saved| + 1;
    assert PollAll(sha, canWrite, now, first, es[..1]) == afterOne;
    assert PollAll(sha, canWrite, now, first, es) == second;
  }

  /** A copy that fails still moves the record, so the next walk does not try that file again. */
  lemma FailedCopyIsNotRetried(sha: Bytes -> Digest, canWrite: string -> bool, now: Time, s: PollState, e: Entry)
    requires Selects(NonDirectory, e.kind) && Candidate(s.previous, e) && e.content.Some?
    requires !canWrite(SnapshotName(e.name, Hex(sha(e.content.value))))
    ensures var r := Step(sha, canWrite, now, s, e);
      && r.backup == s.backup
      && r.saved == s.saved + [SnapshotName(e.name, Hex(sha(e.content.value)))]
      && !Candidate(r.previous, e)
      && PollAll(sha, canWrite, now, r, [e]) == r
  {
    var r := Step(sha, canWrite, now, s, e);
    assert [e][..0] == [];
    assert PollAll(sha, canWrite, now, r, [e]) == Step(sha, canWrite, now, r, e);
  }

  /** A walk keeps every snapshot named by the digest of its content. */
  lemma {:induction false} PollKeepsContentAddressed(sha: Bytes -> Digest, canWrite: string -> bool, now: Time, s: PollState, es: Dir)
    requires ContentAddressed(sha, s.backup)
    ensures ContentAddressed(sha, PollAll(sha, canWrite, now, s, es).backup)
  {
    if es != [] {
      PollKeepsContentAddressed(sha, canWrite, now, s, es[..|es| - 1]);
      var mid := PollAll(sha, canWrite, now, s, es[..|es| - 1]);
      var e := es[|es| - 1];
      if e.content.Some? {
        PutKeepsContentAddressed(sha, mid.backup, e.name, e.content.value, now);
      }
    }
  }

  /** A walk only appends to the names it announces as saved. */
  lemma {:induction false} AnnouncementsKept(sha: Bytes -> Digest, canWrite: string -> bool, now: Time, s: PollState, es: Dir)
    ensures |s.saved| <= |PollAll(sha, canWrite, now, s, es).saved|
    ensures PollAll(sha, canWrite, now, s, es).saved[..|s.saved|] == s.saved
  {
    if es != [] {
      AnnouncementsKept(sha, canWrite, now, s, es[..|es| - 1]);
      var mid := PollAll(sha, canWrite, now, s, es[..|es| - 1]);
      var r := Step(sha, canWrite, now, mid, es[|es| - 1]);
      assert r.saved[..|mid.saved|] == mid.saved;
    }
  }

  /**
    Entries named other than `n` leave the record of `n` and its snapshot
    for a 64-digit hash alone.
  */
  lemma {:induction false} OtherNamesLeaveAlone(sha: Bytes -> Digest, canWrite: string -> bool, now: Time, s: PollState, es: Dir, n: string, h: string)
    requires |h| == 64
    requires forall j :: 0 <= j < |es| && Selects(NonDirectory, es[j].kind) ==> es[j].name != n
    ensures var r := PollAll(sha, canWrite, now, s, es);
      (n in r.previous <==> n in s.previous) && (n in s.previous ==> r.previous[n] == s.previous[n])
    ensures Lookup(PollAll(sha, canWrite, now, s, es).backup, SnapshotName(n, h)) == Lookup(s.backup, SnapshotName(n, h))
  {
    if es != [] {
      OtherNamesLeaveAlone(sha, canWrite, now, s, es[..|es| - 1], n, h);
      var e := es[|es| - 1];
      if e.content.Some? {
        SnapshotNameDeterminesBase(e.name, Hex(sha(e.content.value)), n, h);
      }
    }
  }

  /**
    A walk saves every non-directory that differs from the record, can be
    read and whose destination can be created: its snapshot is announced
    and holds the entry's content at the end of the walk.
  */
  lemma ChangedIsSaved(sha: Bytes -> Digest, canWrite: string -> bool, now: Time, s: PollState, es: Dir, i: nat)
    requires UniqueNames(es, NonDirectory)
    requires i < |es| && Selects(NonDirectory, es[i].kind) && Candidate(s.previous, es[i]) && es[i].content.Some?
    requires canWrite(SnapshotName(es[i].name, Hex(sha(es[i].content.value))))
    ensures var r := PollAll(sha, canWrite, now, s, es);
      var dest := SnapshotName(es[i].name, Hex(sha(es[i].content.value)));
      dest in r.saved && Lookup(r.backup, dest) == Some(Entry("", dest, RegularFile, now, es[i].content))
  {
    var e := es[i];
    var h := Hex(sha(e.content.value));
    var dest := SnapshotName(e.name, h);
    var a, b := es[..i], es[i + 1..];
    assert es == (a + [e]) + b;
    PollAllConcat(sha, canWrite, now, s, a + [e], b);
    assert (a + [e])[..|a + [e]| - 1] == a;
    var mid := PollAll(sha, canWrite, now, s, a);
    OtherNamesLeaveAlone(sha, canWrite, now, s, a, e.name, h);
    var after := Step(sha, canWrite, now, mid, e);
    assert after.saved[|after.saved| - 1] == dest;
    OtherNamesLeaveAlone(sha, canWrite, now, after, b, e.name, h);
    AnnouncementsKept(sha, canWrite, now, after, b);
    var r := PollAll(sha, canWrite, now, after, b);
    assert r.saved[|after.saved| - 1] == dest;
  }

  /** The monitoring loop's state: the record of last-seen times and the backup directory. */
  class Monitor {
    const sha: Bytes -> Digest
    var previous: map<string, Time>
    var backup: Dir

    /** arquivosAnteriores starts empty on every start of the program. */
    constructor (sha: Bytes -> Digest, backup: Dir)
      ensures this.sha == sha && previous == map[] && this.backup == backup
    {
      this.sha := sha;
      previous := map[];
      this.backup := backup;
    }

    /** The WalkDir callback for one entry, updating the captured record and the backup directory. */
    method Visit(d: Entry, canWrite: string -> bool, now: Time, saved: seq<string>) returns (saved': seq<string>)
      modifies this
      ensures PollState(previous, backup, saved') == Step(sha, canWrite, now, PollState(old(previous), old(backup), saved), d)
    {
      saved' := saved;
      if d.kind == WalkError || d.kind == Directory {
        return;
      }
      var nome := d.name;
      var modTime := d.mtime;
      if nome !in previous || previous[nome] != modTime {
        var hashed := ComputeHash(sha, d.content);
        // a hash error is printed and the entry skipped
        if hashed.Failure? {
          return;
        }
        var destino := SnapshotName(nome, hashed.value);
        assert d.content.Some? && destino == SnapshotName(d.name, Hex(sha(d.content.value)));
        // os.Create and io.Copy errors are ignored
        if canWrite(destino) {
          backup := Put(backup, destino, d.content.value, now);
        }
        saved' := saved' + [destino];
        previous := previous[nome := modTime];
      }
    }

    /** One iteration of the `for {}` loop: the WalkDir pass over the input directory, without the sleep. */
    method Poll(input: Dir, canWrite: string -> bool, now: Time) returns (saved: seq<string>)
      modifies this
      ensures PollState(previous, backup, saved) ==
        PollAll(sha, canWrite, now, PollState(old(previous), old(backup), []), input)
    {
      saved := [];
      ghost var start := PollState(previous, backup, []);
      for i := 0 to |input|
        invariant PollState(previous, backup, saved) == PollAll(sha, canWrite, now, start, input[..i])
      {
        assert input[..i + 1][..i] == input[..i];
        saved := Visit(input[i], canWrite, now, saved);
      }
      assert input[..|input|] == input;
    }
  }
}
