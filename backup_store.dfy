/**
  The backup directory as its own index: a snapshot of file `base` with
  digest `hash` is the file `base + "_" + hash`, and listing or restoring
  finds snapshots by name prefix.
*/
module BackupStore {
  import opened Common
  import opened FsModel
  import opened HexEncoding

  predicate HasPrefix(s: string, p: string) {
    |p| <= |s| && s[..|p|] == p
  }

  predicate HasSuffix(s: string, p: string) {
    |p| <= |s| && s[|s| - |p|..] == p
  }

  /** The name is that of a snapshot of `base`. */
  predicate MatchesBase(name: string, base: string) {
    HasPrefix(name, base + "_")
  }

  /** What follows `base + "_"` in a snapshot name: the digest, or the part of the name taken for it. */
  function SuffixAfter(name: string, base: string): string
    requires MatchesBase(name, base)
  {
    name[|base| + 1..]
  }

  /** The snapshot name, from which the base select it and the digest is recovered. */
  function SnapshotName(base: string, hash: string): (n: string)
    ensures MatchesBase(n, base) && SuffixAfter(n, base) == hash
    ensures HasSuffix(n, "_" + hash)
  {
    var n := base + "_" + hash;
    assert n[..|base + "_"|] == base + "_";
    assert n[|n| - |"_" + hash|..] == "_" + hash;
    n
  }

  /** With hashes of one length, a snapshot name determines its base. */
  lemma SnapshotNameDeterminesBase(n1: string, h1: string, n2: string, h2: string)
    requires |h1| == |h2|
    ensures SnapshotName(n1, h1) == SnapshotName(n2, h2) ==> n1 == n2
  {
    if SnapshotName(n1, h1) == SnapshotName(n2, h2) {
      var s := SnapshotName(n1, h1);
      assert |n1| == |n2|;
      assert n1 == s[..|n1|];
      assert n2 == s[..|n2|];
    }
  }

  /** Prefix matching cannot tell where a basename containing the separator ends:
      a snapshot of "a_b" is also taken for one of "a". */
  lemma SeparatorInBaseIsAmbiguous(base: string, rest: string, hash: string)
    ensures MatchesBase(SnapshotName(base + "_" + rest, hash), base)
    ensures SuffixAfter(SnapshotName(base + "_" + rest, hash), base) == rest + "_" + hash
  {
    var n := SnapshotName(base + "_" + rest, hash);
    assert n == (base + "_") + (rest + "_" + hash);
  }

  /** Which entry kinds an enumeration looks at: is_regular_file() in C++, !d.IsDir() in Go. */
  datatype Selector = RegularOnly | NonDirectory

  predicate Selects(sel: Selector, k: Kind) {
    match sel
    case RegularOnly => k == RegularFile
    case NonDirectory => k == RegularFile || k == OtherFile
  }

  /** The entry is a version of `base` for listing and restoring. */
  predicate IsVersionOf(e: Entry, base: string, sel: Selector) {
    Selects(sel, e.kind) && MatchesBase(e.name, base)
  }

  /** The digest suffixes of the versions of `base`, in enumeration order. */
  function Versions(d: Dir, base: string, sel: Selector): (hs: seq<string>)
    ensures |hs| <= |d|
  {
    if d == [] then []
    else
      var e := d[|d| - 1];
      Versions(d[..|d| - 1], base, sel) + (if IsVersionOf(e, base, sel) then [SuffixAfter(e.name, base)] else [])
  }

  /** Listing is complete and sound: a suffix is listed exactly when some selected entry carries it. */
  lemma {:induction false} VersionsComplete(d: Dir, base: string, sel: Selector, h: string)
    ensures h in Versions(d, base, sel) <==>
      exists i :: 0 <= i < |d| && IsVersionOf(d[i], base, sel) && SuffixAfter(d[i].name, base) == h
  {
    if d != [] {
      var init := d[..|d| - 1];
      VersionsComplete(init, base, sel, h);
      assert forall i :: 0 <= i < |init| ==> init[i] == d[i];
    }
  }

  /** Nothing is listed exactly when no selected entry is a version of `base`. */
  lemma {:induction false} VersionsEmpty(d: Dir, base: string, sel: Selector)
    ensures Versions(d, base, sel) == [] <==> forall i :: 0 <= i < |d| ==> !IsVersionOf(d[i], base, sel)
  {
    if d != [] {
      var init := d[..|d| - 1];
      VersionsEmpty(init, base, sel);
      assert forall i :: 0 <= i < |init| ==> init[i] == d[i];
    }
  }

  /** A snapshot `base + "_" + h` is listed for `base` with suffix exactly `h`. */
  lemma SnapshotIsListed(d: Dir, i: nat, base: string, hash: string, sel: Selector)
    requires i < |d| && Selects(sel, d[i].kind) && d[i].name == SnapshotName(base, hash)
    ensures hash in Versions(d, base, sel)
  {
    VersionsComplete(d, base, sel, hash);
  }

  /** The entry is a version of `base` whose digest starts with the partial hash. */
  predicate Matches(e: Entry, base: string, partial: string, sel: Selector) {
    IsVersionOf(e, base, sel) && HasPrefix(SuffixAfter(e.name, base), partial)
  }

  /** The first matching entry in enumeration order, if any. */
  function FirstMatch(d: Dir, base: string, partial: string, sel: Selector): (r: Option<nat>)
    ensures r.Some? ==> r.value < |d| && Matches(d[r.value], base, partial, sel)
    ensures r.Some? ==> forall j :: 0 <= j < r.value ==> !Matches(d[j], base, partial, sel)
    ensures r.None? <==> forall j :: 0 <= j < |d| ==> !Matches(d[j], base, partial, sel)
  {
    if d == [] then None
    else if Matches(d[0], base, partial, sel) then Some(0)
    else match FirstMatch(d[1..], base, partial, sel)
      case None => None
      case Some(k) => Some(k + 1)
  }

  /** The contract of FirstMatch determines it. */
  lemma FirstMatchIs(d: Dir, base: string, partial: string, sel: Selector, i: nat)
    requires i < |d| && Matches(d[i], base, partial, sel)
    requires forall j :: 0 <= j < i ==> !Matches(d[j], base, partial, sel)
    ensures FirstMatch(d, base, partial, sel) == Some(i)
  {
  }

  /** What a restore reports: the snapshot copied from, "not found", the walk's
      error, or the exception that ends the C++ program. */
  datatype RestoreOutcome = Restored(from: string) | NotFound | WalkFailed | Aborted(from: string)

  /**
    Every snapshot records the digest of its content in its name: each
    readable regular file directly inside the backup directory is called
    `x + "_" + Hex(sha(content))` for some x.
  */
  ghost predicate ContentAddressed(sha: Bytes -> Digest, d: Dir) {
    forall i :: 0 <= i < |d| && d[i].folder == "" && d[i].kind == RegularFile && d[i].content.Some? ==>
      HasSuffix(d[i].name, "_" + Hex(sha(d[i].content.value)))
  }

  /** Writing a snapshot under its digest name keeps the directory content-addressed. */
  lemma PutKeepsContentAddressed(sha: Bytes -> Digest, d: Dir, base: string, data: Bytes, now: Time)
    requires ContentAddressed(sha, d)
    ensures ContentAddressed(sha, Put(d, SnapshotName(base, Hex(sha(data))), data, now))
  {
  }
}
