/**
  The filesystem as the two monitors see it. A directory is the sequence of
  entries its enumeration yields (directory_iterator in C++, WalkDir in Go),
  so that "the first entry in enumeration order" can be stated. A recursive
  walk is flattened into one sequence; `folder` is the entry's sub-folder
  relative to the walked root ("" for an entry directly inside it), and
  `name` its basename.
*/
module FsModel {
  import opened Common

  type Byte = b: int | 0 <= b < 256
  type Bytes = seq<Byte>

  /** A SHA-256 digest. */
  type Digest = d: Bytes | |d| == 32 witness seq(32, i => 0)

  /** Modification times: the programs only compare them for equality. */
  type Time(==)

  /** RegularFile, Directory and OtherFile are what the enumeration reports.
      A symlink is a RegularFile when it points to a regular file (C++'s
      is_regular_file follows it) and an OtherFile otherwise, like devices
      and sockets. WalkError is an entry for which Go's WalkDir hands an
      error to its callback. */
  datatype Kind = RegularFile | Directory | OtherFile | WalkError

  /** `content` is None when the file cannot be opened for reading. */
  datatype Entry = Entry(folder: string, name: string, kind: Kind, mtime: Time, content: Option<Bytes>)

  type Dir = seq<Entry>

  /** The entry sits directly in the directory under this name. */
  predicate AtTop(e: Entry, name: string) {
    e.folder == "" && e.name == name
  }

  /** Position of the first top-level entry called `name`, or |d| when there is none. */
  function Find(d: Dir, name: string): (i: nat)
    ensures i <= |d|
    ensures i < |d| ==> AtTop(d[i], name)
    ensures forall j :: 0 <= j < i ==> !AtTop(d[j], name)
  {
    if d == [] then 0
    else if AtTop(d[0], name) then 0
    else 1 + Find(d[1..], name)
  }

  /** What opening `name` inside the directory yields. */
  function Lookup(d: Dir, name: string): Option<Entry> {
    var i := Find(d, name);
    if i < |d| then Some(d[i]) else None
  }

  /** The contract of Find determines it: the first position holding `name`. */
  lemma FindIsFirst(d: Dir, name: string, k: nat)
    requires k <= |d|
    requires k < |d| ==> AtTop(d[k], name)
    requires forall j :: 0 <= j < k ==> !AtTop(d[j], name)
    ensures Find(d, name) == k
  {
  }

  /**
    Creating or truncating the file `name` directly inside the directory and
    writing `data` into it (copy_file with overwrite_existing, os.Create +
    io.Copy). An existing entry keeps its place in the enumeration; a new one
    is enumerated last. Callers write only where their `canWrite` holds, and
    `canWrite` is false for a name held by a directory (both calls fail
    there), so `Put` never replaces a directory.
  */
  function Put(d: Dir, name: string, data: Bytes, now: Time): (r: Dir)
    ensures Lookup(r, name) == Some(Entry("", name, RegularFile, now, Some(data)))
    ensures forall m :: m != name ==> Lookup(r, m) == Lookup(d, m)
    ensures |d| <= |r| <= |d| + 1
    ensures forall j :: 0 <= j < |d| && !AtTop(d[j], name) ==> r[j] == d[j]
    ensures forall j :: 0 <= j < |r| ==> r[j] == Entry("", name, RegularFile, now, Some(data)) || (j < |d| && r[j] == d[j])
  {
    var i := Find(d, name);
    var e := Entry("", name, RegularFile, now, Some(data));
    var r := if i < |d| then d[i := e] else d + [e];
    FindIsFirst(r, name, i);
    forall m | m != name
      ensures Lookup(r, m) == Lookup(d, m)
    {
      var k := Find(d, m);
      if k < |d| {
        FindIsFirst(r, m, k);
      } else {
        FindIsFirst(r, m, |r|);
      }
    }
    r
  }

  /** Position of the first entry for which the walk reports an error, or |d|. */
  function FirstWalkError(d: Dir): (k: nat)
    ensures k <= |d|
    ensures k < |d| ==> d[k].kind == WalkError
    ensures forall j :: 0 <= j < k ==> d[j].kind != WalkError
  {
    if d == [] then 0
    else if d[0].kind == WalkError then 0
    else 1 + FirstWalkError(d[1..])
  }
}
