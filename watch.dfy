/** What one poll of the watched directory works on and produces, shared by both monitors. */
module Watch {
  import opened FsModel
  import opened BackupStore

  /**
    `previous` is the record of last-seen modification times by basename
    (arquivos_anteriores / arquivosAnteriores), `backup` the backup
    directory, and `saved` the destinations announced as "new version
    saved", in order.
  */
  datatype PollState = PollState(previous: map<string, Time>, backup: Dir, saved: seq<string>)

  /** A file is looked at again when its name is unrecorded or its time differs from the record. */
  predicate Candidate(previous: map<string, Time>, e: Entry) {
    e.name !in previous || previous[e.name] != e.mtime
  }

  /** Every entry the poll selects is recorded with its current time. */
  predicate UpToDate(previous: map<string, Time>, es: Dir, sel: Selector) {
    forall i :: 0 <= i < |es| && Selects(sel, es[i].kind) ==> !Candidate(previous, es[i])
  }

  /** Two selected entries never share a basename. */
  predicate UniqueNames(es: Dir, sel: Selector) {
    forall i, j :: 0 <= i < j < |es| && Selects(sel, es[i].kind) && Selects(sel, es[j].kind) ==> es[i].name != es[j].name
  }
}
