/** The two halves joined: the rows the hooks log are the rows the daemon stores. */
module Delivery {
  import opened Table
  import opened Records
  import opened HexNames
  import opened Decimal
  import Pipeline

  /** Column `new_path` as text. */
  function NameText(md5: string -> seq<Byte>, n: Name): string {
    match n
    case Copy(p, epoch) => SavedName(md5, p, epoch)
    case Under(q) => q
    case NotApplicable => "N/A"
  }

  datatype Owner = Owner(mode: int, uid: int, gid: int)

  /** The record a hook prints for a row on the root mount. */
  function Printed(md5: string -> seq<Byte>, r: Row, o: Owner): Record {
    Record(r.kind, "/", r.path, NameText(md5, r.name), o.mode, o.uid, o.gid, r.accessTime)
  }

  /** The column `update_type`, as the hooks spell it. */
  function TypeColumn(k: Kind): string {
    match k
    case ModFile => "MODFILE"
    case Unlink => "UNLINK"
    case Rename => "RENAME"
    case Rmdir => "RMDIR"
  }

  /**
   * The eight columns of a stored row, one by one: type, mount point, path, then the
   * saved name, the target or "N/A", then mode, owner, group and access time.
   */
  predicate Columns(md5: string -> seq<Byte>, fs: Fields, r: Row, o: Owner) {
    && |fs| == 8
    && fs[0] == TypeColumn(r.kind) && fs[1] == "/" && fs[2] == r.path
    && (r.HoldsCopy() && r.name.Copy? ==> fs[3] == SavedName(md5, r.name.of, r.name.epoch))
    && (r.kind.Rename? && r.name.Under? ==> fs[3] == r.name.path)
    && (r.kind.Rmdir? && r.name.NotApplicable? ==> fs[3] == "N/A")
    && Atoi(fs[4]) == o.mode && Atoi(fs[5]) == o.uid && Atoi(fs[6]) == o.gid && Atoi(fs[7]) == r.accessTime
  }

  lemma PrintedColumns(md5: string -> seq<Byte>, r: Row, o: Owner)
    ensures Columns(md5, FieldsOf(Printed(md5, r, o)), r, o)
  {
    AtoiDec(o.mode);
    AtoiDec(o.uid);
    AtoiDec(o.gid);
    AtoiDec(r.accessTime);
  }

  /**
   * Whatever the schedule, the daemon's i-th row decodes to the record of the
   * i-th accepted row, column by column; and it has all of them once the
   * pipeline is empty.
   */
  lemma DaemonStoresTheLog(cfg: Pipeline.Config, schedule: seq<Pipeline.Action>, md5: string -> seq<Byte>,
                           rows: seq<Row>, owners: seq<Owner>)
    requires cfg.sz > 0 && Pipeline.Submits(cfg, schedule) && |rows| == |owners|
    requires
      var end := Pipeline.Run(cfg, Pipeline.INITIAL, schedule);
      |end.accepted| == |rows| && forall i | 0 <= i < |rows| :: end.accepted[i] == FieldsOf(Printed(md5, rows[i], owners[i]))
    ensures
      var end := Pipeline.Run(cfg, Pipeline.INITIAL, schedule);
      && |end.groups| <= |rows|
      && (forall i | 0 <= i < |end.groups| :: |end.groups[i]| == 8 && RecordOf(end.groups[i]) == Printed(md5, rows[i], owners[i]))
      && (forall i | 0 <= i < |end.groups| :: Columns(md5, end.groups[i], rows[i], owners[i]))
      && (end.carry + Pipeline.Got(end) + end.ring == "" ==> |end.groups| == |rows|)
  {
    Pipeline.DaemonStoresAcceptedRecords(cfg, schedule);
    var end := Pipeline.Run(cfg, Pipeline.INITIAL, schedule);
    forall i | 0 <= i < |end.groups|
      ensures |end.groups[i]| == 8 && RecordOf(end.groups[i]) == Printed(md5, rows[i], owners[i])
      ensures Columns(md5, end.groups[i], rows[i], owners[i])
    {
      assert end.groups[i] == end.accepted[i];
      RecordRoundTrip(Printed(md5, rows[i], owners[i]));
      PrintedColumns(md5, rows[i], owners[i]);
    }
  }

  /** The columns determine the row: two rows that are stored alike are the same, unless MD5 collides. */
  lemma ColumnsDetermineRow(md5: string -> seq<Byte>, fs: Fields, a: Row, b: Row, oa: Owner, ob: Owner)
    requires a.rpTime == b.rpTime && Columns(md5, fs, a, oa) && Columns(md5, fs, b, ob)
    requires Loggable(a) && Loggable(b) && KeyFits(a) && KeyFits(b)
    requires a.HoldsCopy() ==> |md5(SaveKey(a.path, a.name.epoch))| == 16
    requires b.HoldsCopy() ==> |md5(SaveKey(b.path, b.name.epoch))| == 16
    requires a.HoldsCopy() && b.HoldsCopy() && SaveKey(a.path, a.name.epoch) != SaveKey(b.path, b.name.epoch) ==>
               md5(SaveKey(a.path, a.name.epoch)) != md5(SaveKey(b.path, b.name.epoch))
    ensures a == b && oa == ob
  {
    TypesDiffer(a.kind, b.kind);
    if a.HoldsCopy() {
      SavedNamesCollideExactly(md5, a.path, a.name.epoch, b.path, b.name.epoch);
    }
  }

  lemma TypesDiffer(a: Kind, b: Kind)
    ensures TypeColumn(a) == TypeColumn(b) ==> a == b
  {
    assert TypeColumn(ModFile)[0] == 'M' && TypeColumn(Unlink)[0] == 'U';
    assert TypeColumn(Rename)[1] == 'E' && TypeColumn(Rmdir)[1] == 'M';
    assert TypeColumn(Rename)[0] == 'R' && TypeColumn(Rmdir)[0] == 'R';
  }

  /** So two logged rows print alike only when they are the same. */
  lemma PrintedDeterminesRow(md5: string -> seq<Byte>, a: Row, b: Row, o: Owner)
    requires a.rpTime == b.rpTime
    requires Loggable(a) && Loggable(b) && KeyFits(a) && KeyFits(b)
    requires a.HoldsCopy() ==> |md5(SaveKey(a.path, a.name.epoch))| == 16
    requires b.HoldsCopy() ==> |md5(SaveKey(b.path, b.name.epoch))| == 16
    requires a.HoldsCopy() && b.HoldsCopy() && SaveKey(a.path, a.name.epoch) != SaveKey(b.path, b.name.epoch) ==>
               md5(SaveKey(a.path, a.name.epoch)) != md5(SaveKey(b.path, b.name.epoch))
    ensures Printed(md5, a, o) == Printed(md5, b, o) ==> a == b
  {
    if Printed(md5, a, o) == Printed(md5, b, o) {
      PrintedColumns(md5, a, o);
      PrintedColumns(md5, b, o);
      ColumnsDetermineRow(md5, FieldsOf(Printed(md5, a, o)), a, b, o, o);
    }
  }

  /** What the hooks put into a row. */
  predicate Loggable(r: Row) {
    match r.kind
    case Rename => r.name.Under?
    case Rmdir => r.name.NotApplicable?
    case _ => r.name.Copy? && r.name.of == r.path
  }

  predicate KeyFits(r: Row)
    requires Loggable(r)
  {
    r.HoldsCopy() ==> |r.path + "." + Dec(r.name.epoch)| < PAGE_SIZE
  }
}
