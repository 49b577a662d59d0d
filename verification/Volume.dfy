/**
 * One mounted volume: the files, the save directory, the open handles, the
 * backup table and the restore points, and what each hook does to them.
 * Every row is inserted in the same step as the hook that prints its record.
 */
module Volume {
  import opened Base
  import opened Table

  datatype File = File(content: Content, mtime: Time, ctime: Time)

  type Files = map<Path, File>
  type Saves = map<Name, Content>

  /** A `wrapfs_file_info`; a handle whose file was unlinked keeps no path. */
  datatype Handle = Linked(path: Path, backedUp: bool) | Unlinked

  type Handles = map<nat, Handle>

  datatype Sys = Sys(files: Files, saves: Saves, handles: Handles, rows: seq<Row>,
                     points: set<Time>, epoch: Time, clock: Time)
  {
    /** The guard of every hook: mtime < modif_tym. */
    predicate Old(p: Path) {
      p in files && files[p].mtime < epoch
    }
  }

  datatype Op =
    | CreateFile(path: Path)
    | OpenFile(handle: nat, path: Path, truncate: bool)
    | WriteFile(handle: nat, content: Content)
    | CloseFile(handle: nat)
    | UnlinkFile(path: Path)
    | RenameFile(path: Path, target: Path)
    | RenameFailure(path: Path, target: Path) // logged, then refused by the lower file system
    | ChangeMode(path: Path)                  // a ctime-only change
    | SetSize(path: Path, content: Content)   // truncate(2): setattr, which saves nothing
    | NewPoint
    | DeletePoint(point: Time)

  datatype Event = Event(op: Op, now: Time)

  function Detach(hs: Handles, p: Path): Handles {
    map h | h in hs :: if hs[h].Linked? && hs[h].path == p then Unlinked else hs[h]
  }

  function Retarget(hs: Handles, p: Path, q: Path): Handles {
    map h | h in hs :: if hs[h].Linked? && hs[h].path == p then hs[h].(path := q) else hs[h]
  }

  function LogRow(s: Sys, kind: Kind, p: Path, name: Name): Sys
    requires p in s.files
  {
    s.(rows := s.rows + [Row(s.epoch, kind, p, name, s.files[p].ctime)])
  }

  function SaveCopy(s: Sys, p: Path): Sys
    requires p in s.files
  {
    s.(saves := s.saves[Copy(p, s.epoch) := s.files[p].content])
  }

  /** backup_file: copy, then log. */
  function BackupFile(s: Sys, p: Path): Sys
    requires p in s.files
  {
    LogRow(SaveCopy(s, p), ModFile, p, Copy(p, s.epoch))
  }

  function Put(s: Sys, p: Path, c: Content, now: Time): Sys {
    s.(files := s.files[p := File(c, now, now)])
  }

  function Opened(s: Sys, h: nat, p: Path, truncate: bool, now: Time): Sys
    requires p in s.files
  {
    var save := truncate && s.Old(p);
    var s1 := if save then BackupFile(s, p) else s;
    var s2 := if truncate then Put(s1, p, "", now) else s1;
    s2.(handles := s2.handles[h := Linked(p, save)])
  }

  function Written(s: Sys, h: nat, c: Content, now: Time): Sys
    requires h in s.handles && s.handles[h].Linked? && s.handles[h].path in s.files
  {
    var Linked(p, backedUp) := s.handles[h];
    var save := s.Old(p) && !backedUp;
    var s1 := if save then BackupFile(s, p) else s;
    Put(s1, p, c, now).(handles := s.handles[h := Linked(p, backedUp || save)])
  }

  function Removed(s: Sys, p: Path): Sys
    requires p in s.files
  {
    var s1 := if s.Old(p) then SaveCopy(LogRow(s, Unlink, p, Copy(p, s.epoch)), p) else s;
    s1.(files := s.files - {p}, handles := Detach(s.handles, p))
  }

  function Renamed(s: Sys, p: Path, q: Path): Sys
    requires p in s.files && p != q
  {
    var s1 := if s.Old(p) then LogRow(s, Rename, p, Under(q)) else s;
    s1.(files := (s.files - {p})[q := s.files[p]], handles := Retarget(Detach(s.handles, q), p, q))
  }

  /** delete_restore_point: unlink the collected copies, then DELETE, UPDATE, DELETE. */
  ghost function Deleted(s: Sys, d: Time): Sys {
    var pred := Predecessor(s.points, d);
    var gone := set r | r in CollectedRows(s.rows, d, pred) :: r.name;
    s.(saves := s.saves - gone, rows := DeleteRows(s.rows, d, pred), points := s.points - {d})
  }

  /** What the VFS and the caller guarantee before a hook runs. */
  ghost predicate Possible(s: Sys, op: Op) {
    match op
    case CreateFile(p) => p !in s.files
    case OpenFile(h, p, _) => h !in s.handles && p in s.files
    case WriteFile(h, _) => h in s.handles && s.handles[h].Linked? && s.handles[h].path in s.files
    case CloseFile(h) => h in s.handles
    case UnlinkFile(p) => p in s.files
    case RenameFile(p, q) => p in s.files && p != q
    case RenameFailure(p, q) => p in s.files && p != q
    case ChangeMode(p) => p in s.files
    case SetSize(p, _) => p in s.files
    case NewPoint => true
    case DeletePoint(d) => d in s.points
  }

  ghost function Apply(s: Sys, e: Event): Sys
    requires Possible(s, e.op)
  {
    var s' := match e.op
      case CreateFile(p) => Put(s, p, "", e.now)
      case OpenFile(h, p, truncate) => Opened(s, h, p, truncate, e.now)
      case WriteFile(h, c) => Written(s, h, c, e.now)
      case CloseFile(h) => s.(handles := s.handles - {h})
      case UnlinkFile(p) => Removed(s, p)
      case RenameFile(p, q) => Renamed(s, p, q)
      case RenameFailure(p, q) => if s.Old(p) then LogRow(s, Rename, p, Under(q)) else s
      case ChangeMode(p) => s.(files := s.files[p := s.files[p].(ctime := e.now)])
      case SetSize(p, c) => Put(s, p, c, e.now)
      case NewPoint => s.(points := s.points + {e.now}, epoch := e.now)
      case DeletePoint(d) => Deleted(s, d);
    s'.(clock := e.now)
  }

  /** The row a hook logs. */
  ghost function Logged(s: Sys, e: Event): Option<Row>
    requires Possible(s, e.op)
  {
    var rows := Apply(s, e).rows;
    if !e.op.DeletePoint? && |rows| > |s.rows| then Some(rows[|rows| - 1]) else None
  }

  /** Every hook logs at most one row, stamped with the current point, and saves at most the copy it names. */
  lemma LogsOneRow(s: Sys, e: Event)
    requires Possible(s, e.op) && !e.op.DeletePoint?
    ensures
      var s' := Apply(s, e);
      match Logged(s, e)
      case None => s'.rows == s.rows
      case Some(r) => s'.rows == s.rows + [r] && r.rpTime == s.epoch && s'.epoch == s.epoch
  {
  }

  lemma SavesOneCopy(s: Sys, e: Event)
    requires Possible(s, e.op) && !e.op.DeletePoint?
    ensures
      var s', logged := Apply(s, e), Logged(s, e);
      if logged.Some? && logged.value.HoldsCopy()
      then
        var p := logged.value.path;
        && s.Old(p) && logged.value.name == Copy(p, s.epoch) && logged.value.accessTime == s.files[p].ctime
        && s'.saves == s.saves[Copy(p, s.epoch) := s.files[p].content]
      else s'.saves == s.saves
  {
  }
}
