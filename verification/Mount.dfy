/**
 * The hooks of the stacked file system and the commands of the user program,
 * as they update one mounted volume in place.
 */
module Mount {
  import opened Base
  import opened Table
  import opened Volume
  import opened Restore
  import opened Rewind
  import opened Decimal

  /** The RP_TABLE without the row of `d`. */
  function Without(points: seq<Time>, d: Time): (rest: seq<Time>)
    ensures forall t :: t in rest <==> t in points && t != d
  {
    if points == [] then []
    else
      if points[0] == d then Without(points[1..], d) else [points[0]] + Without(points[1..], d)
  }

  /** What a setattr changes. */
  datatype Attributes = Size(content: Content) | ModeOrOwner | Times(mtime: Time)

  class MountedVolume {
    var files: Files
    var saves: Saves
    var handles: Handles
    var rows: seq<Row>
    var restorePoints: seq<Time>
    var modifTym: Time
    ghost var clock: Time

    ghost function State(): Sys
      reads this
    {
      Sys(files, saves, handles, rows, (set t | t in restorePoints), modifTym, clock)
    }

    // ---- backupfs/functions.c ----

    /** The record a hook inserts, once the daemon has stored it. */
    method InsertIntoTable(kind: Kind, path: Path, name: Name)
      requires path in files
      modifies this`rows
      ensures State() == LogRow(old(State()), kind, path, name)
      ensures rows == old(rows) + [Row(modifTym, kind, path, name, files[path].ctime)]
    {
      rows := rows + [Row(modifTym, kind, path, name, files[path].ctime)];
    }

    method Backup(path: Path)
      requires path in files
      modifies this`rows, this`saves
      ensures State() == BackupFile(old(State()), path)
      ensures saves == old(saves)[Copy(path, modifTym) := files[path].content]
      ensures rows == old(rows) + [Row(modifTym, ModFile, path, Copy(path, modifTym), files[path].ctime)]
    {
      saves := saves[Copy(path, modifTym) := files[path].content];
      InsertIntoTable(ModFile, path, Copy(path, modifTym));
    }

    // ---- backupfs/file.c ----

    method WrapfsOpen(h: nat, path: Path, truncate: bool, now: Time)
      requires Possible(State(), OpenFile(h, path, truncate))
      modifies this
      ensures State() == Apply(old(State()), Event(OpenFile(h, path, truncate), now))
      ensures files == if truncate then old(files)[path := File("", now, now)] else old(files)
      ensures
        var save := truncate && old(files)[path].mtime < modifTym;
        && handles == old(handles)[h := Linked(path, save)]
        && saves == (if save then old(saves)[Copy(path, modifTym) := old(files)[path].content] else old(saves))
        && rows == (if save then old(rows) + [Row(modifTym, ModFile, path, Copy(path, modifTym), old(files)[path].ctime)]
                    else old(rows))
      ensures restorePoints == old(restorePoints) && modifTym == old(modifTym)
    {
      var backedUp := false;
      if files[path].mtime < modifTym {
        if truncate {
          Backup(path);
          backedUp := true;
        }
      }
      if truncate {
        files := files[path := File("", now, now)];
      }
      handles := handles[h := Linked(path, backedUp)];
      clock := now;
    }

    method WrapfsWrite(h: nat, content: Content, now: Time)
      requires Possible(State(), WriteFile(h, content))
      modifies this
      ensures State() == Apply(old(State()), Event(WriteFile(h, content), now))
      ensures
        var Linked(path, flag) := old(handles)[h];
        var save := old(files)[path].mtime < modifTym && !flag;
        && files == old(files)[path := File(content, now, now)]
        && handles == old(handles)[h := Linked(path, flag || save)]
        && saves == (if save then old(saves)[Copy(path, modifTym) := old(files)[path].content] else old(saves))
        && rows == (if save then old(rows) + [Row(modifTym, ModFile, path, Copy(path, modifTym), old(files)[path].ctime)]
                    else old(rows))
      ensures restorePoints == old(restorePoints) && modifTym == old(modifTym)
    {
      var Linked(path, backedUp) := handles[h];
      if files[path].mtime < modifTym {
        if !backedUp {
          Backup(path);
          backedUp := true;
        }
      }
      files := files[path := File(content, now, now)];
      handles := handles[h := Linked(path, backedUp)];
      clock := now;
    }

    method WrapfsFileRelease(h: nat, now: Time)
      requires Possible(State(), CloseFile(h))
      modifies this
      ensures State() == Apply(old(State()), Event(CloseFile(h), now))
      ensures handles == old(handles) - {h} && files == old(files) && saves == old(saves) && rows == old(rows)
      ensures restorePoints == old(restorePoints) && modifTym == old(modifTym)
    {
      handles := handles - {h};
      clock := now;
    }

    // ---- backupfs/inode.c ----

    method WrapfsCreate(path: Path, now: Time)
      requires Possible(State(), CreateFile(path))
      modifies this
      ensures State() == Apply(old(State()), Event(CreateFile(path), now))
      ensures files == old(files)[path := File("", now, now)]
      ensures saves == old(saves) && rows == old(rows) && handles == old(handles)
      ensures restorePoints == old(restorePoints) && modifTym == old(modifTym)
    {
      files := files[path := File("", now, now)];
      clock := now;
    }

    /** Every change of attributes goes straight to the lower file. */
    method WrapfsSetattr(path: Path, attributes: Attributes, now: Time)
      requires path in files
      modifies this
      ensures State() ==
              match attributes
              case Size(content) => Apply(old(State()), Event(SetSize(path, content), now))
              case ModeOrOwner => Apply(old(State()), Event(ChangeMode(path), now))
              case Times(mtime) => RetimeHooked(old(State()), path, mtime, now)
      ensures
        var file := old(files)[path];
        files == old(files)[path := match attributes
                                    case Size(content) => File(content, now, now)
                                    case ModeOrOwner => File(file.content, file.mtime, now)
                                    case Times(mtime) => File(file.content, mtime, now)]
      ensures saves == old(saves) && rows == old(rows) && handles == old(handles)
      ensures restorePoints == old(restorePoints) && modifTym == old(modifTym)
    {
      match attributes {
      case Size(content) => files := files[path := File(content, now, now)];
      case ModeOrOwner => files := files[path := files[path].(ctime := now)];
      case Times(mtime) => files := files[path := files[path].(mtime := mtime, ctime := now)];
      }
      clock := now;
    }

    method WrapfsUnlink(path: Path, now: Time)
      requires Possible(State(), UnlinkFile(path))
      modifies this
      ensures State() == Apply(old(State()), Event(UnlinkFile(path), now))
      ensures
        var file := old(files)[path];
        var save := file.mtime < modifTym;
        && files == old(files) - {path}
        && saves == (if save then old(saves)[Copy(path, modifTym) := file.content] else old(saves))
        && rows == (if save then old(rows) + [Row(modifTym, Unlink, path, Copy(path, modifTym), file.ctime)] else old(rows))
      ensures handles.Keys == old(handles).Keys
      ensures forall h | h in handles ::
                handles[h] == if old(handles)[h].Linked? && old(handles)[h].path == path then Unlinked else old(handles)[h]
      ensures restorePoints == old(restorePoints) && modifTym == old(modifTym)
    {
      if files[path].mtime < modifTym {
        // Logged first, then moved into the save directory.
        InsertIntoTable(Unlink, path, Copy(path, modifTym));
        saves := saves[Copy(path, modifTym) := files[path].content];
        files := files - {path};
      } else {
        files := files - {path};
      }
      handles := Detach(handles, path);
      clock := now;
    }

    /** `refused`: the lower file system rejects the rename after it has been logged. */
    method WrapfsRename(path: Path, target: Path, refused: bool, now: Time)
      requires Possible(State(), RenameFile(path, target))
      modifies this
      ensures State() == Apply(old(State()), Event(if refused then RenameFailure(path, target) else RenameFile(path, target), now))
      ensures
        var file := old(files)[path];
        && files == (if refused then old(files) else (old(files) - {path})[target := file])
        && rows == (if file.mtime < modifTym then old(rows) + [Row(modifTym, Rename, path, Under(target), file.ctime)]
                    else old(rows))
      ensures saves == old(saves) && handles.Keys == old(handles).Keys
      ensures forall h | h in handles ::
                var was := old(handles)[h];
                handles[h] == if refused || was.Unlinked? then was
                              else if was.path == target then Unlinked
                              else if was.path == path then Linked(target, was.backedUp) else was
      ensures restorePoints == old(restorePoints) && modifTym == old(modifTym)
    {
      if files[path].mtime < modifTym {
        InsertIntoTable(Rename, path, Under(target));
      }
      if !refused {
        files := (files - {path})[target := files[path]];
        handles := Retarget(Detach(handles, target), path, target);
      }
      clock := now;
    }

    // ---- userprog/restorepoint.c ----

    method CreateRestorePoint(now: Time)
      requires now !in restorePoints
      modifies this
      ensures State() == Apply(old(State()), Event(NewPoint, now))
      ensures restorePoints == old(restorePoints) + [now] && modifTym == now
      ensures files == old(files) && saves == old(saves) && rows == old(rows) && handles == old(handles)
    {
      restorePoints := restorePoints + [now];
      modifTym := now;
      clock := now;
    }

    /** select max(rp_time) from the points below `d`, 0 for NULL. */
    method NextUpdateTime(d: Time) returns (pred: Time)
      ensures pred == Predecessor(State().points, d)
    {
      var found := false;
      pred := 0;
      for i := 0 to |restorePoints|
        invariant found ==> pred in restorePoints[..i] && pred < d
        invariant !found ==> pred == 0
        invariant forall t | t in restorePoints[..i] && t < d :: found && t <= pred
      {
        var t := restorePoints[i];
        assert restorePoints[..i + 1] == restorePoints[..i] + [t];
        if t < d && (!found || pred < t) {
          found, pred := true, t;
        }
      }
      assert restorePoints[..|restorePoints|] == restorePoints;
      ghost var p := Predecessor(State().points, d);
      assert found ==> pred in State().points;
    }

    method DeleteRestorePoint(d: Time, now: Time)
      requires d in restorePoints
      modifies this
      ensures State() == Apply(old(State()), Event(DeletePoint(d), now))
      ensures forall t :: t in restorePoints <==> t in old(restorePoints) && t != d
      ensures files == old(files) && handles == old(handles) && modifTym == old(modifTym)
      ensures
        var pred := Predecessor(old(State()).points, d);
        && rows == DeleteRows(old(rows), d, pred)
        && (forall n :: n in saves <==>
              n in old(saves) && !exists r :: r in old(rows) && r.rpTime == d && r.accessTime > pred && r.name == n)
        && (forall n | n in saves :: saves[n] == old(saves)[n])
    {
      var pred := NextUpdateTime(d);
      var doomed := CollectedRows(rows, d, pred);
      for i := 0 to |doomed|
        modifies this`saves
        invariant saves == old(saves) - set r | r in doomed[..i] :: r.name
      {
        assert doomed[..i + 1] == doomed[..i] + [doomed[i]];
        saves := saves - {doomed[i].name};
      }
      assert doomed[..|doomed|] == doomed;
      rows := DeleteRows(rows, d, pred);
      restorePoints := Without(restorePoints, d);
      assert State().points == old(State()).points - {d};
      clock := now;
    }

    // ---- userprog/restore.c ----

    method CheckForExist(path: Path, now: Time)
      modifies this`files
      ensures files == MoveAside(old(files), path, now)
      ensures files == if path in old(files) then (old(files) - {path})[path + "." + Dec(now) := old(files)[path]] else old(files)
    {
      if path in files {
        files := (files - {path})[Aside(path, now) := files[path]];
      }
    }

    /** create_copy, and rename, from the save directory. */
    method CreateCopy(name: Name, path: Path, now: Time)
      modifies this`files
      ensures files == CopyIn(saves, old(files), name, path, now)
      ensures files == if name in saves then old(files)[path := File(saves[name], now, now)] else old(files)
    {
      if name in saves {
        files := files[path := File(saves[name], now, now)];
      }
    }

    /** The loop of restore_backup as the code has it: every source lies under the save directory. */
    method RestoreBackup(t: Time, now: Time)
      modifies this`files
      ensures files == RestoreTo(UnderSaveDir, old(State()), t, now)
    {
      var sel := Select(rows, t);
      var i := |sel|;
      assert sel[..i] == sel;
      while i > 0
        invariant 0 <= i <= |sel|
        invariant RestoreRows(UnderSaveDir, saves, files, sel[..i], now) == RestoreTo(UnderSaveDir, old(State()), t, now)
      {
        i := i - 1;
        var r := sel[i];
        ghost var before := files;
        assert sel[..i + 1][..i] == sel[..i];
        if r.kind.Rename? || r.kind.Unlink? {
          CheckForExist(r.path, now);
        }
        if !r.kind.Rmdir? {
          CreateCopy(r.name, r.path, now);
        }
        if r.path in files {
          files := files[r.path := files[r.path].(mtime := r.accessTime, ctime := now)];
        }
        assert files == RestoreRow(UnderSaveDir, saves, before, r, now);
      }
    }

    // ---- userprog/restore.c, its system calls made on the mounted volume ----

    method CheckForExistMounted(path: Path, now: Time)
      modifies this
      ensures State() == MoveAsideHooked(old(State()), path, now)
    {
      if path in files {
        WrapfsRename(path, Aside(path, now), false, now);
      }
    }

    /** cp, with `h` for the file it writes. */
    method CreateCopyMounted(name: Name, path: Path, h: nat, now: Time)
      requires h !in handles
      modifies this
      ensures State() == CopyInHooked(old(State()), name, path, h, now)
    {
      if name in saves {
        if path in files {
          WrapfsOpen(h, path, true, now);
        } else {
          WrapfsCreate(path, now);
          WrapfsOpen(h, path, false, now);
        }
        WrapfsWrite(h, saves[name], now);
        WrapfsFileRelease(h, now);
      }
    }

    method UndoRowMounted(r: Row, h: nat, now: Time)
      requires h !in handles
      modifies this
      ensures State() == RowHooked(old(State()), r, h, now)
    {
      if r.kind.Rename? || r.kind.Unlink? {
        CheckForExistMounted(r.path, now);
      }
      if !r.kind.Rmdir? {
        CreateCopyMounted(r.name, r.path, h, now);
      }
      if r.path in files {
        WrapfsSetattr(r.path, Times(r.accessTime), now);
      }
      clock := now;
    }

    /** The rows are those of the table as it was when the loop began. */
    method RestoreBackupMounted(t: Time, h: nat, now: Time)
      requires h !in handles
      modifies this
      ensures State() == Restored(old(State()), t, h, now)
    {
      var sel := Select(rows, t);
      var i := |sel|;
      assert sel[..i] == sel;
      while i > 0
        invariant 0 <= i <= |sel| && h !in handles
        invariant RowsHooked(State(), sel[..i], h, now) == Restored(old(State()), t, h, now)
      {
        i := i - 1;
        assert sel[..i + 1][..i] == sel[..i];
        UndoRowMounted(sel[i], h, now);
      }
    }
  }
}
