/**
 * A restore of the code runs on the mounted volume, so its own renames, copies
 * and time changes pass through the hooks and are logged like any others. This
 * is what that does to the other restore points.
 */
module Rewind {
  import opened Base
  import opened Table
  import opened Volume
  import opened Restore
  import opened TimeTravel
  import opened Versions
  import opened Exactness

  // ---- The loop body, hooked ----

  ghost function Do(s: Sys, op: Op, now: Time): Sys
    requires Possible(s, op)
  {
    Apply(s, Event(op, now))
  }

  /** check_for_exist */
  ghost function MoveAsideHooked(s: Sys, p: Path, now: Time): Sys {
    if p in s.files then Do(s, RenameFile(p, Aside(p, now)), now) else s
  }

  /** cp: an existing target is opened with truncation, a missing one created; the source is read after that. */
  ghost function CopyInHooked(s: Sys, name: Name, p: Path, h: nat, now: Time): Sys
    requires h !in s.handles
  {
    if name !in s.saves then s
    else
      var s1 := if p in s.files then Do(s, OpenFile(h, p, true), now)
                    else Do(Do(s, CreateFile(p), now), OpenFile(h, p, false), now);
      Do(Do(s1, WriteFile(h, s1.saves[name]), now), CloseFile(h), now)
  }

  /** utimensat is a setattr, which logs nothing. */
  function RetimeHooked(s: Sys, p: Path, access: Time, now: Time): Sys {
    s.(files := Retime(s.files, p, access, now), clock := now)
  }

  ghost function RowHooked(s: Sys, r: Row, h: nat, now: Time): (s': Sys)
    requires h !in s.handles
    ensures h !in s'.handles
  {
    var s1 := if r.kind.Rename? || r.kind.Unlink? then MoveAsideHooked(s, r.path, now) else s;
    var s2 := if r.kind.Rmdir? then s1 else CopyInHooked(s1, r.name, r.path, h, now);
    RetimeHooked(s2, r.path, r.accessTime, now)
  }

  ghost function RowsHooked(s: Sys, sel: seq<Row>, h: nat, now: Time): (s': Sys)
    requires h !in s.handles
    ensures h !in s'.handles
    decreases |sel|
  {
    if sel == [] then s
    else RowsHooked(RowHooked(s, sel[|sel| - 1], h, now), sel[..|sel| - 1], h, now)
  }

  /** restore_backup on the mounted volume, with `h` for the file cp has open. */
  ghost function Restored(s: Sys, t: Time, h: nat, now: Time): Sys
    requires h !in s.handles
  {
    RowsHooked(s, Select(s.rows, t), h, now)
  }

  // ---- What one row does ----

  /** The row its own hook logs, when the path holds a file older than the current point. */
  function LoggedRow(s: Sys, r: Row, now: Time): Row
    requires r.path in s.files
  {
    if r.kind.Unlink? then Row(s.epoch, Rename, r.path, Under(Aside(r.path, now)), s.files[r.path].ctime)
    else Row(s.epoch, ModFile, r.path, Copy(r.path, s.epoch), s.files[r.path].ctime)
  }

  /** A row whose copy is present. */
  predicate Replayable(s: Sys, r: Row) {
    r.HoldsCopy() && r.name.Copy? && r.name.of == r.path && r.name in s.saves
  }

  /** Undoing the row saves nothing over the copy it is about to read. */
  predicate Untainted(s: Sys, r: Row) {
    r.kind.ModFile? && r.name == Copy(r.path, s.epoch) ==> !s.Old(r.path)
  }

  /** What cp reads: the hook under its open has saved an old target first, maybe over the source. */
  function Source(s: Sys, name: Name, p: Path): Content
    requires name in s.saves
  {
    if name == Copy(p, s.epoch) && s.Old(p) then s.files[p].content else s.saves[name]
  }

  /** What the row brings back. Only a MODFILE row finds its target still in place. */
  function RowSource(s: Sys, r: Row): Content
    requires r.name in s.saves
  {
    if r.kind.ModFile? then Source(s, r.name, r.path) else s.saves[r.name]
  }

  /** Writing `c` to `p` after a save of `p` if it is old. */
  function Overwritten(s: Sys, p: Path, c: Content, now: Time): Sys {
    Put(if s.Old(p) then BackupFile(s, p) else s, p, c, now).(clock := now)
  }

  lemma CopyEffect(s: Sys, name: Name, p: Path, h: nat, now: Time)
    requires h !in s.handles && name in s.saves && s.epoch < now
    ensures CopyInHooked(s, name, p, h, now) == Overwritten(s, p, Source(s, name, p), now)
  {
    var s1 := if p in s.files then Do(s, OpenFile(h, p, true), now)
              else Do(Do(s, CreateFile(p), now), OpenFile(h, p, false), now);
    var s2 := Do(s1, WriteFile(h, s1.saves[name]), now);
    assert s1.saves[name] == Source(s, name, p);
    assert s2.handles - {h} == s.handles;
    if p !in s.files {
      assert s1.files == s.files[p := File("", now, now)];
    }
    assert s2.files == s.files[p := File(Source(s, name, p), now, now)];
  }

  lemma MoveEffect(s: Sys, p: Path, now: Time)
    requires p in s.files
    ensures
      var s1, q := MoveAsideHooked(s, p, now), Aside(p, now);
      && s1.files == MoveAside(s.files, p, now) && p !in s1.files
      && s1 == s.(files := s1.files, handles := Retarget(Detach(s.handles, q), p, q), clock := now,
                  rows := if s.Old(p) then s.rows + [Row(s.epoch, Rename, p, Under(q), s.files[p].ctime)] else s.rows)
  {
    assert p != Aside(p, now);
  }

  lemma RowEffect(s: Sys, r: Row, h: nat, now: Time)
    requires h !in s.handles && Replayable(s, r) && s.epoch < now
    ensures
      var s' := RowHooked(s, r, h, now);
      var p := r.path;
      && s'.files == (if r.kind.Unlink? then MoveAside(s.files, p, now) else s.files)[p := File(RowSource(s, r), r.accessTime, now)]
      && s'.saves == (if r.kind.ModFile? && s.Old(p) then s.saves[Copy(p, s.epoch) := s.files[p].content] else s.saves)
      && s'.rows == (if s.Old(p) then s.rows + [LoggedRow(s, r, now)] else s.rows)
      && s'.handles == (if r.kind.Unlink? && p in s.files
                        then Retarget(Detach(s.handles, Aside(p, now)), p, Aside(p, now)) else s.handles)
      && s'.points == s.points && s'.epoch == s.epoch && s'.clock == now
  {
    var s1 := s;
    if r.kind.Unlink? && r.path in s.files {
      MoveEffect(s, r.path, now);
      s1 := MoveAsideHooked(s, r.path, now);
    }
    CopyEffect(s1, r.name, r.path, h, now);
  }

  lemma UntaintedEffect(s: Sys, r: Row, h: nat, now: Time)
    requires h !in s.handles && Replayable(s, r) && Untainted(s, r) && s.epoch < now
    ensures RowHooked(s, r, h, now).files == RestoreRow(UnderSaveDir, s.saves, s.files, r, now)
  {
    RowEffect(s, r, h, now);
  }

  // ---- The hooks do not disturb the loop they run under ----

  ghost predicate Ready(s: Sys, sel: seq<Row>, now: Time) {
    && s.epoch < now && DistinctPaths(sel)
    && forall r | r in sel :: Replayable(s, r) && !IsAside(r.path, now)
  }

  predicate SameFile(s: Sys, s': Sys, p: Path) {
    s'.epoch == s.epoch && (p in s'.files <==> p in s.files) && (p in s.files ==> s'.files[p] == s.files[p])
  }

  lemma ReadyStep(s: Sys, sel: seq<Row>, h: nat, now: Time)
    requires h !in s.handles && sel != [] && Ready(s, sel, now)
    ensures
      var r, rest := sel[|sel| - 1], sel[..|sel| - 1];
      var s' := RowHooked(s, r, h, now);
      && r in sel && Replayable(s, r) && !IsAside(r.path, now)
      && Ready(s', rest, now) && SameCopies(s.saves, s'.saves, rest)
      && s'.rows == (if s.Old(r.path) then s.rows + [LoggedRow(s, r, now)] else s.rows)
      && s'.points == s.points && s'.epoch == s.epoch && s'.clock == now
      && (forall n | n in s'.saves && n !in s.saves :: n.Copy?)
      && forall x | x in rest :: x in sel && x.path != r.path && SameFile(s, s', x.path)
  {
    var r, rest := sel[|sel| - 1], sel[..|sel| - 1];
    assert r in sel;
    RowEffect(s, r, h, now);
    assert IsAside(Aside(r.path, now), now);
    forall x | x in rest
      ensures x in sel && x.path != r.path && Replayable(s, x) && !IsAside(x.path, now)
      ensures SameFile(s, RowHooked(s, r, h, now), x.path)
    {
    }
  }

  lemma {:induction false} RestoreRowsSame(mode: UndoMode, saves: Saves, saves': Saves, f: Files, sel: seq<Row>, now: Time)
    requires SameCopies(saves, saves', sel) && forall r | r in sel :: r.HoldsCopy()
    ensures RestoreRows(mode, saves, f, sel, now) == RestoreRows(mode, saves', f, sel, now)
    decreases |sel|
  {
    if sel != [] {
      var r := sel[|sel| - 1];
      assert r in sel;
      RestoreRowsSame(mode, saves, saves', RestoreRow(mode, saves, f, r, now), sel[..|sel| - 1], now);
    }
  }

  lemma {:induction false} HookedFiles(s: Sys, sel: seq<Row>, h: nat, now: Time)
    requires h !in s.handles && Ready(s, sel, now) && forall r | r in sel :: Untainted(s, r)
    ensures RowsHooked(s, sel, h, now).files == RestoreRows(UnderSaveDir, s.saves, s.files, sel, now)
    decreases |sel|
  {
    if sel != [] {
      var r, rest := sel[|sel| - 1], sel[..|sel| - 1];
      var s' := RowHooked(s, r, h, now);
      ReadyStep(s, sel, h, now);
      UntaintedEffect(s, r, h, now);
      assert forall x | x in rest :: SameFile(s, s', x.path) && Untainted(s', x);
      HookedFiles(s', rest, h, now);
      RestoreRowsSame(UnderSaveDir, s.saves, s'.saves, s'.files, rest, now);
    }
  }

  // ---- The invariant of a rename-free history ----

  /** The invariant of a rename-free history. */
  ghost predicate Good(s: Sys, snaps: Snapshots) {
    Inv(UnderSaveDir, s, snaps) && OneVersionEach(s)
  }

  lemma OverwriteKeepsGood(s: Sys, p: Path, c: Content, now: Time, snaps: Snapshots)
    requires Good(s, snaps) && s.clock <= now && s.epoch < now
    ensures Good(Overwritten(s, p, c, now), snaps)
  {
    if s.Old(p) {
      SaveAndPut(UnderSaveDir, s, p, c, now, s.handles, snaps);
      assert Overwritten(s, p, c, now) == Put(BackupFile(s, p), p, c, now).(handles := s.handles, clock := now);
    } else if p in s.files {
      PutUnseen(UnderSaveDir, s, p, c, now, s.handles, snaps);
      assert Overwritten(s, p, c, now) == Put(s, p, c, now).(handles := s.handles, clock := now);
    } else {
      OverwriteCreates(s, p, c, now, snaps);
    }
    if p in s.files {
      PutKeepsVersions(s, Overwritten(s, p, c, now), p, c, now);
    } else {
      QuietKeepsVersions(s, Overwritten(s, p, c, now));
    }
  }

  lemma OverwriteCreates(s: Sys, p: Path, c: Content, now: Time, snaps: Snapshots)
    requires Inv(UnderSaveDir, s, snaps) && s.clock <= now && s.epoch < now && p !in s.files
    ensures Inv(UnderSaveDir, Overwritten(s, p, c, now), snaps)
  {
    var e := Event(CreateFile(p), now);
    CreateStep(UnderSaveDir, s, e, snaps);
    var s1 := Apply(s, e);
    PutUnseen(UnderSaveDir, s1, p, c, now, s1.handles, snaps);
    assert s1.files[p := File(c, now, now)] == s.files[p := File(c, now, now)];
    assert Overwritten(s, p, c, now) == Put(s1, p, c, now).(handles := s1.handles, clock := now);
  }

  /** No file that a live point has seen is in the way of a row that would move it aside. */
  predicate NotInTheWay(s: Sys, r: Row) {
    r.kind.Unlink? ==> !Seen(s, r.path)
  }

  /** No file has this name and no row is about it. */
  predicate NameFree(s: Sys, p: Path) {
    p !in s.files && forall x | x in s.rows :: x.path != p
  }

  lemma MoveKeepsGood(g: Sys, r: Row, now: Time, snaps: Snapshots)
    requires Good(g, snaps) && g.clock <= now && g.epoch < now
    requires r.kind.Unlink? && NotInTheWay(g, r) && r.path in g.files && NameFree(g, Aside(r.path, now))
    ensures Good(MoveAsideHooked(g, r.path, now), snaps)
  {
    var q := Aside(r.path, now);
    assert forall x | x in g.rows :: RowOk(g, x);
    assert Copy(q, g.epoch) !in g.saves;
    RenameStep(UnderSaveDir, g, Event(RenameFile(r.path, q), now), snaps);
    UnseenRenameKeepsVersions(g, r.path, q);
    QuietKeepsVersions(Renamed(g, r.path, q), MoveAsideHooked(g, r.path, now));
  }

  /** The state once a row has moved aside what is in its place. */
  ghost function MovedFor(s: Sys, r: Row, now: Time): Sys {
    if r.kind.Unlink? then MoveAsideHooked(s, r.path, now) else s
  }

  lemma RowIsOverwrite(s: Sys, r: Row, h: nat, now: Time)
    requires h !in s.handles && Replayable(s, r) && s.epoch < now
    ensures
      var s1 := MovedFor(s, r, now);
      && r.name in s1.saves
      && RowHooked(s, r, h, now) == RetimeHooked(Overwritten(s1, r.path, RowSource(s, r), now), r.path, r.accessTime, now)
  {
    if r.kind.Unlink? && r.path in s.files {
      MoveEffect(s, r.path, now);
    }
    CopyEffect(MovedFor(s, r, now), r.name, r.path, h, now);
  }

  function PathsOf(sel: seq<Row>): set<Path> {
    set r | r in sel :: r.path
  }

  /** The names to which the restore would move files aside are free. */
  predicate AsidesFree(s: Sys, sel: seq<Row>, now: Time) {
    forall r | r in sel :: NameFree(s, Aside(r.path, now))
  }

  lemma AsidesStayFree(s: Sys, sel: seq<Row>, h: nat, now: Time)
    requires h !in s.handles && sel != [] && Ready(s, sel, now) && AsidesFree(s, sel, now)
    ensures AsidesFree(RowHooked(s, sel[|sel| - 1], h, now), sel[..|sel| - 1], now)
  {
    var r, rest := sel[|sel| - 1], sel[..|sel| - 1];
    ReadyStep(s, sel, h, now);
    RowEffect(s, r, h, now);
    forall x | x in rest
      ensures NameFree(RowHooked(s, r, h, now), Aside(x.path, now))
    {
      AsidesDiffer(x.path, now, r.path, now);
      assert IsAside(Aside(x.path, now), now);
    }
  }

  lemma WayStaysFree(s: Sys, sel: seq<Row>, h: nat, now: Time)
    requires h !in s.handles && sel != [] && Ready(s, sel, now) && forall r | r in sel :: NotInTheWay(s, r)
    ensures
      var s1, rest := RowHooked(s, sel[|sel| - 1], h, now), sel[..|sel| - 1];
      forall x | x in rest :: NotInTheWay(s1, x)
  {
    var s1 := RowHooked(s, sel[|sel| - 1], h, now);
    ReadyStep(s, sel, h, now);
    forall x | x in sel[..|sel| - 1]
      ensures NotInTheWay(s1, x)
    {
      assert x in sel && SameFile(s, s1, x.path);
    }
  }

  /** Nothing stands in the way of restoring `sel` after `paths`. */
  ghost predicate Unhindered(s: Sys, paths: set<Path>, sel: seq<Row>, now: Time) {
    && AsidesFree(s, sel, now)
    && (forall r | r in sel :: NotInTheWay(s, r) && r.path !in paths)
    && forall p | p in paths :: !IsAside(p, now)
  }

  lemma UnhinderedStep(s: Sys, paths: set<Path>, sel: seq<Row>, h: nat, now: Time)
    requires h !in s.handles && sel != [] && Ready(s, sel, now) && Unhindered(s, paths, sel, now)
    ensures
      var r, rest := sel[|sel| - 1], sel[..|sel| - 1];
      Unhindered(RowHooked(s, r, h, now), paths + {r.path}, rest, now)
  {
    ReadyStep(s, sel, h, now);
    AsidesStayFree(s, sel, h, now);
    WayStaysFree(s, sel, h, now);
  }

  lemma PathsOfLast(paths: set<Path>, sel: seq<Row>)
    requires sel != []
    ensures paths + {sel[|sel| - 1].path} + PathsOf(sel[..|sel| - 1]) == paths + PathsOf(sel)
  {
    assert sel == sel[..|sel| - 1] + [sel[|sel| - 1]];
  }

  // ---- What the hooks add ----

  ghost predicate Added(s: Sys, sel: seq<Row>, now: Time, x: Row) {
    exists r :: r in sel && s.Old(r.path) && x == LoggedRow(s, r, now)
  }

  lemma AddedStep(s: Sys, s1: Sys, rest: seq<Row>, r: Row, now: Time)
    requires s1.epoch == s.epoch && forall x | x in rest :: SameFile(s, s1, x.path)
    ensures forall x :: Added(s, rest + [r], now, x) <==>
                        Added(s1, rest, now, x) || (s.Old(r.path) && x == LoggedRow(s, r, now))
  {
    forall x
      ensures Added(s, rest + [r], now, x) <==>
              Added(s1, rest, now, x) || (s.Old(r.path) && x == LoggedRow(s, r, now))
    {
      if Added(s1, rest, now, x) {
        var y :| y in rest && s1.Old(y.path) && x == LoggedRow(s1, y, now);
        assert y in rest + [r] && SameFile(s, s1, y.path) && x == LoggedRow(s, y, now);
      }
      if Added(s, rest + [r], now, x) {
        var y :| y in rest + [r] && s.Old(y.path) && x == LoggedRow(s, y, now);
        if y in rest {
          assert SameFile(s, s1, y.path) && x == LoggedRow(s1, y, now);
        }
      }
      assert r in rest + [r];
    }
  }

  /** `s'` comes from `s` by restoring `sel` and adding the rows and copies of its hooks. */
  ghost predicate Grown(s: Sys, sel: seq<Row>, now: Time, s': Sys) {
    && s'.points == s.points && s'.epoch == s.epoch
    && (forall x :: x in s'.rows <==> x in s.rows || Added(s, sel, now, x))
    && (forall n | n in s'.saves && n !in s.saves :: n.Copy?)
    && (s'.clock == s.clock || s'.clock == now)
  }

  lemma GrownStep(s: Sys, s1: Sys, s': Sys, rest: seq<Row>, r: Row, now: Time)
    requires s1.epoch == s.epoch && s1.points == s.points && forall x | x in rest :: SameFile(s, s1, x.path)
    requires s1.rows == if s.Old(r.path) then s.rows + [LoggedRow(s, r, now)] else s.rows
    requires (forall n | n in s1.saves && n !in s.saves :: n.Copy?) && s1.clock == now
    requires Grown(s1, rest, now, s')
    ensures Grown(s, rest + [r], now, s')
  {
    AddedStep(s, s1, rest, r, now);
  }

  lemma {:induction false} RunEffect(s: Sys, sel: seq<Row>, h: nat, now: Time)
    requires h !in s.handles && Ready(s, sel, now)
    ensures Grown(s, sel, now, RowsHooked(s, sel, h, now))
    decreases |sel|
  {
    if sel != [] {
      var r, rest := sel[|sel| - 1], sel[..|sel| - 1];
      ReadyStep(s, sel, h, now);
      RunEffect(RowHooked(s, r, h, now), rest, h, now);
      GrownRow(s, sel, h, now, RowsHooked(s, sel, h, now));
    }
  }

  lemma GrownRow(s: Sys, sel: seq<Row>, h: nat, now: Time, s': Sys)
    requires h !in s.handles && sel != [] && Ready(s, sel, now)
    requires Grown(RowHooked(s, sel[|sel| - 1], h, now), sel[..|sel| - 1], now, s')
    ensures Grown(s, sel, now, s')
  {
    var r, rest := sel[|sel| - 1], sel[..|sel| - 1];
    ReadyStep(s, sel, h, now);
    assert sel == rest + [r];
    GrownStep(s, RowHooked(s, r, h, now), s', rest, r, now);
  }

  lemma {:induction false} NewPaths(saves: Saves, f: Files, sel: seq<Row>, now: Time, p: Path)
    requires p in RestoreRows(UnderSaveDir, saves, f, sel, now) && p !in f && p !in PathsOf(sel)
    ensures IsAside(p, now)
    decreases |sel|
  {
    var r := sel[|sel| - 1];
    var f1 := RestoreRow(UnderSaveDir, saves, f, r, now);
    assert r in sel && forall x | x in sel[..|sel| - 1] :: x in sel;
    if p !in f1 {
      NewPaths(saves, f1, sel[..|sel| - 1], now, p);
    }
  }

  // ---- Restoring to another point afterwards ----

  /** `w` is `v` and possibly more, at `paths` only. */
  predicate Extends(w: View, v: View, paths: set<Path>) {
    && (forall p | p in v :: p in w && w[p] == v[p])
    && (forall p | p in w :: p in v || p in paths)
  }

  lemma {:induction false} ReplayMonotone(saves: Saves, v: View, w: View, sel: seq<Row>, paths: set<Path>)
    requires Extends(w, v, paths) && ReplayView(UnderSaveDir, saves, v, sel).Some?
    ensures ReplayView(UnderSaveDir, saves, w, sel).Some?
    ensures Extends(ReplayView(UnderSaveDir, saves, w, sel).value, ReplayView(UnderSaveDir, saves, v, sel).value, paths)
    decreases |sel|
  {
    if sel != [] {
      var n := |sel| - 1;
      ReplayMonotone(saves, UndoRow(UnderSaveDir, saves, v, sel[n]).value, UndoRow(UnderSaveDir, saves, w, sel[n]).value,
                     sel[..n], paths);
    }
  }

  /** A state of a rename-free history, with nobody using the names this restore moves files to. */
  ghost predicate BeforeRestore(s: Sys, snaps: Snapshots, t: Time, h: nat, now: Time) {
    && Good(s, snaps) && t in s.points
    && h !in s.handles && s.clock <= now && s.epoch < now && ApartFromAsides(s.files, s.rows, now)
  }

  lemma LiveReady(s: Sys, snaps: Snapshots, t: Time, h: nat, now: Time)
    requires BeforeRestore(s, snaps, t, h, now)
    ensures Ready(s, Select(s.rows, t), now) && AsidesFree(s, Select(s.rows, t), now)
    ensures forall r | r in Select(s.rows, t) :: Untainted(s, r)
  {
    var sel := Select(s.rows, t);
    assert OneVersion(s, t);
    assert forall x | x in s.rows :: NamesPath(x, x.path);
    forall r | r in sel
      ensures Replayable(s, r) && !IsAside(r.path, now) && NameFree(s, Aside(r.path, now))
    {
      assert RowOk(s, r) && NamesPath(r, r.path) && IsAside(Aside(r.path, now), now);
    }
  }

  /** The hooks under a restore do not change what it computes. */
  lemma RestoreUnderHooks(s: Sys, snaps: Snapshots, t: Time, h: nat, now: Time)
    requires BeforeRestore(s, snaps, t, h, now)
    ensures Restored(s, t, h, now).files == RestoreTo(UnderSaveDir, s, t, now)
  {
    LiveReady(s, snaps, t, h, now);
    HookedFiles(s, Select(s.rows, t), h, now);
  }

  lemma FilesStillApart(s: Sys, t: Time, now: Time, later: Time)
    requires forall p | p in s.files :: !IsAside(p, later)
    requires forall p | p in PathsOf(Select(s.rows, t)) :: !IsAside(p, later)
    requires now != later
    ensures forall p | p in RestoreTo(UnderSaveDir, s, t, now) :: !IsAside(p, later)
  {
    forall p | p in RestoreTo(UnderSaveDir, s, t, now)
      ensures !IsAside(p, later)
    {
      if p !in s.files && p !in PathsOf(Select(s.rows, t)) {
        NewPaths(s.saves, s.files, Select(s.rows, t), now, p);
        AsideOnce(p, now, later);
      }
    }
  }

  /** A row of the restore's own hooks is about a path it restores, and at most moves that aside. */
  lemma AddedNames(s: Sys, sel: seq<Row>, now: Time, x: Row, p: Path)
    requires Added(s, sel, now, x) && NamesPath(x, p)
    ensures p in PathsOf(sel) || IsAside(p, now)
  {
    var r :| r in sel && s.Old(r.path) && x == LoggedRow(s, r, now);
  }

  /** The names a later restore uses are still free. */
  lemma StillApart(s: Sys, snaps: Snapshots, t: Time, h: nat, now: Time, later: Time)
    requires BeforeRestore(s, snaps, t, h, now) && now < later && ApartFromAsides(s.files, s.rows, later)
    ensures ApartFromAsides(Restored(s, t, h, now).files, Restored(s, t, h, now).rows, later)
  {
    var sel, s' := Select(s.rows, t), Restored(s, t, h, now);
    assert forall r | r in s.rows :: NamesPath(r, r.path) && !IsAside(r.path, later);
    RestoreUnderHooks(s, snaps, t, h, now);
    FilesStillApart(s, t, now, later);
    LiveReady(s, snaps, t, h, now);
    RunEffect(s, sel, h, now);
    AddedStayApart(s, sel, now, later);
  }

  lemma AddedStayApart(s: Sys, sel: seq<Row>, now: Time, later: Time)
    requires now != later && forall p | p in PathsOf(sel) :: !IsAside(p, later)
    ensures forall x, p | Added(s, sel, now, x) && NamesPath(x, p) :: !IsAside(p, later)
  {
    forall x, p | Added(s, sel, now, x) && NamesPath(x, p)
      ensures !IsAside(p, later)
    {
      AddedNames(s, sel, now, x, p);
      if IsAside(p, now) {
        AsideOnce(p, now, later);
      }
    }
  }

  /** A file that `t` saw has no version stored for it. */
  lemma UnsavedFile(s: Sys, snaps: Snapshots, p: Path, t: Time)
    requires Good(s, snaps) && t in s.points && p in s.files && s.files[p].mtime <= t
    ensures p in snaps[t] && snaps[t][p] == s.files[p].content && s.Old(p)
    ensures forall y | y in s.rows && y.Covers(t) :: y.path != p
    ensures s.files[p].ctime <= t <= s.epoch
  {
    var sel := Select(s.rows, t);
    assert OneVersion(s, t) && RecoversAt(UnderSaveDir, s, t, snaps[t]);
    assert TimesAgree(s.files[p], s.points);
    assert p in OldView(s.files, t);
    ReplayOthers(s.saves, OldView(s.files, t), sel, p);
  }

  lemma {:induction false} ReplayOthers(saves: Saves, v: View, sel: seq<Row>, p: Path)
    requires p in v && (forall y | y in sel :: y.path != p) && ReplayView(UnderSaveDir, saves, v, sel).Some?
    ensures
      var w := ReplayView(UnderSaveDir, saves, v, sel).value;
      p in w && w[p] == v[p]
    decreases |sel|
  {
    if sel != [] {
      var n := |sel| - 1;
      assert sel[n] in sel;
      ReplayOthers(saves, UndoRow(UnderSaveDir, saves, v, sel[n]).value, sel[..n], p);
    }
  }

  lemma SamePathSameRow(s: Sys, t: Time, a: Row, b: Row)
    requires OneVersion(s, t) && a in Select(s.rows, t) && b in Select(s.rows, t) && a.path == b.path
    ensures a == b
  {
    var sel := Select(s.rows, t);
    var i :| 0 <= i < |sel| && sel[i] == a;
    var j :| 0 <= j < |sel| && sel[j] == b;
  }

  /** A restore logs at most one row for each path. */
  lemma OneAdded(s: Sys, t: Time, now: Time, r: Row, y: Row)
    requires OneVersion(s, t) && r in Select(s.rows, t)
    requires Added(s, Select(s.rows, t), now, y) && y.path == r.path
    ensures s.Old(r.path) && y == LoggedRow(s, r, now)
  {
    var sel := Select(s.rows, t);
    var x :| x in sel && s.Old(x.path) && y == LoggedRow(s, x, now);
    SamePathSameRow(s, t, x, r);
  }

  /** What the restore's own hook logged for a file that `t2` saw is selected for `t2`, alone. */
  lemma OwnRows(s: Sys, snaps: Snapshots, t: Time, h: nat, now: Time, r: Row, t2: Time)
    requires BeforeRestore(s, snaps, t, h, now) && t2 in s.points
    requires r in Select(s.rows, t) && r.path in s.files && s.files[r.path].mtime <= t2
    ensures
      var sel := Select(Restored(s, t, h, now).rows, t2);
      && LoggedRow(s, r, now) in sel
      && forall y | y in sel && y.path == r.path :: y == LoggedRow(s, r, now)
  {
    var s' := Restored(s, t, h, now);
    LiveReady(s, snaps, t, h, now);
    RunEffect(s, Select(s.rows, t), h, now);
    UnsavedFile(s, snaps, r.path, t2);
    assert OneVersion(s, t);
    assert Added(s, Select(s.rows, t), now, LoggedRow(s, r, now));
    forall y | y in Select(s'.rows, t2) && y.path == r.path
      ensures y == LoggedRow(s, r, now)
    {
      OneAdded(s, t, now, r, y);
    }
  }

  /** In the mode of the code a legal history renames no file that a live point has seen. */
  lemma {:induction false} LegalIsRenameFree(s: Sys, es: seq<Event>)
    requires Legal(UnderSaveDir, s, es)
    ensures RenameFree(UnderSaveDir, s, es)
    decreases |es|
  {
    if es != [] {
      LegalIsRenameFree(Apply(s, es[0]), es[1..]);
    }
  }

  lemma EndOfRun(s: Sys, es: seq<Event>, t: Time, h: nat, now: Time)
    requires Initial(s) && Legal(UnderSaveDir, s, es)
    requires
      var end := Run(UnderSaveDir, s, es);
      && t in end.points && h !in end.handles && end.clock <= now && end.epoch < now
      && ApartFromAsides(end.files, end.rows, now)
    ensures BeforeRestore(Run(UnderSaveDir, s, es), Taken(UnderSaveDir, s, es), t, h, now)
  {
    RunFromInitial(UnderSaveDir, s, es);
    InitialInv(UnderSaveDir, s);
    LegalIsRenameFree(s, es);
    RunKeepsVersions(UnderSaveDir, s, es, map[]);
  }

  // ---- What a replayed path holds ----

  /** A path that one row restores ends as that row leaves it. */
  lemma {:induction false} OneRowWins(saves: Saves, f: Files, sel: seq<Row>, now: Time, r: Row)
    requires !IsAside(r.path, now) && r in sel && r.HoldsCopy() && r.name in saves
    requires forall y | y in sel && y.path == r.path :: y == r
    ensures
      var f' := RestoreRows(UnderSaveDir, saves, f, sel, now);
      r.path in f' && f'[r.path] == File(saves[r.name], r.accessTime, now)
    decreases |sel|
  {
    var y, rest := sel[|sel| - 1], sel[..|sel| - 1];
    var f1 := RestoreRow(UnderSaveDir, saves, f, y, now);
    assert y in sel && sel == rest + [y];
    if r in rest {
      OneRowWins(saves, f1, rest, now, r);
    } else {
      assert y == r && IsAside(Aside(r.path, now), now);
      OthersKeep(saves, f1, rest, now, r.path);
    }
  }

  lemma {:induction false} OthersKeep(saves: Saves, f: Files, sel: seq<Row>, now: Time, p: Path)
    requires !IsAside(p, now) && p in f && p !in PathsOf(sel)
    ensures
      var f' := RestoreRows(UnderSaveDir, saves, f, sel, now);
      p in f' && f'[p] == f[p]
    decreases |sel|
  {
    if sel != [] {
      var y, rest := sel[|sel| - 1], sel[..|sel| - 1];
      assert y in sel && forall x | x in rest :: x in sel;
      assert IsAside(Aside(y.path, now), now);
      OthersKeep(saves, RestoreRow(UnderSaveDir, saves, f, y, now), rest, now, p);
    }
  }

  /** A replayed file holds its snapshot and keeps the row's access time as mtime. */
  lemma RestoredFile(s: Sys, snaps: Snapshots, t: Time, now: Time, r: Row)
    requires Good(s, snaps) && t in s.points && ApartFromAsides(s.files, s.rows, now)
    requires r in Select(s.rows, t)
    ensures
      var f := RestoreTo(UnderSaveDir, s, t, now);
      && r.path in f && f[r.path] == File(s.saves[r.name], r.accessTime, now)
      && r.path in snaps[t] && snaps[t][r.path] == s.saves[r.name]
  {
    var sel, f := Select(s.rows, t), RestoreTo(UnderSaveDir, s, t, now);
    assert OneVersion(s, t) && RowOk(s, r) && NamesPath(r, r.path);
    forall y | y in sel && y.path == r.path
      ensures y == r
    {
      SamePathSameRow(s, t, y, r);
    }
    OneRowWins(s.saves, s.files, sel, now, r);
    RestoreRecovers(UnderSaveDir, s, snaps, t, now);
    assert r.path in SeenView(f, t, now);
  }
}
