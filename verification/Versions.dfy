/**
 * Histories that rename no file a live point has seen: a restore replays at most one version
 * of each path, so its order does not matter and what it moves aside is kept.
 */
module Versions {
  import opened Base
  import opened Table
  import opened Volume
  import opened Restore
  import opened TimeTravel

  predicate NoRenames(rows: seq<Row>) {
    forall r | r in rows :: r.HoldsCopy() && r.name.Copy?
  }

  predicate DistinctPaths(sel: seq<Row>) {
    forall i, j | 0 <= i < j < |sel| :: sel[i].path != sel[j].path
  }

  /** The rows selected for `t` are copies; a path with a version for `t` holds nothing that old any more. */
  predicate OneVersion(s: Sys, t: Time) {
    && NoRenames(Select(s.rows, t)) && DistinctPaths(Select(s.rows, t))
    && forall r | r in Select(s.rows, t) :: r.path !in OldView(s.files, t)
  }

  predicate OneVersionEach(s: Sys) {
    forall t | t in s.points :: OneVersion(s, t)
  }

  predicate KeepsSeenNames(op: Op, s: Sys) {
    (op.RenameFile? || op.RenameFailure?) ==> !Seen(s, op.path)
  }

  /** A step that logs nothing, and makes no path old again. */
  lemma QuietKeepsVersions(s: Sys, s': Sys)
    requires OneVersionEach(s) && s'.points <= s.points
    requires forall t | t in s'.points :: Select(s'.rows, t) == Select(s.rows, t)
    requires forall t | t in s'.points :: OldView(s'.files, t).Keys <= OldView(s.files, t).Keys
    ensures OneVersionEach(s')
  {
    forall t | t in s'.points
      ensures OneVersion(s', t)
    {
      assert OneVersion(s, t);
    }
  }

  lemma LoggedKeepsVersion(s: Sys, s': Sys, r: Row, t: Time)
    requires OneVersion(s, t) && s'.rows == s.rows + [r] && r.HoldsCopy() && r.name.Copy?
    requires r.Covers(t) ==> r.path in OldView(s.files, t)
    requires OldView(s'.files, t).Keys == OldView(s.files, t).Keys - {r.path}
    ensures OneVersion(s', t)
  {
    SelectAppend(s.rows, r, t);
    assert forall i | 0 <= i < |Select(s.rows, t)| :: Select(s.rows, t)[i] in Select(s.rows, t);
  }

  /** Logging the version that is about to go. */
  lemma LoggedKeepsVersions(s: Sys, s': Sys, p: Path, kind: Kind)
    requires TimesOk(s) && OneVersionEach(s) && s.Old(p) && (kind.ModFile? || kind.Unlink?)
    requires s'.rows == s.rows + [Row(s.epoch, kind, p, Copy(p, s.epoch), s.files[p].ctime)] && s'.points == s.points
    requires forall t | t in s.points :: OldView(s'.files, t).Keys == OldView(s.files, t).Keys - {p}
    ensures OneVersionEach(s')
  {
    forall t | t in s.points
      ensures OneVersion(s', t)
    {
      assert TimesAgree(s.files[p], s.points);
      LoggedKeepsVersion(s, s', Row(s.epoch, kind, p, Copy(p, s.epoch), s.files[p].ctime), t);
    }
  }

  lemma DeletionKeepsVersion(s: Sys, d: Time, t: Time)
    requires (forall x | x in s.points :: x > 0) && d in s.points && t in s.points && t != d && OneVersion(s, t)
    ensures OneVersion(Deleted(s, d), t)
  {
    SelectPreserved(s.rows, s.points, d, t);
    var sel, sel' := Select(s.rows, t), Select(Deleted(s, d).rows, t);
    forall r | r in sel'
      ensures r.path !in OldView(s.files, t) && r.HoldsCopy() && r.name.Copy?
    {
      var i :| 0 <= i < |sel'| && sel'[i] == r;
      assert sel[i] in sel && sel[i].path == r.path;
    }
  }

  lemma DeletionKeepsVersions(mode: UndoMode, s: Sys, e: Event, snaps: Snapshots)
    requires Inv(mode, s, snaps) && Allowed(mode, s, e) && e.op.DeletePoint? && OneVersionEach(s)
    ensures OneVersionEach(Apply(s, e))
  {
    forall t | t in s.points && t != e.op.point
      ensures OneVersion(Apply(s, e), t)
    {
      DeletionKeepsVersion(s, e.op.point, t);
    }
  }

  /** A write or a truncating open of `p`, saved first when `p` is old. */
  lemma PutKeepsVersions(s: Sys, s': Sys, p: Path, c: Content, now: Time)
    requires TimesOk(s) && OneVersionEach(s) && HandlesOk(s) && p in s.files && s.epoch < now
    requires s'.files == s.files[p := File(c, now, now)] && s'.points == s.points
    requires s'.rows == if s.Old(p) then s.rows + [Row(s.epoch, ModFile, p, Copy(p, s.epoch), s.files[p].ctime)] else s.rows
    ensures OneVersionEach(s')
  {
    if s.Old(p) { LoggedKeepsVersions(s, s', p, ModFile); } else { QuietKeepsVersions(s, s'); }
  }

  lemma RemoveKeepsVersions(s: Sys, p: Path)
    requires TimesOk(s) && OneVersionEach(s) && p in s.files
    ensures OneVersionEach(Removed(s, p))
  {
    if s.Old(p) { LoggedKeepsVersions(s, Removed(s, p), p, Unlink); } else { QuietKeepsVersions(s, Removed(s, p)); }
  }

  /** The row of an unseen file's rename is selected for no live point. */
  lemma UnseenRow(s: Sys, p: Path, name: Name, t: Time)
    requires TimesOk(s) && p in s.files && !Seen(s, p) && t in s.points
    ensures Select(LogRow(s, Rename, p, name).rows, t) == Select(s.rows, t)
  {
    assert TimesAgree(s.files[p], s.points);
    SelectAppend(s.rows, Row(s.epoch, Rename, p, name, s.files[p].ctime), t);
  }

  lemma UnseenRenameKeepsVersions(s: Sys, p: Path, q: Path)
    requires TimesOk(s) && OneVersionEach(s) && p in s.files && p != q && !Seen(s, p)
    ensures OneVersionEach(Renamed(s, p, q))
  {
    var s' := Renamed(s, p, q);
    forall t | t in s'.points
      ensures Select(s'.rows, t) == Select(s.rows, t)
      ensures OldView(s'.files, t).Keys <= OldView(s.files, t).Keys
    {
      UnseenRow(s, p, Under(q), t);
    }
    QuietKeepsVersions(s, s');
  }

  lemma RefusedRenameKeepsVersions(s: Sys, p: Path, q: Path)
    requires TimesOk(s) && OneVersionEach(s) && p in s.files && !Seen(s, p)
    ensures OneVersionEach(LogRow(s, Rename, p, Under(q)))
  {
    forall t | t in s.points
      ensures Select(LogRow(s, Rename, p, Under(q)).rows, t) == Select(s.rows, t)
    {
      UnseenRow(s, p, Under(q), t);
    }
    QuietKeepsVersions(s, LogRow(s, Rename, p, Under(q)));
  }

  lemma StepKeepsVersions(mode: UndoMode, s: Sys, e: Event, snaps: Snapshots)
    requires Inv(mode, s, snaps) && Allowed(mode, s, e) && OneVersionEach(s) && KeepsSeenNames(e.op, s)
    ensures OneVersionEach(Apply(s, e))
  {
    assert TimesOk(s) && HandlesOk(s);
    match e.op
    case OpenFile(_, _, _) => TouchKeepsVersions(s, e);
    case WriteFile(_, _) => TouchKeepsVersions(s, e);
    case UnlinkFile(_) => UnlinkKeepsVersions(s, e);
    case RenameFile(_, _) => RenameKeepsVersions(mode, s, e);
    case RenameFailure(_, _) => RenameKeepsVersions(mode, s, e);
    case NewPoint => PointKeepsVersions(s, Apply(s, e));
    case DeletePoint(_) => DeletionKeepsVersions(mode, s, e, snaps);
    case _ => QuietKeepsVersions(s, Apply(s, e));
  }

  lemma TouchKeepsVersions(s: Sys, e: Event)
    requires TimesOk(s) && HandlesOk(s) && OneVersionEach(s) && Possible(s, e.op) && Timely(s, e)
    requires e.op.OpenFile? || e.op.WriteFile?
    ensures OneVersionEach(Apply(s, e))
  {
    match e.op
    case OpenFile(_, p, truncate) =>
      if truncate { PutKeepsVersions(s, Apply(s, e), p, "", e.now); } else { QuietKeepsVersions(s, Apply(s, e)); }
    case WriteFile(h, c) => PutKeepsVersions(s, Apply(s, e), s.handles[h].path, c, e.now);
  }

  lemma UnlinkKeepsVersions(s: Sys, e: Event)
    requires TimesOk(s) && OneVersionEach(s) && e.op.UnlinkFile? && Possible(s, e.op)
    ensures OneVersionEach(Apply(s, e))
  {
    RemoveKeepsVersions(s, e.op.path);
    QuietKeepsVersions(Removed(s, e.op.path), Apply(s, e));
  }

  lemma RenameKeepsVersions(mode: UndoMode, s: Sys, e: Event)
    requires TimesOk(s) && OneVersionEach(s) && Allowed(mode, s, e) && KeepsSeenNames(e.op, s)
    requires e.op.RenameFile? || e.op.RenameFailure?
    ensures OneVersionEach(Apply(s, e))
  {
    match e.op
    case RenameFile(p, q) =>
      UnseenRenameKeepsVersions(s, p, q);
      QuietKeepsVersions(Renamed(s, p, q), Apply(s, e));
    case RenameFailure(p, q) =>
      RefusedRenameKeepsVersions(s, p, q);
      QuietKeepsVersions(if s.Old(p) then LogRow(s, Rename, p, Under(q)) else s, Apply(s, e));
  }

  lemma PointKeepsVersions(s: Sys, s': Sys)
    requires OneVersionEach(s) && s'.rows == s.rows && s'.files == s.files && s'.points == s.points + {s'.epoch}
    requires RowsOk(s) && s.epoch < s'.epoch
    ensures OneVersionEach(s')
  {
    assert forall r | r in s.rows :: RowOk(s, r);
    forall t | t in s'.points
      ensures OneVersion(s', t)
    {
      if t == s'.epoch {
        SelectNothing(s.rows, t);
      } else {
        assert OneVersion(s, t);
      }
    }
  }

  /** No event renames a file that a live point has seen. */
  ghost predicate RenameFree(mode: UndoMode, s: Sys, es: seq<Event>)
    requires Legal(mode, s, es)
    decreases |es|
  {
    es == [] || (KeepsSeenNames(es[0].op, s) && RenameFree(mode, Apply(s, es[0]), es[1..]))
  }

  lemma {:induction false} RunKeepsVersions(mode: UndoMode, s: Sys, es: seq<Event>, snaps: Snapshots)
    requires Inv(mode, s, snaps) && Legal(mode, s, es) && RenameFree(mode, s, es) && OneVersionEach(s)
    ensures OneVersionEach(Run(mode, s, es))
    decreases |es|
  {
    if es != [] {
      Step(mode, s, es[0], snaps);
      StepKeepsVersions(mode, s, es[0], snaps);
      RunKeepsVersions(mode, Apply(s, es[0]), es[1..], Noted(s, es[0], snaps));
    }
  }

  /** Every restore of a rename-free history replays at most one row for each path. */
  lemma AtMostOneVersion(mode: UndoMode, s: Sys, es: seq<Event>, t: Time, i: nat, j: nat)
    requires Initial(s) && Legal(mode, s, es) && RenameFree(mode, s, es)
    requires t in Run(mode, s, es).points
    requires i < j < |Select(Run(mode, s, es).rows, t)|
    ensures
      var sel := Select(Run(mode, s, es).rows, t);
      sel[i].HoldsCopy() && sel[j].HoldsCopy() && sel[i].path != sel[j].path
  {
    InitialInv(mode, s);
    RunKeepsVersions(mode, s, es, map[]);
    assert OneVersion(Run(mode, s, es), t);
    var sel := Select(Run(mode, s, es).rows, t);
    assert sel[i] in sel && sel[j] in sel;
  }

  /** What an UNLINK row displaces is found, unchanged, under its moved-aside name. */
  lemma {:induction false} DisplacedFilesKept(mode: UndoMode, saves: Saves, f: Files, sel: seq<Row>, now: Time, k: nat)
    requires DistinctPaths(sel) && NoRenames(sel)
    requires forall r | r in sel :: !IsAside(r.path, now)
    requires k < |sel| && sel[k].kind.Unlink? && sel[k].path in f
    ensures
      var f' := RestoreRows(mode, saves, f, sel, now);
      Aside(sel[k].path, now) in f' && f'[Aside(sel[k].path, now)] == f[sel[k].path]
    decreases |sel|
  {
    var n := |sel| - 1;
    var r := sel[n];
    assert r in sel;
    var f1 := RestoreRow(mode, saves, f, r, now);
    var rest := sel[..n];
    OtherPaths(sel, now);
    if k == n {
      RowMovesAside(mode, saves, f, r, now);
      AsideKept(mode, saves, f1, rest, now, r.path);
    } else {
      var p := sel[k].path;
      assert rest[k] == sel[k] && sel[k] in rest;
      RowFrame(mode, saves, f, r, now, p);
      DisplacedFilesKept(mode, saves, f1, rest, now, k);
    }
  }

  lemma OtherPaths(sel: seq<Row>, now: Time)
    requires sel != [] && DistinctPaths(sel) && NoRenames(sel) && forall r | r in sel :: !IsAside(r.path, now)
    ensures
      var rest, last := sel[..|sel| - 1], sel[|sel| - 1];
      && DistinctPaths(rest) && NoRenames(rest) && last.HoldsCopy() && last.name.Copy?
      && forall r | r in rest :: r.path != last.path && !IsAside(r.path, now)
  {
    assert forall r | r in sel[..|sel| - 1] :: r in sel;
    assert sel[|sel| - 1] in sel;
  }

  lemma RowMovesAside(mode: UndoMode, saves: Saves, f: Files, r: Row, now: Time)
    requires r.kind.Unlink? && r.path in f && !IsAside(r.path, now)
    ensures
      var f' := RestoreRow(mode, saves, f, r, now);
      Aside(r.path, now) in f' && f'[Aside(r.path, now)] == f[r.path]
  {
    assert IsAside(Aside(r.path, now), now);
  }

  /** Rows for other paths leave a moved-aside file alone. */
  lemma {:induction false} AsideKept(mode: UndoMode, saves: Saves, f: Files, sel: seq<Row>, now: Time, p: Path)
    requires NoRenames(sel) && Aside(p, now) in f
    requires forall r | r in sel :: r.path != p && !IsAside(r.path, now)
    ensures
      var f' := RestoreRows(mode, saves, f, sel, now);
      Aside(p, now) in f' && f'[Aside(p, now)] == f[Aside(p, now)]
    decreases |sel|
  {
    if sel != [] {
      var n := |sel| - 1;
      var r := sel[n];
      assert r in sel && r.HoldsCopy();
      assert IsAside(Aside(p, now), now);
      AsidesDiffer(p, now, r.path, now);
      AsideKept(mode, saves, RestoreRow(mode, saves, f, r, now), sel[..n], now, p);
    }
  }
}
