/**
 * When exactly the hooks meet time travel: the guards of a legal history are
 * needed, not only enough.
 */
module Exactness {
  import opened Base
  import opened Table
  import opened Volume
  import opened Restore

  // ---- One row at a time ----

  lemma CopyRowRestores(mode: UndoMode, saves: Saves, f: Files, r: Row, later: Time)
    requires r.HoldsCopy() && r.name in saves && !IsAside(r.path, later)
    ensures
      var f' := RestoreRow(mode, saves, f, r, later);
      r.path in f' && f'[r.path].content == saves[r.name]
  {
  }

  lemma MoveBackRow(saves: Saves, f: Files, r: Row, later: Time)
    requires r.kind.Rename? && r.name.Under? && r.name.path != r.path
    requires !IsAside(r.path, later) && !IsAside(r.name.path, later)
    ensures
      var f', q := RestoreRow(FromTarget, saves, f, r, later), r.name.path;
      && q !in f' && (r.path in f' <==> q in f) && (q in f ==> f'[r.path].content == f[q].content)
  {
    assert IsAside(Aside(r.path, later), later);
  }

  lemma SaveDirRow(saves: Saves, f: Files, r: Row, later: Time)
    requires r.kind.Rename? && r.name !in saves && !IsAside(r.path, later)
    ensures r.path !in RestoreRow(UnderSaveDir, saves, f, r, later)
  {
    assert IsAside(Aside(r.path, later), later);
  }

  lemma NewestFirst(mode: UndoMode, s: Sys, s': Sys, r: Row, t: Time, later: Time)
    requires s'.rows == s.rows + [r] && r.Covers(t)
    ensures RestoreTo(mode, s', t, later)
            == RestoreRows(mode, s'.saves, RestoreRow(mode, s'.saves, s'.files, r, later), Select(s.rows, t), later)
  {
    SelectAppend(s.rows, r, t);
    var sel := Select(s.rows, t);
    assert (sel + [r])[..|sel|] == sel;
  }

  // ---- Writes ----

  /** Restoring to the current point puts the content from before the write back at `p`. */
  ghost predicate WriteUndone(mode: UndoMode, s: Sys, h: nat, c: Content, now: Time, later: Time)
    requires Possible(s, WriteFile(h, c))
  {
    var p := s.handles[h].path;
    var f := RestoreTo(mode, Written(s, h, c, now), s.epoch, later);
    p in f && f[p].content == s.files[p].content
  }

  ghost predicate SaveWorks(s: Sys, h: nat)
    requires h in s.handles && s.handles[h].Linked? && s.handles[h].path in s.files
  {
    var f := s.files[s.handles[h].path];
    f.mtime < s.epoch && f.ctime <= s.epoch && !s.handles[h].backedUp
  }

  ghost predicate OnlyWriteNames(s: Sys, h: nat, later: Time) {
    && h in s.handles && s.handles[h].Linked? && s.handles[h].path in s.files
    && !IsAside(s.handles[h].path, later)
    && forall r | r in s.rows && r.Covers(s.epoch) :: !NamesPath(r, s.handles[h].path)
  }

  lemma SavedWriteUndone(mode: UndoMode, s: Sys, h: nat, c: Content, now: Time, later: Time)
    requires OnlyWriteNames(s, h, later) && SaveWorks(s, h)
    ensures WriteUndone(mode, s, h, c, now, later)
  {
    var p, t := s.handles[h].path, s.epoch;
    var s' := Written(s, h, c, now);
    var r := Row(t, ModFile, p, Copy(p, t), s.files[p].ctime);
    NewestFirst(mode, s, s', r, t, later);
    CopyRowRestores(mode, s'.saves, s'.files, r, later);
    RestoreFrame(mode, s'.saves, RestoreRow(mode, s'.saves, s'.files, r, later), Select(s.rows, t), later, p);
  }

  lemma UnsavedWriteStays(mode: UndoMode, s: Sys, h: nat, c: Content, now: Time, later: Time)
    requires OnlyWriteNames(s, h, later) && !SaveWorks(s, h)
    ensures
      var p := s.handles[h].path;
      var f := RestoreTo(mode, Written(s, h, c, now), s.epoch, later);
      p in f && f[p].content == c
  {
    var p, t := s.handles[h].path, s.epoch;
    var s' := Written(s, h, c, now);
    if s.Old(p) && !s.handles[h].backedUp {
      SelectAppend(s.rows, Row(t, ModFile, p, Copy(p, t), s.files[p].ctime), t);
    }
    assert Select(s'.rows, t) == Select(s.rows, t);
    RestoreFrame(mode, s'.saves, s'.files, Select(s.rows, t), later, p);
  }

  /**
   * A write is undone, whatever it wrote, exactly when the file's mtime and ctime
   * precede the restore point and the handle's flag is clear. The three ways to
   * fail are a change in the point's own second, a mode change since the point,
   * and a handle kept open across the point.
   */
  lemma WriteUndoneExactly(mode: UndoMode, s: Sys, h: nat, now: Time, later: Time)
    requires OnlyWriteNames(s, h, later)
    ensures (forall c :: WriteUndone(mode, s, h, c, now, later)) <==> SaveWorks(s, h)
  {
    if SaveWorks(s, h) {
      forall c
        ensures WriteUndone(mode, s, h, c, now, later)
      {
        SavedWriteUndone(mode, s, h, c, now, later);
      }
    } else {
      var c := s.files[s.handles[h].path].content + "!";
      UnsavedWriteStays(mode, s, h, c, now, later);
      assert !WriteUndone(mode, s, h, c, now, later);
    }
  }

  // ---- Any single operation ----

  /** A volume in which nothing has happened since its current restore point. */
  ghost predicate JustTaken(s: Sys) {
    && s.epoch in s.points && (forall t | t in s.points :: 0 < t <= s.epoch)
    && (forall p | p in s.files :: s.files[p].mtime < s.epoch && s.files[p].ctime <= s.epoch)
    && (forall h | h in s.handles && s.handles[h].Linked? :: !s.handles[h].backedUp)
    && (forall r | r in s.rows :: !r.Covers(s.epoch))
    && (forall n | n in s.saves :: n.Copy?)
  }

  predicate Mentions(op: Op, p: Path) {
    match op
    case CreateFile(q) => p == q
    case OpenFile(_, q, _) => p == q
    case UnlinkFile(q) => p == q
    case RenameFile(q, r) => p == q || p == r
    case RenameFailure(q, r) => p == q || p == r
    case ChangeMode(q) => p == q
    case SetSize(q, _) => p == q
    case _ => false
  }

  /** Restoring to the point brings back every file it saw. */
  ghost predicate Undone(mode: UndoMode, s: Sys, e: Event, later: Time)
    requires Possible(s, e.op)
  {
    var f := RestoreTo(mode, Apply(s, e), s.epoch, later);
    forall p | p in s.files :: p in f && f[p].content == s.files[p].content
  }

  /** The single operations that a restore undoes. */
  ghost predicate Harmless(mode: UndoMode, s: Sys, op: Op) {
    match op
    case RenameFile(_, q) => mode.FromTarget? && q !in s.files
    case RenameFailure(_, _) => false
    case SetSize(p, c) => p in s.files && c == s.files[p].content
    case _ => true
  }

  lemma SingleRow(mode: UndoMode, s: Sys, s': Sys, r: Row, later: Time)
    requires JustTaken(s) && s'.rows == s.rows + [r] && r.Covers(s.epoch)
    ensures RestoreTo(mode, s', s.epoch, later) == RestoreRow(mode, s'.saves, s'.files, r, later)
  {
    SelectNothing(s.rows, s.epoch);
    NewestFirst(mode, s, s', r, s.epoch, later);
  }

  lemma NoRow(mode: UndoMode, s: Sys, s': Sys, later: Time)
    requires JustTaken(s) && s'.rows == s.rows
    ensures RestoreTo(mode, s', s.epoch, later) == s'.files
  {
    SelectNothing(s.rows, s.epoch);
  }

  /** Whatever happens to one old file after its copy is logged. */
  lemma SavedRow(mode: UndoMode, s: Sys, s': Sys, p: Path, kind: Kind, later: Time)
    requires JustTaken(s) && p in s.files && (kind.ModFile? || kind.Unlink?)
    requires s'.rows == s.rows + [Row(s.epoch, kind, p, Copy(p, s.epoch), s.files[p].ctime)]
    requires s'.saves == s.saves[Copy(p, s.epoch) := s.files[p].content]
    requires s'.files - {p} == s.files - {p}
    requires forall x | x in s.files :: !IsAside(x, later)
    ensures
      var f := RestoreTo(mode, s', s.epoch, later);
      forall x | x in s.files :: x in f && f[x].content == s.files[x].content
  {
    var r := Row(s.epoch, kind, p, Copy(p, s.epoch), s.files[p].ctime);
    SingleRow(mode, s, s', r, later);
    CopyRowRestores(mode, s'.saves, s'.files, r, later);
    var f := RestoreTo(mode, s', s.epoch, later);
    forall x | x in s.files && x != p
      ensures x in f && f[x].content == s.files[x].content
    {
      assert x in s.files - {p} && x in s'.files - {p};
      RowFrame(mode, s'.saves, s'.files, r, later, x);
    }
  }

  /**
   * Right after a restore point, one operation is undone by a restore exactly when
   * it is harmless. As the code is written, no rename is; as intended, a rename to
   * a free path is; a refused rename and a shrinking truncate(2) never are.
   */
  lemma OneOperationExactly(mode: UndoMode, s: Sys, e: Event, later: Time)
    requires JustTaken(s) && Possible(s, e.op) && s.epoch < e.now
    requires e.op != DeletePoint(s.epoch)
    requires forall p | p in s.files || Mentions(e.op, p) :: !IsAside(p, later)
    ensures Undone(mode, s, e, later) <==> Harmless(mode, s, e.op)
  {
    match e.op
    case OpenFile(_, p, truncate) =>
      if truncate {
        SavedRow(mode, s, Apply(s, e), p, ModFile, later);
      } else {
        NoRow(mode, s, Apply(s, e), later);
      }
    case WriteFile(h, _) => SavedRow(mode, s, Apply(s, e), s.handles[h].path, ModFile, later);
    case UnlinkFile(p) => SavedRow(mode, s, Apply(s, e), p, Unlink, later);
    case RenameFile(_, _) => RenameUndone(mode, s, e, later);
    case RenameFailure(_, _) => RenameFailureStays(mode, s, e, later);
    case DeletePoint(d) => DeletionHarmless(mode, s, e, later);
    case _ => NoRow(mode, s, Apply(s, e), later);
  }

  lemma DeletionHarmless(mode: UndoMode, s: Sys, e: Event, later: Time)
    requires JustTaken(s) && Possible(s, e.op) && e.op.DeletePoint? && e.op.point != s.epoch
    ensures Undone(mode, s, e, later)
  {
    SelectNothing(s.rows, s.epoch);
    SelectPreserved(s.rows, s.points, e.op.point, s.epoch);
  }

  lemma RenameUndone(mode: UndoMode, s: Sys, e: Event, later: Time)
    requires JustTaken(s) && Possible(s, e.op) && e.op.RenameFile?
    requires forall p | p in s.files || Mentions(e.op, p) :: !IsAside(p, later)
    ensures Undone(mode, s, e, later) <==> Harmless(mode, s, e.op)
  {
    var RenameFile(p, q) := e.op;
    var s' := Apply(s, e);
    var r := Row(s.epoch, Rename, p, Under(q), s.files[p].ctime);
    SingleRow(mode, s, s', r, later);
    assert Mentions(e.op, q);
    if mode.UnderSaveDir? {
      SaveDirRow(s'.saves, s'.files, r, later);
    } else {
      MoveBackRow(s'.saves, s'.files, r, later);
      forall x | x in s.files && x != p && x != q
        ensures
          var f := RestoreTo(mode, s', s.epoch, later);
          x in f && f[x].content == s.files[x].content
      {
        RowFrame(mode, s'.saves, s'.files, r, later, x);
      }
    }
  }

  lemma RenameFailureStays(mode: UndoMode, s: Sys, e: Event, later: Time)
    requires JustTaken(s) && Possible(s, e.op) && e.op.RenameFailure?
    requires forall p | p in s.files || Mentions(e.op, p) :: !IsAside(p, later)
    ensures !Undone(mode, s, e, later)
  {
    var RenameFailure(p, q) := e.op;
    var s' := Apply(s, e);
    var r := Row(s.epoch, Rename, p, Under(q), s.files[p].ctime);
    SingleRow(mode, s, s', r, later);
    assert Mentions(e.op, q);
    if mode.UnderSaveDir? {
      SaveDirRow(s'.saves, s'.files, r, later);
    } else {
      MoveBackRow(s'.saves, s'.files, r, later);
    }
  }

  /** An unlinked file comes back exactly when its record was accepted: the hook ignores a full ring. */
  lemma AcceptedRecordNeeded(mode: UndoMode, s: Sys, p: Path, accepted: bool, later: Time)
    requires JustTaken(s) && p in s.files && !IsAside(p, later)
    ensures
      var s' := Removed(s, p);
      var f := RestoreTo(mode, if accepted then s' else s'.(rows := s.rows), s.epoch, later);
      (p in f && f[p].content == s.files[p].content) <==> accepted
  {
    var s' := Removed(s, p);
    if accepted {
      var r := Row(s.epoch, Unlink, p, Copy(p, s.epoch), s.files[p].ctime);
      SingleRow(mode, s, s', r, later);
      CopyRowRestores(mode, s'.saves, s'.files, r, later);
    } else {
      NoRow(mode, s, s'.(rows := s.rows), later);
    }
  }

  /**
   * A record the daemon stores only after the next restore point is stamped with that
   * point. Selected for it, it puts the copy of the earlier epoch back: the file comes
   * out right exactly when it has not changed since. With the stamp of its own epoch
   * it would not be selected, and a restore would change nothing.
   */
  lemma LateRecord(mode: UndoMode, s: Sys, p: Path, kind: Kind, e: Time, access: Time, later: Time)
    requires p in s.files && Copy(p, e) in s.saves && (kind.ModFile? || kind.Unlink?)
    requires access <= e < s.epoch && (forall r | r in s.rows :: r.rpTime < s.epoch) && !IsAside(p, later)
    ensures
      var f := RestoreTo(mode, s.(rows := s.rows + [Row(s.epoch, kind, p, Copy(p, e), access)]), s.epoch, later);
      p in f && (f[p].content == s.files[p].content <==> s.saves[Copy(p, e)] == s.files[p].content)
    ensures RestoreTo(mode, s.(rows := s.rows + [Row(e, kind, p, Copy(p, e), access)]), s.epoch, later) == s.files
  {
    var t, late, prompt := s.epoch, Row(s.epoch, kind, p, Copy(p, e), access), Row(e, kind, p, Copy(p, e), access);
    SelectNothing(s.rows, t);
    SelectAppend(s.rows, late, t);
    SelectAppend(s.rows, prompt, t);
    NewestFirst(mode, s, s.(rows := s.rows + [late]), late, t, later);
    CopyRowRestores(mode, s.saves, s.files, late, later);
  }

  /** The operations that save an old file at `q`. */
  predicate SavesPath(s: Sys, op: Op, q: Path) {
    match op
    case UnlinkFile(p) => p == q
    case OpenFile(_, p, truncate) => p == q && truncate
    case WriteFile(h, _) => h in s.handles && s.handles[h].Linked? && s.handles[h].path == q
    case _ => false
  }

  /** `q` is unlinked and `p`, as old as the restore point, takes its name. */
  function Replaced(s: Sys, p: Path, q: Path): Sys
    requires p in s.files && q in s.files && p != q
  {
    Renamed(Removed(s, q), p, q)
  }

  lemma SecondSave(s: Sys, p: Path, q: Path, op: Op, now: Time)
    requires JustTaken(s) && p in s.files && q in s.files && p != q && s.epoch < now
    requires Possible(Replaced(s, p, q), op) && SavesPath(Replaced(s, p, q), op, q)
    ensures
      var s3, t := Apply(Replaced(s, p, q), Event(op, now)), s.epoch;
      && s3.saves == s.saves[Copy(q, t) := s.files[p].content]
      && s3.rows == s.rows + [Row(t, Unlink, q, Copy(q, t), s.files[q].ctime)]
                    + [Row(t, Rename, p, Under(q), s.files[p].ctime)]
                    + [Row(t, if op.UnlinkFile? then Unlink else ModFile, q, Copy(q, t), s.files[p].ctime)]
  {
    var s2 := Replaced(s, p, q);
    assert s2.files[q] == s.files[p];
    if op.WriteFile? {
      assert !s2.handles[op.handle].backedUp;
    }
  }

  /**
   * A rename onto a path already saved in this epoch is not safe in either mode: the
   * second save of that path, by whatever operation, overwrites the first copy, and
   * the path comes back right exactly when both files held the same.
   */
  lemma SecondSaveOverwrites(mode: UndoMode, s: Sys, p: Path, q: Path, op: Op, now: Time, later: Time)
    requires JustTaken(s) && p in s.files && q in s.files && p != q && s.epoch < now
    requires Possible(Replaced(s, p, q), op) && SavesPath(Replaced(s, p, q), op, q)
    requires forall x | x in s.files :: !IsAside(x, later)
    ensures
      var f := RestoreTo(mode, Apply(Replaced(s, p, q), Event(op, now)), s.epoch, later);
      && q in f && f[q].content == s.files[p].content
      && (f[q].content == s.files[q].content <==> s.files[p].content == s.files[q].content)
  {
    var t, s3 := s.epoch, Apply(Replaced(s, p, q), Event(op, now));
    var r1 := Row(t, Unlink, q, Copy(q, t), s.files[q].ctime);
    var r2 := Row(t, Rename, p, Under(q), s.files[p].ctime);
    var r3 := Row(t, if op.UnlinkFile? then Unlink else ModFile, q, Copy(q, t), s.files[p].ctime);
    SecondSave(s, p, q, op, now);
    ThreeRows(s.rows, t, r1, r2, r3);
    OldestLast(mode, s3.saves, s3.files, [r1, r2, r3], later);
    CopyRowRestores(mode, s3.saves, RestoreRows(mode, s3.saves, s3.files, [r1, r2, r3][1..], later), r1, later);
  }

  lemma ThreeRows(rows: seq<Row>, t: Time, r1: Row, r2: Row, r3: Row)
    requires forall r | r in rows :: !r.Covers(t)
    requires r1.Covers(t) && r2.Covers(t) && r3.Covers(t)
    ensures Select(rows + [r1] + [r2] + [r3], t) == [r1, r2, r3]
  {
    SelectNothing(rows, t);
    SelectAppend(rows, r1, t);
    SelectAppend(rows + [r1], r2, t);
    SelectAppend(rows + [r1] + [r2], r3, t);
  }

  lemma {:induction false} OldestLast(mode: UndoMode, saves: Saves, f: Files, sel: seq<Row>, later: Time)
    requires sel != []
    ensures RestoreRows(mode, saves, f, sel, later)
            == RestoreRow(mode, saves, RestoreRows(mode, saves, f, sel[1..], later), sel[0], later)
    decreases |sel|
  {
    var n := |sel| - 1;
    if n > 0 {
      OldestLast(mode, saves, RestoreRow(mode, saves, f, sel[n], later), sel[..n], later);
      assert sel[..n][1..] == sel[1..][..n - 1];
    }
  }
}
