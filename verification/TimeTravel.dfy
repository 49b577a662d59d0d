/**
 * Restoring to any live restore point recovers the files of that moment, for
 * every legal history of hooks, new points and deletions.
 */
module TimeTravel {
  import opened Base
  import opened Table
  import opened Volume
  import opened Restore

  type Snapshots = map<Time, View>

  // ---- Legal histories ----

  /** Some live restore point saw this version of `p`. */
  predicate Seen(s: Sys, p: Path) {
    p in s.files && exists t :: t in s.points && s.files[p].mtime <= t
  }

  /**
   * What a caller checks before an operation. Any file may be opened, written,
   * truncated on open, and unlinked. One that no live point has seen may also be
   * renamed and truncated by path, one that a point has seen only renamed, and only
   * when renames are undone as intended. A rename brings no old file to a path already
   * saved in this epoch, and the mode changes only of files touched in it.
   */
  ghost predicate Guard(mode: UndoMode, s: Sys, op: Op) {
    match op
    case RenameFile(p, q) =>
      !Seen(s, q) && (Seen(s, p) ==> mode.FromTarget?) && (s.Old(p) ==> Copy(q, s.epoch) !in s.saves)
    case RenameFailure(p, _) => !Seen(s, p)
    case ChangeMode(p) => !s.Old(p)
    case SetSize(p, _) => !Seen(s, p)
    case NewPoint => forall h | h in s.handles && s.handles[h].Linked? :: !s.handles[h].backedUp
    case _ => true
  }

  /** Seconds never run backwards, and a restore point shares its second with no other event. */
  predicate Timely(s: Sys, e: Event) {
    if e.op.NewPoint? then s.clock < e.now else s.clock <= e.now && s.epoch < e.now
  }

  ghost predicate Allowed(mode: UndoMode, s: Sys, e: Event) {
    Possible(s, e.op) && Timely(s, e) && Guard(mode, s, e.op)
  }

  /** Creating, opening, writing, closing, unlinking and deleting points are always allowed; a new point needs unflagged handles. */
  lemma OrdinaryAllowed(mode: UndoMode, s: Sys, e: Event)
    requires Possible(s, e.op) && s.clock <= e.now && s.epoch < e.now && s.epoch <= s.clock
    ensures e.op.CreateFile? || e.op.OpenFile? || e.op.WriteFile? || e.op.CloseFile? || e.op.UnlinkFile? || e.op.DeletePoint? ==>
              Allowed(mode, s, e)
    ensures e.op.NewPoint? && s.clock < e.now ==>
              (Allowed(mode, s, e) <==> forall h | h in s.handles && s.handles[h].Linked? :: !s.handles[h].backedUp)
  {
  }

  ghost predicate Legal(mode: UndoMode, s: Sys, es: seq<Event>)
    decreases |es|
  {
    es == [] || (Allowed(mode, s, es[0]) && Legal(mode, Apply(s, es[0]), es[1..]))
  }

  ghost function Run(mode: UndoMode, s: Sys, es: seq<Event>): Sys
    requires Legal(mode, s, es)
    decreases |es|
  {
    if es == [] then s else Run(mode, Apply(s, es[0]), es[1..])
  }

  /** What the files held when each restore point was made. */
  ghost function Taken(mode: UndoMode, s: Sys, es: seq<Event>): Snapshots
    requires Legal(mode, s, es)
    decreases |es|
  {
    if es == [] then map[]
    else
      (if es[0].op.NewPoint? then map[es[0].now := Contents(s.files)] else map[])
      + Taken(mode, Apply(s, es[0]), es[1..])
  }

  /** A volume before its first restore point: modif_tym saves nothing. */
  ghost predicate Initial(s: Sys) {
    && s.saves == map[] && s.handles == map[] && s.rows == [] && s.points == {}
    && s.epoch == 0 && 0 < s.clock
    && forall p | p in s.files :: 0 < s.files[p].mtime <= s.clock && 0 < s.files[p].ctime <= s.clock
  }

  // ---- The invariant ----

  /** No restore point falls between a file's mtime and its ctime. */
  predicate TimesAgree(f: File, points: set<Time>) {
    forall t | t in points :: f.mtime <= t <==> f.ctime <= t
  }

  predicate TimesOk(s: Sys) {
    && 0 <= s.epoch <= s.clock
    && (forall t | t in s.points :: 0 < t <= s.epoch)
    && forall p | p in s.files ::
         && 0 < s.files[p].mtime <= s.clock && 0 < s.files[p].ctime <= s.clock
         && s.files[p].mtime != s.epoch && s.files[p].ctime != s.epoch
         && (s.files[p].mtime < s.epoch <==> s.files[p].ctime < s.epoch)
         && TimesAgree(s.files[p], s.points)
  }

  /** A set `backedup` flag never suppresses a needed save. */
  predicate HandlesOk(s: Sys) {
    forall h | h in s.handles && s.handles[h].Linked? ::
      && s.handles[h].path in s.files
      && (s.handles[h].backedUp ==> !s.Old(s.handles[h].path))
  }

  predicate Named(rows: seq<Row>, n: Name) {
    exists r :: r in rows && r.HoldsCopy() && r.name == n
  }

  /** Every saved copy is named by a row, and nothing saved in this epoch is still old. */
  ghost predicate SavesOk(s: Sys) {
    && (forall n | n in s.saves :: n.Copy? && n.epoch <= s.epoch && Named(s.rows, n))
    && forall p | Copy(p, s.epoch) in s.saves :: !s.Old(p)
  }

  /** Each saved copy is named by one row, and each such row has its copy. */
  predicate RowsOk(s: Sys) {
    && (forall r | r in s.rows :: RowOk(s, r))
    && DistinctCopies(s.rows)
  }

  predicate RowOk(s: Sys, r: Row) {
    && 0 < r.accessTime < s.epoch && r.accessTime <= r.rpTime <= s.epoch
    && (r.HoldsCopy() ==> r.name.Copy? && r.name.of == r.path && r.name in s.saves)
    && (r.HoldsCopy() && r.name.Copy? ==> r.rpTime == r.name.epoch || r.name.epoch !in s.points)
    && (r.kind.Rename? ==> r.name.Under? && r.name.path != r.path)
    && !r.kind.Rmdir?
  }

  ghost predicate RecoversAt(mode: UndoMode, s: Sys, t: Time, v: View) {
    ReplayView(mode, s.saves, OldView(s.files, t), Select(s.rows, t)) == Some(v)
  }

  ghost predicate Recovers(mode: UndoMode, s: Sys, snaps: Snapshots) {
    forall t | t in s.points :: t in snaps && RecoversAt(mode, s, t, snaps[t])
  }

  ghost predicate Inv(mode: UndoMode, s: Sys, snaps: Snapshots) {
    TimesOk(s) && HandlesOk(s) && SavesOk(s) && RowsOk(s) && Recovers(mode, s, snaps)
  }

  // ---- Steps that log nothing ----

  /** A step that keeps rows, copies and points, and changes no old file's content. */
  lemma QuietStep(mode: UndoMode, s: Sys, s': Sys, snaps: Snapshots)
    requires Recovers(mode, s, snaps)
    requires s'.rows == s.rows && s'.saves == s.saves && s'.points <= s.points
    requires forall t | t in s'.points :: OldView(s'.files, t) == OldView(s.files, t)
    ensures Recovers(mode, s', snaps)
  {
    forall t | t in s'.points
      ensures t in snaps && RecoversAt(mode, s', t, snaps[t])
    {
      assert RecoversAt(mode, s, t, snaps[t]);
    }
  }

  /** A step that logs `r`, saves at most the fresh copy `r.name`, and is undone by `r`. */
  lemma LoggedStep(mode: UndoMode, s: Sys, s': Sys, r: Row, snaps: Snapshots)
    requires RowsOk(s) && Recovers(mode, s, snaps)
    requires s'.rows == s.rows + [r] && s'.points == s.points
    requires forall n | n in s.saves :: n in s'.saves && s'.saves[n] == s.saves[n]
    requires forall t | t in s.points && r.Covers(t) ::
               UndoRow(mode, s'.saves, OldView(s'.files, t), r) == Some(OldView(s.files, t))
    requires forall t | t in s.points && !r.Covers(t) :: OldView(s'.files, t) == OldView(s.files, t)
    ensures Recovers(mode, s', snaps)
  {
    assert s'.points == s.points;
    forall t | t in s.points
      ensures RecoversAt(mode, s', t, snaps[t])
    {
      assert RecoversAt(mode, s, t, snaps[t]);
      var sel, v := Select(s.rows, t), OldView(s'.files, t);
      SelectAppend(s.rows, r, t);
      ReplayAppend(mode, s'.saves, v, sel, r);
      assert forall x | x in sel :: RowOk(s, x);
      ReplaySame(mode, s.saves, s'.saves, OldView(s.files, t), sel, sel);
    }
  }

  /** Logging a copy under a name that was free. */
  lemma FreshCopyRow(s: Sys, s': Sys, p: Path, kind: Kind)
    requires RowsOk(s) && p in s.files && 0 < s.files[p].ctime < s.epoch
    requires kind.ModFile? || kind.Unlink?
    requires Copy(p, s.epoch) !in s.saves
    requires s'.rows == s.rows + [Row(s.epoch, kind, p, Copy(p, s.epoch), s.files[p].ctime)]
    requires s'.saves == s.saves[Copy(p, s.epoch) := s.files[p].content] && s'.epoch == s.epoch && s'.points == s.points
    ensures RowsOk(s')
  {
    assert forall r | r in s.rows :: RowOk(s, r);
    assert forall i | 0 <= i < |s.rows| :: s.rows[i] in s.rows;
  }

  // ---- One lemma per operation ----

  lemma CreateStep(mode: UndoMode, s: Sys, e: Event, snaps: Snapshots)
    requires Inv(mode, s, snaps) && Allowed(mode, s, e) && e.op.CreateFile?
    ensures Inv(mode, Apply(s, e), snaps)
  {
    QuietStep(mode, s, Apply(s, e), snaps);
  }

  lemma PutViews(s: Sys, p: Path, c: Content, now: Time, t: Time)
    requires TimesOk(s) && t in s.points && p in s.files && s.epoch < now
    ensures
      var f' := s.files[p := File(c, now, now)];
      if s.files[p].mtime <= t
      then s.Old(p) && OldView(f', t)[p := s.files[p].content] == OldView(s.files, t)
      else OldView(f', t) == OldView(s.files, t)
  {
    var f' := s.files[p := File(c, now, now)];
    if s.files[p].mtime <= t {
      assert OldView(f', t)[p := s.files[p].content] == OldView(s.files, t);
    }
  }

  /** backup_file followed by an overwrite: what both a write and a truncating open do to an old file. */
  lemma SaveAndPut(mode: UndoMode, s: Sys, p: Path, c: Content, now: Time, hs: Handles, snaps: Snapshots)
    requires Inv(mode, s, snaps) && s.Old(p) && s.clock <= now && s.epoch < now
    requires forall h | h in hs && hs[h].Linked? :: hs[h].path == p || (h in s.handles && hs[h] == s.handles[h])
    ensures Inv(mode, Put(BackupFile(s, p), p, c, now).(handles := hs, clock := now), snaps)
  {
    var r := Row(s.epoch, ModFile, p, Copy(p, s.epoch), s.files[p].ctime);
    var s' := Put(BackupFile(s, p), p, c, now).(handles := hs, clock := now);
    assert TimesOk(s') && HandlesOk(s') && SavesOk(s');
    FreshCopyRow(s, s', p, ModFile);
    forall t | t in s.points
      ensures r.Covers(t) ==> UndoRow(mode, s'.saves, OldView(s'.files, t), r) == Some(OldView(s.files, t))
      ensures !r.Covers(t) ==> OldView(s'.files, t) == OldView(s.files, t)
    {
      PutViews(s, p, c, now, t);
      assert TimesAgree(s.files[p], s.points);
    }
    LoggedStep(mode, s, s', r, snaps);
  }

  lemma PutUnseen(mode: UndoMode, s: Sys, p: Path, c: Content, now: Time, hs: Handles, snaps: Snapshots)
    requires Inv(mode, s, snaps) && p in s.files && !Seen(s, p) && s.clock <= now && s.epoch < now
    requires forall h | h in hs && hs[h].Linked? :: hs[h].path == p || (h in s.handles && hs[h] == s.handles[h])
    ensures Inv(mode, Put(s, p, c, now).(handles := hs, clock := now), snaps)
  {
    var s' := Put(s, p, c, now).(handles := hs, clock := now);
    assert TimesOk(s') && HandlesOk(s') && SavesOk(s');
    forall t | t in s.points
      ensures OldView(s'.files, t) == OldView(s.files, t)
    {
      PutViews(s, p, c, now, t);
    }
    QuietStep(mode, s, s', snaps);
  }

  lemma OpenStep(mode: UndoMode, s: Sys, e: Event, snaps: Snapshots)
    requires Inv(mode, s, snaps) && Allowed(mode, s, e) && e.op.OpenFile?
    ensures Inv(mode, Apply(s, e), snaps)
  {
    var OpenFile(h, p, truncate) := e.op;
    if truncate {
      var hs := s.handles[h := Linked(p, s.Old(p))];
      if s.Old(p) {
        SaveAndPut(mode, s, p, "", e.now, hs, snaps);
      } else {
        PutUnseen(mode, s, p, "", e.now, hs, snaps);
      }
    } else {
      QuietStep(mode, s, Apply(s, e), snaps);
    }
  }

  lemma WriteStep(mode: UndoMode, s: Sys, e: Event, snaps: Snapshots)
    requires Inv(mode, s, snaps) && Allowed(mode, s, e) && e.op.WriteFile?
    ensures Inv(mode, Apply(s, e), snaps)
  {
    var WriteFile(h, c) := e.op;
    var Linked(p, b) := s.handles[h];
    var hs := s.handles[h := Linked(p, b || s.Old(p))];
    if s.Old(p) {
      SaveAndPut(mode, s, p, c, e.now, hs, snaps);
    } else {
      PutUnseen(mode, s, p, c, e.now, hs, snaps);
    }
  }

  lemma CloseStep(mode: UndoMode, s: Sys, e: Event, snaps: Snapshots)
    requires Inv(mode, s, snaps) && Allowed(mode, s, e) && e.op.CloseFile?
    ensures Inv(mode, Apply(s, e), snaps)
  {
    QuietStep(mode, s, Apply(s, e), snaps);
  }

  lemma RemoveViews(s: Sys, p: Path, t: Time)
    requires TimesOk(s) && t in s.points && p in s.files
    ensures
      var f' := s.files - {p};
      if s.files[p].mtime <= t
      then s.Old(p) && OldView(f', t)[p := s.files[p].content] == OldView(s.files, t)
      else OldView(f', t) == OldView(s.files, t)
  {
  }

  lemma UnlinkRecovers(mode: UndoMode, s: Sys, e: Event, snaps: Snapshots)
    requires Inv(mode, s, snaps) && Allowed(mode, s, e) && e.op.UnlinkFile?
    ensures Recovers(mode, Apply(s, e), snaps)
  {
    var p := e.op.path;
    var s' := Apply(s, e);
    if s.Old(p) {
      var r := Row(s.epoch, Unlink, p, Copy(p, s.epoch), s.files[p].ctime);
      assert r.name !in s.saves;
      forall t | t in s.points
        ensures r.Covers(t) ==> UndoRow(mode, s'.saves, OldView(s'.files, t), r) == Some(OldView(s.files, t))
        ensures !r.Covers(t) ==> OldView(s'.files, t) == OldView(s.files, t)
      {
        RemoveViews(s, p, t);
        assert TimesAgree(s.files[p], s.points);
      }
      LoggedStep(mode, s, s', r, snaps);
    } else {
      forall t | t in s.points
        ensures OldView(s'.files, t) == OldView(s.files, t)
      {
        RemoveViews(s, p, t);
      }
      QuietStep(mode, s, s', snaps);
    }
  }

  lemma UnlinkStep(mode: UndoMode, s: Sys, e: Event, snaps: Snapshots)
    requires Inv(mode, s, snaps) && Allowed(mode, s, e) && e.op.UnlinkFile?
    ensures Inv(mode, Apply(s, e), snaps)
  {
    var p := e.op.path;
    var s' := Apply(s, e);
    UnlinkRecovers(mode, s, e, snaps);
    assert TimesOk(s') && HandlesOk(s') && SavesOk(s');
    if s.Old(p) {
      FreshCopyRow(s, s', p, Unlink);
    }
  }

  lemma RenameViews(s: Sys, p: Path, q: Path, t: Time)
    requires TimesOk(s) && t in s.points && p in s.files && p != q && !Seen(s, q)
    ensures
      var f' := (s.files - {p})[q := s.files[p]];
      if s.files[p].mtime <= t
      then q in OldView(f', t) && (OldView(f', t) - {q})[p := OldView(f', t)[q]] == OldView(s.files, t)
      else OldView(f', t) == OldView(s.files, t)
  {
    var f' := (s.files - {p})[q := s.files[p]];
    assert q in s.files ==> s.files[q].mtime > t;
    if s.files[p].mtime <= t {
      var v := OldView(f', t);
      assert (v - {q})[p := v[q]] == OldView(s.files, t);
    }
  }

  lemma RenameRecovers(mode: UndoMode, s: Sys, e: Event, snaps: Snapshots)
    requires Inv(mode, s, snaps) && Allowed(mode, s, e) && e.op.RenameFile?
    ensures Recovers(mode, Apply(s, e), snaps)
  {
    var RenameFile(p, q) := e.op;
    var s' := Apply(s, e);
    if s.Old(p) {
      var r := Row(s.epoch, Rename, p, Under(q), s.files[p].ctime);
      forall t | t in s.points
        ensures r.Covers(t) ==> UndoRow(mode, s'.saves, OldView(s'.files, t), r) == Some(OldView(s.files, t))
        ensures !r.Covers(t) ==> OldView(s'.files, t) == OldView(s.files, t)
      {
        RenameViews(s, p, q, t);
        assert TimesAgree(s.files[p], s.points);
      }
      LoggedStep(mode, s, s', r, snaps);
    } else {
      forall t | t in s.points
        ensures OldView(s'.files, t) == OldView(s.files, t)
      {
        RenameViews(s, p, q, t);
      }
      QuietStep(mode, s, s', snaps);
    }
  }

  lemma RenameHandles(mode: UndoMode, s: Sys, e: Event)
    requires TimesOk(s) && HandlesOk(s) && Allowed(mode, s, e) && e.op.RenameFile?
    ensures HandlesOk(Apply(s, e))
  {
  }

  lemma RenameRows(mode: UndoMode, s: Sys, e: Event)
    requires TimesOk(s) && RowsOk(s) && Allowed(mode, s, e) && e.op.RenameFile?
    ensures RowsOk(Apply(s, e))
  {
    assert forall r | r in s.rows :: RowOk(s, r);
  }

  lemma RenameSaves(mode: UndoMode, s: Sys, e: Event)
    requires SavesOk(s) && Allowed(mode, s, e) && e.op.RenameFile?
    ensures SavesOk(Apply(s, e))
  {
    assert forall r | r in s.rows :: r in Apply(s, e).rows;
    assert forall n | n in s.saves :: Named(s.rows, n);
  }

  lemma RenameStep(mode: UndoMode, s: Sys, e: Event, snaps: Snapshots)
    requires Inv(mode, s, snaps) && Allowed(mode, s, e) && e.op.RenameFile?
    ensures Inv(mode, Apply(s, e), snaps)
  {
    var RenameFile(p, q) := e.op;
    RenameRecovers(mode, s, e, snaps);
    RenameHandles(mode, s, e);
    RenameRows(mode, s, e);
    RenameSaves(mode, s, e);
    assert TimesAgree(s.files[p], s.points);
  }

  /** What a refused rename logs is selected for no live point. */
  lemma RenameFailureStep(mode: UndoMode, s: Sys, e: Event, snaps: Snapshots)
    requires Inv(mode, s, snaps) && Allowed(mode, s, e) && e.op.RenameFailure?
    ensures Inv(mode, Apply(s, e), snaps)
  {
    var RenameFailure(p, q) := e.op;
    var s' := Apply(s, e);
    if s.Old(p) {
      var r := Row(s.epoch, Rename, p, Under(q), s.files[p].ctime);
      forall t | t in s.points
        ensures !r.Covers(t)
      {
        assert TimesAgree(s.files[p], s.points);
      }
      LoggedStep(mode, s, s', r, snaps);
      assert RowsOk(s');
    } else {
      QuietStep(mode, s, s', snaps);
    }
  }

  /** A mode change of a file already touched in this epoch. */
  lemma ChangeModeStep(mode: UndoMode, s: Sys, e: Event, snaps: Snapshots)
    requires Inv(mode, s, snaps) && Allowed(mode, s, e) && e.op.ChangeMode?
    ensures Inv(mode, Apply(s, e), snaps)
  {
    var p := e.op.path;
    var s' := Apply(s, e);
    assert TimesOk(s') by {
      assert TimesAgree(s.files[p], s.points);
      assert TimesAgree(s'.files[p], s.points);
    }
    assert HandlesOk(s') && SavesOk(s');
    forall t | t in s.points
      ensures OldView(s'.files, t) == OldView(s.files, t)
    {
      assert s.files[p].mtime > t;
    }
    QuietStep(mode, s, s', snaps);
  }

  lemma NewPointStep(mode: UndoMode, s: Sys, e: Event, snaps: Snapshots)
    requires Inv(mode, s, snaps) && Allowed(mode, s, e) && e.op.NewPoint?
    ensures Inv(mode, Apply(s, e), snaps[e.now := Contents(s.files)])
  {
    var s' := Apply(s, e);
    var snaps' := snaps[e.now := Contents(s.files)];
    assert forall n | n in s.saves :: n.epoch < e.now;
    assert OldView(s.files, e.now) == Contents(s.files);
    forall t | t in s'.points
      ensures t in snaps' && RecoversAt(mode, s', t, snaps'[t])
    {
      if t == e.now {
        assert forall r | r in s.rows :: RowOk(s, r);
        SelectNothing(s.rows, t);
      } else {
        assert RecoversAt(mode, s, t, snaps[t]);
      }
    }
  }

  /** The unlink loop never removes a copy that a surviving row names. */
  lemma SurvivorsKeepCopies(s: Sys, d: Time, r: Row)
    requires RowsOk(s) && r in s.rows && r.HoldsCopy()
    requires !Collected(r, d, Predecessor(s.points, d))
    ensures r.name in Deleted(s, d).saves && Deleted(s, d).saves[r.name] == s.saves[r.name]
  {
    var pred := Predecessor(s.points, d);
    assert RowOk(s, r);
    forall g | g in CollectedRows(s.rows, d, pred)
      ensures g.name != r.name
    {
      var i :| 0 <= i < |s.rows| && s.rows[i] == r;
      var j :| 0 <= j < |s.rows| && s.rows[j] == g;
      assert RowOk(s, g) && i != j;
    }
  }

  lemma DeletionKeepsRowsOk(s: Sys, d: Time)
    requires RowsOk(s) && d in s.points && d <= s.epoch
    ensures RowsOk(Deleted(s, d))
  {
    var pred := Predecessor(s.points, d);
    var s' := Deleted(s, d);
    DeletionKeepsDistinct(s.rows, d, pred);
    forall m | m in s'.rows
      ensures RowOk(s', m)
    {
      var r :| r in s.rows && !Collected(r, d, pred) && m == Merged(r, d, pred);
      assert RowOk(s, r);
      if r.HoldsCopy() {
        SurvivorsKeepCopies(s, d, r);
      }
    }
  }

  /** The unlink loop leaves no copy behind that no row names. */
  lemma DeletionKeepsNamed(s: Sys, d: Time)
    requires forall n | n in s.saves :: Named(s.rows, n)
    ensures forall n | n in Deleted(s, d).saves :: Named(Deleted(s, d).rows, n)
  {
    var pred := Predecessor(s.points, d);
    forall n | n in Deleted(s, d).saves
      ensures Named(Deleted(s, d).rows, n)
    {
      var r :| r in s.rows && r.HoldsCopy() && r.name == n;
      assert r !in CollectedRows(s.rows, d, pred);
      SurvivorMerged(s.rows, d, pred, r);
      assert Merged(r, d, pred).HoldsCopy() && Merged(r, d, pred).name == n;
    }
  }

  lemma DeleteStep(mode: UndoMode, s: Sys, e: Event, snaps: Snapshots)
    requires Inv(mode, s, snaps) && Allowed(mode, s, e) && e.op.DeletePoint?
    ensures Inv(mode, Apply(s, e), snaps)
  {
    var d := e.op.point;
    var pred := Predecessor(s.points, d);
    var s' := Apply(s, e);
    DeletionKeepsRowsOk(s, d);
    DeletionKeepsNamed(s, d);
    forall t | t in s'.points
      ensures t in snaps && RecoversAt(mode, s', t, snaps[t])
    {
      assert RecoversAt(mode, s, t, snaps[t]);
      SelectPreserved(s.rows, s.points, d, t);
      var sel := Select(s.rows, t);
      forall r | r in sel && r.HoldsCopy()
        ensures r.name in s.saves && r.name in s'.saves && s.saves[r.name] == s'.saves[r.name]
      {
        RowSelection(r, s.points, d, t);
        assert RowOk(s, r);
        SurvivorsKeepCopies(s, d, r);
      }
      ReplaySame(mode, s.saves, s'.saves, OldView(s.files, t), sel, Select(s'.rows, t));
    }
  }

  // ---- Whole histories ----

  lemma Step(mode: UndoMode, s: Sys, e: Event, snaps: Snapshots)
    requires Inv(mode, s, snaps) && Allowed(mode, s, e)
    ensures Inv(mode, Apply(s, e), Noted(s, e, snaps))
  {
    match e.op
    case CreateFile(_) => CreateStep(mode, s, e, snaps);
    case OpenFile(_, _, _) => OpenStep(mode, s, e, snaps);
    case WriteFile(_, _) => WriteStep(mode, s, e, snaps);
    case CloseFile(_) => CloseStep(mode, s, e, snaps);
    case UnlinkFile(_) => UnlinkStep(mode, s, e, snaps);
    case RenameFile(_, _) => RenameStep(mode, s, e, snaps);
    case RenameFailure(_, _) => RenameFailureStep(mode, s, e, snaps);
    case ChangeMode(_) => ChangeModeStep(mode, s, e, snaps);
    case SetSize(p, c) => PutUnseen(mode, s, p, c, e.now, s.handles, snaps);
    case NewPoint => NewPointStep(mode, s, e, snaps);
    case DeletePoint(_) => DeleteStep(mode, s, e, snaps);
  }

  ghost function Noted(s: Sys, e: Event, snaps: Snapshots): Snapshots {
    if e.op.NewPoint? then snaps[e.now := Contents(s.files)] else snaps
  }

  lemma TakenStep(mode: UndoMode, s: Sys, es: seq<Event>, snaps: Snapshots)
    requires es != [] && Legal(mode, s, es)
    ensures snaps + Taken(mode, s, es) == Noted(s, es[0], snaps) + Taken(mode, Apply(s, es[0]), es[1..])
  {
    var e := es[0];
    var first := if e.op.NewPoint? then map[e.now := Contents(s.files)] else map[];
    MapsAssociate(snaps, first, Taken(mode, Apply(s, e), es[1..]));
    assert snaps + first == Noted(s, e, snaps);
  }

  lemma MapsAssociate(a: Snapshots, b: Snapshots, c: Snapshots)
    ensures a + (b + c) == (a + b) + c
  {
  }

  lemma {:induction false} RunKeepsInv(mode: UndoMode, s: Sys, es: seq<Event>, snaps: Snapshots)
    requires Inv(mode, s, snaps) && Legal(mode, s, es)
    ensures Inv(mode, Run(mode, s, es), snaps + Taken(mode, s, es))
    decreases |es|
  {
    if es == [] {
      assert snaps + Taken(mode, s, es) == snaps;
    } else {
      Step(mode, s, es[0], snaps);
      TakenStep(mode, s, es, snaps);
      RunKeepsInv(mode, Apply(s, es[0]), es[1..], Noted(s, es[0], snaps));
    }
  }

  lemma InitialInv(mode: UndoMode, s: Sys)
    requires Initial(s)
    ensures Inv(mode, s, map[])
  {
  }

  /**
   * Time travel. After any legal history, restoring to any live point `t`
   * brings back every file of the snapshot with its content, and no other file
   * that was last modified at or before `t`.
   */
  lemma TimeTravel(mode: UndoMode, s: Sys, es: seq<Event>, t: Time, now: Time)
    requires Initial(s) && Legal(mode, s, es)
    requires t in Run(mode, s, es).points
    requires ApartFromAsides(Run(mode, s, es).files, Run(mode, s, es).rows, now)
    ensures t in Taken(mode, s, es)
    ensures
      var f := RestoreTo(mode, Run(mode, s, es), t, now);
      && (forall p | p in Taken(mode, s, es)[t] :: p in f && f[p].content == Taken(mode, s, es)[t][p])
      && (forall p | p in f && f[p].mtime <= t && !IsAside(p, now) :: p in Taken(mode, s, es)[t])
  {
    var end, snaps := Run(mode, s, es), Taken(mode, s, es);
    RunFromInitial(mode, s, es);
    RestoreRecovers(mode, end, snaps, t, now);
    var v := SeenView(RestoreTo(mode, end, t, now), t, now);
    assert forall p | p in snaps[t] :: p in v;
  }

  lemma RunFromInitial(mode: UndoMode, s: Sys, es: seq<Event>)
    requires Initial(s) && Legal(mode, s, es)
    ensures Inv(mode, Run(mode, s, es), Taken(mode, s, es))
  {
    InitialInv(mode, s);
    RunKeepsInv(mode, s, es, map[]);
    assert map[] + Taken(mode, s, es) == Taken(mode, s, es);
  }

  lemma RestoreRecovers(mode: UndoMode, s: Sys, snaps: Snapshots, t: Time, now: Time)
    requires Inv(mode, s, snaps) && t in s.points
    requires ApartFromAsides(s.files, s.rows, now)
    ensures SeenView(RestoreTo(mode, s, t, now), t, now) == snaps[t]
  {
    assert RecoversAt(mode, s, t, snaps[t]);
    assert SeenView(s.files, t, now) == OldView(s.files, t);
    var sel := Select(s.rows, t);
    assert forall r | r in sel :: RowOk(s, r);
    RestoreRefines(mode, s.saves, s.files, sel, t, now);
  }

  // ---- What a restore leaves alone ----

  lemma {:induction false} ReplayKeepsPaths(mode: UndoMode, saves: Saves, v: View, sel: seq<Row>)
    requires forall r | r in sel :: r.HoldsCopy()
    requires ReplayView(mode, saves, v, sel).Some?
    ensures v.Keys <= ReplayView(mode, saves, v, sel).value.Keys
    ensures forall r | r in sel :: r.path in ReplayView(mode, saves, v, sel).value
    decreases |sel|
  {
    if sel != [] {
      var n := |sel| - 1;
      assert sel[n] in sel && sel == sel[..n] + [sel[n]];
      ReplayKeepsPaths(mode, saves, UndoRow(mode, saves, v, sel[n]).value, sel[..n]);
    }
  }

  /** Without renames, a path outside the snapshot is left exactly as it was. */
  lemma RestoreLeavesOthers(mode: UndoMode, s: Sys, snaps: Snapshots, t: Time, now: Time, p: Path)
    requires Inv(mode, s, snaps) && t in s.points
    requires forall r | r in s.rows :: !r.kind.Rename?
    requires p !in snaps[t] && !IsAside(p, now)
    ensures
      var f := RestoreTo(mode, s, t, now);
      (p in f <==> p in s.files) && (p in f ==> f[p] == s.files[p])
  {
    assert RecoversAt(mode, s, t, snaps[t]);
    var sel := Select(s.rows, t);
    assert forall r | r in sel :: RowOk(s, r);
    ReplayKeepsPaths(mode, s.saves, OldView(s.files, t), sel);
    RestoreFrame(mode, s.saves, s.files, sel, now, p);
  }

  // ---- What every run keeps ----

  /** A handle flagged as backed up belongs to a file already written in this epoch. */
  lemma FlagNeverSuppressesSave(mode: UndoMode, s: Sys, es: seq<Event>, h: nat)
    requires Initial(s) && Legal(mode, s, es)
    requires
      var end := Run(mode, s, es);
      h in end.handles && end.handles[h].Linked? && end.handles[h].backedUp
    ensures
      var end := Run(mode, s, es);
      end.handles[h].path in end.files && end.files[end.handles[h].path].mtime > end.epoch
  {
    RunFromInitial(mode, s, es);
  }

  /** Every row's copy is present, and each (path, epoch) is named by at most one row. */
  lemma SavedOncePerEpoch(mode: UndoMode, s: Sys, es: seq<Event>, i: nat, j: nat)
    requires Initial(s) && Legal(mode, s, es)
    requires i < j < |Run(mode, s, es).rows|
    requires Run(mode, s, es).rows[i].HoldsCopy() && Run(mode, s, es).rows[j].HoldsCopy()
    ensures
      var end := Run(mode, s, es);
      var a, b := end.rows[i], end.rows[j];
      && a.name in end.saves && a.name.Copy? && a.name.of == a.path
      && b.name.Copy? && (a.path == b.path ==> a.name.epoch != b.name.epoch)
  {
    RunFromInitial(mode, s, es);
    var end := Run(mode, s, es);
    assert RowOk(end, end.rows[i]) && RowOk(end, end.rows[j]);
  }

  /** No step changes the copy a surviving row names. */
  lemma StepKeepsCopies(mode: UndoMode, s: Sys, e: Event, snaps: Snapshots, r: Row)
    requires Inv(mode, s, snaps) && Allowed(mode, s, e)
    requires r in s.rows && r.HoldsCopy()
    requires e.op.DeletePoint? ==> !Collected(r, e.op.point, Predecessor(s.points, e.op.point))
    ensures r.name in Apply(s, e).saves && Apply(s, e).saves[r.name] == s.saves[r.name]
  {
    assert RowOk(s, r);
    if e.op.DeletePoint? {
      SurvivorsKeepCopies(s, e.op.point, r);
    }
  }

  /** Rows stay selectable while the current point is not deleted. */
  predicate Collectable(s: Sys) {
    Selectable(s.rows, s.points) && (s.epoch in s.points || s.epoch == 0)
  }

  /** A logged row is stamped with the current point, which its access_time does not exceed. */
  lemma LogKeepsSelectable(s: Sys, s': Sys, p: Path, kind: Kind, name: Name)
    requires TimesOk(s) && Collectable(s) && s.Old(p)
    requires s'.rows == s.rows + [Row(s.epoch, kind, p, name, s.files[p].ctime)] && s'.points == s.points
    ensures Selectable(s'.rows, s'.points)
  {
    assert TimesAgree(s.files[p], s.points);
  }

  lemma StepKeepsCollectable(mode: UndoMode, s: Sys, e: Event, snaps: Snapshots)
    requires Inv(mode, s, snaps) && Allowed(mode, s, e) && Collectable(s)
    requires e.op != DeletePoint(s.epoch)
    ensures Collectable(Apply(s, e))
  {
    assert TimesOk(s) && RowsOk(s);
    var s' := Apply(s, e);
    match e.op
    case OpenFile(_, p, truncate) => if truncate && s.Old(p) { LogKeepsSelectable(s, s', p, ModFile, Copy(p, s.epoch)); }
    case WriteFile(h, _) =>
      var Linked(p, b) := s.handles[h];
      if s.Old(p) && !b { LogKeepsSelectable(s, s', p, ModFile, Copy(p, s.epoch)); }
    case UnlinkFile(p) => if s.Old(p) { LogKeepsSelectable(s, s', p, Unlink, Copy(p, s.epoch)); }
    case RenameFile(p, q) => if s.Old(p) { LogKeepsSelectable(s, s', p, Rename, Under(q)); }
    case DeletePoint(d) =>
      assert forall r | r in s.rows :: RowOk(s, r);
      DeletionKeepsSelectable(s.rows, s.points, d);
    case _ =>
  }

  lemma {:induction false} RunKeepsCollectable(mode: UndoMode, s: Sys, es: seq<Event>, snaps: Snapshots)
    requires Inv(mode, s, snaps) && Legal(mode, s, es) && Collectable(s)
    requires SparesCurrent(mode, s, es)
    ensures Collectable(Run(mode, s, es))
    decreases |es|
  {
    if es != [] {
      Step(mode, s, es[0], snaps);
      StepKeepsCollectable(mode, s, es[0], snaps);
      RunKeepsCollectable(mode, Apply(s, es[0]), es[1..], Noted(s, es[0], snaps));
    }
  }

  /** No event deletes the point that is current at that moment. */
  ghost predicate SparesCurrent(mode: UndoMode, s: Sys, es: seq<Event>)
    requires Legal(mode, s, es)
    decreases |es|
  {
    es == [] || (es[0].op != DeletePoint(s.epoch) && SparesCurrent(mode, Apply(s, es[0]), es[1..]))
  }

  /** Over such histories every row stays selectable by its own rp_time. */
  lemma RowsStayCollectable(mode: UndoMode, s: Sys, es: seq<Event>)
    requires Initial(s) && Legal(mode, s, es) && SparesCurrent(mode, s, es)
    ensures Selectable(Run(mode, s, es).rows, Run(mode, s, es).points)
  {
    InitialInv(mode, s);
    RunKeepsCollectable(mode, s, es, map[]);
  }

  /**
   * After any history a deletion collects exactly the rows that no surviving point
   * selects and whose rp_time is live. (A row stamped with a deleted current point is
   * never collected.)
   */
  lemma DeletionCollectsGarbage(mode: UndoMode, s: Sys, es: seq<Event>, d: Time, r: Row)
    requires Initial(s) && Legal(mode, s, es)
    requires d in Run(mode, s, es).points && r in Run(mode, s, es).rows
    ensures
      var end := Run(mode, s, es);
      Collected(r, d, Predecessor(end.points, d))
      <==> r.rpTime in end.points && forall t | t in end.points - {d} :: !r.Covers(t)
  {
    RunFromInitial(mode, s, es);
    var end := Run(mode, s, es);
    assert RowOk(end, r);
    if r.rpTime in end.points {
      CollectedExactly(r, end.points, d);
    }
  }
}
