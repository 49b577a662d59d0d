/** After a restore: which other points stay restorable, and when working on is safe. */
module AfterRestore {
  import opened Base
  import opened Table
  import opened Volume
  import opened Restore
  import opened TimeTravel
  import opened Versions
  import opened Rewind
  import opened Outcome
  import opened Kinship
  import opened Histories

  // ---- Other points ----

  lemma OwnTable(s: Sys)
    requires RowsOk(s) && SavesOk(s)
    ensures TableKin(s.rows, s.saves, s.rows, s.saves, s.points) && EpochsUpTo(s.rows, s.epoch)
  {
    assert forall r | r in s.rows :: RowOk(s, r) && RowNames(r, s.saves) && StampOk(r, s.points) && Selective(r);
    AllSelective(s.rows);
  }

  /** A state of a history without restores is its own kin. */
  lemma OwnKin(s: Sys, snaps: Snapshots)
    requires Good(s, snaps)
    ensures GoodKin(Stage(s, {}), s, snaps, {})
  {
    OwnTable(s);
    assert NamesKin(s, s) && HandlesKin(s, s) && FilesKin(s, s, {}, {});
  }

  lemma AfterStage(s: Sys, snaps: Snapshots, t: Time, h: nat, now: Time) returns (k: Sys)
    requires BeforeRestore(s, snaps, t, h, now) && forall r | r in Select(s.rows, t) :: NotInTheWay(s, r)
    ensures
      var sel := Select(s.rows, t);
      GoodKin(Stage(Restored(s, t, h, now), AsidesOf(sel, now) + PathsOf(sel)), k, snaps, PathsOf(sel))
  {
    var sel := Select(s.rows, t);
    OwnKin(s, snaps);
    k := ActKeepsKin(Stage(s, {}), s, Rewind(t, h, now), snaps, {});
    assert {} + AsidesOf(sel, now) + PathsOf(sel) == AsidesOf(sel, now) + PathsOf(sel) && {} + PathsOf(sel) == PathsOf(sel);
  }

  /**
   * Unless a file that a live point has seen is in the way, a second restore brings
   * back any other point, as far as it reads its sources unspoilt.
   */
  lemma OthersStillRecover(s: Sys, snaps: Snapshots, t: Time, h: nat, now: Time, t2: Time, later: Time)
    requires BeforeRestore(s, snaps, t, h, now) && now < later && ApartFromAsides(s.files, s.rows, later)
    requires t2 in s.points && forall r | r in Select(s.rows, t) :: NotInTheWay(s, r)
    ensures t2 in snaps && (Recovered(Restored(s, t, h, now), t2, h, later, snaps[t2]) <==> Readable(Restored(s, t, h, now), t2))
    ensures
      var f := Restored(Restored(s, t, h, now), t2, h, later).files;
      forall p | p in f && f[p].mtime <= t2 && !IsAside(p, later) :: p in snaps[t2] || p in PathsOf(Select(s.rows, t))
  {
    var sel, s' := Select(s.rows, t), Restored(s, t, h, now);
    var k := AfterStage(s, snaps, t, h, now);
    EditReady(s, snaps, t, h, now, later);
    MountedExactly(s', k, snaps, AsidesOf(sel, now) + PathsOf(sel), PathsOf(sel), t2, h, later);
    var f := Restored(s', t2, h, later).files;
    forall p | p in f && f[p].mtime <= t2 && !IsAside(p, later)
      ensures p in snaps[t2] || p in PathsOf(sel)
    {
      MountedOthers(s', k, snaps, AsidesOf(sel, now) + PathsOf(sel), PathsOf(sel), t2, h, later, p);
    }
  }

  /** A file in the way is moved aside for good: a point that saw it loses its path. */
  lemma InTheWayLost(s: Sys, snaps: Snapshots, t: Time, h: nat, now: Time, later: Time, r: Row, t2: Time)
    requires BeforeRestore(s, snaps, t, h, now) && now < later && ApartFromAsides(s.files, s.rows, later)
    requires r in Select(s.rows, t) && r.kind.Unlink?
    requires t2 in s.points && r.path in s.files && s.files[r.path].mtime <= t2
    ensures r.path in snaps[t2] && r.path !in Restored(Restored(s, t, h, now), t2, h, later).files
  {
    var s' := Restored(s, t, h, now);
    LiveReady(s, snaps, t, h, now);
    RunEffect(s, Select(s.rows, t), h, now);
    UnsavedFile(s, snaps, r.path, t2);
    OwnRows(s, snaps, t, h, now, r, t2);
    assert NamesPath(r, r.path);
    assert forall n | n in s'.saves :: n.Copy?;
    MountedGone(s', Select(s'.rows, t2), h, later, r.path);
  }

  // ---- The condition, before the restore ----

  /**
   * Whatever `t2` takes from the file as it is, or from the copy of the current epoch
   * that a write left, is what `t` takes.
   */
  ghost predicate TakesAlike(s: Sys, t: Time, t2: Time) {
    forall r | r in Select(s.rows, t) && r.name in s.saves ::
      && (r.kind.ModFile? && r.path in s.files && s.files[r.path].mtime <= t2 ==> s.files[r.path].content == s.saves[r.name])
      && forall y | y in Select(s.rows, t2) && y.kind.ModFile? && y.name == Copy(r.path, s.epoch) ::
           y.name in s.saves && s.saves[y.name] == s.saves[r.name]
  }

  /** The hooks under a restore save the old files that MODFILE rows overwrite, and touch no other copy. */
  lemma {:induction false} RunSaves(s: Sys, sel: seq<Row>, h: nat, now: Time)
    requires h !in s.handles && Ready(s, sel, now)
    requires forall r | r in sel && r.kind.ModFile? && s.Old(r.path) :: Copy(r.path, s.epoch) !in s.saves
    ensures
      var s' := RowsHooked(s, sel, h, now);
      && (forall n | n in s.saves :: n in s'.saves && s'.saves[n] == s.saves[n])
      && forall r | r in sel && r.kind.ModFile? && s.Old(r.path) ::
           Copy(r.path, s.epoch) in s'.saves && s'.saves[Copy(r.path, s.epoch)] == s.files[r.path].content
    decreases |sel|
  {
    if sel != [] {
      var r, rest := sel[|sel| - 1], sel[..|sel| - 1];
      var s1 := RowHooked(s, r, h, now);
      ReadyStep(s, sel, h, now);
      assert sel == rest + [r];
      RunSavesStep(s, sel, h, now);
      RunSaves(s1, rest, h, now);
    }
  }

  lemma RunSavesStep(s: Sys, sel: seq<Row>, h: nat, now: Time)
    requires h !in s.handles && sel != [] && Ready(s, sel, now)
    requires forall r | r in sel && r.kind.ModFile? && s.Old(r.path) :: Copy(r.path, s.epoch) !in s.saves
    ensures
      var r, rest := sel[|sel| - 1], sel[..|sel| - 1];
      var s1 := RowHooked(s, r, h, now);
      && (forall n | n in s.saves :: n in s1.saves && s1.saves[n] == s.saves[n])
      && (r.kind.ModFile? && s.Old(r.path) ==>
            Copy(r.path, s.epoch) in s1.saves && s1.saves[Copy(r.path, s.epoch)] == s.files[r.path].content)
      && forall x | x in rest && x.kind.ModFile? && s1.Old(x.path) :: Copy(x.path, s1.epoch) !in s1.saves
  {
    var r, rest := sel[|sel| - 1], sel[..|sel| - 1];
    ReadyStep(s, sel, h, now);
    RowEffect(s, r, h, now);
    assert forall x | x in rest :: x in sel && SameFile(s, RowHooked(s, r, h, now), x.path);
  }

  lemma GoodSaves(s: Sys, snaps: Snapshots, t: Time, h: nat, now: Time)
    requires BeforeRestore(s, snaps, t, h, now)
    ensures
      var s' := Restored(s, t, h, now);
      && (forall n | n in s.saves :: n in s'.saves && s'.saves[n] == s.saves[n])
      && forall r | r in Select(s.rows, t) && r.kind.ModFile? && s.Old(r.path) ::
           Copy(r.path, s.epoch) in s'.saves && s'.saves[Copy(r.path, s.epoch)] == s.files[r.path].content
  {
    LiveReady(s, snaps, t, h, now);
    RunSaves(s, Select(s.rows, t), h, now);
  }

  /** A restored file holds its copy, is older than the current point, and changed at the restore. */
  lemma RestoredTimes(s: Sys, snaps: Snapshots, t: Time, h: nat, now: Time, r: Row)
    requires BeforeRestore(s, snaps, t, h, now) && r in Select(s.rows, t)
    ensures
      var s' := Restored(s, t, h, now);
      && r.path in s'.files && s'.Old(r.path) && s'.files[r.path].content == s.saves[r.name] && r.name in s.saves
      && r.path in snaps[t] && snaps[t][r.path] == s.saves[r.name]
  {
    assert RowOk(s, r);
    RestoreUnderHooks(s, snaps, t, h, now);
    RestoredFile(s, snaps, t, now, r);
    LiveReady(s, snaps, t, h, now);
    RunEffect(s, Select(s.rows, t), h, now);
  }

  /** What the restore's own hook logs is selected for the points that saw the file. */
  lemma LoggedCovers(s: Sys, snaps: Snapshots, r: Row, now: Time, t2: Time)
    requires Good(s, snaps) && t2 in s.points && s.Old(r.path)
    ensures LoggedRow(s, r, now).Covers(t2) <==> s.files[r.path].mtime <= t2
  {
    assert TimesAgree(s.files[r.path], s.points);
  }

  /** The row is what the restore's own hook logged of a file that `t2` saw. */
  ghost predicate LoggedFor(s: Sys, sel: seq<Row>, now: Time, t2: Time, y: Row) {
    exists r :: r in sel && s.Old(r.path) && s.files[r.path].mtime <= t2 && y == LoggedRow(s, r, now)
  }

  /** The rows selected after a restore. */
  lemma SelectedAfter(s: Sys, snaps: Snapshots, t: Time, h: nat, now: Time, t2: Time, y: Row)
    requires BeforeRestore(s, snaps, t, h, now) && t2 in s.points
    ensures y in Select(Restored(s, t, h, now).rows, t2)
            <==> y in Select(s.rows, t2) || LoggedFor(s, Select(s.rows, t), now, t2, y)
  {
    var sel := Select(s.rows, t);
    LiveReady(s, snaps, t, h, now);
    RunEffect(s, sel, h, now);
    if Added(s, sel, now, y) {
      var r :| r in sel && s.Old(r.path) && y == LoggedRow(s, r, now);
      LoggedCovers(s, snaps, r, now, t2);
    }
    if LoggedFor(s, sel, now, t2, y) {
      var r :| r in sel && s.Old(r.path) && s.files[r.path].mtime <= t2 && y == LoggedRow(s, r, now);
      LoggedCovers(s, snaps, r, now, t2);
      assert Added(s, sel, now, y);
    }
  }

  /**
   * Back and forth. A restore to `t` overwrites a file that `t2` saw, and its hook saves
   * it first; but a second restore, to `t2`, overwrites that copy before it reads it,
   * and brings back what `t` had.
   */
  lemma BackAndForth(s: Sys, snaps: Snapshots, t: Time, h: nat, now: Time, later: Time, r: Row, t2: Time)
    requires BeforeRestore(s, snaps, t, h, now) && now < later && ApartFromAsides(s.files, s.rows, later)
    requires r in Select(s.rows, t) && r.kind.ModFile?
    requires t2 in s.points && r.path in s.files && s.files[r.path].mtime <= t2
    ensures
      var p, f := r.path, Restored(Restored(s, t, h, now), t2, h, later).files;
      && p in snaps[t2] && snaps[t2][p] == s.files[p].content
      && p in snaps[t] && p in f && f[p].content == snaps[t][p]
  {
    var s' := Restored(s, t, h, now);
    LiveReady(s, snaps, t, h, now);
    RunEffect(s, Select(s.rows, t), h, now);
    UnsavedFile(s, snaps, r.path, t2);
    OwnRows(s, snaps, t, h, now, r, t2);
    RestoredTimes(s, snaps, t, h, now, r);
    GoodSaves(s, snaps, t, h, now);
    assert NamesPath(r, r.path);
    MountedSame(s', Select(s'.rows, t2), h, later, LoggedRow(s, r, now));
  }

  /** A row logged before the first restore reads the copy it always had. */
  lemma AlikeOld(s: Sys, snaps: Snapshots, t: Time, h: nat, now: Time, t2: Time, y: Row, r: Row)
    requires BeforeRestore(s, snaps, t, h, now) && t2 in s.points && TakesAlike(s, t, t2)
    requires y in Select(s.rows, t2) && y.kind.ModFile? && y.name == Copy(r.path, s.epoch) && r in Select(s.rows, t)
    ensures
      var s' := Restored(s, t, h, now);
      r.path in s'.files && y.name in s'.saves && s'.saves[y.name] == s'.files[r.path].content
  {
    RestoredTimes(s, snaps, t, h, now, r);
    GoodSaves(s, snaps, t, h, now);
  }

  /** A row that the restore's own hook logged reads what the file was. */
  lemma AlikeNew(s: Sys, snaps: Snapshots, t: Time, h: nat, now: Time, t2: Time, y: Row, r: Row)
    requires BeforeRestore(s, snaps, t, h, now) && t2 in s.points && TakesAlike(s, t, t2)
    requires LoggedFor(s, Select(s.rows, t), now, t2, y) && y.kind.ModFile? && r in Select(s.rows, t) && r.path == y.path
    ensures
      var s' := Restored(s, t, h, now);
      r.path in s'.files && y.name in s'.saves && s'.saves[y.name] == s'.files[r.path].content
  {
    var x :| x in Select(s.rows, t) && s.Old(x.path) && s.files[x.path].mtime <= t2 && y == LoggedRow(s, x, now);
    assert OneVersion(s, t);
    SamePathSameRow(s, t, x, r);
    RestoredTimes(s, snaps, t, h, now, r);
    GoodSaves(s, snaps, t, h, now);
  }

  lemma AlikeReads(s: Sys, snaps: Snapshots, t: Time, h: nat, now: Time, t2: Time, y: Row, r: Row)
    requires BeforeRestore(s, snaps, t, h, now) && t2 in s.points && TakesAlike(s, t, t2)
    requires y in Select(Restored(s, t, h, now).rows, t2) && y.kind.ModFile? && y.name == Copy(y.path, s.epoch)
    requires r in Select(s.rows, t) && r.path == y.path
    ensures
      var s' := Restored(s, t, h, now);
      y.path in s'.files && y.name in s'.saves && s'.saves[y.name] == s'.files[y.path].content
  {
    SelectedAfter(s, snaps, t, h, now, t2, y);
    if y in Select(s.rows, t2) {
      AlikeOld(s, snaps, t, h, now, t2, y, r);
    } else {
      AlikeNew(s, snaps, t, h, now, t2, y, r);
    }
  }

  lemma ReadsAlike(s: Sys, snaps: Snapshots, t: Time, h: nat, now: Time, t2: Time, r: Row)
    requires BeforeRestore(s, snaps, t, h, now) && t2 in s.points && Readable(Restored(s, t, h, now), t2)
    requires r in Select(s.rows, t)
    ensures r.kind.ModFile? && r.path in s.files && s.files[r.path].mtime <= t2 ==> s.files[r.path].content == s.saves[r.name]
    ensures forall y | y in Select(s.rows, t2) && y.kind.ModFile? && y.name == Copy(r.path, s.epoch) ::
              y.name in s.saves && s.saves[y.name] == s.saves[r.name]
  {
    var s' := Restored(s, t, h, now);
    RestoredTimes(s, snaps, t, h, now, r);
    GoodSaves(s, snaps, t, h, now);
    LiveReady(s, snaps, t, h, now);
    RunEffect(s, Select(s.rows, t), h, now);
    if r.kind.ModFile? && r.path in s.files && s.files[r.path].mtime <= t2 {
      UnsavedFile(s, snaps, r.path, t2);
      assert LoggedFor(s, Select(s.rows, t), now, t2, LoggedRow(s, r, now));
      SelectedAfter(s, snaps, t, h, now, t2, LoggedRow(s, r, now));
    }
    forall y | y in Select(s.rows, t2) && y.kind.ModFile? && y.name == Copy(r.path, s.epoch)
      ensures y.name in s.saves && s.saves[y.name] == s.saves[r.name]
    {
      assert RowOk(s, y);
      SelectedAfter(s, snaps, t, h, now, t2, y);
    }
  }

  /** What a caller can see before the first restore of how the second will read. */
  lemma ReadableExactly(s: Sys, snaps: Snapshots, t: Time, h: nat, now: Time, t2: Time)
    requires BeforeRestore(s, snaps, t, h, now) && t2 in s.points && forall r | r in Select(s.rows, t) :: NotInTheWay(s, r)
    ensures Readable(Restored(s, t, h, now), t2) <==> TakesAlike(s, t, t2)
  {
    var s', sel := Restored(s, t, h, now), Select(s.rows, t);
    LiveReady(s, snaps, t, h, now);
    RunEffect(s, sel, h, now);
    if Readable(s', t2) {
      forall r | r in sel
        ensures
          && (r.kind.ModFile? && r.path in s.files && s.files[r.path].mtime <= t2 ==> s.files[r.path].content == s.saves[r.name])
          && forall y | y in Select(s.rows, t2) && y.kind.ModFile? && y.name == Copy(r.path, s.epoch) ::
               y.name in s.saves && s.saves[y.name] == s.saves[r.name]
      {
        ReadsAlike(s, snaps, t, h, now, t2, r);
      }
    }
    if TakesAlike(s, t, t2) {
      var k := AfterStage(s, snaps, t, h, now);
      forall y | y in Select(s'.rows, t2) && y.kind.ModFile? && s'.Old(y.path) && y.name == Copy(y.path, s'.epoch)
        ensures Reads(s', y)
      {
        if r :| r in sel && r.path == y.path {
          AlikeReads(s, snaps, t, h, now, t2, y, r);
        } else {
          UnrestoredCopies(s, snaps, t, h, now, k, y.path);
        }
      }
    }
  }

  /** A path the restore did not restore has no copy of this epoch that could be spoilt. */
  lemma UnrestoredCopies(s: Sys, snaps: Snapshots, t: Time, h: nat, now: Time, k: Sys, p: Path)
    requires BeforeRestore(s, snaps, t, h, now) && p !in PathsOf(Select(s.rows, t)) && Restored(s, t, h, now).Old(p)
    requires
      var sel := Select(s.rows, t);
      GoodKin(Stage(Restored(s, t, h, now), AsidesOf(sel, now) + PathsOf(sel)), k, snaps, PathsOf(sel))
    ensures CopyAgrees(Restored(s, t, h, now), p)
  {
    var sel, s' := Select(s.rows, t), Restored(s, t, h, now);
    forall t2, y | t2 in s'.points && y in Select(s'.rows, t2)
      ensures y.name != Copy(p, s'.epoch)
    {
      assert RowNames(y, s'.saves);
      if p in AsidesOf(sel, now) {
        NoRowAside(s, snaps, t, h, now, y);
      } else {
        assert k.Old(p);
      }
    }
  }

  /** No row is about a name files were moved aside to. */
  lemma NoRowAside(s: Sys, snaps: Snapshots, t: Time, h: nat, now: Time, y: Row)
    requires BeforeRestore(s, snaps, t, h, now) && y in Restored(s, t, h, now).rows
    ensures y.path !in AsidesOf(Select(s.rows, t), now)
  {
    var sel := Select(s.rows, t);
    LiveReady(s, snaps, t, h, now);
    RunEffect(s, sel, h, now);
    assert forall x | x in s.rows :: NamesPath(x, x.path) && !IsAside(x.path, now);
    assert forall q | q in AsidesOf(sel, now) :: IsAside(q, now);
  }

  /**
   * After any history without restores that the code can undo, a restore to one live
   * point keeps all live points restorable exactly when none of the UNLINK rows it
   * replays finds a file that some live point has seen, and every live point takes
   * alike what its own restore would read from under a restored file.
   */
  lemma RestoreKeepsPointsExactly(s: Sys, es: seq<Event>, t: Time, h: nat, now: Time, later: Time)
    requires Initial(s) && Legal(UnderSaveDir, s, es)
    requires
      var end := Run(UnderSaveDir, s, es);
      && t in end.points && h !in end.handles && end.clock <= now && end.epoch < now < later
      && ApartFromAsides(end.files, end.rows, now) && ApartFromAsides(end.files, end.rows, later)
    ensures
      var end, snaps := Run(UnderSaveDir, s, es), Taken(UnderSaveDir, s, es);
      && end.points <= snaps.Keys
      && ((forall t2 | t2 in end.points :: Recovered(Restored(end, t, h, now), t2, h, later, snaps[t2]))
          <==> && (forall r | r in Select(end.rows, t) && r.kind.Unlink? :: !Seen(end, r.path))
               && (forall t2 | t2 in end.points :: TakesAlike(end, t, t2)))
  {
    var end, snaps := Run(UnderSaveDir, s, es), Taken(UnderSaveDir, s, es);
    EndOfRun(s, es, t, h, now);
    assert forall t2 | t2 in end.points :: RecoversAt(UnderSaveDir, end, t2, snaps[t2]);
    if forall r | r in Select(end.rows, t) && r.kind.Unlink? :: !Seen(end, r.path) {
      forall t2 | t2 in end.points
        ensures Recovered(Restored(end, t, h, now), t2, h, later, snaps[t2]) <==> TakesAlike(end, t, t2)
      {
        OthersStillRecover(end, snaps, t, h, now, t2, later);
        ReadableExactly(end, snaps, t, h, now, t2);
      }
    } else {
      var r :| r in Select(end.rows, t) && r.kind.Unlink? && Seen(end, r.path);
      var t2 :| t2 in end.points && end.files[r.path].mtime <= t2;
      InTheWayLost(end, snaps, t, h, now, later, r, t2);
      assert !Recovered(Restored(end, t, h, now), t2, h, later, snaps[t2]);
    }
  }

  // ---- The next save, at any moment of a history with restores ----

  /** A moment of a history with restores, with nobody using the names a restore at `later` moves files to. */
  ghost predicate BeforeSave(st: Stage, k: Sys, snaps: Snapshots, paths: set<Path>, e: Event, later: Time) {
    && GoodKin(st, k, snaps, paths) && Allowed(UnderSaveDir, st.sys, e) && SavedBy(st.sys, e.op).Some?
    && ApartFromAsides(st.sys.files, st.sys.rows, later) && st.sys.epoch < later
  }

  lemma SaveEffect(s: Sys, e: Event)
    requires Possible(s, e.op) && SavedBy(s, e.op).Some? && s.epoch < e.now
    ensures
      var s', p := Apply(s, e), SavedBy(s, e.op).value;
      && s.Old(p) && !s'.Old(p) && s'.saves == s.saves[Copy(p, s.epoch) := s.files[p].content]
      && s'.rows == s.rows + [Row(s.epoch, if e.op.UnlinkFile? then Unlink else ModFile, p, Copy(p, s.epoch), s.files[p].ctime)]
      && s'.files.Keys <= s.files.Keys && s'.points == s.points && s'.epoch == s.epoch
      && forall q | q != p :: SameFile(s, s', q)
  {
  }

  lemma SaveApart(s: Sys, e: Event, later: Time)
    requires Possible(s, e.op) && SavedBy(s, e.op).Some? && s.epoch < e.now && ApartFromAsides(s.files, s.rows, later)
    ensures ApartFromAsides(Apply(s, e).files, Apply(s, e).rows, later)
  {
    SaveEffect(s, e);
  }

  /** The rows of paths other than `p` find their sources unspoilt. */
  ghost predicate OthersReadable(s: Sys, p: Path) {
    forall t, r | t in s.points && r in Select(s.rows, t) && r.path != p :: Reads(s, r)
  }

  /** Touching `p` changes nothing for the others, and leaves nothing to spoil at `p`. */
  lemma ReadableAfter(s: Sys, s': Sys, p: Path, row: seq<Row>)
    requires s'.points == s.points && s'.epoch == s.epoch && !s'.Old(p) && forall q | q != p :: SameFile(s, s', q)
    requires s'.rows == s.rows + row && |row| <= 1 && forall r | r in row :: r.path == p
    requires forall n | n != Copy(p, s.epoch) :: (n in s'.saves <==> n in s.saves) && (n in s.saves ==> s'.saves[n] == s.saves[n])
    ensures (forall t | t in s.points :: Readable(s', t)) <==> OthersReadable(s, p)
  {
    assert forall t, r: Row | t in s.points && r.path != p :: r in Select(s'.rows, t) <==> r in Select(s.rows, t);
    if OthersReadable(s, p) {
      forall t | t in s.points
        ensures Readable(s', t)
      {
        forall r | r in Select(s'.rows, t)
          ensures Reads(s', r)
        {
          assert r.path != p ==> SameFile(s, s', r.path) && r in Select(s.rows, t) && Reads(s, r);
        }
      }
    }
    if forall t | t in s.points :: Readable(s', t) {
      forall t, r | t in s.points && r in Select(s.rows, t) && r.path != p
        ensures Reads(s, r)
      {
        assert Readable(s', t) && SameFile(s, s', r.path) && r in Select(s'.rows, t);
      }
    }
  }

  lemma PointsKnown(s: Sys, k: Sys, snaps: Snapshots, recent: set<Path>, paths: set<Path>)
    requires Kin(s, k, recent, paths) && Good(k, snaps)
    ensures s.points <= snaps.Keys
  {
    assert forall t | t in k.points :: RecoversAt(UnderSaveDir, k, t, snaps[t]);
  }

  lemma AllMounted(s: Sys, k: Sys, snaps: Snapshots, recent: set<Path>, paths: set<Path>, h: nat, later: Time)
    requires Kin(s, k, recent, paths) && Good(k, snaps) && h !in s.handles && s.epoch < later
    requires ApartFromAsides(s.files, s.rows, later)
    ensures s.points <= snaps.Keys
    ensures (forall t | t in s.points :: Recovered(s, t, h, later, snaps[t])) <==> (forall t | t in s.points :: Readable(s, t))
  {
    PointsKnown(s, k, snaps, recent, paths);
    forall t | t in s.points
      ensures t in snaps && (Recovered(s, t, h, later, snaps[t]) <==> Readable(s, t))
    {
      MountedExactly(s, k, snaps, recent, paths, t, h, later);
    }
  }

  lemma ReadableAfterSave(s: Sys, e: Event)
    requires Possible(s, e.op) && SavedBy(s, e.op).Some? && s.epoch < e.now
    ensures (forall t | t in s.points :: Readable(Apply(s, e), t)) <==> OthersReadable(s, SavedBy(s, e.op).value)
  {
    SaveEffect(s, e);
    ReadableAfter(s, Apply(s, e), SavedBy(s, e.op).value, Apply(s, e).rows[|s.rows|..]);
  }

  lemma SavedStage(st: Stage, k: Sys, snaps: Snapshots, paths: set<Path>, e: Event, later: Time)
    requires BeforeSave(st, k, snaps, paths, e, later) && CopyAgrees(st.sys, SavedBy(st.sys, e.op).value)
    ensures Possible(k, e.op) && Kin(Apply(st.sys, e), Apply(k, e), RecentAfter(st.recent, e.op), paths)
    ensures Good(Apply(k, e), snaps) && ApartFromAsides(Apply(st.sys, e).files, Apply(st.sys, e).rows, later)
    ensures Apply(st.sys, e).points == st.sys.points && Apply(st.sys, e).epoch == st.sys.epoch
  {
    SaveEffect(st.sys, e);
    SaveApart(st.sys, e, later);
    HookKeepsKin(st, k, e, snaps, paths);
  }

  /** An agreeing save is a step like any other. */
  lemma AgreeingSave(st: Stage, k: Sys, snaps: Snapshots, paths: set<Path>, e: Event, h: nat, later: Time)
    requires BeforeSave(st, k, snaps, paths, e, later) && CopyAgrees(st.sys, SavedBy(st.sys, e.op).value)
    requires h !in Apply(st.sys, e).handles
    ensures st.sys.points <= snaps.Keys
    ensures (forall t | t in st.sys.points :: Recovered(Apply(st.sys, e), t, h, later, snaps[t]))
            <==> OthersReadable(st.sys, SavedBy(st.sys, e.op).value)
  {
    SavedStage(st, k, snaps, paths, e, later);
    AllMounted(Apply(st.sys, e), Apply(k, e), snaps, RecentAfter(st.recent, e.op), paths, h, later);
    ReadableAfterSave(st.sys, e);
  }

  /** The save itself is selected for no live point: only the copy it overwrites matters. */
  lemma SaveSelects(st: Stage, k: Sys, snaps: Snapshots, paths: set<Path>, e: Event, later: Time, t: Time)
    requires BeforeSave(st, k, snaps, paths, e, later) && t in st.sys.points && !k.Old(SavedBy(st.sys, e.op).value)
    ensures Select(Apply(st.sys, e).rows, t) == Select(st.sys.rows, t)
  {
    var s, p := st.sys, SavedBy(st.sys, e.op).value;
    SaveEffect(s, e);
    LoggedSelective(s, k, p, st.recent, paths);
    SelectAppend(s.rows, Row(s.epoch, if e.op.UnlinkFile? then Unlink else ModFile, p, Copy(p, s.epoch), s.files[p].ctime), t);
  }

  /** A point that takes its version from the copy that is overwritten gets what the file held before the save. */
  lemma OverwrittenCopy(st: Stage, k: Sys, snaps: Snapshots, paths: set<Path>, e: Event, h: nat, later: Time, t: Time, y: Row)
    requires BeforeSave(st, k, snaps, paths, e, later) && t in st.sys.points && h !in Apply(st.sys, e).handles
    requires y in Select(st.sys.rows, t) && y.name == Copy(SavedBy(st.sys, e.op).value, st.sys.epoch)
    ensures
      var p, f := SavedBy(st.sys, e.op).value, Restored(Apply(st.sys, e), t, h, later).files;
      && p in f && f[p].content == st.sys.files[p].content
      && t in snaps && p in snaps[t] && y.name in st.sys.saves && snaps[t][p] == st.sys.saves[y.name]
  {
    var s, s' := st.sys, Apply(st.sys, e);
    CopyOfSnapshot(s, k, snaps, st.recent, paths, t, later, y);
    SaveEffect(s, e);
    SaveSelects(st, k, snaps, paths, e, later, t);
    StageOrderly(s, k, snaps, st.recent, paths, t, later);
    MountedLeaves(s', Select(s'.rows, t), h, later, y);
  }

  /**
   * At any moment of a history with restores, the next operation that saves a file
   * keeps every live point restorable exactly when each live point that takes its
   * version of the file from the copy that is overwritten takes what the file holds,
   * and the restores of all points read their other sources unspoilt.
   */
  lemma SaveExactly(st: Stage, k: Sys, snaps: Snapshots, paths: set<Path>, e: Event, h: nat, later: Time)
    requires BeforeSave(st, k, snaps, paths, e, later) && h !in Apply(st.sys, e).handles
    ensures st.sys.points <= snaps.Keys
    ensures (forall t | t in st.sys.points :: Recovered(Apply(st.sys, e), t, h, later, snaps[t]))
            <==> CopyAgrees(st.sys, SavedBy(st.sys, e.op).value) && OthersReadable(st.sys, SavedBy(st.sys, e.op).value)
  {
    var s, p := st.sys, SavedBy(st.sys, e.op).value;
    assert forall t | t in s.points :: RecoversAt(UnderSaveDir, k, t, snaps[t]);
    if CopyAgrees(s, p) {
      AgreeingSave(st, k, snaps, paths, e, h, later);
    } else {
      var t, y :| t in s.points && y in Select(s.rows, t) && y.name == Copy(p, s.epoch)
                  && !(y.name in s.saves && p in s.files && s.saves[y.name] == s.files[p].content);
      OverwrittenCopy(st, k, snaps, paths, e, h, later, t, y);
      assert !Recovered(Apply(s, e), t, h, later, snaps[t]);
    }
  }

  // ---- The next deletion ----

  /** The row leaves the same file after the deletion of `d` as its copy holds now. */
  ghost predicate Spared(s: Sys, d: Time, r: Row) {
    if r.name in Gone(s.rows, d, Predecessor(s.points, d))
    then r.kind.ModFile? && r.path in s.files && r.name in s.saves && s.files[r.path].content == s.saves[r.name]
    else Reads(s, r)
  }

  lemma SparedLeft(s: Sys, d: Time, r: Row, m: Row)
    requires r.HoldsCopy() && r.name in s.saves && m == r.(rpTime := m.rpTime) && d in s.points
    ensures Left(Deleted(s, d), m) == Some(s.saves[r.name]) <==> Spared(s, d, r)
  {
    var pred := Predecessor(s.points, d);
    assert Deleted(s, d).saves == s.saves - Gone(s.rows, d, pred);
  }

  /** The rows of `t`, and what the deletion of `d` makes of them. */
  lemma DeletionLeaves(st: Stage, k: Sys, snaps: Snapshots, paths: set<Path>, d: Time, t: Time, later: Time)
    requires GoodKin(st, k, snaps, paths) && d in st.sys.points && t in st.sys.points && t != d
    requires ApartFromAsides(st.sys.files, st.sys.rows, later)
    requires SameApartFromStamp(Select(Deleted(st.sys, d).rows, t), Select(st.sys.rows, t))
    ensures t in snaps && forall r | r in Select(Deleted(st.sys, d).rows, t) :: r.path in snaps[t]
    ensures (forall r | r in Select(Deleted(st.sys, d).rows, t) :: Left(Deleted(st.sys, d), r) == Some(snaps[t][r.path]))
            <==> forall r | r in Select(st.sys.rows, t) :: Spared(st.sys, d, r)
  {
    var s, s' := st.sys, Deleted(st.sys, d);
    var sel, sel' := Select(s.rows, t), Select(s'.rows, t);
    assert RecoversAt(UnderSaveDir, k, t, snaps[t]);
    forall i | 0 <= i < |sel|
      ensures sel[i].path in snaps[t] && sel'[i].path == sel[i].path && sel[i] in sel && sel'[i] in sel'
      ensures Left(s', sel'[i]) == Some(snaps[t][sel'[i].path]) <==> Spared(s, d, sel[i])
    {
      CopyOfSnapshot(s, k, snaps, st.recent, paths, t, later, sel[i]);
      SparedLeft(s, d, sel[i], sel'[i]);
    }
    forall r | r in sel'
      ensures exists i :: 0 <= i < |sel'| && sel'[i] == r
    {
    }
  }

  /** One point, after the deletion of another. */
  lemma DeletionAt(st: Stage, k: Sys, snaps: Snapshots, paths: set<Path>, d: Time, t: Time, h: nat, later: Time)
    requires GoodKin(st, k, snaps, paths) && d in st.sys.points && t in st.sys.points && t != d
    requires h !in st.sys.handles && st.sys.epoch < later && ApartFromAsides(st.sys.files, st.sys.rows, later)
    ensures t in snaps
    ensures Recovered(Deleted(st.sys, d), t, h, later, snaps[t]) <==> AllSpared(st.sys, d, t)
  {
    var s, s' := st.sys, Deleted(st.sys, d);
    var sel, sel' := Select(s.rows, t), Select(s'.rows, t);
    assert TimesOk(k);
    SelectPreserved(s.rows, s.points, d, t);
    StageOrderly(s, k, snaps, st.recent, paths, t, later);
    SnapshotApart(s, k, snaps, st.recent, paths, t, later);
    SameOrderly(s, s', sel, sel', later);
    DeletionLeaves(st, k, snaps, paths, d, t, later);
    forall p | p in snaps[t] && p !in PathsOf(sel')
      ensures p in s'.files && s'.files[p].content == snaps[t][p]
    {
      UnselectedPath(s, k, snaps, st.recent, paths, t, later, p);
    }
    RecoveredExactly(s', t, h, later, snaps[t]);
  }

  ghost predicate AllSpared(s: Sys, d: Time, t: Time) {
    forall r | r in Select(s.rows, t) :: Spared(s, d, r)
  }

  lemma SameOrderly(s: Sys, s': Sys, sel: seq<Row>, sel': seq<Row>, later: Time)
    requires Orderly(s, sel, later) && SameApartFromStamp(sel', sel) && s'.epoch == s.epoch
    ensures Orderly(s', sel', later) && PathsOf(sel') == PathsOf(sel)
  {
    forall r | r in sel'
      ensures Shaped(r) && !IsAside(r.path, later) && r.path in PathsOf(sel)
    {
      var i :| 0 <= i < |sel'| && sel'[i] == r;
      assert sel[i] in sel && sel[i].path == r.path;
    }
    forall r | r in sel
      ensures r.path in PathsOf(sel')
    {
      var i :| 0 <= i < |sel| && sel[i] == r;
      assert sel'[i] in sel' && sel'[i].path == r.path;
    }
  }

  /**
   * At any moment of a history with restores, deleting a point keeps every other point
   * restorable exactly when each row of another point finds its source unspoilt or,
   * where a row that goes takes a shared copy with it, finds the file in place holding
   * the same.
   */
  lemma DeletionExactly(st: Stage, k: Sys, snaps: Snapshots, paths: set<Path>, d: Time, h: nat, later: Time)
    requires GoodKin(st, k, snaps, paths) && d in st.sys.points && h !in st.sys.handles && st.sys.epoch < later
    requires ApartFromAsides(st.sys.files, st.sys.rows, later)
    ensures st.sys.points <= snaps.Keys
    ensures (forall t | t in st.sys.points && t != d :: Recovered(Deleted(st.sys, d), t, h, later, snaps[t]))
            <==> (forall t | t in st.sys.points && t != d :: AllSpared(st.sys, d, t))
  {
    assert forall t | t in st.sys.points :: RecoversAt(UnderSaveDir, k, t, snaps[t]);
    forall t | t in st.sys.points && t != d
      ensures Recovered(Deleted(st.sys, d), t, h, later, snaps[t]) <==> AllSpared(st.sys, d, t)
    {
      DeletionAt(st, k, snaps, paths, d, t, h, later);
    }
  }

  // ---- An edit right after a restore ----

  /** A file is opened and written. */
  ghost function Edited(s: Sys, p: Path, h: nat, c: Content, now: Time): Sys
    requires h !in s.handles && p in s.files
  {
    Do(Do(s, OpenFile(h, p, false), now), WriteFile(h, c), now)
  }

  /**
   * A file restored to an older point keeps its old mtime, so the next write to it
   * saves it again, over the copy the restore had just made of the current version:
   * a later restore to the current point gives the older content.
   */
  lemma EditAfterRestore(s: Sys, snaps: Snapshots, t: Time, h: nat, now: Time, c: Content, edit: Time, h2: nat, later: Time, r: Row)
    requires BeforeRestore(s, snaps, t, h, now) && s.epoch in s.points && now <= edit < later
    requires ApartFromAsides(s.files, s.rows, later)
    requires r in Select(s.rows, t) && r.kind.ModFile? && s.Old(r.path)
    requires r.path in Restored(s, t, h, now).files && h2 !in Edited(Restored(s, t, h, now), r.path, h, c, edit).handles
    ensures
      var p, s' := r.path, Restored(s, t, h, now);
      && p in snaps[t] && p in snaps[s.epoch]
      && (var f := Restored(Edited(s', p, h, c, edit), s.epoch, h2, later).files;
          && p in f && f[p].content == snaps[t][p]
          && (f[p].content == snaps[s.epoch][p] <==> snaps[t][p] == snaps[s.epoch][p]))
  {
    var sel, p, s' := Select(s.rows, t), r.path, Restored(s, t, h, now);
    LiveReady(s, snaps, t, h, now);
    RunEffect(s, sel, h, now);
    UnsavedFile(s, snaps, p, s.epoch);
    RestoredTimes(s, snaps, t, h, now, r);
    EditSaves(s', p, h, c, edit);
    var s2 := Edited(s', p, h, c, edit);
    SelectAppend(s'.rows, Row(s.epoch, ModFile, p, Copy(p, s.epoch), s'.files[p].ctime), s.epoch);
    OwnRows(s, snaps, t, h, now, r, s.epoch);
    RestoredCtime(s, snaps, t, h, now, r);
    assert NamesPath(r, p);
    MountedSame(s2, Select(s2.rows, s.epoch), h2, later, LoggedRow(s, r, now));
  }

  lemma RestoredCtime(s: Sys, snaps: Snapshots, t: Time, h: nat, now: Time, r: Row)
    requires BeforeRestore(s, snaps, t, h, now) && r in Select(s.rows, t)
    ensures r.path in Restored(s, t, h, now).files && Restored(s, t, h, now).files[r.path].ctime == now
  {
    RestoreUnderHooks(s, snaps, t, h, now);
    RestoredFile(s, snaps, t, now, r);
  }

  lemma EditSaves(s: Sys, p: Path, h: nat, c: Content, now: Time)
    requires h !in s.handles && s.Old(p) && s.epoch < now
    ensures
      var s' := Edited(s, p, h, c, now);
      && s'.saves == s.saves[Copy(p, s.epoch) := s.files[p].content] && !s'.Old(p)
      && s'.rows == s.rows + [Row(s.epoch, ModFile, p, Copy(p, s.epoch), s.files[p].ctime)]
      && s'.epoch == s.epoch
  {
  }

  /** After an open that truncates nothing, the write is the next save or no save. */
  lemma OpenedStage(st: Stage, k: Sys, snaps: Snapshots, paths: set<Path>, p: Path, h: nat, edit: Time)
    requires GoodKin(st, k, snaps, paths) && h !in st.sys.handles && p in st.sys.files
    requires st.sys.clock <= edit && st.sys.epoch < edit
    ensures
      var open := Event(OpenFile(h, p, false), edit);
      && Allowed(UnderSaveDir, k, open)
      && GoodKin(Stage(Apply(st.sys, open), st.recent), Apply(k, open), snaps, paths)
  {
    HookKeepsKin(st, k, Event(OpenFile(h, p, false), edit), snaps, paths);
  }

  lemma SameTableAgrees(s: Sys, s': Sys, p: Path)
    requires s'.rows == s.rows && s'.saves == s.saves && s'.files == s.files && s'.points == s.points && s'.epoch == s.epoch
    ensures (CopyAgrees(s', p) <==> CopyAgrees(s, p)) && (OthersReadable(s', p) <==> OthersReadable(s, p))
  {
  }

  lemma EditExactly(st: Stage, k: Sys, snaps: Snapshots, paths: set<Path>, p: Path, h: nat, c: Content, edit: Time,
                    h2: nat, later: Time)
    requires GoodKin(st, k, snaps, paths) && h !in st.sys.handles && p in st.sys.files && h2 !in st.sys.handles && h2 != h
    requires st.sys.clock <= edit < later && st.sys.epoch < edit && ApartFromAsides(st.sys.files, st.sys.rows, later)
    ensures st.sys.points <= snaps.Keys && h2 !in Edited(st.sys, p, h, c, edit).handles
    ensures (forall t | t in st.sys.points :: Recovered(Edited(st.sys, p, h, c, edit), t, h2, later, snaps[t]))
            <==> OthersReadable(st.sys, p) && (st.sys.Old(p) ==> CopyAgrees(st.sys, p))
  {
    PointsKnown(st.sys, k, snaps, st.recent, paths);
    OpenedStage(st, k, snaps, paths, p, h, edit);
    var st1, k1 := OpenedSame(st, k, p, h, edit);
    WriteExactly(st1, k1, snaps, paths, Event(WriteFile(h, c), edit), h2, later);
    SameTableAgrees(st.sys, st1.sys, p);
  }

  /** An open without truncation adds a clear handle and nothing else. */
  lemma OpenedSame(st: Stage, k: Sys, p: Path, h: nat, edit: Time) returns (st1: Stage, k1: Sys)
    requires h !in st.sys.handles && h !in k.handles && p in st.sys.files && p in k.files
    ensures
      var open := Event(OpenFile(h, p, false), edit);
      st1 == Stage(Apply(st.sys, open), st.recent) && k1 == Apply(k, open)
    ensures st1.sys == st.sys.(handles := st.sys.handles[h := Linked(p, false)], clock := edit)
  {
    var open := Event(OpenFile(h, p, false), edit);
    st1, k1 := Stage(Apply(st.sys, open), st.recent), Apply(k, open);
  }

  /** A write through a clear handle, whether it saves or not. */
  lemma WriteExactly(st: Stage, k: Sys, snaps: Snapshots, paths: set<Path>, e: Event, h2: nat, later: Time)
    requires GoodKin(st, k, snaps, paths) && Allowed(UnderSaveDir, st.sys, e) && e.op.WriteFile?
    requires !st.sys.handles[e.op.handle].backedUp && ApartFromAsides(st.sys.files, st.sys.rows, later)
    requires st.sys.points <= snaps.Keys && st.sys.epoch < later && h2 !in Apply(st.sys, e).handles
    ensures
      var p := st.sys.handles[e.op.handle].path;
      (forall t | t in st.sys.points :: Recovered(Apply(st.sys, e), t, h2, later, snaps[t]))
      <==> OthersReadable(st.sys, p) && (st.sys.Old(p) ==> CopyAgrees(st.sys, p))
  {
    if st.sys.Old(st.sys.handles[e.op.handle].path) {
      SaveExactly(st, k, snaps, paths, e, h2, later);
    } else {
      UnsavedWrite(st, k, snaps, paths, e, h2, later);
    }
  }

  lemma UnsavedWrite(st: Stage, k: Sys, snaps: Snapshots, paths: set<Path>, e: Event, h2: nat, later: Time)
    requires GoodKin(st, k, snaps, paths) && Allowed(UnderSaveDir, st.sys, e) && e.op.WriteFile? && SavedBy(st.sys, e.op).None?
    requires ApartFromAsides(st.sys.files, st.sys.rows, later) && st.sys.epoch < later && h2 !in Apply(st.sys, e).handles
    ensures st.sys.points <= snaps.Keys
    ensures (forall t | t in st.sys.points :: Recovered(Apply(st.sys, e), t, h2, later, snaps[t]))
            <==> OthersReadable(st.sys, st.sys.handles[e.op.handle].path)
  {
    HookKeepsKin(st, k, e, snaps, paths);
    AllMounted(Apply(st.sys, e), Apply(k, e), snaps, RecentAfter(st.recent, e.op), paths, h2, later);
    UnsavedReadable(st.sys, e);
  }

  lemma UnsavedReadable(s: Sys, e: Event)
    requires Possible(s, e.op) && e.op.WriteFile? && SavedBy(s, e.op).None? && s.epoch < e.now
    ensures (forall t | t in s.points :: Readable(Apply(s, e), t)) <==> OthersReadable(s, s.handles[e.op.handle].path)
  {
    ReadableAfter(s, Apply(s, e), s.handles[e.op.handle].path, []);
  }

  /**
   * After a restore, and before the next restore point, editing `p` keeps every live
   * point restorable exactly when the restores of all points read their other sources
   * unspoilt, and the restore did not restore `p` or every live point that takes its
   * version of `p` from the copy of the current epoch takes what `p` holds now.
   */
  lemma EditAfterRestoreExactly(s: Sys, snaps: Snapshots, t: Time, h: nat, now: Time, p: Path, c: Content, edit: Time,
                                h2: nat, later: Time)
    requires BeforeRestore(s, snaps, t, h, now) && now <= edit < later && ApartFromAsides(s.files, s.rows, later)
    requires forall r | r in Select(s.rows, t) :: NotInTheWay(s, r)
    requires p in Restored(s, t, h, now).files && h2 !in Restored(s, t, h, now).handles && h2 != h
    ensures
      var s' := Restored(s, t, h, now);
      && s.points <= snaps.Keys && h2 !in Edited(s', p, h, c, edit).handles
      && ((forall t2 | t2 in s.points :: Recovered(Edited(s', p, h, c, edit), t2, h2, later, snaps[t2]))
          <==> OthersReadable(s', p) && (p !in PathsOf(Select(s.rows, t)) || CopyAgrees(s', p)))
  {
    var sel, s' := Select(s.rows, t), Restored(s, t, h, now);
    var k := AfterStage(s, snaps, t, h, now);
    EditReady(s, snaps, t, h, now, later);
    EditExactly(Stage(s', AsidesOf(sel, now) + PathsOf(sel)), k, snaps, PathsOf(sel), p, h, c, edit, h2, later);
    if r :| r in sel && r.path == p {
      RestoredTimes(s, snaps, t, h, now, r);
    } else if s'.Old(p) {
      UnrestoredCopies(s, snaps, t, h, now, k, p);
    }
  }

  lemma EditReady(s: Sys, snaps: Snapshots, t: Time, h: nat, now: Time, later: Time)
    requires BeforeRestore(s, snaps, t, h, now) && now < later && ApartFromAsides(s.files, s.rows, later)
    ensures
      var s' := Restored(s, t, h, now);
      && s'.points == s.points && s'.epoch == s.epoch && s'.clock <= now && ApartFromAsides(s'.files, s'.rows, later)
  {
    LiveReady(s, snaps, t, h, now);
    RunEffect(s, Select(s.rows, t), h, now);
    StillApart(s, snaps, t, h, now, later);
  }
}
