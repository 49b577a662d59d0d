/**
 * Histories in which restores happen too, at any moment. A restored file carries an
 * old mtime and a new ctime, so the invariant of `TimeTravel` does not hold of it; it
 * holds of the volume's kin, on which the file was just written.
 */
module Histories {
  import opened Base
  import opened Table
  import opened Volume
  import opened Restore
  import opened TimeTravel
  import opened Versions
  import opened Rewind
  import opened Outcome
  import opened Kinship

  // ---- One row of a restore ----

  lemma KinMore(s: Sys, k: Sys, recent: set<Path>, paths: set<Path>, recent': set<Path>, paths': set<Path>)
    requires Kin(s, k, recent, paths) && recent <= recent' && paths <= paths'
    ensures Kin(s, k, recent', paths')
  {
  }

  /** The kin of a volume on which `p` is overwritten is overwritten too. */
  lemma OverwriteKin(s: Sys, k: Sys, p: Path, c: Content, now: Time, recent: set<Path>, paths: set<Path>)
    requires Kin(s, k, recent, paths) && TimesOk(k) && s.epoch < now && (s.Old(p) ==> CopyAgrees(s, p))
    ensures Kin(Overwritten(s, p, c, now), Overwritten(k, p, c, now), recent, paths)
  {
    if p in s.files {
      OverwriteOldKin(s, k, p, c, now, recent, paths);
    } else {
      var s', k' := Overwritten(s, p, c, now), Overwritten(k, p, c, now);
      HandlesAfterPut(s, k, k', p);
      PutKin(s, k, s', k', p, File(c, now, now), recent, paths);
    }
  }

  lemma OverwriteTables(s: Sys, k: Sys, p: Path, c: Content, now: Time, recent: set<Path>, paths: set<Path>)
    requires Kin(s, k, recent, paths) && TimesOk(k) && (s.Old(p) ==> CopyAgrees(s, p))
    requires p in s.files
    ensures
      var s', k' := Overwritten(s, p, c, now), Overwritten(k, p, c, now);
      TableKin(s'.rows, s'.saves, k'.rows, k'.saves, s.points)
  {
    assert KinFile(s.files[p], k.files[p]);
    KinSave(s, k, p, ModFile, s.Old(p), recent, paths);
  }

  lemma OverwriteEffect(s: Sys, p: Path, c: Content, now: Time)
    ensures
      var s' := Overwritten(s, p, c, now);
      && s'.files == s.files[p := File(c, now, now)] && s'.handles == s.handles && s'.clock == now
      && s'.points == s.points && s'.epoch == s.epoch && s'.saves.Keys <= s.saves.Keys + {Copy(p, s.epoch)}
      && (EpochsUpTo(s.rows, s.epoch) ==> EpochsUpTo(s'.rows, s.epoch))
  {
  }

  lemma OverwriteOldKin(s: Sys, k: Sys, p: Path, c: Content, now: Time, recent: set<Path>, paths: set<Path>)
    requires Kin(s, k, recent, paths) && TimesOk(k) && s.epoch < now && (s.Old(p) ==> CopyAgrees(s, p))
    requires p in s.files
    ensures Kin(Overwritten(s, p, c, now), Overwritten(k, p, c, now), recent, paths)
  {
    var s', k' := Overwritten(s, p, c, now), Overwritten(k, p, c, now);
    OverwriteTables(s, k, p, c, now, recent, paths);
    OverwriteEffect(s, p, c, now);
    OverwriteEffect(k, p, c, now);
    HandlesAfterPut(s, k, k', p);
    PutKin(s, k, s', k', p, File(c, now, now), recent, paths);
  }

  /** Where the restore sets the times of `p` back, the kin leaves it just written. */
  lemma RetimeKin(s: Sys, k: Sys, p: Path, access: Time, now: Time, recent: set<Path>, paths: set<Path>)
    requires Kin(s, k, recent, paths) && p in s.files && access <= now == s.clock
    requires s.files[p].mtime == s.files[p].ctime == now && k.files[p] == s.files[p]
    ensures Kin(RetimeHooked(s, p, access, now), k, recent + {p}, paths + {p})
  {
    var f := s.files[p].(mtime := access, ctime := now);
    KinMore(s, k, recent, paths, recent + {p}, paths + {p});
    KinPut(s.files, k.files, p, f, k.files[p], s.points, s.epoch, recent + {p}, paths + {p});
    assert k.files[p := k.files[p]] == k.files;
  }

  lemma MovedKin(s: Sys, k: Sys, r: Row, now: Time, recent: set<Path>, paths: set<Path>)
    requires Kin(s, k, recent, paths) && TimesOk(k) && s.clock <= now && s.epoch < now
    requires NotInTheWay(s, r) && NameFree(s, Aside(r.path, now))
    ensures Kin(MovedFor(s, r, now), MovedFor(k, r, now), recent + {Aside(r.path, now)}, paths)
  {
    var q := Aside(r.path, now);
    if r.kind.Unlink? && r.path in s.files {
      var e := Event(RenameFile(r.path, q), now);
      assert forall x | x in s.rows :: RowNames(x, s.saves);
      assert Copy(q, s.epoch) !in s.saves;
      KinAllowed(s, k, e, recent, paths);
      RenameKin(s, k, e, recent, paths);
      KinMore(Apply(s, e), Apply(k, e), RecentAfter(recent, e.op), paths, recent + {q}, paths);
    } else {
      KinMore(s, k, recent, paths, recent + {q}, paths);
    }
  }

  /** What the row's undoing saves overwrites nothing that live points would miss. */
  ghost predicate RowFresh(s: Sys, r: Row) {
    r.kind.ModFile? && s.Old(r.path) ==> CopyAgrees(s, r.path)
  }

  /** The row's copy is the kin's, and is still that when cp reads it. */
  predicate RowReads(s: Sys, k: Sys, r: Row) {
    r.name in s.saves && r.name in k.saves && RowSource(s, r) == s.saves[r.name] == k.saves[r.name]
  }

  /** What the row does on the kin's side. */
  ghost function KinRow(k: Sys, r: Row, now: Time): Sys {
    if r.name in k.saves then Overwritten(MovedFor(k, r, now), r.path, k.saves[r.name], now) else k
  }

  lemma MovedNames(s: Sys, r: Row, now: Time)
    ensures MovedFor(s, r, now).saves == s.saves && MovedFor(s, r, now).epoch == s.epoch
    ensures s.clock <= now ==> MovedFor(s, r, now).clock <= now
    ensures r.kind.Unlink? ==> r.path !in MovedFor(s, r, now).files
    ensures !r.kind.Unlink? ==> MovedFor(s, r, now) == s
  {
    if r.kind.Unlink? && r.path in s.files {
      MoveEffect(s, r.path, now);
    }
  }

  lemma KinRowGood(k: Sys, r: Row, now: Time, snaps: Snapshots)
    requires Good(k, snaps) && k.clock <= now && k.epoch < now && r.name in k.saves
    requires NotInTheWay(k, r) && NameFree(k, Aside(r.path, now))
    ensures Good(KinRow(k, r, now), snaps) && Good(MovedFor(k, r, now), snaps)
  {
    MovedNames(k, r, now);
    if r.kind.Unlink? && r.path in k.files {
      MoveKeepsGood(k, r, now, snaps);
    }
    OverwriteKeepsGood(MovedFor(k, r, now), r.path, k.saves[r.name], now, snaps);
  }

  lemma RowKin(s: Sys, k: Sys, r: Row, h: nat, now: Time, recent: set<Path>, paths: set<Path>)
    requires Kin(s, k, recent, paths) && TimesOk(k) && TimesOk(MovedFor(k, r, now)) && s.clock <= now && s.epoch < now
    requires h !in s.handles && Replayable(s, r) && RowFresh(s, r) && RowReads(s, k, r) && r.accessTime <= now
    requires NotInTheWay(s, r) && NameFree(s, Aside(r.path, now))
    ensures Kin(RowHooked(s, r, h, now), KinRow(k, r, now), recent + {Aside(r.path, now)} + {r.path}, paths + {r.path})
  {
    var s1, k1, c := MovedFor(s, r, now), MovedFor(k, r, now), k.saves[r.name];
    var recent1 := recent + {Aside(r.path, now)};
    MovedNames(s, r, now);
    MovedNames(k, r, now);
    MovedKin(s, k, r, now, recent, paths);
    RowIsOverwrite(s, r, h, now);
    OverwriteKin(s1, k1, r.path, c, now, recent1, paths);
    RetimeKin(Overwritten(s1, r.path, c, now), Overwritten(k1, r.path, c, now), r.path, r.accessTime, now, recent1, paths);
  }

  // ---- A whole restore ----

  function AsidesOf(sel: seq<Row>, now: Time): set<Path> {
    set r | r in sel :: Aside(r.path, now)
  }

  /** What the loop needs of the rows it has still to undo. */
  ghost predicate Pending(s: Sys, k: Sys, done: set<Path>, sel: seq<Row>, h: nat, now: Time) {
    && h !in s.handles && Ready(s, sel, now) && Unhindered(s, done, sel, now) && s.clock <= now
    && forall r | r in sel :: RowFresh(s, r) && RowReads(s, k, r) && r.accessTime <= now
  }

  lemma KinNotInTheWay(s: Sys, k: Sys, r: Row, recent: set<Path>, paths: set<Path>)
    requires Kin(s, k, recent, paths) && NotInTheWay(s, r)
    ensures NotInTheWay(k, r)
  {
    if r.path in s.files {
      assert KinFile(s.files[r.path], k.files[r.path]);
    }
  }

  lemma PendingStep(s: Sys, k: Sys, done: set<Path>, sel: seq<Row>, h: nat, now: Time)
    requires Pending(s, k, done, sel, h, now) && sel != [] && s.epoch == k.epoch
    ensures
      var r, rest := sel[|sel| - 1], sel[..|sel| - 1];
      Pending(RowHooked(s, r, h, now), KinRow(k, r, now), done + {r.path}, rest, h, now)
  {
    var r, rest := sel[|sel| - 1], sel[..|sel| - 1];
    ReadyStep(s, sel, h, now);
    UnhinderedStep(s, done, sel, h, now);
    forall x | x in rest
      ensures RowFresh(RowHooked(s, r, h, now), x) && RowReads(RowHooked(s, r, h, now), KinRow(k, r, now), x)
    {
      PendingRow(s, k, r, h, now, x);
    }
  }

  lemma PendingRow(s: Sys, k: Sys, r: Row, h: nat, now: Time, x: Row)
    requires h !in s.handles && s.epoch < now && s.epoch == k.epoch && Replayable(s, r) && Replayable(s, x)
    requires x.path != r.path && !IsAside(x.path, now) && RowFresh(s, x) && RowReads(s, k, x) && r.name in k.saves
    ensures RowFresh(RowHooked(s, r, h, now), x) && RowReads(RowHooked(s, r, h, now), KinRow(k, r, now), x)
  {
    RowElsewhere(s, r, h, now, x.path);
    OtherReads(s, k, r, h, now, x);
    if x.kind.ModFile? && s.Old(x.path) {
      OtherAgrees(s, r, h, now, x.path);
    }
  }

  /** A row about another path changes nothing of what an edit of `p` would overwrite. */
  lemma OtherAgrees(s: Sys, r: Row, h: nat, now: Time, p: Path)
    requires h !in s.handles && Replayable(s, r) && s.epoch < now && p != r.path && !IsAside(p, now) && CopyAgrees(s, p)
    ensures CopyAgrees(RowHooked(s, r, h, now), p)
  {
    var s1 := RowHooked(s, r, h, now);
    RowEffect(s, r, h, now);
    RowElsewhere(s, r, h, now, p);
    forall t, y | t in s1.points && y in Select(s1.rows, t) && y.name == Copy(p, s.epoch)
      ensures y in Select(s.rows, t)
    {
      if s.Old(r.path) {
        SelectAppend(s.rows, LoggedRow(s, r, now), t);
      }
    }
    RowSaves(s, r, h, now, Copy(p, s.epoch));
  }

  lemma OtherReads(s: Sys, k: Sys, r: Row, h: nat, now: Time, x: Row)
    requires h !in s.handles && Replayable(s, r) && Replayable(s, x) && s.epoch < now && s.epoch == k.epoch
    requires x.path != r.path && !IsAside(x.path, now) && RowReads(s, k, x) && r.name in k.saves
    ensures RowReads(RowHooked(s, r, h, now), KinRow(k, r, now), x)
  {
    RowElsewhere(s, r, h, now, x.path);
    RowSaves(s, r, h, now, x.name);
    MovedNames(k, r, now);
  }

  lemma {:induction false} RowsKin(s: Sys, k: Sys, done: set<Path>, sel: seq<Row>, h: nat, now: Time, snaps: Snapshots,
                                   recent: set<Path>, paths: set<Path>) returns (k': Sys)
    requires Kin(s, k, recent, paths) && Good(k, snaps) && Pending(s, k, done, sel, h, now)
    ensures Good(k', snaps)
    ensures Kin(RowsHooked(s, sel, h, now), k', recent + AsidesOf(sel, now) + PathsOf(sel), paths + PathsOf(sel))
    decreases |sel|
  {
    if sel == [] {
      k' := k;
      assert recent + AsidesOf(sel, now) + PathsOf(sel) == recent && paths + PathsOf(sel) == paths;
    } else {
      var r, rest := sel[|sel| - 1], sel[..|sel| - 1];
      ReadyStep(s, sel, h, now);
      KinNotInTheWay(s, k, r, recent, paths);
      KinRowGood(k, r, now, snaps);
      RowKin(s, k, r, h, now, recent, paths);
      PendingStep(s, k, done, sel, h, now);
      k' := RowsKin(RowHooked(s, r, h, now), KinRow(k, r, now), done + {r.path}, rest, h, now, snaps,
                    recent + {Aside(r.path, now)} + {r.path}, paths + {r.path});
      LastPaths(recent, sel, now);
      PathsOfLast(paths, sel);
    }
  }

  lemma LastPaths(recent: set<Path>, sel: seq<Row>, now: Time)
    requires sel != []
    ensures
      var r, rest := sel[|sel| - 1], sel[..|sel| - 1];
      recent + {Aside(r.path, now)} + {r.path} + AsidesOf(rest, now) + PathsOf(rest) == recent + AsidesOf(sel, now) + PathsOf(sel)
  {
    assert sel == sel[..|sel| - 1] + [sel[|sel| - 1]];
  }

  // ---- Histories ----

  /** A hook or command, or a restore to `t` at `now` with `h` for the file cp has open. */
  datatype Act = Hook(event: Event) | Rewind(t: Time, h: nat, now: Time)

  /** The volume, and the paths restored since the last point (and the names they went by since). */
  datatype Stage = Stage(sys: Sys, recent: set<Path>)

  /**
   * What a caller checks: the guards of a legal history; that no file a live point has
   * seen is in the way of a restore; of the paths restored since the last point only,
   * that a save overwrites nothing live points would miss; and that a deletion takes
   * no copy that a row of another live point shares.
   */
  ghost predicate Permitted(st: Stage, a: Act) {
    var s := st.sys;
    match a
    case Hook(e) => Allowed(UnderSaveDir, s, e) && Careful(s, e.op, st.recent)
    case Rewind(t, h, now) =>
      && t in s.points && h !in s.handles && s.clock <= now && s.epoch < now
      && ApartFromAsides(s.files, s.rows, now)
      && forall r | r in Select(s.rows, t) :: NotInTheWay(s, r) && (r.path in st.recent ==> RowFresh(s, r))
  }

  ghost function Perform(st: Stage, a: Act): Stage
    requires Permitted(st, a)
  {
    match a
    case Hook(e) => Stage(Apply(st.sys, e), RecentAfter(st.recent, e.op))
    case Rewind(t, h, now) =>
      var sel := Select(st.sys.rows, t);
      Stage(Restored(st.sys, t, h, now), st.recent + AsidesOf(sel, now) + PathsOf(sel))
  }

  /** The snapshots once `a` has happened. */
  ghost function Snapped(st: Stage, a: Act, snaps: Snapshots): Snapshots {
    if a.Hook? then Noted(st.sys, a.event, snaps) else snaps
  }

  ghost predicate Lawful(st: Stage, acts: seq<Act>)
    decreases |acts|
  {
    acts == [] || (Permitted(st, acts[0]) && Lawful(Perform(st, acts[0]), acts[1..]))
  }

  ghost function End(st: Stage, acts: seq<Act>): Stage
    requires Lawful(st, acts)
    decreases |acts|
  {
    if acts == [] then st else End(Perform(st, acts[0]), acts[1..])
  }

  ghost function Snapshot(st: Stage, acts: seq<Act>, snaps: Snapshots): Snapshots
    requires Lawful(st, acts)
    decreases |acts|
  {
    if acts == [] then snaps else Snapshot(Perform(st, acts[0]), acts[1..], Snapped(st, acts[0], snaps))
  }

  /** The paths a restore restores. */
  ghost function RestoredBy(s: Sys, a: Act): set<Path> {
    if a.Rewind? then PathsOf(Select(s.rows, a.t)) else {}
  }

  /** The paths that the restores of a history restored. */
  ghost function RestoredPaths(st: Stage, acts: seq<Act>): set<Path>
    requires Lawful(st, acts)
    decreases |acts|
  {
    if acts == [] then {}
    else RestoredBy(st.sys, acts[0]) + RestoredPaths(Perform(st, acts[0]), acts[1..])
  }

  // ---- The invariant: a good kin ----

  ghost predicate GoodKin(st: Stage, k: Sys, snaps: Snapshots, paths: set<Path>) {
    Kin(st.sys, k, st.recent, paths) && Good(k, snaps)
  }

  lemma HookKeepsKin(st: Stage, k: Sys, e: Event, snaps: Snapshots, paths: set<Path>)
    requires GoodKin(st, k, snaps, paths) && Permitted(st, Hook(e))
    ensures Allowed(UnderSaveDir, k, e)
    ensures GoodKin(Perform(st, Hook(e)), Apply(k, e), Snapped(st, Hook(e), snaps), paths)
  {
    KinStep(st.sys, k, e, st.recent, paths);
    Step(UnderSaveDir, k, e, snaps);
    StepKeepsVersions(UnderSaveDir, k, e, snaps);
    KinContents(st.sys.files, k.files);
  }

  /** The rows a live point selects are the kin's, and ready to be undone. */
  lemma RewindPending(st: Stage, k: Sys, a: Act, snaps: Snapshots, paths: set<Path>)
    requires GoodKin(st, k, snaps, paths) && a.Rewind? && Permitted(st, a)
    ensures Pending(st.sys, k, {}, Select(st.sys.rows, a.t), a.h, a.now)
  {
    var s, sel := st.sys, Select(st.sys.rows, a.t);
    SelectSelectives(s.rows, a.t);
    assert OneVersion(k, a.t);
    forall r | r in sel
      ensures Replayable(s, r) && RowFresh(s, r) && RowReads(s, k, r) && !IsAside(r.path, a.now)
      ensures NameFree(s, Aside(r.path, a.now)) && r.accessTime <= a.now
    {
      RewindRow(st, k, a, snaps, paths, r);
    }
  }

  lemma RewindRow(st: Stage, k: Sys, a: Act, snaps: Snapshots, paths: set<Path>, r: Row)
    requires GoodKin(st, k, snaps, paths) && a.Rewind? && Permitted(st, a)
    requires r in Select(st.sys.rows, a.t) && r in Select(k.rows, a.t) && r.HoldsCopy()
    ensures Replayable(st.sys, r) && RowFresh(st.sys, r) && RowReads(st.sys, k, r) && !IsAside(r.path, a.now)
    ensures NameFree(st.sys, Aside(r.path, a.now)) && r.accessTime <= a.now
  {
    var s := st.sys;
    assert RowOk(k, r) && RowNames(r, s.saves) && NamesPath(r, r.path);
    if s.Old(r.path) && r.path !in st.recent {
      UnrestoredAgrees(s, k, r.path, st.recent, paths);
    }
    assert IsAside(Aside(r.path, a.now), a.now);
    assert forall x | x in s.rows :: NamesPath(x, x.path);
  }

  lemma ActKeepsKin(st: Stage, k: Sys, a: Act, snaps: Snapshots, paths: set<Path>) returns (k': Sys)
    requires GoodKin(st, k, snaps, paths) && Permitted(st, a)
    ensures GoodKin(Perform(st, a), k', Snapped(st, a, snaps), paths + RestoredBy(st.sys, a))
  {
    match a
    case Hook(e) =>
      HookKeepsKin(st, k, e, snaps, paths);
      assert paths + {} == paths;
      k' := Apply(k, e);
    case Rewind(t, h, now) =>
      RewindPending(st, k, a, snaps, paths);
      k' := RowsKin(st.sys, k, {}, Select(st.sys.rows, t), h, now, snaps, st.recent, paths);
  }

  lemma UnionsAssociate(a: set<Path>, b: set<Path>, c: set<Path>)
    ensures a + b + c == a + (b + c)
  {
  }

  lemma {:induction false} ActsKeepKin(st: Stage, k: Sys, acts: seq<Act>, snaps: Snapshots, paths: set<Path>) returns (k': Sys)
    requires GoodKin(st, k, snaps, paths) && Lawful(st, acts)
    ensures GoodKin(End(st, acts), k', Snapshot(st, acts, snaps), paths + RestoredPaths(st, acts))
    decreases |acts|
  {
    if acts == [] {
      k' := k;
      assert paths + RestoredPaths(st, acts) == paths;
    } else {
      var more, st1 := RestoredBy(st.sys, acts[0]), Perform(st, acts[0]);
      k' := ActKeepsKin(st, k, acts[0], snaps, paths);
      k' := ActsKeepKin(st1, k', acts[1..], Snapped(st, acts[0], snaps), paths + more);
      UnionsAssociate(paths, more, RestoredPaths(st1, acts[1..]));
    }
  }

  lemma KinViews(s: Sys, k: Sys, t: Time, recent: set<Path>, paths: set<Path>)
    requires Kin(s, k, recent, paths) && t in s.points
    ensures Extends(OldView(s.files, t), OldView(k.files, t), paths)
  {
    assert forall p | p in s.files :: KinFile(s.files[p], k.files[p]);
  }

  lemma KinRecovers(s: Sys, k: Sys, snaps: Snapshots, t: Time, later: Time, recent: set<Path>, paths: set<Path>)
    requires Kin(s, k, recent, paths) && Good(k, snaps) && t in s.points && ApartFromAsides(s.files, s.rows, later)
    ensures t in snaps && Extends(SeenView(RestoreTo(UnderSaveDir, s, t, later), t, later), snaps[t], paths)
  {
    var v, w, sel := OldView(k.files, t), OldView(s.files, t), Select(s.rows, t);
    SelectSelectives(s.rows, t);
    assert RecoversAt(UnderSaveDir, k, t, snaps[t]) && OneVersion(k, t);
    ReplaySame(UnderSaveDir, k.saves, s.saves, v, sel, sel);
    KinViews(s, k, t, recent, paths);
    ReplayMonotone(s.saves, v, w, sel, paths);
    assert SeenView(s.files, t, later) == w;
    RestoreRefines(UnderSaveDir, s.saves, s.files, sel, t, later);
  }

  // ---- What a restore on the mounted volume gives ----

  /** A selected row keeps its snapshot in its copy, in a history with restores too. */
  lemma CopyOfSnapshot(s: Sys, k: Sys, snaps: Snapshots, recent: set<Path>, paths: set<Path>, t: Time, later: Time, y: Row)
    requires Kin(s, k, recent, paths) && Good(k, snaps) && t in s.points && y in Select(s.rows, t)
    requires ApartFromAsides(s.files, s.rows, later)
    ensures y.HoldsCopy() && y.name in s.saves && y.name == Copy(y.path, y.name.epoch)
    ensures t in snaps && y.path in snaps[t] && snaps[t][y.path] == s.saves[y.name]
  {
    SelectSelectives(s.rows, t);
    assert OneVersion(k, t) && RowOk(k, y) && RecoversAt(UnderSaveDir, k, t, snaps[t]);
    assert ApartFromAsides(k.files, k.rows, later);
    RestoredFile(k, snaps, t, later, y);
  }

  lemma StageOrderly(s: Sys, k: Sys, snaps: Snapshots, recent: set<Path>, paths: set<Path>, t: Time, later: Time)
    requires Kin(s, k, recent, paths) && Good(k, snaps) && t in s.points && s.epoch < later
    requires ApartFromAsides(s.files, s.rows, later)
    ensures Orderly(s, Select(s.rows, t), later)
  {
    SelectSelectives(s.rows, t);
    assert OneVersion(k, t);
    forall r | r in Select(s.rows, t)
      ensures Shaped(r) && !IsAside(r.path, later)
    {
      assert RowNames(r, s.saves) && NamesPath(r, r.path);
    }
  }

  /** A path no row is about holds what the snapshot had, and what is that old is of the snapshot or was restored. */
  lemma UnselectedPath(s: Sys, k: Sys, snaps: Snapshots, recent: set<Path>, paths: set<Path>, t: Time, later: Time, p: Path)
    requires Kin(s, k, recent, paths) && Good(k, snaps) && t in s.points
    requires ApartFromAsides(s.files, s.rows, later) && p !in PathsOf(Select(s.rows, t)) && !IsAside(p, later)
    ensures t in snaps && (p in snaps[t] ==> p in s.files && s.files[p].content == snaps[t][p])
    ensures p in s.files && s.files[p].mtime <= t ==> p in snaps[t] || p in paths
  {
    KinRecovers(s, k, snaps, t, later, recent, paths);
    forall r | r in Select(s.rows, t)
      ensures !NamesPath(r, p)
    {
      CopyOfSnapshot(s, k, snaps, recent, paths, t, later, r);
    }
    RestoreFrame(UnderSaveDir, s.saves, s.files, Select(s.rows, t), later, p);
    var v := SeenView(RestoreTo(UnderSaveDir, s, t, later), t, later);
    assert p in snaps[t] ==> p in v && v[p] == snaps[t][p];
  }

  /** The row does not find its source overwritten with something else. */
  predicate Reads(s: Sys, r: Row) {
    r.kind.ModFile? && s.Old(r.path) && r.name == Copy(r.path, s.epoch) ==>
      r.name in s.saves && s.saves[r.name] == s.files[r.path].content
  }

  /** No row that a restore to `t` undoes does. */
  ghost predicate Readable(s: Sys, t: Time) {
    forall r | r in Select(s.rows, t) :: Reads(s, r)
  }

  lemma SelectedLeft(s: Sys, k: Sys, snaps: Snapshots, recent: set<Path>, paths: set<Path>, t: Time, later: Time, r: Row)
    requires Kin(s, k, recent, paths) && Good(k, snaps) && t in s.points && r in Select(s.rows, t)
    requires ApartFromAsides(s.files, s.rows, later)
    ensures t in snaps && r.path in snaps[t] && (Left(s, r) == Some(snaps[t][r.path]) <==> Reads(s, r))
  {
    CopyOfSnapshot(s, k, snaps, recent, paths, t, later, r);
  }

  lemma SnapshotApart(s: Sys, k: Sys, snaps: Snapshots, recent: set<Path>, paths: set<Path>, t: Time, later: Time)
    requires Kin(s, k, recent, paths) && Good(k, snaps) && t in s.points && ApartFromAsides(s.files, s.rows, later)
    ensures t in snaps && forall p | p in snaps[t] :: !IsAside(p, later)
  {
    KinRecovers(s, k, snaps, t, later, recent, paths);
    var v := SeenView(RestoreTo(UnderSaveDir, s, t, later), t, later);
    assert forall p | p in snaps[t] :: p in v;
  }

  /**
   * At any moment of a history with restores, a restore on the mounted volume brings
   * back the whole snapshot exactly when its own hooks overwrite no source before it
   * is read.
   */
  lemma MountedExactly(s: Sys, k: Sys, snaps: Snapshots, recent: set<Path>, paths: set<Path>, t: Time, h: nat, later: Time)
    requires Kin(s, k, recent, paths) && Good(k, snaps) && t in s.points && h !in s.handles && s.epoch < later
    requires ApartFromAsides(s.files, s.rows, later)
    ensures t in snaps && (Recovered(s, t, h, later, snaps[t]) <==> Readable(s, t))
  {
    var sel := Select(s.rows, t);
    StageOrderly(s, k, snaps, recent, paths, t, later);
    SnapshotApart(s, k, snaps, recent, paths, t, later);
    RecoveredExactly(s, t, h, later, snaps[t]);
    forall r | r in sel
      ensures r.path in snaps[t] && (Left(s, r) == Some(snaps[t][r.path]) <==> Reads(s, r))
    {
      SelectedLeft(s, k, snaps, recent, paths, t, later, r);
    }
    forall p | p in snaps[t] && p !in PathsOf(sel)
      ensures p in s.files && s.files[p].content == snaps[t][p]
    {
      UnselectedPath(s, k, snaps, recent, paths, t, later, p);
    }
  }

  /** And no other file that old, but at paths restored before. */
  lemma MountedOthers(s: Sys, k: Sys, snaps: Snapshots, recent: set<Path>, paths: set<Path>, t: Time, h: nat, later: Time, p: Path)
    requires Kin(s, k, recent, paths) && Good(k, snaps) && t in s.points && h !in s.handles && s.epoch < later
    requires ApartFromAsides(s.files, s.rows, later) && !IsAside(p, later)
    requires p in Restored(s, t, h, later).files && Restored(s, t, h, later).files[p].mtime <= t
    ensures t in snaps && (p in snaps[t] || p in paths)
  {
    if p in PathsOf(Select(s.rows, t)) {
      var r :| r in Select(s.rows, t) && r.path == p;
      CopyOfSnapshot(s, k, snaps, recent, paths, t, later, r);
    } else {
      MountedElsewhere(s, Select(s.rows, t), h, later, p);
      UnselectedPath(s, k, snaps, recent, paths, t, later, p);
    }
  }

  lemma KinAtFirst(s: Sys)
    requires Initial(s)
    ensures GoodKin(Stage(s, {}), s, map[], {})
  {
    InitialInv(UnderSaveDir, s);
    AllSelective(s.rows);
  }

  /**
   * Time travel across restores. In every history of the code, with restores at any
   * moment, in which no save and no deletion takes from a live point what it needs, a
   * restore to any live point, hooks and all, brings back the whole snapshot exactly
   * when its hooks overwrite no source before it is read; and it leaves no other file
   * that old but at paths restored before. (A new point right after each restore
   * leaves nothing to be careful with.)
   */
  lemma TimeTravelAcrossRestores(s: Sys, acts: seq<Act>, t: Time, h: nat, later: Time)
    requires Initial(s) && Lawful(Stage(s, {}), acts)
    requires
      var end := End(Stage(s, {}), acts).sys;
      t in end.points && h !in end.handles && end.epoch < later && ApartFromAsides(end.files, end.rows, later)
    ensures t in Snapshot(Stage(s, {}), acts, map[])
    ensures Recovered(End(Stage(s, {}), acts).sys, t, h, later, Snapshot(Stage(s, {}), acts, map[])[t])
            <==> Readable(End(Stage(s, {}), acts).sys, t)
    ensures
      var f := Restored(End(Stage(s, {}), acts).sys, t, h, later).files;
      forall p | p in f && f[p].mtime <= t && !IsAside(p, later) ::
        p in Snapshot(Stage(s, {}), acts, map[])[t] || p in RestoredPaths(Stage(s, {}), acts)
  {
    var st := Stage(s, {});
    KinAtFirst(s);
    var k := ActsKeepKin(st, s, acts, map[], {});
    assert {} + RestoredPaths(st, acts) == RestoredPaths(st, acts);
    var end, snaps := End(st, acts), Snapshot(st, acts, map[]);
    MountedExactly(end.sys, k, snaps, end.recent, RestoredPaths(st, acts), t, h, later);
    var f := Restored(end.sys, t, h, later).files;
    forall p | p in f && f[p].mtime <= t && !IsAside(p, later)
      ensures p in snaps[t] || p in RestoredPaths(st, acts)
    {
      MountedOthers(end.sys, k, snaps, end.recent, RestoredPaths(st, acts), t, h, later, p);
    }
  }

  /** A restore that the history may contain brings back the whole snapshot. */
  lemma PermittedReads(st: Stage, k: Sys, snaps: Snapshots, paths: set<Path>, a: Act)
    requires GoodKin(st, k, snaps, paths) && a.Rewind? && Permitted(st, a)
    ensures a.t in snaps && Recovered(st.sys, a.t, a.h, a.now, snaps[a.t])
  {
    RewindPending(st, k, a, snaps, paths);
    MountedExactly(st.sys, k, snaps, st.recent, paths, a.t, a.h, a.now);
    assert forall r | r in Select(st.sys.rows, a.t) :: RowReads(st.sys, k, r);
  }

  // ---- Histories without restores ask for nothing more ----

  function Hooks(es: seq<Event>): (acts: seq<Act>)
    ensures |acts| == |es| && forall i | 0 <= i < |es| :: acts[i] == Hook(es[i])
  {
    seq(|es|, i requires 0 <= i < |es| => Hook(es[i]))
  }

  /** A legal history is lawful as it is, and ends in the same state. */
  lemma {:induction false} LegalIsLawful(s: Sys, es: seq<Event>, snaps: Snapshots)
    requires Good(s, snaps) && Legal(UnderSaveDir, s, es)
    ensures Lawful(Stage(s, {}), Hooks(es)) && End(Stage(s, {}), Hooks(es)) == Stage(Run(UnderSaveDir, s, es), {})
    decreases |es|
  {
    if es != [] {
      var e := es[0];
      assert Hooks(es)[0] == Hook(e) && Hooks(es)[1..] == Hooks(es[1..]);
      OrdinaryPermitted(s, e, snaps);
      Step(UnderSaveDir, s, e, snaps);
      StepKeepsVersions(UnderSaveDir, s, e, snaps);
      LegalIsLawful(Apply(s, e), es[1..], Noted(s, e, snaps));
    }
  }

  lemma OrdinaryPermitted(s: Sys, e: Event, snaps: Snapshots)
    requires Good(s, snaps) && Allowed(UnderSaveDir, s, e)
    ensures Permitted(Stage(s, {}), Hook(e)) && Perform(Stage(s, {}), Hook(e)) == Stage(Apply(s, e), {})
  {
    if e.op.DeletePoint? {
      assert forall r | r in s.rows :: RowOk(s, r) && RowNames(r, s.saves);
      DistinctUnshared(s.rows, s.saves, s.points, e.op.point);
    }
  }

  /** And so is a restore after it, unless a file that a live point has seen is in the way. */
  lemma RestorePermitted(s: Sys, snaps: Snapshots, t: Time, h: nat, now: Time)
    requires BeforeRestore(s, snaps, t, h, now)
    ensures Permitted(Stage(s, {}), Rewind(t, h, now)) <==> forall r | r in Select(s.rows, t) && r.kind.Unlink? :: !Seen(s, r.path)
  {
  }
}
