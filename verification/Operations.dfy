/** Which single operation a restore of the code can undo, from any state of a history. */
module Operations {
  import opened Base
  import opened Table
  import opened Volume
  import opened Restore
  import opened TimeTravel
  import opened Versions
  import opened Exactness
  import opened Rewind
  import opened Outcome
  import opened Kinship
  import opened Histories
  import opened AfterRestore

  /**
   * What a caller checks: a rename, or the record of a refused one, is about a file no
   * live point has seen; a rename or truncate(2) destroys no version that one has; and
   * an old file is renamed to no path whose copy of this epoch a restore would have to
   * read from under it.
   */
  ghost predicate Undoable(s: Sys, op: Op) {
    match op
    case RenameFile(p, q) =>
      && p in s.files && !Seen(s, p) && (Seen(s, q) ==> s.files[q].content == s.files[p].content)
      && (s.Old(p) ==> forall t | t in s.points :: ReadsFrom(s, t, q, s.files[p].content))
    case RenameFailure(p, _) => !Seen(s, p)
    case SetSize(p, c) => Seen(s, p) ==> s.files[p].content == c
    case _ => true
  }

  /** A restore to `t` that finds an old file with content `c` at `q` still reads what it needs. */
  ghost predicate ReadsFrom(s: Sys, t: Time, q: Path, c: Content) {
    forall r | r in Select(s.rows, t) && r.path == q && r.kind.ModFile? && r.name == Copy(q, s.epoch) ::
      r.name in s.saves && s.saves[r.name] == c
  }

  /** A state of a rename-free history, with nobody using the names a restore at `later` moves files to. */
  ghost predicate BeforeOperation(s: Sys, snaps: Snapshots, e: Event, h: nat, later: Time) {
    && Good(s, snaps) && Possible(s, e.op) && Timely(s, e) && e.now < later && h !in Apply(s, e).handles
    && ApartFromAsides(s.files, s.rows, later) && forall p | Mentions(e.op, p) :: !IsAside(p, later)
  }

  lemma LoggedApart(s: Sys, e: Event, later: Time)
    requires Possible(s, e.op) && (forall p | p in s.files || Mentions(e.op, p) :: !IsAside(p, later))
    ensures Logged(s, e).Some? ==> forall p | NamesPath(Logged(s, e).value, p) :: !IsAside(p, later)
    ensures forall p | p in Apply(s, e).files :: !IsAside(p, later)
  {
  }

  lemma DeletedApart(s: Sys, d: Time, later: Time)
    requires RowsApart(s.rows, later)
    ensures RowsApart(DeleteRows(s.rows, d, Predecessor(s.points, d)), later)
  {
    var pred := Predecessor(s.points, d);
    DeletionMembers(s.rows, d, pred);
    forall m, p | m in DeleteRows(s.rows, d, pred) && NamesPath(m, p)
      ensures !IsAside(p, later)
    {
      var r :| r in s.rows && !Collected(r, d, pred) && m == Merged(r, d, pred);
      assert r.path == m.path && r.name == m.name;
      assert NamesPath(r, p);
    }
  }

  lemma OperationApart(s: Sys, snaps: Snapshots, e: Event, h: nat, later: Time)
    requires BeforeOperation(s, snaps, e, h, later)
    ensures ApartFromAsides(Apply(s, e).files, Apply(s, e).rows, later) && Apply(s, e).epoch < later
  {
    LoggedApart(s, e, later);
    if e.op.DeletePoint? {
      DeletedApart(s, e.op.point, later);
    } else {
      LogsOneRow(s, e);
    }
  }

  /** In a history without restores nothing is ever spoilt. */
  lemma GoodRecovers(s: Sys, snaps: Snapshots, t: Time, h: nat, later: Time)
    requires Good(s, snaps) && t in s.points && h !in s.handles && s.epoch < later && ApartFromAsides(s.files, s.rows, later)
    ensures t in snaps && Recovered(s, t, h, later, snaps[t])
  {
    OwnKin(s, snaps);
    MountedExactly(s, s, snaps, {}, {}, t, h, later);
    forall r | r in Select(s.rows, t)
      ensures Untainted(s, r)
    {
      assert RowOk(s, r);
    }
  }

  lemma GuardedRecovers(s: Sys, snaps: Snapshots, e: Event, h: nat, later: Time)
    requires BeforeOperation(s, snaps, e, h, later) && Guard(UnderSaveDir, s, e.op) && KeepsSeenNames(e.op, s)
    ensures Apply(s, e).points <= Noted(s, e, snaps).Keys
    ensures forall t | t in Apply(s, e).points :: Recovered(Apply(s, e), t, h, later, Noted(s, e, snaps)[t])
  {
    Step(UnderSaveDir, s, e, snaps);
    StepKeepsVersions(UnderSaveDir, s, e, snaps);
    OperationApart(s, snaps, e, h, later);
    forall t | t in Apply(s, e).points
      ensures t in Noted(s, e, snaps) && Recovered(Apply(s, e), t, h, later, Noted(s, e, snaps)[t])
    {
      GoodRecovers(Apply(s, e), Noted(s, e, snaps), t, h, later);
    }
  }

  // ---- Operations that save nothing ----

  /** The operation keeps the copies, and the rows that `t` selects. */
  ghost predicate Quiet(s: Sys, e: Event, t: Time)
    requires Possible(s, e.op)
  {
    Apply(s, e).saves == s.saves && Select(Apply(s, e).rows, t) == Select(s.rows, t)
  }

  /** A snapshot is its rows' copies and the files it saw that are still there. */
  lemma GoodSnapshot(s: Sys, snaps: Snapshots, t: Time, p: Path)
    requires Good(s, snaps) && t in s.points
    ensures t in snaps
    ensures p in snaps[t] && p !in PathsOf(Select(s.rows, t)) ==>
              p in s.files && s.files[p].mtime <= t && s.files[p].content == snaps[t][p]
    ensures p in s.files && s.files[p].mtime <= t ==>
              p in snaps[t] && p !in PathsOf(Select(s.rows, t)) && s.files[p].content == snaps[t][p]
  {
    var v := OldView(s.files, t);
    assert RecoversAt(UnderSaveDir, s, t, snaps[t]);
    if p in s.files && s.files[p].mtime <= t {
      UnsavedFile(s, snaps, p, t);
    } else if p !in PathsOf(Select(s.rows, t)) {
      ReplayAbsent(s.saves, v, Select(s.rows, t), p);
    }
  }

  lemma {:induction false} ReplayAbsent(saves: Saves, v: View, sel: seq<Row>, p: Path)
    requires p !in v && p !in PathsOf(sel) && ReplayView(UnderSaveDir, saves, v, sel).Some?
    ensures p !in ReplayView(UnderSaveDir, saves, v, sel).value
    decreases |sel|
  {
    if sel != [] {
      var n := |sel| - 1;
      assert sel[n] in sel && forall x | x in sel[..n] :: x in sel;
      ReplayAbsent(saves, UndoRow(UnderSaveDir, saves, v, sel[n]).value, sel[..n], p);
    }
  }

  /** What `t` saw of a file that was not changed since is still there. */
  ghost predicate StillThere(s: Sys, s': Sys, t: Time) {
    forall p | p in s.files && s.files[p].mtime <= t :: p in s'.files && s'.files[p].content == s.files[p].content
  }

  lemma RowOfSnapshot(s: Sys, snaps: Snapshots, t: Time, later: Time, r: Row)
    requires Good(s, snaps) && t in s.points && r in Select(s.rows, t) && ApartFromAsides(s.files, s.rows, later)
    ensures r.HoldsCopy() && r.name in s.saves && Shaped(r) && !IsAside(r.path, later)
    ensures t in snaps && r.path in snaps[t] && snaps[t][r.path] == s.saves[r.name]
  {
    assert OneVersion(s, t) && RowOk(s, r) && NamesPath(r, r.path) && RecoversAt(UnderSaveDir, s, t, snaps[t]);
    RestoredFile(s, snaps, t, later, r);
  }

  lemma SnapshotPaths(s: Sys, snaps: Snapshots, t: Time, later: Time)
    requires Good(s, snaps) && t in s.points && ApartFromAsides(s.files, s.rows, later)
    ensures t in snaps && forall p | p in snaps[t] :: !IsAside(p, later)
  {
    OwnKin(s, snaps);
    SnapshotApart(s, s, snaps, {}, {}, t, later);
  }

  /** After such an operation `t` is recovered iff no row's source is spoilt and nothing it saw is gone. */
  lemma QuietExactly(s: Sys, snaps: Snapshots, e: Event, h: nat, later: Time, t: Time)
    requires BeforeOperation(s, snaps, e, h, later) && t in s.points && Quiet(s, e, t)
    ensures t in snaps
    ensures Recovered(Apply(s, e), t, h, later, snaps[t])
            <==> (forall r | r in Select(s.rows, t) :: Reads(Apply(s, e), r)) && StillThere(s, Apply(s, e), t)
  {
    var s', sel := Apply(s, e), Select(s.rows, t);
    OperationApart(s, snaps, e, h, later);
    SnapshotPaths(s, snaps, t, later);
    assert OneVersion(s, t);
    forall r | r in sel
      ensures Shaped(r) && !IsAside(r.path, later) && r.path in snaps[t]
      ensures Left(s', r) == Some(snaps[t][r.path]) <==> Reads(s', r)
    {
      RowOfSnapshot(s, snaps, t, later, r);
    }
    RecoveredExactly(s', t, h, later, snaps[t]);
    forall p
      ensures p in snaps[t] && p !in PathsOf(sel) <==> p in s.files && s.files[p].mtime <= t
      ensures p in snaps[t] && p !in PathsOf(sel) ==> s.files[p].content == snaps[t][p]
    {
      GoodSnapshot(s, snaps, t, p);
    }
  }

  // ---- Renames ----

  /** The record of a rename moves the path aside, and nothing brings it back. */
  lemma RenamedLost(s: Sys, snaps: Snapshots, e: Event, h: nat, later: Time, t: Time)
    requires BeforeOperation(s, snaps, e, h, later) && (e.op.RenameFile? || e.op.RenameFailure?)
    requires t in s.points && s.files[e.op.path].mtime <= t
    ensures t in snaps && !Recovered(Apply(s, e), t, h, later, snaps[t])
  {
    var p, s' := e.op.path, Apply(s, e);
    var r := Row(s.epoch, Rename, p, Under(e.op.target), s.files[p].ctime);
    GoodSnapshot(s, snaps, t, p);
    UnsavedFile(s, snaps, p, t);
    assert Mentions(e.op, p);
    SelectAppend(s.rows, r, t);
    assert r in Select(s'.rows, t);
    MountedGone(s', Select(s'.rows, t), h, later, p);
  }

  /** Only at the target can a source be spoilt. */
  lemma RenameUnspoilt(s: Sys, snaps: Snapshots, e: Event, h: nat, later: Time, t: Time)
    requires BeforeOperation(s, snaps, e, h, later) && e.op.RenameFile? && t in s.points && !Seen(s, e.op.path)
    ensures (forall r | r in Select(s.rows, t) :: Reads(Apply(s, e), r))
            <==> (s.Old(e.op.path) ==> ReadsFrom(s, t, e.op.target, s.files[e.op.path].content))
  {
    var RenameFile(p, q) := e.op;
    forall r | r in Select(s.rows, t)
      ensures Reads(Apply(s, e), r) <==>
              (r.path == q && s.Old(p) && r.kind.ModFile? && r.name == Copy(q, s.epoch) ==>
                 r.name in s.saves && s.saves[r.name] == s.files[p].content)
    {
      RowOfSnapshot(s, snaps, t, later, r);
      assert SavesOk(s);
    }
  }

  lemma RenameAt(s: Sys, snaps: Snapshots, e: Event, h: nat, later: Time, t: Time)
    requires BeforeOperation(s, snaps, e, h, later) && e.op.RenameFile? && t in s.points && !Seen(s, e.op.path)
    ensures t in snaps
    ensures
      var RenameFile(p, q) := e.op;
      Recovered(Apply(s, e), t, h, later, snaps[t])
      <==> && (q in s.files && s.files[q].mtime <= t ==> s.files[q].content == s.files[p].content)
           && (s.Old(p) ==> ReadsFrom(s, t, q, s.files[p].content))
  {
    var RenameFile(p, q) := e.op;
    RenameQuiet(s, e, t);
    QuietExactly(s, snaps, e, h, later, t);
    RenameUnspoilt(s, snaps, e, h, later, t);
    RenameThere(s, e, t);
  }

  lemma RenameQuiet(s: Sys, e: Event, t: Time)
    requires TimesOk(s) && Possible(s, e.op) && e.op.RenameFile? && t in s.points && !Seen(s, e.op.path)
    ensures Quiet(s, e, t)
  {
    UnseenRow(s, e.op.path, Under(e.op.target), t);
  }

  lemma RenameThere(s: Sys, e: Event, t: Time)
    requires Possible(s, e.op) && e.op.RenameFile? && t in s.points && !Seen(s, e.op.path)
    ensures
      var RenameFile(p, q) := e.op;
      StillThere(s, Apply(s, e), t) <==> (q in s.files && s.files[q].mtime <= t ==> s.files[q].content == s.files[p].content)
  {
    var RenameFile(p, q) := e.op;
    assert s.files[p].mtime > t;
    assert Apply(s, e).files == (s.files - {p})[q := s.files[p]];
  }

  /** Where files stay as they are, or become young, no source is spoilt. */
  lemma InPlaceUnspoilt(s: Sys, snaps: Snapshots, s': Sys, later: Time, t: Time)
    requires Good(s, snaps) && t in s.points && ApartFromAsides(s.files, s.rows, later)
    requires s'.saves == s.saves && s'.epoch == s.epoch && forall p | s'.Old(p) :: s.Old(p)
    ensures forall r | r in Select(s.rows, t) :: Reads(s', r)
  {
    forall r | r in Select(s.rows, t)
      ensures Reads(s', r)
    {
      RowOfSnapshot(s, snaps, t, later, r);
      assert SavesOk(s);
    }
  }

  lemma RefusedAt(s: Sys, snaps: Snapshots, e: Event, h: nat, later: Time, t: Time)
    requires BeforeOperation(s, snaps, e, h, later) && e.op.RenameFailure? && t in s.points && !Seen(s, e.op.path)
    ensures t in snaps && Recovered(Apply(s, e), t, h, later, snaps[t])
  {
    UnseenRow(s, e.op.path, Under(e.op.target), t);
    QuietExactly(s, snaps, e, h, later, t);
    InPlaceUnspoilt(s, snaps, Apply(s, e), later, t);
  }

  lemma SetSizeAt(s: Sys, snaps: Snapshots, e: Event, h: nat, later: Time, t: Time)
    requires BeforeOperation(s, snaps, e, h, later) && e.op.SetSize? && t in s.points
    ensures t in snaps
    ensures
      var SetSize(p, c) := e.op;
      Recovered(Apply(s, e), t, h, later, snaps[t]) <==> (s.files[p].mtime <= t ==> s.files[p].content == c)
  {
    QuietExactly(s, snaps, e, h, later, t);
    InPlaceUnspoilt(s, snaps, Apply(s, e), later, t);
  }

  // ---- Every operation ----

  lemma RenameExactly(s: Sys, snaps: Snapshots, e: Event, h: nat, later: Time)
    requires BeforeOperation(s, snaps, e, h, later) && (e.op.RenameFile? || e.op.RenameFailure?)
    ensures s.points <= snaps.Keys
    ensures (forall t | t in s.points :: Recovered(Apply(s, e), t, h, later, snaps[t])) <==> Undoable(s, e.op)
  {
    var p := e.op.path;
    assert forall t | t in s.points :: RecoversAt(UnderSaveDir, s, t, snaps[t]);
    if Seen(s, p) {
      var t :| t in s.points && s.files[p].mtime <= t;
      RenamedLost(s, snaps, e, h, later, t);
    } else if e.op.RenameFile? {
      forall t | t in s.points
        ensures
          Recovered(Apply(s, e), t, h, later, snaps[t])
          <==> && (e.op.target in s.files && s.files[e.op.target].mtime <= t ==>
                     s.files[e.op.target].content == s.files[p].content)
               && (s.Old(p) ==> ReadsFrom(s, t, e.op.target, s.files[p].content))
      {
        RenameAt(s, snaps, e, h, later, t);
      }
    } else {
      forall t | t in s.points
        ensures Recovered(Apply(s, e), t, h, later, snaps[t])
      {
        RefusedAt(s, snaps, e, h, later, t);
      }
    }
  }

  lemma SetSizeExactly(s: Sys, snaps: Snapshots, e: Event, h: nat, later: Time)
    requires BeforeOperation(s, snaps, e, h, later) && e.op.SetSize?
    ensures s.points <= snaps.Keys
    ensures (forall t | t in s.points :: Recovered(Apply(s, e), t, h, later, snaps[t])) <==> Undoable(s, e.op)
  {
    assert forall t | t in s.points :: RecoversAt(UnderSaveDir, s, t, snaps[t]);
    forall t | t in s.points
      ensures Recovered(Apply(s, e), t, h, later, snaps[t])
              <==> (s.files[e.op.path].mtime <= t ==> s.files[e.op.path].content == e.op.content)
    {
      SetSizeAt(s, snaps, e, h, later, t);
    }
  }

  lemma ChangeModeRecovers(s: Sys, snaps: Snapshots, e: Event, h: nat, later: Time)
    requires BeforeOperation(s, snaps, e, h, later) && e.op.ChangeMode?
    ensures s.points <= snaps.Keys && forall t | t in s.points :: Recovered(Apply(s, e), t, h, later, snaps[t])
  {
    forall t | t in s.points
      ensures t in snaps && Recovered(Apply(s, e), t, h, later, snaps[t])
    {
      QuietExactly(s, snaps, e, h, later, t);
      InPlaceUnspoilt(s, snaps, Apply(s, e), later, t);
    }
  }

  /** A new point is restorable whatever handles are open; what they do afterwards is another matter. */
  lemma NewPointRecovers(s: Sys, snaps: Snapshots, e: Event, h: nat, later: Time)
    requires BeforeOperation(s, snaps, e, h, later) && e.op.NewPoint?
    ensures Apply(s, e).points <= Noted(s, e, snaps).Keys
    ensures forall t | t in Apply(s, e).points :: Recovered(Apply(s, e), t, h, later, Noted(s, e, snaps)[t])
  {
    assert forall n | n in s.saves :: n.Copy? && n.epoch < e.now;
    forall t | t in Apply(s, e).points
      ensures t in Noted(s, e, snaps) && Recovered(Apply(s, e), t, h, later, Noted(s, e, snaps)[t])
    {
      if t == e.now {
        assert forall r | r in s.rows :: RowOk(s, r);
        SelectNothing(s.rows, t);
      } else {
        QuietExactly(s, snaps, e, h, later, t);
        forall r | r in Select(s.rows, t)
          ensures r.name in s.saves
        {
          RowOfSnapshot(s, snaps, t, later, r);
        }
      }
    }
  }

  /**
   * From any state of a history, one more operation leaves every live point restorable
   * exactly when it is undoable. All but renames, refused renames and truncate(2) are.
   */
  lemma OperationExactly(s: Sys, snaps: Snapshots, e: Event, h: nat, later: Time)
    requires BeforeOperation(s, snaps, e, h, later)
    ensures Apply(s, e).points <= Noted(s, e, snaps).Keys
    ensures (forall t | t in Apply(s, e).points :: Recovered(Apply(s, e), t, h, later, Noted(s, e, snaps)[t]))
            <==> Undoable(s, e.op)
  {
    match e.op
    case RenameFile(_, _) => RenameExactly(s, snaps, e, h, later);
    case RenameFailure(_, _) => RenameExactly(s, snaps, e, h, later);
    case SetSize(_, _) => SetSizeExactly(s, snaps, e, h, later);
    case ChangeMode(_) => ChangeModeRecovers(s, snaps, e, h, later);
    case NewPoint => NewPointRecovers(s, snaps, e, h, later);
    case _ => GuardedRecovers(s, snaps, e, h, later);
  }
}
