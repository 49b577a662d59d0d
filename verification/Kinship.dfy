/**
 * A volume on which restores have happened, and its kin on which every restored file
 * was just written instead. A restored file carries an old mtime and a new ctime, so
 * the hooks save it more often than its kin; what they log then covers no restore
 * point, and does no harm as long as it overwrites no copy.
 */
module Kinship {
  import opened Base
  import opened Table
  import opened Volume
  import opened Restore
  import opened TimeTravel

  // ---- Tables ----

  /** A row that some time can select. */
  predicate Selective(r: Row) {
    r.accessTime <= r.rpTime
  }

  function Selectives(rows: seq<Row>): (sel: seq<Row>)
    ensures forall r :: r in sel <==> r in rows && Selective(r)
  {
    if rows == [] then []
    else
      var rest, last := Selectives(rows[..|rows| - 1]), rows[|rows| - 1];
      if Selective(last) then rest + [last] else rest
  }

  lemma SelectivesSnoc(rows: seq<Row>, r: Row)
    ensures Selectives(rows + [r]) == if Selective(r) then Selectives(rows) + [r] else Selectives(rows)
  {
    assert (rows + [r])[..|rows|] == rows;
  }

  lemma {:induction false} AllSelective(rows: seq<Row>)
    requires forall r | r in rows :: Selective(r)
    ensures Selectives(rows) == rows
  {
    if rows != [] {
      var init, last := rows[..|rows| - 1], rows[|rows| - 1];
      assert rows == init + [last] && last in rows;
      AllSelective(init);
      SelectivesSnoc(init, last);
    }
  }

  lemma {:induction false} SelectSelectives(rows: seq<Row>, t: Time)
    ensures Select(Selectives(rows), t) == Select(rows, t)
  {
    if rows != [] {
      var init, last := rows[..|rows| - 1], rows[|rows| - 1];
      SelectSelectives(init, t);
      if Selective(last) {
        SelectAppend(Selectives(init), last, t);
      }
    }
  }

  lemma {:induction false} DeleteSelectives(rows: seq<Row>, d: Time, pred: Time)
    requires pred < d
    ensures Selectives(DeleteRows(rows, d, pred)) == DeleteRows(Selectives(rows), d, pred)
  {
    if rows != [] {
      var init, last := rows[..|rows| - 1], rows[|rows| - 1];
      DeleteSelectives(init, d, pred);
      SelectivesSnoc(DeleteRows(init, d, pred), Merged(last, d, pred));
      var kept := Selectives(init);
      assert (kept + [last])[..|kept|] == kept;
    }
  }

  /** A row names its own path's copy, which is present if some time can select the row; a rename names its target. */
  predicate RowNames(r: Row, saves: Saves) {
    if r.HoldsCopy() then r.name.Copy? && r.name.of == r.path && (Selective(r) ==> r.name in saves)
    else r.kind.Rename? && r.name.Under?
  }

  /** A copy's row carries the stamp of the epoch it was saved in, while that point is live. */
  predicate StampOk(r: Row, points: set<Time>) {
    r.HoldsCopy() && r.name.Copy? ==> r.rpTime == r.name.epoch || (Selective(r) && r.name.epoch !in points)
  }

  ghost predicate TableOk(rows: seq<Row>, saves: Saves, points: set<Time>) {
    && (forall r | r in rows :: RowNames(r, saves) && StampOk(r, points))
    && forall n | n in saves :: n.Copy? && Named(rows, n)
  }

  /** The copies that live points use are the kin's. */
  ghost predicate LiveSame(kr: seq<Row>, ks: Saves, ss: Saves, points: set<Time>) {
    forall t, y | t in points && y in Select(kr, t) && y.HoldsCopy() :: y.name in ks && y.name in ss && ss[y.name] == ks[y.name]
  }

  /** The kin's table is the selective part, and the copies that matter are the same. */
  ghost predicate TableKin(sr: seq<Row>, ss: Saves, kr: seq<Row>, ks: Saves, points: set<Time>) {
    Selectives(sr) == kr && TableOk(sr, ss, points) && ks.Keys <= ss.Keys && LiveSame(kr, ks, ss, points)
  }

  lemma NamedSnoc(rows: seq<Row>, r: Row, n: Name)
    requires Named(rows, n) || (r.HoldsCopy() && r.name == n)
    ensures Named(rows + [r], n)
  {
    assert r in rows + [r];
    if Named(rows, n) {
      var x :| x in rows && x.HoldsCopy() && x.name == n;
      assert x in rows + [r];
    }
  }

  /** A save overwrites nothing, or only what live points would take from it anyway. */
  ghost predicate Agreeing(kr: seq<Row>, ss: Saves, r: Row, c: Content, points: set<Time>) {
    || r.name !in ss
    || (!Selective(r) && forall t, y | t in points && y in Select(kr, t) && y.name == r.name :: ss[y.name] == c)
  }

  lemma SaveTableOk(rows: seq<Row>, saves: Saves, points: set<Time>, r: Row, c: Content)
    requires TableOk(rows, saves, points)
    requires r.HoldsCopy() && r.name.Copy? && r.name.of == r.path && r.rpTime == r.name.epoch
    ensures TableOk(rows + [r], saves[r.name := c], points)
  {
    forall x | x in rows + [r]
      ensures RowNames(x, saves[r.name := c]) && StampOk(x, points)
    {
      if x in rows {
        assert RowNames(x, saves);
      }
    }
    forall n | n in saves[r.name := c]
      ensures n.Copy? && Named(rows + [r], n)
    {
      NamedSnoc(rows, r, n);
    }
  }

  /** A copy saved; the kin saves it too when its row is selective. */
  lemma SaveKin(sr: seq<Row>, ss: Saves, kr: seq<Row>, ks: Saves, points: set<Time>, r: Row, c: Content)
    requires TableKin(sr, ss, kr, ks, points) && Agreeing(kr, ss, r, c, points)
    requires r.HoldsCopy() && r.name.Copy? && r.name.of == r.path && r.rpTime == r.name.epoch
    ensures TableKin(sr + [r], ss[r.name := c], if Selective(r) then kr + [r] else kr, if Selective(r) then ks[r.name := c] else ks,
                     points)
  {
    SelectivesSnoc(sr, r);
    SaveTableOk(sr, ss, points, r, c);
    if Selective(r) {
      FreshLive(kr, ks, ss, points, r, c);
    } else {
      AgreeingLive(kr, ks, ss, points, r, c);
    }
  }

  lemma FreshLive(kr: seq<Row>, ks: Saves, ss: Saves, points: set<Time>, r: Row, c: Content)
    requires LiveSame(kr, ks, ss, points) && r.name !in ss
    ensures LiveSame(kr + [r], ks[r.name := c], ss[r.name := c], points)
  {
    forall t, y | t in points && y in Select(kr + [r], t) && y.HoldsCopy()
      ensures y == r || y in Select(kr, t)
    {
      SelectAppend(kr, r, t);
    }
  }

  lemma AgreeingLive(kr: seq<Row>, ks: Saves, ss: Saves, points: set<Time>, r: Row, c: Content)
    requires LiveSame(kr, ks, ss, points) && Agreeing(kr, ss, r, c, points) && !Selective(r)
    ensures LiveSame(kr, ks, ss[r.name := c], points)
  {
  }

  lemma RenameLive(kr: seq<Row>, ks: Saves, ss: Saves, points: set<Time>, r: Row)
    requires LiveSame(kr, ks, ss, points) && !r.HoldsCopy()
    ensures LiveSame(kr + [r], ks, ss, points)
  {
    forall t, y | t in points && y in Select(kr + [r], t) && y.HoldsCopy()
      ensures y in Select(kr, t)
    {
      SelectAppend(kr, r, t);
    }
  }

  lemma LogKin(sr: seq<Row>, ss: Saves, kr: seq<Row>, ks: Saves, points: set<Time>, r: Row)
    requires TableKin(sr, ss, kr, ks, points) && r.kind.Rename? && r.name.Under?
    ensures TableKin(sr + [r], ss, if Selective(r) then kr + [r] else kr, ks, points)
  {
    SelectivesSnoc(sr, r);
    forall n | n in ss
      ensures Named(sr + [r], n)
    {
      NamedSnoc(sr, r, n);
    }
    RenameLive(kr, ks, ss, points, r);
    forall x | x in sr + [r]
      ensures RowNames(x, ss) && StampOk(x, points)
    {
    }
  }

  // ---- Deletion ----

  function Gone(rows: seq<Row>, d: Time, pred: Time): set<Name> {
    set r | r in CollectedRows(rows, d, pred) :: r.name
  }

  /** No row that another live point selects shares its copy with a row that goes. */
  ghost predicate Unshared(rows: seq<Row>, points: set<Time>, d: Time) {
    forall t, y | t in points && t != d && y in Select(rows, t) && y.HoldsCopy() ::
      y.name !in Gone(rows, d, Predecessor(points, d))
  }

  lemma SameNameSameRow(rows: seq<Row>, a: Row, b: Row)
    requires DistinctCopies(rows) && a in rows && b in rows && a.HoldsCopy() && b.HoldsCopy() && a.name == b.name
    ensures a == b
  {
    var i :| 0 <= i < |rows| && rows[i] == a;
    var j :| 0 <= j < |rows| && rows[j] == b;
  }

  /** As long as every copy has one row, nothing is shared. */
  lemma DistinctUnshared(rows: seq<Row>, saves: Saves, points: set<Time>, d: Time)
    requires DistinctCopies(rows) && (forall r | r in rows :: RowNames(r, saves))
    requires (forall x | x in points :: x > 0) && d in points
    ensures Unshared(rows, points, d)
  {
    var pred := Predecessor(points, d);
    forall t, y | t in points && t != d && y in Select(rows, t) && y.HoldsCopy()
      ensures y.name !in Gone(rows, d, pred)
    {
      RowSelection(y, points, d, t);
      if x :| x in CollectedRows(rows, d, pred) && x.name == y.name {
        assert RowNames(x, saves) && RowNames(y, saves);
        SameNameSameRow(rows, x, y);
      }
    }
  }

  /** What the kin keeps, the volume keeps. */
  lemma KinKeeps(sr: seq<Row>, ss: Saves, kr: seq<Row>, ks: Saves, points: set<Time>, d: Time, y: Row)
    requires TableKin(sr, ss, kr, ks, points) && DistinctCopies(kr) && Unshared(sr, points, d)
    requires d in points && (forall x | x in points :: x > 0)
    requires y in kr && y.HoldsCopy() && y.accessTime > 0 && !Collected(y, d, Predecessor(points, d))
    ensures y.name !in Gone(sr, d, Predecessor(points, d))
  {
    var pred := Predecessor(points, d);
    if x :| x in CollectedRows(sr, d, pred) && x.name == y.name {
      assert RowNames(x, ss) && RowNames(y, ss) && StampOk(x, points) && StampOk(y, points);
      if Selective(x) {
        SameNameSameRow(kr, x, y);
      } else {
        assert y.rpTime == d && y.accessTime <= pred;
        SelectSelectives(sr, pred);
        assert y in Select(sr, pred);
      }
    }
  }

  lemma DeletionTableOk(sr: seq<Row>, ss: Saves, kr: seq<Row>, ks: Saves, points: set<Time>, d: Time)
    requires TableKin(sr, ss, kr, ks, points) && DistinctCopies(kr) && Unshared(sr, points, d)
    requires d in points && (forall x | x in points :: x > 0) && forall r | r in kr :: r.accessTime > 0
    ensures
      var pred := Predecessor(points, d);
      TableOk(DeleteRows(sr, d, pred), ss - Gone(sr, d, pred), points - {d})
  {
    var pred := Predecessor(points, d);
    DeletionMembers(sr, d, pred);
    forall m | m in DeleteRows(sr, d, pred)
      ensures RowNames(m, ss - Gone(sr, d, pred)) && StampOk(m, points - {d})
    {
      var r :| r in sr && !Collected(r, d, pred) && m == Merged(r, d, pred);
      assert RowNames(r, ss) && StampOk(r, points);
      if r.HoldsCopy() && Selective(r) {
        KinKeeps(sr, ss, kr, ks, points, d, r);
      }
    }
    forall n | n in ss - Gone(sr, d, pred)
      ensures Named(DeleteRows(sr, d, pred), n)
    {
      var r :| r in sr && r.HoldsCopy() && r.name == n;
      assert r !in CollectedRows(sr, d, pred);
      SurvivorMerged(sr, d, pred, r);
    }
  }

  /** A deletion that takes no shared copy keeps the kinship, though more rows are collected. */
  lemma DeletionKin(sr: seq<Row>, ss: Saves, kr: seq<Row>, ks: Saves, points: set<Time>, d: Time)
    requires TableKin(sr, ss, kr, ks, points) && DistinctCopies(kr) && Unshared(sr, points, d)
    requires d in points && (forall x | x in points :: x > 0) && (forall r | r in kr :: r.accessTime > 0)
    requires forall n | n in ks :: Named(kr, n)
    ensures
      var pred := Predecessor(points, d);
      TableKin(DeleteRows(sr, d, pred), ss - Gone(sr, d, pred), DeleteRows(kr, d, pred), ks - Gone(kr, d, pred), points - {d})
  {
    var pred := Predecessor(points, d);
    DeleteSelectives(sr, d, pred);
    DeletionTableOk(sr, ss, kr, ks, points, d);
    forall n | n in ks - Gone(kr, d, pred)
      ensures n !in Gone(sr, d, pred)
    {
      var y :| y in kr && y.HoldsCopy() && y.name == n;
      assert y !in CollectedRows(kr, d, pred);
      KinKeeps(sr, ss, kr, ks, points, d, y);
    }
    forall t, m | t in points - {d} && m in Select(DeleteRows(kr, d, pred), t) && m.HoldsCopy()
      ensures m.name in ks && m.name !in Gone(kr, d, pred) && m.name in ss && m.name !in Gone(sr, d, pred) && ss[m.name] == ks[m.name]
    {
      SurvivorOf(kr, points, d, t, m);
      var y :| y in Select(kr, t) && y.name == m.name && y.HoldsCopy() && !Collected(y, d, pred);
      KinKeeps(sr, ss, kr, ks, points, d, y);
      assert Gone(kr, d, pred) <= Gone(sr, d, pred);
    }
  }

  /** A row selected after a deletion was selected before it. */
  lemma SurvivorOf(rows: seq<Row>, points: set<Time>, d: Time, t: Time, m: Row)
    requires (forall x | x in points :: x > 0) && d in points && t in points && t != d
    requires m in Select(DeleteRows(rows, d, Predecessor(points, d)), t)
    ensures
      var pred := Predecessor(points, d);
      exists y :: y in Select(rows, t) && y.name == m.name && (y.HoldsCopy() <==> m.HoldsCopy()) && !Collected(y, d, pred)
  {
    var pred := Predecessor(points, d);
    DeletionMembers(rows, d, pred);
    var y :| y in rows && !Collected(y, d, pred) && m == Merged(y, d, pred);
    RowSelection(y, points, d, t);
    assert y in Select(rows, t);
  }

  // ---- Files and handles ----

  /** The same content and ctime, and an mtime that is not after the kin's. */
  predicate KinFile(f: File, g: File) {
    f.content == g.content && f.ctime == g.ctime && f.mtime <= g.mtime
  }

  predicate KinFiles(f: Files, g: Files) {
    f.Keys == g.Keys && forall p | p in f :: KinFile(f[p], g[p])
  }

  /** Outside `paths`, what each point has seen is the same. */
  predicate SeenAlike(f: Files, g: Files, points: set<Time>, paths: set<Path>) {
    forall p, t | p in f && p in g && p !in paths && t in points :: f[p].mtime <= t <==> g[p].mtime <= t
  }

  /** Outside `recent`, the hooks' guard tells the same. */
  predicate OldAlike(f: Files, g: Files, epoch: Time, recent: set<Path>) {
    forall p | p in f && p in g && p !in recent :: f[p].mtime < epoch <==> g[p].mtime < epoch
  }

  predicate FilesKin(s: Sys, k: Sys, recent: set<Path>, paths: set<Path>) {
    && KinFiles(s.files, k.files) && SeenAlike(s.files, k.files, s.points, paths)
    && OldAlike(s.files, k.files, s.epoch, recent)
  }

  /** The same handles; a flag never suppresses a save that the kin makes. */
  predicate HandleKin(a: Handle, b: Handle, k: Sys) {
    match a
    case Unlinked => b.Unlinked?
    case Linked(p, flag) => b.Linked? && b.path == p && (b.backedUp ==> flag) && (flag ==> !k.Old(p))
  }

  predicate HandlesKin(s: Sys, k: Sys) {
    s.handles.Keys == k.handles.Keys && forall h | h in s.handles :: HandleKin(s.handles[h], k.handles[h], k)
  }

  /** Every version that a live point would take from the current epoch's copy of `p` is what `p` holds now. */
  ghost predicate CopyAgrees(s: Sys, p: Path) {
    forall t, y | t in s.points && y in Select(s.rows, t) && y.name == Copy(p, s.epoch) ::
      y.name in s.saves && p in s.files && s.saves[y.name] == s.files[p].content
  }

  predicate EpochsUpTo(rows: seq<Row>, epoch: Time) {
    forall r | r in rows && r.name.Copy? :: r.name.epoch <= epoch
  }

  /** A file that the kin would save has a free name to be saved under. */
  ghost predicate NamesKin(s: Sys, k: Sys) {
    && (forall p | k.Old(p) :: Copy(p, s.epoch) !in s.saves)
    && (forall n | n in s.saves :: n.Copy? && n.epoch <= s.epoch)
    && EpochsUpTo(s.rows, s.epoch)
  }

  /** `recent`: paths restored since the last point; `paths`: paths ever restored. */
  ghost predicate Kin(s: Sys, k: Sys, recent: set<Path>, paths: set<Path>) {
    && s.points == k.points && s.epoch == k.epoch && s.clock == k.clock
    && TableKin(s.rows, s.saves, k.rows, k.saves, s.points)
    && FilesKin(s, k, recent, paths) && HandlesKin(s, k) && NamesKin(s, k)
  }

  lemma KinContents(f: Files, g: Files)
    requires KinFiles(f, g)
    ensures Contents(f) == Contents(g)
  {
  }

  lemma KinPut(f: Files, g: Files, p: Path, a: File, b: File, points: set<Time>, epoch: Time, recent: set<Path>, paths: set<Path>)
    requires KinFiles(f, g) && SeenAlike(f, g, points, paths) && OldAlike(f, g, epoch, recent) && KinFile(a, b)
    requires p in paths || forall t | t in points :: a.mtime <= t <==> b.mtime <= t
    requires p in recent || (a.mtime < epoch <==> b.mtime < epoch)
    ensures KinFiles(f[p := a], g[p := b]) && SeenAlike(f[p := a], g[p := b], points, paths)
    ensures OldAlike(f[p := a], g[p := b], epoch, recent)
  {
  }

  lemma KinRemove(f: Files, g: Files, p: Path, points: set<Time>, epoch: Time, recent: set<Path>, paths: set<Path>)
    requires KinFiles(f, g) && SeenAlike(f, g, points, paths) && OldAlike(f, g, epoch, recent)
    ensures KinFiles(f - {p}, g - {p}) && SeenAlike(f - {p}, g - {p}, points, paths) && OldAlike(f - {p}, g - {p}, epoch, recent)
  {
  }

  // ---- Saving and logging ----

  /** The row of a file that is old for the volume only covers nothing. */
  lemma LoggedSelective(s: Sys, k: Sys, p: Path, recent: set<Path>, paths: set<Path>)
    requires Kin(s, k, recent, paths) && TimesOk(k) && s.Old(p)
    ensures s.files[p].ctime <= s.epoch <==> k.Old(p)
  {
    assert KinFile(s.files[p], k.files[p]);
  }

  /** A save of `p`. */
  function Saved(s: Sys, p: Path, kind: Kind): Sys
    requires p in s.files
  {
    LogRow(SaveCopy(s, p), kind, p, Copy(p, s.epoch))
  }

  lemma SaveAgrees(s: Sys, k: Sys, p: Path, kind: Kind, recent: set<Path>, paths: set<Path>)
    requires Kin(s, k, recent, paths) && TimesOk(k) && s.Old(p) && CopyAgrees(s, p)
    ensures Agreeing(k.rows, s.saves, Row(s.epoch, kind, p, Copy(p, s.epoch), s.files[p].ctime), s.files[p].content, s.points)
  {
    LoggedSelective(s, k, p, recent, paths);
    forall t, y | t in s.points && y in Select(k.rows, t)
      ensures y in Select(s.rows, t)
    {
      SelectSelectives(s.rows, t);
    }
  }

  /** The volume saves `p` when `save`, its kin when the file is old for it. */
  lemma KinSave(s: Sys, k: Sys, p: Path, kind: Kind, save: bool, recent: set<Path>, paths: set<Path>)
    requires Kin(s, k, recent, paths) && TimesOk(k) && p in s.files && (kind.ModFile? || kind.Unlink?)
    requires save ==> s.Old(p) && CopyAgrees(s, p)
    requires k.Old(p) ==> save
    ensures
      var s1, k1 := if save then Saved(s, p, kind) else s, if k.Old(p) then Saved(k, p, kind) else k;
      TableKin(s1.rows, s1.saves, k1.rows, k1.saves, s.points)
  {
    assert KinFile(s.files[p], k.files[p]);
    if save {
      LoggedSelective(s, k, p, recent, paths);
      SaveAgrees(s, k, p, kind, recent, paths);
      SaveKin(s.rows, s.saves, k.rows, k.saves, s.points, Row(s.epoch, kind, p, Copy(p, s.epoch), s.files[p].ctime), s.files[p].content);
    }
  }

  lemma KinLog(s: Sys, k: Sys, p: Path, q: Path, recent: set<Path>, paths: set<Path>)
    requires Kin(s, k, recent, paths) && TimesOk(k) && p in s.files
    ensures
      var s1 := if s.Old(p) then LogRow(s, Rename, p, Under(q)) else s;
      var k1 := if k.Old(p) then LogRow(k, Rename, p, Under(q)) else k;
      TableKin(s1.rows, s1.saves, k1.rows, k1.saves, s.points)
  {
    assert KinFile(s.files[p], k.files[p]);
    if s.Old(p) {
      LoggedSelective(s, k, p, recent, paths);
      LogKin(s.rows, s.saves, k.rows, k.saves, s.points, Row(s.epoch, Rename, p, Under(q), s.files[p].ctime));
    }
  }

  // ---- One lemma per operation ----

  /** The path whose version an operation saves. */
  function SavedBy(s: Sys, op: Op): Option<Path> {
    match op
    case OpenFile(_, p, truncate) => if truncate && s.Old(p) then Some(p) else None
    case WriteFile(h, _) =>
      if h in s.handles && s.handles[h].Linked? && s.Old(s.handles[h].path) && !s.handles[h].backedUp
      then Some(s.handles[h].path) else None
    case UnlinkFile(p) => if s.Old(p) then Some(p) else None
    case _ => None
  }

  /** What saves a file restored since the last point overwrites nothing that live points would miss. */
  ghost predicate Fresh(s: Sys, op: Op, recent: set<Path>) {
    SavedBy(s, op).Some? && SavedBy(s, op).value in recent ==> CopyAgrees(s, SavedBy(s, op).value)
  }

  /** Of other files it need not be asked. */
  lemma UnrestoredAgrees(s: Sys, k: Sys, p: Path, recent: set<Path>, paths: set<Path>)
    requires Kin(s, k, recent, paths) && k.Old(p)
    ensures CopyAgrees(s, p)
  {
    forall t, y | t in s.points && y in Select(s.rows, t)
      ensures y.name != Copy(p, s.epoch)
    {
      assert RowNames(y, s.saves);
    }
  }

  lemma FreshSave(s: Sys, k: Sys, op: Op, recent: set<Path>, paths: set<Path>)
    requires Kin(s, k, recent, paths) && Fresh(s, op, recent) && SavedBy(s, op).Some?
    ensures CopyAgrees(s, SavedBy(s, op).value)
  {
    var p := SavedBy(s, op).value;
    if p !in recent {
      assert k.Old(p);
      UnrestoredAgrees(s, k, p, recent, paths);
    }
  }

  lemma KinAllowed(s: Sys, k: Sys, e: Event, recent: set<Path>, paths: set<Path>)
    requires Kin(s, k, recent, paths) && Allowed(UnderSaveDir, s, e)
    ensures Allowed(UnderSaveDir, k, e)
  {
    forall p | p in s.files
      ensures (k.Old(p) ==> s.Old(p)) && (Seen(k, p) ==> Seen(s, p))
    {
      assert KinFile(s.files[p], k.files[p]);
    }
    assert forall h | h in s.handles :: HandleKin(s.handles[h], k.handles[h], k);
  }

  /** Operations that put the same new file at `p` on both sides, after a save or none. */
  lemma PutKin(s: Sys, k: Sys, s': Sys, k': Sys, p: Path, f: File, recent: set<Path>, paths: set<Path>)
    requires Kin(s, k, recent, paths) && f.mtime > s.epoch
    requires s'.points == k'.points == s.points && s'.epoch == k'.epoch == s.epoch && s'.clock == k'.clock
    requires TableKin(s'.rows, s'.saves, k'.rows, k'.saves, s.points)
    requires s'.saves.Keys <= s.saves.Keys + {Copy(p, s.epoch)} && EpochsUpTo(s'.rows, s.epoch)
    requires s'.files == s.files[p := f] && k'.files == k.files[p := f]
    requires s'.handles.Keys == k'.handles.Keys
    requires forall h | h in s'.handles :: HandleKin(s'.handles[h], k'.handles[h], k')
    ensures Kin(s', k', recent, paths)
  {
    KinPut(s.files, k.files, p, f, f, s.points, s.epoch, recent, paths);
    assert forall x | k'.Old(x) :: x != p && k.Old(x);
  }

  lemma HandlesAfterPut(s: Sys, k: Sys, k': Sys, p: Path)
    requires HandlesKin(s, k) && k'.epoch == k.epoch && forall x | k'.Old(x) :: k.Old(x)
    ensures forall h | h in s.handles :: HandleKin(s.handles[h], k.handles[h], k')
  {
    forall h | h in s.handles
      ensures HandleKin(s.handles[h], k.handles[h], k')
    {
      assert HandleKin(s.handles[h], k.handles[h], k);
    }
  }

  /** What an open with truncation or a write does: a save or none, a new file at `p`, and the handle. */
  ghost predicate Touched(s: Sys, s': Sys, p: Path, save: bool, f: File, h: nat, flag: bool)
    requires p in s.files
  {
    var s1 := if save then Saved(s, p, ModFile) else s;
    s' == s1.(files := s.files[p := f], handles := s.handles[h := Linked(p, flag)], clock := f.mtime)
  }

  lemma TouchKin(s: Sys, k: Sys, s': Sys, k': Sys, p: Path, save: bool, f: File, h: nat, flag: bool, flagK: bool,
                 recent: set<Path>, paths: set<Path>)
    requires Kin(s, k, recent, paths) && TimesOk(k) && p in s.files && f.mtime > s.epoch && f.ctime == f.mtime
    requires save ==> s.Old(p) && CopyAgrees(s, p)
    requires (k.Old(p) ==> save) && (flagK ==> flag)
    requires Touched(s, s', p, save, f, h, flag) && Touched(k, k', p, k.Old(p), f, h, flagK)
    ensures Kin(s', k', recent, paths)
  {
    KinSave(s, k, p, ModFile, save, recent, paths);
    TouchHandles(s, k, s', k', p, save, f, h, flag, flagK);
    PutKin(s, k, s', k', p, f, recent, paths);
  }

  lemma TouchHandles(s: Sys, k: Sys, s': Sys, k': Sys, p: Path, save: bool, f: File, h: nat, flag: bool, flagK: bool)
    requires HandlesKin(s, k) && s.epoch == k.epoch && p in s.files && p in k.files && f.mtime > s.epoch && (flagK ==> flag)
    requires Touched(s, s', p, save, f, h, flag) && Touched(k, k', p, k.Old(p), f, h, flagK)
    ensures HandlesKin(s', k')
  {
    HandlesAfterPut(s, k, k', p);
  }

  lemma OpenKin(s: Sys, k: Sys, e: Event, recent: set<Path>, paths: set<Path>)
    requires Kin(s, k, recent, paths) && TimesOk(k) && Fresh(s, e.op, recent) && e.op.OpenFile?
    requires Allowed(UnderSaveDir, s, e) && Allowed(UnderSaveDir, k, e)
    ensures Kin(Apply(s, e), Apply(k, e), recent, paths)
  {
    var OpenFile(h, p, truncate) := e.op;
    assert KinFile(s.files[p], k.files[p]);
    if truncate {
      if s.Old(p) {
        FreshSave(s, k, e.op, recent, paths);
      }
      TouchKin(s, k, Apply(s, e), Apply(k, e), p, s.Old(p), File("", e.now, e.now), h, s.Old(p), k.Old(p), recent, paths);
    } else {
      HandlesAfterPut(s, k, Apply(k, e), p);
    }
  }

  lemma WriteKin(s: Sys, k: Sys, e: Event, recent: set<Path>, paths: set<Path>)
    requires Kin(s, k, recent, paths) && TimesOk(k) && Fresh(s, e.op, recent) && e.op.WriteFile?
    requires Allowed(UnderSaveDir, s, e) && Allowed(UnderSaveDir, k, e)
    ensures Kin(Apply(s, e), Apply(k, e), recent, paths)
  {
    var WriteFile(h, c) := e.op;
    var p, flag, flagK := s.handles[h].path, s.handles[h].backedUp, k.handles[h].backedUp;
    assert HandleKin(s.handles[h], k.handles[h], k) && KinFile(s.files[p], k.files[p]);
    var save := s.Old(p) && !flag;
    if save {
      FreshSave(s, k, e.op, recent, paths);
    }
    TouchKin(s, k, Apply(s, e), Apply(k, e), p, save, File(c, e.now, e.now), h, flag || save, flagK || k.Old(p), recent, paths);
  }

  lemma UnlinkHandlesKin(s: Sys, k: Sys, e: Event)
    requires HandlesKin(s, k) && e.op.UnlinkFile? && Possible(s, e.op) && Possible(k, e.op)
    ensures HandlesKin(Apply(s, e), Apply(k, e))
  {
    var s', k' := Apply(s, e), Apply(k, e);
    forall h | h in s'.handles
      ensures HandleKin(s'.handles[h], k'.handles[h], k')
    {
      assert HandleKin(s.handles[h], k.handles[h], k);
    }
  }

  lemma UnlinkNamesKin(s: Sys, k: Sys, e: Event)
    requires NamesKin(s, k) && s.epoch == k.epoch && e.op.UnlinkFile? && Possible(s, e.op) && Possible(k, e.op)
    ensures NamesKin(Apply(s, e), Apply(k, e))
  {
    assert forall x | Apply(k, e).Old(x) :: x != e.op.path && k.Old(x);
  }

  lemma UnlinkKin(s: Sys, k: Sys, e: Event, recent: set<Path>, paths: set<Path>)
    requires Kin(s, k, recent, paths) && TimesOk(k) && Fresh(s, e.op, recent) && e.op.UnlinkFile?
    requires Allowed(UnderSaveDir, s, e) && Allowed(UnderSaveDir, k, e)
    ensures Kin(Apply(s, e), Apply(k, e), recent, paths)
  {
    var p := e.op.path;
    assert KinFile(s.files[p], k.files[p]);
    if s.Old(p) {
      FreshSave(s, k, e.op, recent, paths);
    }
    KinSave(s, k, p, Unlink, s.Old(p), recent, paths);
    KinRemove(s.files, k.files, p, s.points, s.epoch, recent, paths);
    UnlinkHandlesKin(s, k, e);
    UnlinkNamesKin(s, k, e);
  }

  /** The paths to be careful with after `op`. */
  function RecentAfter(recent: set<Path>, op: Op): set<Path> {
    match op
    case NewPoint => {}
    case RenameFile(p, q) => if p in recent then recent + {q} else recent
    case _ => recent
  }

  lemma KinRenameFiles(s: Sys, k: Sys, p: Path, q: Path, recent: set<Path>, paths: set<Path>)
    requires FilesKin(s, k, recent, paths) && s.points == k.points && p in s.files && p != q && !Seen(s, p)
    ensures
      var f, g := (s.files - {p})[q := s.files[p]], (k.files - {p})[q := k.files[p]];
      && KinFiles(f, g) && SeenAlike(f, g, s.points, paths)
      && OldAlike(f, g, s.epoch, RecentAfter(recent, RenameFile(p, q)))
  {
    assert KinFile(s.files[p], k.files[p]);
    var recent' := RecentAfter(recent, RenameFile(p, q));
    KinRemove(s.files, k.files, p, s.points, s.epoch, recent, paths);
    assert OldAlike(s.files - {p}, k.files - {p}, s.epoch, recent');
    KinPut(s.files - {p}, k.files - {p}, q, s.files[p], k.files[p], s.points, s.epoch, recent', paths);
  }

  lemma RenameHandlesKin(s: Sys, k: Sys, e: Event)
    requires HandlesKin(s, k) && e.op.RenameFile? && Possible(s, e.op) && Possible(k, e.op)
    ensures HandlesKin(Apply(s, e), Apply(k, e))
  {
    var s', k' := Apply(s, e), Apply(k, e);
    forall h | h in s'.handles
      ensures HandleKin(s'.handles[h], k'.handles[h], k')
    {
      assert HandleKin(s.handles[h], k.handles[h], k);
    }
  }

  lemma RenameNamesKin(s: Sys, k: Sys, e: Event, recent: set<Path>, paths: set<Path>)
    requires Kin(s, k, recent, paths) && e.op.RenameFile? && Possible(k, e.op) && Allowed(UnderSaveDir, s, e)
    ensures NamesKin(Apply(s, e), Apply(k, e))
  {
    var RenameFile(p, q) := e.op;
    assert KinFile(s.files[p], k.files[p]);
    forall x | Apply(k, e).Old(x)
      ensures Copy(x, s.epoch) !in s.saves
    {
      if x != q {
        assert k.Old(x);
      }
    }
  }

  lemma RenameKin(s: Sys, k: Sys, e: Event, recent: set<Path>, paths: set<Path>)
    requires Kin(s, k, recent, paths) && TimesOk(k) && e.op.RenameFile?
    requires Allowed(UnderSaveDir, s, e) && Allowed(UnderSaveDir, k, e)
    ensures Kin(Apply(s, e), Apply(k, e), RecentAfter(recent, e.op), paths)
  {
    KinLog(s, k, e.op.path, e.op.target, recent, paths);
    KinRenameFiles(s, k, e.op.path, e.op.target, recent, paths);
    RenameHandlesKin(s, k, e);
    RenameNamesKin(s, k, e, recent, paths);
  }

  lemma RefusedKin(s: Sys, k: Sys, e: Event, recent: set<Path>, paths: set<Path>)
    requires Kin(s, k, recent, paths) && TimesOk(k) && e.op.RenameFailure?
    requires Allowed(UnderSaveDir, s, e) && Allowed(UnderSaveDir, k, e)
    ensures Kin(Apply(s, e), Apply(k, e), recent, paths)
  {
    KinLog(s, k, e.op.path, e.op.target, recent, paths);
    HandlesAfterPut(s, k, Apply(k, e), e.op.path);
  }

  /** Operations that save nothing and touch one path. */
  lemma PlainKin(s: Sys, k: Sys, e: Event, recent: set<Path>, paths: set<Path>)
    requires Kin(s, k, recent, paths) && TimesOk(k) && (e.op.CreateFile? || e.op.ChangeMode? || e.op.SetSize?)
    requires Allowed(UnderSaveDir, s, e) && Allowed(UnderSaveDir, k, e)
    ensures Kin(Apply(s, e), Apply(k, e), recent, paths)
  {
    var p, s', k' := e.op.path, Apply(s, e), Apply(k, e);
    HandlesAfterPut(s, k, k', p);
    match e.op
    case CreateFile(_) => PutKin(s, k, s', k', p, File("", e.now, e.now), recent, paths);
    case SetSize(_, c) => PutKin(s, k, s', k', p, File(c, e.now, e.now), recent, paths);
    case ChangeMode(_) =>
      assert KinFile(s.files[p], k.files[p]);
      KinPut(s.files, k.files, p, s'.files[p], k'.files[p], s.points, s.epoch, recent, paths);
  }

  lemma PointTable(s: Sys, k: Sys, recent: set<Path>, paths: set<Path>, point: Time)
    requires Kin(s, k, recent, paths) && RowsOk(k) && s.epoch < point
    ensures TableKin(s.rows, s.saves, k.rows, k.saves, s.points + {point})
  {
    assert forall r | r in k.rows :: RowOk(k, r);
    SelectNothing(k.rows, point);
    assert forall r | r in s.rows :: RowNames(r, s.saves) && StampOk(r, s.points);
    assert forall r | r in s.rows :: StampOk(r, s.points + {point});
  }

  lemma PointFiles(s: Sys, k: Sys, recent: set<Path>, paths: set<Path>, point: Time)
    requires Kin(s, k, recent, paths) && TimesOk(k) && s.clock < point
    ensures SeenAlike(s.files, k.files, s.points + {point}, paths) && OldAlike(s.files, k.files, point, {})
    ensures forall p | p in s.files :: k.files[p].mtime < point
  {
    assert forall p | p in s.files :: KinFile(s.files[p], k.files[p]);
  }

  lemma PointHandles(s: Sys, k: Sys, e: Event)
    requires HandlesKin(s, k) && e.op.NewPoint? && Guard(UnderSaveDir, s, e.op)
    ensures HandlesKin(Apply(s, e), Apply(k, e))
  {
    forall h | h in s.handles
      ensures HandleKin(s.handles[h], k.handles[h], Apply(k, e))
    {
      assert HandleKin(s.handles[h], k.handles[h], k);
    }
  }

  lemma PointKin(s: Sys, k: Sys, e: Event, recent: set<Path>, paths: set<Path>)
    requires Kin(s, k, recent, paths) && TimesOk(k) && RowsOk(k) && e.op.NewPoint?
    requires Allowed(UnderSaveDir, s, e) && Allowed(UnderSaveDir, k, e)
    ensures Kin(Apply(s, e), Apply(k, e), {}, paths)
  {
    PointTable(s, k, recent, paths, e.now);
    PointFiles(s, k, recent, paths, e.now);
    PointHandles(s, k, e);
  }

  lemma DeleteEpochs(rows: seq<Row>, d: Time, pred: Time, epoch: Time)
    requires EpochsUpTo(rows, epoch)
    ensures EpochsUpTo(DeleteRows(rows, d, pred), epoch)
  {
    DeletionMembers(rows, d, pred);
    forall m | m in DeleteRows(rows, d, pred) && m.name.Copy?
      ensures m.name.epoch <= epoch
    {
      var r :| r in rows && !Collected(r, d, pred) && m == Merged(r, d, pred);
      assert r.name == m.name;
    }
  }

  lemma DeleteTables(s: Sys, k: Sys, d: Time, recent: set<Path>, paths: set<Path>)
    requires Kin(s, k, recent, paths) && TimesOk(k) && SavesOk(k) && RowsOk(k) && d in s.points
    requires Unshared(s.rows, s.points, d)
    ensures TableKin(Deleted(s, d).rows, Deleted(s, d).saves, Deleted(k, d).rows, Deleted(k, d).saves, s.points - {d})
  {
    var pred := Predecessor(s.points, d);
    assert forall r | r in k.rows :: RowOk(k, r);
    DeletionKin(s.rows, s.saves, k.rows, k.saves, s.points, d);
    assert Deleted(s, d).saves == s.saves - Gone(s.rows, d, pred);
    assert Deleted(k, d).saves == k.saves - Gone(k.rows, d, pred);
  }

  lemma DeleteKin(s: Sys, k: Sys, e: Event, recent: set<Path>, paths: set<Path>)
    requires Kin(s, k, recent, paths) && TimesOk(k) && SavesOk(k) && RowsOk(k) && e.op.DeletePoint?
    requires Unshared(s.rows, s.points, e.op.point)
    requires Allowed(UnderSaveDir, s, e) && Allowed(UnderSaveDir, k, e)
    ensures Kin(Apply(s, e), Apply(k, e), recent, paths)
  {
    DeleteTables(s, k, e.op.point, recent, paths);
    DeleteEpochs(s.rows, e.op.point, Predecessor(s.points, e.op.point), s.epoch);
    HandlesAfterPut(s, k, Apply(k, e), "");
  }

  /** What a caller checks of an operation besides its guard. */
  ghost predicate Careful(s: Sys, op: Op, recent: set<Path>) {
    Fresh(s, op, recent) && (op.DeletePoint? ==> Unshared(s.rows, s.points, op.point))
  }

  /** Every hook and command keeps the kinship. */
  lemma KinStep(s: Sys, k: Sys, e: Event, recent: set<Path>, paths: set<Path>)
    requires Kin(s, k, recent, paths) && TimesOk(k) && SavesOk(k) && RowsOk(k)
    requires Allowed(UnderSaveDir, s, e) && Careful(s, e.op, recent)
    ensures Allowed(UnderSaveDir, k, e) && Kin(Apply(s, e), Apply(k, e), RecentAfter(recent, e.op), paths)
  {
    KinAllowed(s, k, e, recent, paths);
    match e.op
    case OpenFile(_, _, _) => OpenKin(s, k, e, recent, paths);
    case WriteFile(_, _) => WriteKin(s, k, e, recent, paths);
    case CloseFile(_) => HandlesAfterPut(s, k, Apply(k, e), "");
    case UnlinkFile(_) => UnlinkKin(s, k, e, recent, paths);
    case RenameFile(_, _) => RenameKin(s, k, e, recent, paths);
    case RenameFailure(_, _) => RefusedKin(s, k, e, recent, paths);
    case NewPoint => PointKin(s, k, e, recent, paths);
    case DeletePoint(_) => DeleteKin(s, k, e, recent, paths);
    case _ => PlainKin(s, k, e, recent, paths);
  }
}
