/** Replaying the selected rows, newest first. */
module Restore {
  import opened Base
  import opened Table
  import opened Volume
  import opened Decimal

  /**
   * Where a RENAME row is undone from. The loop's comment asks for the reverse
   * of the rename (`FromTarget`); the code builds the source path under the
   * save directory for every kind of row (`UnderSaveDir`).
   */
  datatype UndoMode = UnderSaveDir | FromTarget

  // ---- The loop body, on files ----

  /** check_for_exist renames path to path.timestamp. */
  function Aside(p: Path, now: Time): Path {
    p + "." + Dec(now)
  }

  ghost predicate IsAside(p: Path, now: Time) {
    exists q: Path :: p == Aside(q, now)
  }

  lemma AsidesDiffer(p: Path, now: Time, q: Path, later: Time)
    requires p != q || now != later
    ensures Aside(p, now) != Aside(q, later)
  {
    if Aside(p, now) == Aside(q, later) {
      DottedInjective(p, now, q, later);
    }
  }

  lemma AsideOnce(p: Path, now: Time, later: Time)
    requires IsAside(p, now) && now != later
    ensures !IsAside(p, later)
  {
    var q: Path :| p == Aside(q, now);
    if x: Path :| p == Aside(x, later) {
      AsidesDiffer(q, now, x, later);
    }
  }

  function MoveAside(f: Files, p: Path, now: Time): Files {
    if p in f then (f - {p})[Aside(p, now) := f[p]] else f
  }

  /** cp from the save directory; a missing source leaves the target alone. */
  function CopyIn(saves: Saves, f: Files, name: Name, p: Path, now: Time): Files {
    if name in saves then f[p := File(saves[name], now, now)] else f
  }

  /** utimensat with the row's access_time. */
  function Retime(f: Files, p: Path, access: Time, now: Time): Files {
    if p in f then f[p := f[p].(mtime := access, ctime := now)] else f
  }

  function MoveBack(mode: UndoMode, saves: Saves, f: Files, name: Name, p: Path, now: Time): Files {
    match mode
    case UnderSaveDir => CopyIn(saves, f, name, p, now)
    case FromTarget =>
      if name.Under? && name.path in f then (f - {name.path})[p := f[name.path]] else f
  }

  function RestoreRow(mode: UndoMode, saves: Saves, f: Files, r: Row, now: Time): Files {
    match r.kind
    case Rmdir => Retime(f, r.path, r.accessTime, now) // the directory itself is not part of a volume's files
    case Rename => Retime(MoveBack(mode, saves, MoveAside(f, r.path, now), r.name, r.path, now), r.path, r.accessTime, now)
    case Unlink => Retime(CopyIn(saves, MoveAside(f, r.path, now), r.name, r.path, now), r.path, r.accessTime, now)
    case ModFile => Retime(CopyIn(saves, f, r.name, r.path, now), r.path, r.accessTime, now)
  }

  function RestoreRows(mode: UndoMode, saves: Saves, f: Files, sel: seq<Row>, now: Time): Files
    decreases |sel|
  {
    if sel == [] then f
    else RestoreRows(mode, saves, RestoreRow(mode, saves, f, sel[|sel| - 1], now), sel[..|sel| - 1], now)
  }

  function RestoreTo(mode: UndoMode, s: Sys, t: Time, now: Time): Files {
    RestoreRows(mode, s.saves, s.files, Select(s.rows, t), now)
  }

  // ---- The same replay on what was there at time t ----

  type View = map<Path, Content>

  /** The files no write after `t` has touched. */
  function OldView(f: Files, t: Time): View {
    map p | p in f && f[p].mtime <= t :: f[p].content
  }

  function Contents(f: Files): View {
    map p | p in f :: f[p].content
  }

  function UndoRow(mode: UndoMode, saves: Saves, v: View, r: Row): Option<View> {
    match r.kind
    case Rmdir => None
    case Rename =>
      if mode.FromTarget? && r.name.Under? && r.name.path in v
      then Some((v - {r.name.path})[r.path := v[r.name.path]])
      else None
    case _ => if r.name in saves then Some(v[r.path := saves[r.name]]) else None
  }

  /** None when some row cannot be undone. */
  function ReplayView(mode: UndoMode, saves: Saves, v: View, sel: seq<Row>): Option<View>
    decreases |sel|
  {
    if sel == [] then Some(v)
    else
      match UndoRow(mode, saves, v, sel[|sel| - 1])
      case None => None
      case Some(w) => ReplayView(mode, saves, w, sel[..|sel| - 1])
  }

  lemma ReplayAppend(mode: UndoMode, saves: Saves, v: View, sel: seq<Row>, r: Row)
    ensures ReplayView(mode, saves, v, sel + [r]) ==
            match UndoRow(mode, saves, v, r)
            case None => None
            case Some(w) => ReplayView(mode, saves, w, sel)
  {
    assert (sel + [r])[..|sel|] == sel;
  }

  predicate SameCopies(saves: Saves, saves': Saves, rows: seq<Row>) {
    forall r | r in rows && r.HoldsCopy() :: r.name in saves && r.name in saves' && saves[r.name] == saves'[r.name]
  }

  /** Replay reads the save directory only at the names of the selected rows, and never rp_time. */
  lemma {:induction false} ReplaySame(mode: UndoMode, saves: Saves, saves': Saves, v: View, sel: seq<Row>, sel': seq<Row>)
    requires SameApartFromStamp(sel', sel)
    requires SameCopies(saves, saves', sel)
    ensures ReplayView(mode, saves, v, sel) == ReplayView(mode, saves', v, sel')
    decreases |sel|
  {
    if sel != [] {
      var n := |sel| - 1;
      assert sel[n] in sel;
      match UndoRow(mode, saves, v, sel[n])
      case None =>
      case Some(w) => ReplaySame(mode, saves, saves', w, sel[..n], sel'[..n]);
    }
  }

  // ---- Refinement: the loop computes the view replay, up to moved-aside copies ----

  /** The old view without moved-aside copies. */
  ghost function SeenView(f: Files, t: Time, now: Time): View {
    map p | p in f && f[p].mtime <= t && !IsAside(p, now) :: f[p].content
  }

  predicate NamesPath(r: Row, p: Path) {
    r.path == p || (r.name.Under? && r.name.path == p)
  }

  ghost predicate ApartFromAsides(f: Files, rows: seq<Row>, now: Time) {
    && (forall p | p in f :: !IsAside(p, now))
    && RowsApart(rows, now)
  }

  ghost predicate RowsApart(rows: seq<Row>, now: Time) {
    forall r, p | r in rows && NamesPath(r, p) :: !IsAside(p, now)
  }

  lemma MoveAsideView(f: Files, p: Path, t: Time, now: Time)
    requires !IsAside(p, now)
    ensures SeenView(MoveAside(f, p, now), t, now) == SeenView(f, t, now) - {p}
  {
    assert IsAside(Aside(p, now), now);
  }

  lemma CopyInView(saves: Saves, f: Files, name: Name, p: Path, access: Time, t: Time, now: Time)
    requires !IsAside(p, now) && access <= t && name in saves
    ensures SeenView(Retime(CopyIn(saves, f, name, p, now), p, access, now), t, now) == SeenView(f, t, now)[p := saves[name]]
  {
  }

  lemma MoveBackView(saves: Saves, f: Files, q: Path, p: Path, access: Time, t: Time, now: Time)
    requires !IsAside(p, now) && access <= t && q != p && q in SeenView(f, t, now)
    ensures SeenView(Retime(MoveBack(FromTarget, saves, f, Under(q), p, now), p, access, now), t, now)
            == (SeenView(f, t, now) - {q})[p := SeenView(f, t, now)[q]]
  {
  }

  lemma RenameRefines(saves: Saves, f: Files, r: Row, t: Time, now: Time)
    requires r.kind.Rename? && r.name.Under? && r.name.path != r.path && r.accessTime <= t
    requires !IsAside(r.path, now) && r.name.path in SeenView(f, t, now)
    ensures SeenView(RestoreRow(FromTarget, saves, f, r, now), t, now)
            == (SeenView(f, t, now) - {r.name.path})[r.path := SeenView(f, t, now)[r.name.path]]
  {
    var v, q := SeenView(f, t, now), r.name.path;
    MoveAsideView(f, r.path, t, now);
    MoveBackView(saves, MoveAside(f, r.path, now), q, r.path, r.accessTime, t, now);
    assert (v - {r.path} - {q})[r.path := v[q]] == (v - {q})[r.path := v[q]];
  }

  lemma RestoreRowRefines(mode: UndoMode, saves: Saves, f: Files, r: Row, t: Time, now: Time)
    requires forall p | NamesPath(r, p) :: !IsAside(p, now)
    requires r.accessTime <= t
    requires r.kind.Rename? ==> r.name != Under(r.path)
    requires UndoRow(mode, saves, SeenView(f, t, now), r).Some?
    ensures SeenView(RestoreRow(mode, saves, f, r, now), t, now) == UndoRow(mode, saves, SeenView(f, t, now), r).value
  {
    assert NamesPath(r, r.path);
    var v := SeenView(f, t, now);
    var f1 := MoveAside(f, r.path, now);
    match r.kind
    case ModFile => CopyInView(saves, f, r.name, r.path, r.accessTime, t, now);
    case Unlink =>
      MoveAsideView(f, r.path, t, now);
      CopyInView(saves, f1, r.name, r.path, r.accessTime, t, now);
      assert (v - {r.path})[r.path := saves[r.name]] == v[r.path := saves[r.name]];
    case Rename => RenameRefines(saves, f, r, t, now);
  }

  predicate NoSelfRename(rows: seq<Row>) {
    forall r | r in rows && r.kind.Rename? :: r.name != Under(r.path)
  }

  /** Whenever the view replay succeeds, the loop over files computes it. */
  lemma {:induction false} RestoreRefines(mode: UndoMode, saves: Saves, f: Files, sel: seq<Row>, t: Time, now: Time)
    requires RowsApart(sel, now) && NoSelfRename(sel)
    requires forall r | r in sel :: r.accessTime <= t
    requires ReplayView(mode, saves, SeenView(f, t, now), sel).Some?
    ensures SeenView(RestoreRows(mode, saves, f, sel, now), t, now) == ReplayView(mode, saves, SeenView(f, t, now), sel).value
    decreases |sel|
  {
    if sel != [] {
      var last := sel[|sel| - 1];
      assert last in sel;
      assert forall r | r in sel[..|sel| - 1] :: r in sel;
      RestoreRowRefines(mode, saves, f, last, t, now);
      RestoreRefines(mode, saves, RestoreRow(mode, saves, f, last, now), sel[..|sel| - 1], t, now);
    }
  }

  lemma RowFrame(mode: UndoMode, saves: Saves, f: Files, r: Row, now: Time, p: Path)
    requires !IsAside(p, now) && !NamesPath(r, p)
    ensures
      var f' := RestoreRow(mode, saves, f, r, now);
      (p in f' <==> p in f) && (p in f ==> f'[p] == f[p])
  {
    assert IsAside(Aside(r.path, now), now);
  }

  /** Paths no selected row names, and that no move-aside creates, are left alone. */
  lemma {:induction false} RestoreFrame(mode: UndoMode, saves: Saves, f: Files, sel: seq<Row>, now: Time, p: Path)
    requires !IsAside(p, now)
    requires forall r | r in sel :: !NamesPath(r, p)
    ensures
      var f' := RestoreRows(mode, saves, f, sel, now);
      (p in f' <==> p in f) && (p in f ==> f'[p] == f[p])
    decreases |sel|
  {
    if sel != [] {
      var last := sel[|sel| - 1];
      assert last in sel;
      RowFrame(mode, saves, f, last, now, p);
      RestoreFrame(mode, saves, RestoreRow(mode, saves, f, last, now), sel[..|sel| - 1], now, p);
    }
  }

  // ---- One row, path by path ----

  function At(f: Files, p: Path): Option<File> {
    if p in f then Some(f[p]) else None
  }

  function Retimed(file: Option<File>, access: Time, now: Time): Option<File> {
    match file
    case None => None
    case Some(g) => Some(File(g.content, access, now))
  }

  predicate Displaces(r: Row) {
    r.kind.Unlink? || r.kind.Rename?
  }

  /** The row's path holds its copy, the file moved back, or what was there; with the row's access time. */
  lemma RowPath(mode: UndoMode, saves: Saves, f: Files, r: Row, now: Time)
    requires forall p | NamesPath(r, p) :: !IsAside(p, now)
    requires r.kind.Rename? ==> r.name != Under(r.path)
    ensures
      var got := At(RestoreRow(mode, saves, f, r, now), r.path);
      match r.kind
      case Rmdir => got == Retimed(At(f, r.path), r.accessTime, now)
      case ModFile =>
        got == if r.name in saves then Some(File(saves[r.name], r.accessTime, now)) else Retimed(At(f, r.path), r.accessTime, now)
      case Unlink => got == if r.name in saves then Some(File(saves[r.name], r.accessTime, now)) else None
      case Rename =>
        if mode.UnderSaveDir? then got == if r.name in saves then Some(File(saves[r.name], r.accessTime, now)) else None
        else got == if r.name.Under? then Retimed(At(f, r.name.path), r.accessTime, now) else None
  {
    assert NamesPath(r, r.path) && IsAside(Aside(r.path, now), now);
  }

  /** What UNLINK and RENAME rows find at their path is moved aside unchanged. */
  lemma RowDisplaces(mode: UndoMode, saves: Saves, f: Files, r: Row, now: Time)
    requires forall p | NamesPath(r, p) :: !IsAside(p, now)
    ensures
      var got := At(RestoreRow(mode, saves, f, r, now), r.path + "." + Dec(now));
      got == if Displaces(r) && r.path in f then Some(f[r.path]) else At(f, r.path + "." + Dec(now))
  {
    assert NamesPath(r, r.path) && IsAside(Aside(r.path, now), now);
  }

  /** A rename that is undone leaves its target; every other path stays as it is. */
  lemma RowElse(mode: UndoMode, saves: Saves, f: Files, r: Row, now: Time, p: Path)
    requires p != r.path && p != Aside(r.path, now)
    ensures
      At(RestoreRow(mode, saves, f, r, now), p)
      == if r.kind.Rename? && mode.FromTarget? && r.name == Under(p) then None else At(f, p)
  {
  }

  lemma RowKeepsAside(mode: UndoMode, saves: Saves, f: Files, r: Row, now: Time, p: Path)
    requires (forall q | NamesPath(r, q) :: !IsAside(q, now)) && r.path != p
    ensures At(RestoreRow(mode, saves, f, r, now), Aside(p, now)) == At(f, Aside(p, now))
  {
    assert IsAside(Aside(p, now), now) && NamesPath(r, r.path);
    AsidesDiffer(p, now, r.path, now);
    RowElse(mode, saves, f, r, now, Aside(p, now));
  }

  lemma {:induction false} RowsKeepAside(mode: UndoMode, saves: Saves, f: Files, sel: seq<Row>, now: Time, p: Path)
    requires RowsApart(sel, now) && forall r | r in sel :: r.path != p
    ensures At(RestoreRows(mode, saves, f, sel, now), Aside(p, now)) == At(f, Aside(p, now))
    decreases |sel|
  {
    if sel != [] {
      var r, rest := sel[|sel| - 1], sel[..|sel| - 1];
      assert r in sel && forall x | x in rest :: x in sel;
      RowKeepsAside(mode, saves, f, r, now, p);
      RowsKeepAside(mode, saves, RestoreRow(mode, saves, f, r, now), rest, now, p);
    }
  }

  /** In the whole loop: a file that the only row about its path displaces is kept under the name it was moved aside to. */
  lemma {:induction false} DisplacedKept(mode: UndoMode, saves: Saves, f: Files, sel: seq<Row>, now: Time, k: nat)
    requires k < |sel| && Displaces(sel[k]) && sel[k].path in f && RowsApart(sel, now)
    requires forall j | 0 <= j < |sel| && j != k :: !NamesPath(sel[j], sel[k].path)
    ensures At(RestoreRows(mode, saves, f, sel, now), sel[k].path + "." + Dec(now)) == Some(f[sel[k].path])
    decreases |sel|
  {
    var n := |sel| - 1;
    var r, rest, p := sel[n], sel[..n], sel[k].path;
    assert r in sel && forall x | x in rest :: x in sel;
    assert NamesPath(sel[k], p) && sel[k] in sel;
    if k == n {
      RowDisplaces(mode, saves, f, r, now);
      RowsKeepAside(mode, saves, RestoreRow(mode, saves, f, r, now), rest, now, p);
    } else {
      assert rest[k] == sel[k];
      RowFrame(mode, saves, f, r, now, p);
      DisplacedKept(mode, saves, RestoreRow(mode, saves, f, r, now), rest, now, k);
    }
  }

  /** Two rows that displace the same path within a second: the second takes the first one's name. */
  lemma SecondDisplacement(mode: UndoMode, saves: Saves, f: Files, newer: Row, older: Row, now: Time)
    requires newer.path == older.path && Displaces(older)
    requires forall p | NamesPath(newer, p) || NamesPath(older, p) :: !IsAside(p, now)
    requires newer.path in RestoreRow(mode, saves, f, newer, now)
    ensures
      var f1 := RestoreRow(mode, saves, f, newer, now);
      At(RestoreRows(mode, saves, f, [older, newer], now), older.path + "." + Dec(now)) == Some(f1[older.path])
  {
    var f1 := RestoreRow(mode, saves, f, newer, now);
    assert [older, newer][..1] == [older] && [older][..0] == [];
    assert RestoreRows(mode, saves, f, [older, newer], now) == RestoreRows(mode, saves, f1, [older], now);
    assert RestoreRows(mode, saves, f1, [older], now) == RestoreRow(mode, saves, f1, older, now);
    RowDisplaces(mode, saves, f1, older, now);
  }
}
