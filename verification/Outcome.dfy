/** What a restore on the mounted volume leaves at each path, in any state. */
module Outcome {
  import opened Base
  import opened Table
  import opened Volume
  import opened Restore
  import opened Decimal
  import opened TimeTravel
  import opened Versions
  import opened Rewind

  /** What the row leaves at its path; None when there is no file. */
  function Left(s: Sys, r: Row): Option<Content> {
    var kept := if r.path in s.files then Some(s.files[r.path].content) else None;
    match r.kind
    case ModFile => if r.name in s.saves then Some(RowSource(s, r)) else kept
    case Rmdir => kept
    case _ => if r.name in s.saves then Some(s.saves[r.name]) else None
  }

  /** A copy belongs to the path of its row. */
  predicate Shaped(r: Row) {
    r.name.Copy? ==> r.name.of == r.path
  }

  predicate Holds(f: Files, p: Path, c: Option<Content>) {
    match c
    case None => p !in f
    case Some(content) => p in f && f[p].content == content
  }

  /** A row leaves other paths alone, and other copies. */
  lemma RowElsewhere(s: Sys, r: Row, h: nat, now: Time, p: Path)
    requires h !in s.handles && s.epoch < now && p != r.path && !IsAside(p, now)
    ensures SameFile(s, RowHooked(s, r, h, now), p)
  {
    assert IsAside(Aside(r.path, now), now);
    if (r.kind.Rename? || r.kind.Unlink?) && r.path in s.files {
      MoveEffect(s, r.path, now);
    }
    var s1 := if r.kind.Rename? || r.kind.Unlink? then MoveAsideHooked(s, r.path, now) else s;
    if r.name in s1.saves && !r.kind.Rmdir? {
      CopyEffect(s1, r.name, r.path, h, now);
    }
  }

  lemma RowSaves(s: Sys, r: Row, h: nat, now: Time, n: Name)
    requires h !in s.handles && s.epoch < now && n != Copy(r.path, s.epoch)
    ensures
      var s' := RowHooked(s, r, h, now);
      (n in s'.saves <==> n in s.saves) && (n in s.saves ==> s'.saves[n] == s.saves[n])
  {
    if (r.kind.Rename? || r.kind.Unlink?) && r.path in s.files {
      MoveEffect(s, r.path, now);
    }
    var s1 := if r.kind.Rename? || r.kind.Unlink? then MoveAsideHooked(s, r.path, now) else s;
    if r.name in s1.saves && !r.kind.Rmdir? {
      CopyEffect(s1, r.name, r.path, h, now);
    }
  }

  lemma RowLeaves(s: Sys, r: Row, h: nat, now: Time)
    requires h !in s.handles && s.epoch < now && !IsAside(r.path, now)
    ensures Holds(RowHooked(s, r, h, now).files, r.path, Left(s, r)) && RowHooked(s, r, h, now).epoch == s.epoch
  {
    assert IsAside(Aside(r.path, now), now);
    if (r.kind.Rename? || r.kind.Unlink?) && r.path in s.files {
      MoveEffect(s, r.path, now);
    }
    var s1 := if r.kind.Rename? || r.kind.Unlink? then MoveAsideHooked(s, r.path, now) else s;
    if r.name in s1.saves && !r.kind.Rmdir? {
      CopyEffect(s1, r.name, r.path, h, now);
    }
  }

  /** The rows of a restore, each path once. */
  ghost predicate Orderly(s: Sys, sel: seq<Row>, now: Time) {
    s.epoch < now && DistinctPaths(sel) && forall r | r in sel :: Shaped(r) && !IsAside(r.path, now)
  }

  lemma OrderlyStep(s: Sys, sel: seq<Row>, h: nat, now: Time)
    requires h !in s.handles && sel != [] && Orderly(s, sel, now)
    ensures
      var r, rest := sel[|sel| - 1], sel[..|sel| - 1];
      var s' := RowHooked(s, r, h, now);
      && Orderly(s', rest, now) && r in sel
      && forall x | x in rest :: x in sel && x.path != r.path && Left(s', x) == Left(s, x)
  {
    var r, rest := sel[|sel| - 1], sel[..|sel| - 1];
    var s' := RowHooked(s, r, h, now);
    assert r in sel;
    RowLeaves(s, r, h, now);
    forall x | x in rest
      ensures x in sel && x.path != r.path && Left(s', x) == Left(s, x)
    {
      assert x in sel && Shaped(x);
      RowElsewhere(s, r, h, now, x.path);
      RowSaves(s, r, h, now, x.name);
    }
  }

  /** Paths that no row is about stay as they are. */
  lemma {:induction false} MountedElsewhere(s: Sys, sel: seq<Row>, h: nat, now: Time, p: Path)
    requires h !in s.handles && s.epoch < now && p !in PathsOf(sel) && !IsAside(p, now)
    ensures SameFile(s, RowsHooked(s, sel, h, now), p)
    decreases |sel|
  {
    if sel != [] {
      var r, rest := sel[|sel| - 1], sel[..|sel| - 1];
      assert r in sel && forall x | x in rest :: x in sel;
      RowElsewhere(s, r, h, now, p);
      MountedElsewhere(RowHooked(s, r, h, now), rest, h, now, p);
    }
  }

  /** Every restored path holds what its row leaves. */
  lemma {:induction false} MountedLeaves(s: Sys, sel: seq<Row>, h: nat, now: Time, r: Row)
    requires h !in s.handles && Orderly(s, sel, now) && r in sel
    ensures Holds(RowsHooked(s, sel, h, now).files, r.path, Left(s, r))
    decreases |sel|
  {
    var last, rest := sel[|sel| - 1], sel[..|sel| - 1];
    var s1 := RowHooked(s, last, h, now);
    assert sel == rest + [last];
    OrderlyStep(s, sel, h, now);
    if r in rest {
      MountedLeaves(s1, rest, h, now, r);
    } else {
      RowLeaves(s, r, h, now);
      assert r.path !in PathsOf(rest);
      MountedElsewhere(s1, rest, h, now, r.path);
    }
  }

  /** A path that only rename rows are about is gone. */
  lemma {:induction false} MountedGone(s: Sys, sel: seq<Row>, h: nat, now: Time, p: Path)
    requires h !in s.handles && s.epoch < now && !IsAside(p, now) && (p !in s.files || p in PathsOf(sel))
    requires forall y | y in sel && y.path == p :: y.kind.Rename? && y.name.Under? && y.name !in s.saves
    ensures p !in RowsHooked(s, sel, h, now).files
    decreases |sel|
  {
    if sel != [] {
      var y, rest := sel[|sel| - 1], sel[..|sel| - 1];
      assert y in sel && sel == rest + [y];
      if y.path == p {
        RowLeaves(s, y, h, now);
      } else {
        RowElsewhere(s, y, h, now, p);
      }
      forall x | x in rest && x.path == p
        ensures x.name !in RowHooked(s, y, h, now).saves
      {
        RowSaves(s, y, h, now, x.name);
      }
      MountedGone(RowHooked(s, y, h, now), rest, h, now, p);
    }
  }

  /** A MODFILE row brings its path the same content, however often it is undone. */
  lemma {:induction false} MountedSame(s: Sys, sel: seq<Row>, h: nat, now: Time, r: Row)
    requires h !in s.handles && s.epoch < now && !IsAside(r.path, now)
    requires r.kind.ModFile? && r.name in s.saves && r in sel && forall y | y in sel && y.path == r.path :: y == r
    requires Shaped(r)
    ensures Holds(RowsHooked(s, sel, h, now).files, r.path, Some(RowSource(s, r)))
    decreases |sel|
  {
    var y, rest := sel[|sel| - 1], sel[..|sel| - 1];
    var s1 := RowHooked(s, y, h, now);
    assert y in sel && sel == rest + [y];
    if y.path == r.path {
      RowLeaves(s, r, h, now);
      CopyEffect(s, r.name, r.path, h, now);
    } else {
      RowElsewhere(s, y, h, now, r.path);
      RowSaves(s, y, h, now, r.name);
    }
    assert r.name in s1.saves && RowSource(s1, r) == RowSource(s, r);
    if r in rest {
      MountedSame(s1, rest, h, now, r);
    } else {
      MountedElsewhere(s1, rest, h, now, r.path);
    }
  }

  /** Whatever the row leaves carries the row's access time as mtime, and changed now. */
  lemma RowTimes(s: Sys, r: Row, h: nat, now: Time)
    requires h !in s.handles && s.epoch < now && !IsAside(r.path, now)
    ensures
      var f := RowHooked(s, r, h, now).files;
      r.path in f ==> f[r.path].mtime == r.accessTime && f[r.path].ctime == now
  {
  }

  // ---- What is moved aside ----

  /** A row that displaces a file moves it aside unchanged. */
  lemma RowDisplacesHooked(s: Sys, r: Row, h: nat, now: Time)
    requires h !in s.handles && s.epoch < now && !IsAside(r.path, now) && Displaces(r) && r.path in s.files
    ensures At(RowHooked(s, r, h, now).files, r.path + "." + Dec(now)) == Some(s.files[r.path])
  {
    assert IsAside(Aside(r.path, now), now);
    MoveEffect(s, r.path, now);
    var s1 := MoveAsideHooked(s, r.path, now);
    if r.name in s1.saves {
      CopyEffect(s1, r.name, r.path, h, now);
    }
  }

  /** A row leaves what other rows moved aside. */
  lemma RowBeside(s: Sys, r: Row, h: nat, now: Time, p: Path)
    requires h !in s.handles && s.epoch < now && p != r.path && !IsAside(r.path, now)
    ensures SameFile(s, RowHooked(s, r, h, now), Aside(p, now))
  {
    assert IsAside(Aside(p, now), now);
    AsidesDiffer(p, now, r.path, now);
    if Displaces(r) && r.path in s.files {
      MoveEffect(s, r.path, now);
    }
    var s1 := if Displaces(r) then MoveAsideHooked(s, r.path, now) else s;
    if r.name in s1.saves && !r.kind.Rmdir? {
      CopyEffect(s1, r.name, r.path, h, now);
    }
  }

  lemma {:induction false} MountedBeside(s: Sys, sel: seq<Row>, h: nat, now: Time, p: Path)
    requires h !in s.handles && s.epoch < now && forall r | r in sel :: r.path != p && !IsAside(r.path, now)
    ensures SameFile(s, RowsHooked(s, sel, h, now), Aside(p, now))
    decreases |sel|
  {
    if sel != [] {
      var r, rest := sel[|sel| - 1], sel[..|sel| - 1];
      assert r in sel && forall x | x in rest :: x in sel;
      RowBeside(s, r, h, now, p);
      MountedBeside(RowHooked(s, r, h, now), rest, h, now, p);
    }
  }

  /** In the whole mounted loop: a displaced file is kept under the name it was moved aside to. */
  lemma {:induction false} MountedDisplaced(s: Sys, sel: seq<Row>, h: nat, now: Time, k: nat)
    requires h !in s.handles && s.epoch < now && k < |sel| && Displaces(sel[k]) && sel[k].path in s.files
    requires (forall r | r in sel :: !IsAside(r.path, now)) && forall j | 0 <= j < |sel| && j != k :: sel[j].path != sel[k].path
    ensures At(RowsHooked(s, sel, h, now).files, sel[k].path + "." + Dec(now)) == Some(s.files[sel[k].path])
    decreases |sel|
  {
    var n := |sel| - 1;
    var r, rest, p := sel[n], sel[..n], sel[k].path;
    assert r in sel && forall x | x in rest :: x in sel;
    if k == n {
      RowDisplacesHooked(s, r, h, now);
      RowLeaves(s, r, h, now);
      MountedBeside(RowHooked(s, r, h, now), rest, h, now, p);
    } else {
      assert rest[k] == sel[k] && sel[k] in sel;
      RowElsewhere(s, r, h, now, p);
      MountedDisplaced(RowHooked(s, r, h, now), rest, h, now, k);
    }
  }

  // ---- Recovery ----

  /** A restore to `t` at `later`, on the mounted volume, gives every file of `v`. */
  ghost predicate Recovered(s: Sys, t: Time, h: nat, later: Time, v: View)
    requires h !in s.handles
  {
    var f := Restored(s, t, h, later).files;
    forall p | p in v :: p in f && f[p].content == v[p]
  }

  /** What is left of each snapshot, path by path. */
  lemma RecoveredExactly(s: Sys, t: Time, h: nat, later: Time, v: View)
    requires h !in s.handles && Orderly(s, Select(s.rows, t), later) && forall p | p in v :: !IsAside(p, later)
    ensures Recovered(s, t, h, later, v) <==>
            && (forall r | r in Select(s.rows, t) && r.path in v :: Left(s, r) == Some(v[r.path]))
            && (forall p | p in v && p !in PathsOf(Select(s.rows, t)) :: p in s.files && s.files[p].content == v[p])
  {
    var sel, f := Select(s.rows, t), Restored(s, t, h, later).files;
    forall r | r in sel
      ensures Holds(f, r.path, Left(s, r))
    {
      MountedLeaves(s, sel, h, later, r);
    }
    forall p | p in v && p !in PathsOf(sel)
      ensures SameFile(s, Restored(s, t, h, later), p)
    {
      MountedElsewhere(s, sel, h, later, p);
    }
  }
}
