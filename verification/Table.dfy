/**
 * The backup table, the restore-point table, and the two queries over them:
 * the interval selection of a restore and the three statements of a deletion.
 * A table is a sequence of rows in update-time order.
 */
module Table {
  import opened Base

  /** Column `new_path`: a saved copy (the hashed "path.epoch"), the target of a rename, or "N/A". */
  datatype Name = Copy(of: Path, epoch: Time) | Under(path: Path) | NotApplicable

  datatype Kind = ModFile | Unlink | Rename | Rmdir

  datatype Row = Row(rpTime: Time, kind: Kind, path: Path, name: Name, accessTime: Time) {
    /** access_time <= t and rp_time >= t */
    predicate Covers(t: Time) {
      accessTime <= t <= rpTime
    }

    predicate HoldsCopy() {
      kind.ModFile? || kind.Unlink?
    }
  }

  /** The rows a restore to `t` fetches, oldest first. */
  function Select(rows: seq<Row>, t: Time): (sel: seq<Row>)
    ensures forall r :: r in sel <==> r in rows && r.Covers(t)
  {
    if rows == [] then []
    else
      var last := rows[|rows| - 1];
      var rest := Select(rows[..|rows| - 1], t);
      if last.Covers(t) then rest + [last] else rest
  }

  lemma SelectAppend(rows: seq<Row>, r: Row, t: Time)
    ensures Select(rows + [r], t) == if r.Covers(t) then Select(rows, t) + [r] else Select(rows, t)
  {
    assert (rows + [r])[..|rows|] == rows;
  }

  /** Selection keeps the order and the repetitions of what it keeps. */
  lemma {:induction false} SelectConcat(a: seq<Row>, b: seq<Row>, t: Time)
    ensures Select(a + b, t) == Select(a, t) + Select(b, t)
    ensures forall r :: Select([r], t) == if r.Covers(t) then [r] else []
  {
    forall r
      ensures Select([r], t) == if r.Covers(t) then [r] else []
    {
      assert [r][..0] == [];
    }
    if b == [] {
      assert a + b == a;
    } else {
      assert (a + b)[..|a + b| - 1] == a + b[..|b| - 1];
      SelectConcat(a, b[..|b| - 1], t);
    }
  }

  lemma {:induction false} SelectNothing(rows: seq<Row>, t: Time)
    requires forall r | r in rows :: !r.Covers(t)
    ensures Select(rows, t) == []
  {
    if rows != [] {
      SelectNothing(rows[..|rows| - 1], t);
    }
  }

  /** max(rp_time) below `d`; 0 when that query yields NULL. */
  ghost function Predecessor(points: set<Time>, d: Time): (p: Time)
    ensures (p in points && p < d) || (p == 0 && forall s | s in points :: s >= d)
    ensures forall s | s in points && s < d :: s <= p
  {
    if exists s :: s in points && s <= d - 1 then MaxAtMost(points, d - 1) else 0
  }

  /** The rows both the unlink loop and the DELETE statement match. */
  predicate Collected(r: Row, d: Time, pred: Time) {
    r.rpTime == d && r.accessTime > pred
  }

  function Merged(r: Row, d: Time, pred: Time): Row {
    if r.rpTime == d then r.(rpTime := pred) else r
  }

  /** The table after DELETE and UPDATE for the deleted point `d`. */
  function DeleteRows(rows: seq<Row>, d: Time, pred: Time): seq<Row> {
    if rows == [] then []
    else
      var last := rows[|rows| - 1];
      var rest := DeleteRows(rows[..|rows| - 1], d, pred);
      if Collected(last, d, pred) then rest else rest + [Merged(last, d, pred)]
  }

  function CollectedRows(rows: seq<Row>, d: Time, pred: Time): (gone: seq<Row>)
    ensures forall r :: r in gone <==> r in rows && Collected(r, d, pred)
  {
    if rows == [] then []
    else
      var last := rows[|rows| - 1];
      var rest := CollectedRows(rows[..|rows| - 1], d, pred);
      if Collected(last, d, pred) then rest + [last] else rest
  }

  /** Equal but for rp_time, the one column that replay never reads. */
  predicate SameApartFromStamp(a: seq<Row>, b: seq<Row>) {
    |a| == |b| && forall i | 0 <= i < |a| :: a[i] == b[i].(rpTime := a[i].rpTime)
  }

  /** No two rows name the same saved copy. */
  predicate DistinctCopies(rows: seq<Row>) {
    forall i, j | 0 <= i < j < |rows| && rows[i].HoldsCopy() && rows[j].HoldsCopy() :: rows[i].name != rows[j].name
  }

  /** Every row left is a merged survivor. */
  lemma {:induction false} DeletionMembers(rows: seq<Row>, d: Time, pred: Time)
    ensures forall m | m in DeleteRows(rows, d, pred) ::
              exists r :: r in rows && !Collected(r, d, pred) && m == Merged(r, d, pred)
  {
    if rows != [] {
      DeletionMembers(rows[..|rows| - 1], d, pred);
      assert rows == rows[..|rows| - 1] + [rows[|rows| - 1]];
    }
  }

  lemma {:induction false} DeletionKeepsDistinct(rows: seq<Row>, d: Time, pred: Time)
    requires DistinctCopies(rows)
    ensures DistinctCopies(DeleteRows(rows, d, pred))
    ensures forall m | m in DeleteRows(rows, d, pred) ::
              exists r :: r in rows && !Collected(r, d, pred) && m == Merged(r, d, pred)
  {
    DeletionMembers(rows, d, pred);
    if rows != [] {
      var init, last := rows[..|rows| - 1], rows[|rows| - 1];
      DeletionKeepsDistinct(init, d, pred);
      var kept := DeleteRows(init, d, pred);
      assert rows == init + [last];
      assert forall r | r in init && r.HoldsCopy() && last.HoldsCopy() :: r.name != last.name;
      assert forall i | 0 <= i < |kept| :: kept[i] in kept;
    }
  }

  lemma {:induction false} SurvivorMerged(rows: seq<Row>, d: Time, pred: Time, r: Row)
    requires r in rows && !Collected(r, d, pred)
    ensures Merged(r, d, pred) in DeleteRows(rows, d, pred)
  {
    var init, last := rows[..|rows| - 1], rows[|rows| - 1];
    assert rows == init + [last];
    if r in init {
      SurvivorMerged(init, d, pred, r);
    }
  }

  // ---- Deletion preserves what every other point selects ----

  lemma RowSelection(r: Row, points: set<Time>, d: Time, t: Time)
    requires forall s | s in points :: s > 0
    requires d in points && t in points && t != d
    ensures
      var pred := Predecessor(points, d);
      if Collected(r, d, pred) then !r.Covers(t) else Merged(r, d, pred).Covers(t) == r.Covers(t)
  {
  }

  lemma SameSnoc(a: seq<Row>, b: seq<Row>, x: Row, y: Row)
    requires SameApartFromStamp(a, b) && x == y.(rpTime := x.rpTime)
    ensures SameApartFromStamp(a + [x], b + [y])
  {
  }

  lemma {:induction false} SelectPreserved(rows: seq<Row>, points: set<Time>, d: Time, t: Time)
    requires forall s | s in points :: s > 0
    requires d in points && t in points && t != d
    ensures SameApartFromStamp(Select(DeleteRows(rows, d, Predecessor(points, d)), t), Select(rows, t))
  {
    if rows != [] {
      var pred := Predecessor(points, d);
      var init, last := rows[..|rows| - 1], rows[|rows| - 1];
      SelectPreserved(init, points, d, t);
      RowSelection(last, points, d, t);
      if !Collected(last, d, pred) {
        var kept, merged := DeleteRows(init, d, pred), Merged(last, d, pred);
        SelectAppend(kept, merged, t);
        SameSnoc(Select(kept, t), Select(init, t), merged, last);
      }
    }
  }

  // ---- Garbage collection is exact ----

  /** Every row is selectable: its rp_time is a live point not before its access_time. */
  predicate Selectable(rows: seq<Row>, points: set<Time>) {
    forall i | 0 <= i < |rows| :: rows[i].rpTime in points && rows[i].accessTime <= rows[i].rpTime
  }

  lemma CollectedExactly(r: Row, points: set<Time>, d: Time)
    requires forall s | s in points :: s > 0
    requires r.rpTime in points && r.accessTime <= r.rpTime && r.accessTime > 0
    requires d in points
    ensures Collected(r, d, Predecessor(points, d)) <==> forall t | t in points - {d} :: !r.Covers(t)
  {
    var pred := Predecessor(points, d);
    if r.rpTime != d {
      assert r.Covers(r.rpTime);
    } else if r.accessTime <= pred {
      assert pred in points - {d} && r.Covers(pred);
    }
  }

  lemma {:induction false} DeletionKeepsSelectable(rows: seq<Row>, points: set<Time>, d: Time)
    requires forall s | s in points :: s > 0
    requires forall r | r in rows :: r.accessTime > 0
    requires d in points && Selectable(rows, points)
    ensures Selectable(DeleteRows(rows, d, Predecessor(points, d)), points - {d})
  {
    if rows != [] {
      var init := rows[..|rows| - 1];
      assert Selectable(init, points);
      DeletionKeepsSelectable(init, points, d);
      var last := rows[|rows| - 1];
      assert last in rows;
    }
  }

  // ---- Closed form of any sequence of deletions ----

  predicate HasPoint(points: set<Time>, r: Row) {
    exists s :: s in points && r.Covers(s)
  }

  /** The table of the original `rows` when only `points` survive. */
  ghost function Closed(rows: seq<Row>, points: set<Time>): seq<Row> {
    if rows == [] then []
    else
      var last := rows[|rows| - 1];
      var rest := Closed(rows[..|rows| - 1], points);
      if HasPoint(points, last) then rest + [last.(rpTime := MaxAtMost(points, last.rpTime))] else rest
  }

  ghost function DeleteAll(rows: seq<Row>, points: set<Time>, ds: seq<Time>): (seq<Row>, set<Time>)
    decreases |ds|
  {
    if ds == [] then (rows, points)
    else DeleteAll(DeleteRows(rows, ds[0], Predecessor(points, ds[0])), points - {ds[0]}, ds[1..])
  }

  lemma ClosedRow(r: Row, points: set<Time>, d: Time)
    requires forall s | s in points :: s > 0
    requires r.accessTime > 0 && d in points && HasPoint(points, r)
    ensures
      var now := r.(rpTime := MaxAtMost(points, r.rpTime));
      var pred := Predecessor(points, d);
      && (Collected(now, d, pred) <==> !HasPoint(points - {d}, r))
      && (HasPoint(points - {d}, r) ==> Merged(now, d, pred) == r.(rpTime := MaxAtMost(points - {d}, r.rpTime)))
  {
    var m := MaxAtMost(points, r.rpTime);
    var pred := Predecessor(points, d);
    var s0 :| s0 in points && r.Covers(s0);
    if m == d {
      if r.accessTime <= pred {
        assert pred in points - {d} && r.Covers(pred);
      }
    } else {
      assert m in points - {d} && r.Covers(m);
    }
    if HasPoint(points - {d}, r) {
      var n := MaxAtMost(points - {d}, r.rpTime);
      if m != d {
        assert m in points - {d};
      } else {
        var s1 :| s1 in points - {d} && r.Covers(s1);
        assert s1 < d;
        assert pred in points - {d};
      }
    }
  }

  lemma {:induction false} ClosedStep(rows: seq<Row>, points: set<Time>, d: Time)
    requires forall s | s in points :: s > 0
    requires forall r | r in rows :: r.accessTime > 0
    requires d in points
    ensures DeleteRows(Closed(rows, points), d, Predecessor(points, d)) == Closed(rows, points - {d})
  {
    if rows != [] {
      var init, last := rows[..|rows| - 1], rows[|rows| - 1];
      assert forall r | r in init :: r in rows;
      ClosedStep(init, points, d);
      assert last in rows;
      var c := Closed(init, points);
      if HasPoint(points, last) {
        ClosedRow(last, points, d);
        var now := last.(rpTime := MaxAtMost(points, last.rpTime));
        assert (c + [now])[..|c|] == c;
      } else {
        assert !HasPoint(points - {d}, last);
        assert Closed(rows, points) == c;
      }
    }
  }

  lemma {:induction false} ClosedInitially(rows: seq<Row>, points: set<Time>)
    requires Selectable(rows, points)
    ensures Closed(rows, points) == rows
  {
    if rows != [] {
      var init, last := rows[..|rows| - 1], rows[|rows| - 1];
      assert Selectable(init, points);
      ClosedInitially(init, points);
      assert last.Covers(last.rpTime);
      assert MaxAtMost(points, last.rpTime) == last.rpTime;
    }
  }

  predicate DistinctPoints(points: set<Time>, ds: seq<Time>) {
    && (forall i | 0 <= i < |ds| :: ds[i] in points)
    && (forall i, j | 0 <= i < j < |ds| :: ds[i] != ds[j])
  }

  lemma {:induction false} DeleteAllFrom(rows: seq<Row>, points: set<Time>, ds: seq<Time>)
    requires forall s | s in points :: s > 0
    requires forall r | r in rows :: r.accessTime > 0
    requires DistinctPoints(points, ds)
    ensures
      var left := points - set d | d in ds;
      DeleteAll(Closed(rows, points), points, ds) == (Closed(rows, left), left)
    decreases |ds|
  {
    if ds == [] {
      assert points - (set d | d in ds) == points;
    } else {
      ClosedStep(rows, points, ds[0]);
      DeleteAllFrom(rows, points - {ds[0]}, ds[1..]);
      assert points - (set d | d in ds) == (points - {ds[0]}) - set d | d in ds[1..] by {
        assert ds == [ds[0]] + ds[1..];
      }
    }
  }

  /** After any deletions the table is the closed form over the survivors. */
  lemma DeletionsClosedForm(rows: seq<Row>, points: set<Time>, ds: seq<Time>)
    requires forall s | s in points :: s > 0
    requires forall r | r in rows :: r.accessTime > 0
    requires Selectable(rows, points)
    requires DistinctPoints(points, ds)
    ensures
      var left := points - set d | d in ds;
      DeleteAll(rows, points, ds) == (Closed(rows, left), left)
  {
    ClosedInitially(rows, points);
    DeleteAllFrom(rows, points, ds);
  }

  /** Deletions commute: only the set of deleted points matters. */
  lemma DeletionsCommute(rows: seq<Row>, points: set<Time>, ds: seq<Time>, es: seq<Time>)
    requires forall s | s in points :: s > 0
    requires forall r | r in rows :: r.accessTime > 0
    requires Selectable(rows, points)
    requires DistinctPoints(points, ds) && DistinctPoints(points, es)
    requires forall d :: d in ds <==> d in es
    ensures DeleteAll(rows, points, ds) == DeleteAll(rows, points, es)
  {
    DeletionsClosedForm(rows, points, ds);
    DeletionsClosedForm(rows, points, es);
    assert (set d | d in ds) == (set d | d in es);
  }

  /** What membership in the closed form means, row by row. */
  lemma {:induction false} ClosedMembers(rows: seq<Row>, points: set<Time>, r: Row)
    ensures r in Closed(rows, points) <==>
            exists o :: o in rows && HasPoint(points, o) && r == o.(rpTime := r.rpTime)
                        && r.rpTime in points && r.rpTime <= o.rpTime
                        && forall s | s in points && s <= o.rpTime :: s <= r.rpTime
  {
    if rows != [] {
      var init, last := rows[..|rows| - 1], rows[|rows| - 1];
      ClosedMembers(init, points, r);
      assert rows == init + [last];
    }
  }

  /** With access_time 0 a row outlives every point, so access_time > 0 is needed. */
  lemma ZeroAccessTimeOutlives(r: Row, d: Time)
    requires r.rpTime == d && d > 0
    ensures DeleteRows([r], d, Predecessor({d}, d)) == [] <==> r.accessTime > 0
  {
    assert [r][..0] == [];
  }
}
