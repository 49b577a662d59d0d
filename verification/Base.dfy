/** Types shared by every component. */
module Base {
  datatype Option<+T> = None | Some(value: T)

  /** Seconds, as in `time_t`. */
  type Time = int
  type Path = string
  /** What a file holds. */
  type Content = string

  /** `m` is the latest of `points` that is not after `bound`. */
  predicate IsMax(points: set<Time>, bound: Time, m: Time) {
    m in points && m <= bound && forall s | s in points && s <= bound :: s <= m
  }

  lemma {:induction false} MaxExists(points: set<Time>, bound: Time, y: Time)
    requires y in points && y <= bound
    ensures exists m :: IsMax(points, bound, m)
    decreases bound - y
  {
    if z :| z in points && y < z <= bound {
      MaxExists(points, bound, z);
    } else {
      assert IsMax(points, bound, y);
    }
  }

  /** The latest of `points` that is not after `bound`. */
  ghost function MaxAtMost(points: set<Time>, bound: Time): (m: Time)
    requires exists s :: s in points && s <= bound
    ensures m in points && m <= bound && forall s | s in points && s <= bound :: s <= m
  {
    var y :| y in points && y <= bound;
    MaxExists(points, bound, y);
    var m :| IsMax(points, bound, m);
    m
  }
}
