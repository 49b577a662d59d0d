/**
 * A volume and the pipeline that carries its log, running together. The hooks print
 * their records, the single steps of the pipeline move them, and the daemon stamps
 * and stores them when it gets to them; deletions work on the stored table.
 */
module Joined {
  import opened Base
  import opened Table
  import opened Volume
  import opened Restore
  import opened TimeTravel
  import opened Decimal
  import opened Records
  import opened HexNames
  import opened Delivery
  import Pipeline
  import Daemon

  // ---- The stored table ----

  /** A stored row: the stamp the daemon gives it, and the columns as text. */
  datatype Stored = Stored(rpTime: Time, fields: Fields) {
    function AccessTime(): Time {
      if |fields| == 8 then Atoi(fields[7]) else 0
    }
  }

  /** The stored row has the row's stamp, and its columns for some owner of the file. */
  ghost predicate Stores(md5: string -> seq<Byte>, st: Stored, r: Row) {
    st.rpTime == r.rpTime && exists o: Owner :: Columns(md5, st.fields, r, o)
  }

  /** Row by row, the table holds the columns and stamps of `rows`. */
  ghost predicate Matches(md5: string -> seq<Byte>, db: seq<Stored>, rows: seq<Row>) {
    |db| == |rows| && forall i | 0 <= i < |db| :: Stores(md5, db[i], rows[i])
  }

  /** The DELETE and UPDATE statements. */
  function DeleteStored(db: seq<Stored>, d: Time, pred: Time): seq<Stored> {
    if db == [] then []
    else
      var last := db[|db| - 1];
      var rest := DeleteStored(db[..|db| - 1], d, pred);
      if last.rpTime != d then rest + [last]
      else if last.AccessTime() > pred then rest
      else rest + [last.(rpTime := pred)]
  }

  /** The SELECT of a restore. */
  function SelectStored(db: seq<Stored>, t: Time): seq<Stored> {
    if db == [] then []
    else
      var last := db[|db| - 1];
      var rest := SelectStored(db[..|db| - 1], t);
      if last.AccessTime() <= t <= last.rpTime then rest + [last] else rest
  }

  lemma StoresAccess(md5: string -> seq<Byte>, st: Stored, r: Row)
    requires Stores(md5, st, r)
    ensures st.AccessTime() == r.accessTime
  {
  }

  lemma StoresRestamped(md5: string -> seq<Byte>, st: Stored, r: Row, stamp: Time)
    requires Stores(md5, st, r)
    ensures Stores(md5, st.(rpTime := stamp), r.(rpTime := stamp))
  {
    var o: Owner :| Columns(md5, st.fields, r, o);
    assert Columns(md5, st.fields, r.(rpTime := stamp), o);
  }

  lemma MatchesSnoc(md5: string -> seq<Byte>, db: seq<Stored>, rows: seq<Row>, st: Stored, r: Row)
    requires Matches(md5, db, rows) && Stores(md5, st, r)
    ensures Matches(md5, db + [st], rows + [r])
  {
  }

  lemma MatchesLast(md5: string -> seq<Byte>, db: seq<Stored>, rows: seq<Row>)
    requires Matches(md5, db, rows) && db != []
    ensures
      var n := |db| - 1;
      && rows != [] && |rows| - 1 == n && Matches(md5, db[..n], rows[..n]) && Stores(md5, db[n], rows[n])
      && db[n].AccessTime() == rows[n].accessTime && db[n].rpTime == rows[n].rpTime
  {
    StoresAccess(md5, db[|db| - 1], rows[|db| - 1]);
  }

  lemma {:induction false} DeletionMatches(md5: string -> seq<Byte>, db: seq<Stored>, rows: seq<Row>, d: Time, pred: Time)
    requires Matches(md5, db, rows)
    ensures Matches(md5, DeleteStored(db, d, pred), DeleteRows(rows, d, pred))
  {
    if db != [] {
      var n := |db| - 1;
      MatchesLast(md5, db, rows);
      DeletionMatches(md5, db[..n], rows[..n], d, pred);
      if !Collected(rows[n], d, pred) {
        StoresRestamped(md5, db[n], rows[n], Merged(rows[n], d, pred).rpTime);
        MatchesSnoc(md5, DeleteStored(db[..n], d, pred), DeleteRows(rows[..n], d, pred),
                    db[n].(rpTime := Merged(rows[n], d, pred).rpTime), Merged(rows[n], d, pred));
      }
    }
  }

  /** A restore of the stored table selects the rows a restore of the log selects. */
  lemma {:induction false} SelectionMatches(md5: string -> seq<Byte>, db: seq<Stored>, rows: seq<Row>, t: Time)
    requires Matches(md5, db, rows)
    ensures Matches(md5, SelectStored(db, t), Select(rows, t))
  {
    if db != [] {
      var n := |db| - 1;
      MatchesLast(md5, db, rows);
      SelectionMatches(md5, db[..n], rows[..n], t);
      if rows[n].Covers(t) {
        MatchesSnoc(md5, SelectStored(db[..n], t), Select(rows[..n], t), db[n], rows[n]);
      }
    }
  }

  /** Rows stamped otherwise are not touched by a deletion. */
  lemma {:induction false} DeleteBefore(db: seq<Stored>, waiting: seq<Stored>, d: Time, pred: Time)
    requires forall st | st in waiting :: st.rpTime != d
    ensures DeleteStored(db + waiting, d, pred) == DeleteStored(db, d, pred) + waiting
    decreases |waiting|
  {
    if waiting == [] {
      assert db + waiting == db;
    } else {
      var n := |waiting| - 1;
      assert (db + waiting)[..|db| + n] == db + waiting[..n];
      DeleteBefore(db, waiting[..n], d, pred);
      assert waiting == waiting[..n] + [waiting[n]];
    }
  }

  // ---- The joint machine ----

  /** A hook or command, with the owner its record would name, or a step of the pipeline. */
  datatype Move = Hooked(event: Event, owner: Owner) | Piped(action: Pipeline.Action)

  /**
   * `sys` is the volume, with the table its log amounts to; `db` is the table the
   * daemon keeps; `printed` are the records the hooks have printed.
   */
  datatype Joint = Joint(sys: Sys, printed: seq<Fields>, pipe: Pipeline.State, db: seq<Stored>)

  function StampAll(groups: seq<Fields>, stamp: Time): (db: seq<Stored>)
    ensures |db| == |groups| && forall i | 0 <= i < |db| :: db[i] == Stored(stamp, groups[i])
  {
    seq(|groups|, i requires 0 <= i < |groups| => Stored(stamp, groups[i]))
  }

  /** Everything printed has been stored. */
  predicate Drained(j: Joint) {
    j.pipe.accepted == j.printed && j.pipe.carry + Pipeline.Got(j.pipe) + j.pipe.ring == ""
  }

  /**
   * A history the volume allows, whose records enter the device in the order they were
   * printed, and are all stored before a point is made or the current one deleted.
   */
  ghost predicate Permitted(cfg: Pipeline.Config, mode: UndoMode, j: Joint, m: Move) {
    match m
    case Hooked(e, _) => Allowed(mode, j.sys, e) && (e.op.NewPoint? || e.op == DeletePoint(j.sys.epoch) ==> Drained(j))
    case Piped(a) =>
      && (a.Submit? ==> Pipeline.Good(cfg, a.rec))
      && Pipeline.Do(cfg, j.pipe, a).accepted <= j.printed
  }

  ghost function Perform(cfg: Pipeline.Config, mode: UndoMode, md5: string -> seq<Byte>, j: Joint, m: Move): Joint
    requires Permitted(cfg, mode, j, m)
  {
    match m
    case Hooked(e, o) =>
      Joint(Apply(j.sys, e),
            if Logged(j.sys, e).Some? then j.printed + [FieldsOf(Printed(md5, Logged(j.sys, e).value, o))] else j.printed,
            j.pipe,
            if e.op.DeletePoint? then DeleteStored(j.db, e.op.point, Predecessor(j.sys.points, e.op.point)) else j.db)
    case Piped(a) =>
      var pipe := Pipeline.Do(cfg, j.pipe, a);
      var added := if |j.pipe.groups| <= |pipe.groups| then pipe.groups[|j.pipe.groups|..] else [];
      j.(pipe := pipe, db := j.db + StampAll(added, j.sys.epoch))
  }

  ghost predicate Lawful(cfg: Pipeline.Config, mode: UndoMode, md5: string -> seq<Byte>, j: Joint, moves: seq<Move>)
    decreases |moves|
  {
    moves == []
    || (Permitted(cfg, mode, j, moves[0]) && Lawful(cfg, mode, md5, Perform(cfg, mode, md5, j, moves[0]), moves[1..]))
  }

  ghost function End(cfg: Pipeline.Config, mode: UndoMode, md5: string -> seq<Byte>, j: Joint, moves: seq<Move>): Joint
    requires Lawful(cfg, mode, md5, j, moves)
    decreases |moves|
  {
    if moves == [] then j else End(cfg, mode, md5, Perform(cfg, mode, md5, j, moves[0]), moves[1..])
  }

  /** What happened on the volume. */
  function History(moves: seq<Move>): seq<Event> {
    if moves == [] then []
    else (if moves[0].Hooked? then [moves[0].event] else []) + History(moves[1..])
  }

  // ---- The invariant ----

  /** What is printed and not yet stored, as it would be stored now. */
  function Waiting(j: Joint): seq<Stored> {
    if |j.pipe.groups| <= |j.printed| then StampAll(j.printed[|j.pipe.groups|..], j.sys.epoch) else []
  }

  /** Together with what is waiting, the daemon's table is the log. */
  ghost predicate Linked(md5: string -> seq<Byte>, j: Joint) {
    j.pipe.groups <= j.printed && Matches(md5, j.db + Waiting(j), j.sys.rows)
  }

  lemma HookLinked(cfg: Pipeline.Config, mode: UndoMode, md5: string -> seq<Byte>, j: Joint, e: Event, o: Owner)
    requires Linked(md5, j) && Permitted(cfg, mode, j, Hooked(e, o)) && !e.op.DeletePoint?
    requires e.op.NewPoint? ==> |j.pipe.groups| == |j.printed|
    ensures Linked(md5, Perform(cfg, mode, md5, j, Hooked(e, o)))
  {
    LogsOneRow(j.sys, e);
    var j' := Perform(cfg, mode, md5, j, Hooked(e, o));
    match Logged(j.sys, e)
    case None => assert Waiting(j') == Waiting(j);
    case Some(r) =>
      var st := Stored(j.sys.epoch, FieldsOf(Printed(md5, r, o)));
      PrintedColumns(md5, r, o);
      assert Stores(md5, st, r);
      MatchesSnoc(md5, j.db + Waiting(j), j.sys.rows, st, r);
      assert Waiting(j') == Waiting(j) + [st];
      assert j'.db + Waiting(j') == j.db + Waiting(j) + [st];
  }

  lemma DeletionLinked(cfg: Pipeline.Config, mode: UndoMode, md5: string -> seq<Byte>, j: Joint, e: Event, o: Owner)
    requires Linked(md5, j) && Permitted(cfg, mode, j, Hooked(e, o)) && e.op.DeletePoint?
    requires e.op.point == j.sys.epoch ==> |j.pipe.groups| == |j.printed|
    ensures Linked(md5, Perform(cfg, mode, md5, j, Hooked(e, o)))
  {
    var d, pred := e.op.point, Predecessor(j.sys.points, e.op.point);
    DeletionMatches(md5, j.db + Waiting(j), j.sys.rows, d, pred);
    DeleteBefore(j.db, Waiting(j), d, pred);
    assert Waiting(Perform(cfg, mode, md5, j, Hooked(e, o))) == Waiting(j);
  }

  /** Groups are only ever appended. */
  lemma GroupsGrow(cfg: Pipeline.Config, s: Pipeline.State, a: Pipeline.Action)
    ensures s.groups <= Pipeline.Do(cfg, s, a).groups
  {
  }

  lemma PipeLinked(cfg: Pipeline.Config, mode: UndoMode, md5: string -> seq<Byte>, j: Joint, a: Pipeline.Action)
    requires Linked(md5, j) && Permitted(cfg, mode, j, Piped(a)) && Pipeline.Inv(cfg, j.pipe)
    ensures Linked(md5, Perform(cfg, mode, md5, j, Piped(a)))
  {
    Pipeline.Step(cfg, j.pipe, a);
    GroupsGrow(cfg, j.pipe, a);
    var pipe := Pipeline.Do(cfg, j.pipe, a);
    StoringLinked(md5, j, pipe);
  }

  lemma WaitingSplit(j: Joint, pipe: Pipeline.State)
    requires j.pipe.groups <= pipe.groups <= j.printed
    ensures Waiting(j) == StampAll(pipe.groups[|j.pipe.groups|..], j.sys.epoch) + Waiting(j.(pipe := pipe))
  {
    assert j.printed[|j.pipe.groups|..] == pipe.groups[|j.pipe.groups|..] + j.printed[|pipe.groups|..];
  }

  lemma Regroup(a: seq<Stored>, b: seq<Stored>, c: seq<Stored>)
    ensures (a + b) + c == a + (b + c)
  {
  }

  lemma StoringLinked(md5: string -> seq<Byte>, j: Joint, pipe: Pipeline.State)
    requires Linked(md5, j) && j.pipe.groups <= pipe.groups <= j.printed
    ensures
      var added := pipe.groups[|j.pipe.groups|..];
      Linked(md5, j.(pipe := pipe, db := j.db + StampAll(added, j.sys.epoch)))
  {
    WaitingSplit(j, pipe);
    Regroup(j.db, StampAll(pipe.groups[|j.pipe.groups|..], j.sys.epoch), Waiting(j.(pipe := pipe)));
  }

  lemma DrainedStored(cfg: Pipeline.Config, j: Joint)
    requires Pipeline.Inv(cfg, j.pipe) && Drained(j)
    ensures |j.pipe.groups| == |j.printed|
  {
    Pipeline.NothingPrinted(Pipeline.Unstored(j.pipe));
  }

  lemma MoveLinked(cfg: Pipeline.Config, mode: UndoMode, md5: string -> seq<Byte>, j: Joint, m: Move)
    requires Linked(md5, j) && Permitted(cfg, mode, j, m) && Pipeline.Inv(cfg, j.pipe)
    ensures Linked(md5, Perform(cfg, mode, md5, j, m)) && Pipeline.Inv(cfg, Perform(cfg, mode, md5, j, m).pipe)
  {
    match m
    case Piped(a) =>
      Pipeline.Step(cfg, j.pipe, a);
      PipeLinked(cfg, mode, md5, j, a);
    case Hooked(e, o) =>
      if Drained(j) {
        DrainedStored(cfg, j);
      }
      if e.op.DeletePoint? {
        DeletionLinked(cfg, mode, md5, j, e, o);
      } else {
        HookLinked(cfg, mode, md5, j, e, o);
      }
  }

  lemma {:induction false} MovesLinked(cfg: Pipeline.Config, mode: UndoMode, md5: string -> seq<Byte>, j: Joint, moves: seq<Move>)
    requires Linked(md5, j) && Pipeline.Inv(cfg, j.pipe) && Lawful(cfg, mode, md5, j, moves)
    ensures Linked(md5, End(cfg, mode, md5, j, moves)) && Pipeline.Inv(cfg, End(cfg, mode, md5, j, moves).pipe)
    ensures Legal(mode, j.sys, History(moves))
    ensures End(cfg, mode, md5, j, moves).sys == Run(mode, j.sys, History(moves))
    decreases |moves|
  {
    if moves != [] {
      MoveLinked(cfg, mode, md5, j, moves[0]);
      MovesLinked(cfg, mode, md5, Perform(cfg, mode, md5, j, moves[0]), moves[1..]);
      if moves[0].Hooked? {
        assert History(moves)[1..] == History(moves[1..]);
      } else {
        assert History(moves) == History(moves[1..]);
      }
    }
  }

  /**
   * The daemon's table. However hooks, commands and pipeline interleave, the table
   * the daemon keeps is, row by row with its stamps, the front of the table of the
   * history on the volume, and all of it once everything printed is stored.
   */
  lemma TableIsTheLog(cfg: Pipeline.Config, mode: UndoMode, md5: string -> seq<Byte>, s: Sys, moves: seq<Move>)
    requires cfg.sz > 0 && Initial(s)
    requires Lawful(cfg, mode, md5, Joint(s, [], Pipeline.INITIAL, []), moves)
    ensures Legal(mode, s, History(moves))
    ensures
      var end, rows := End(cfg, mode, md5, Joint(s, [], Pipeline.INITIAL, []), moves), Run(mode, s, History(moves)).rows;
      && |end.db| <= |rows| && Matches(md5, end.db, rows[..|end.db|])
      && (Drained(end) ==> Matches(md5, end.db, rows))
  {
    var start := Joint(s, [], Pipeline.INITIAL, []);
    Pipeline.InitialInv(cfg);
    MovesLinked(cfg, mode, md5, start, moves);
    var end := End(cfg, mode, md5, start, moves);
    assert forall i | 0 <= i < |end.db| :: (end.db + Waiting(end))[i] == end.db[i];
    if Drained(end) {
      DrainedStored(cfg, end);
      assert end.db + Waiting(end) == end.db;
    }
  }

  // ---- The machine is not stuck ----

  function Pipes(schedule: seq<Pipeline.Action>): seq<Move> {
    if schedule == [] then [] else [Piped(schedule[0])] + Pipes(schedule[1..])
  }

  lemma {:induction false} LogsGrow(cfg: Pipeline.Config, s: Pipeline.State, schedule: seq<Pipeline.Action>)
    ensures s.groups <= Pipeline.Run(cfg, s, schedule).groups && s.accepted <= Pipeline.Run(cfg, s, schedule).accepted
    decreases |schedule|
  {
    if schedule != [] {
      GroupsGrow(cfg, s, schedule[0]);
      LogsGrow(cfg, Pipeline.Do(cfg, s, schedule[0]), schedule[1..]);
    }
  }

  function Storing(j: Joint, pipe: Pipeline.State): Joint
    requires j.pipe.groups <= pipe.groups
  {
    j.(pipe := pipe, db := j.db + StampAll(pipe.groups[|j.pipe.groups|..], j.sys.epoch))
  }

  lemma StoringTwice(j: Joint, mid: Pipeline.State, end: Pipeline.State)
    requires j.pipe.groups <= mid.groups <= end.groups
    ensures Storing(Storing(j, mid), end) == Storing(j, end)
  {
    assert end.groups[|j.pipe.groups|..] == mid.groups[|j.pipe.groups|..] + end.groups[|mid.groups|..];
    assert Storing(Storing(j, mid), end).db == Storing(j, end).db;
  }

  /** A schedule that accepts no record out of turn is permitted, and stores what the pipeline groups. */
  lemma {:induction false} PipesRun(cfg: Pipeline.Config, mode: UndoMode, md5: string -> seq<Byte>, j: Joint,
                                    schedule: seq<Pipeline.Action>)
    requires Pipeline.Submits(cfg, schedule) && Pipeline.Run(cfg, j.pipe, schedule).accepted <= j.printed
    ensures Lawful(cfg, mode, md5, j, Pipes(schedule)) && j.pipe.groups <= Pipeline.Run(cfg, j.pipe, schedule).groups
    ensures End(cfg, mode, md5, j, Pipes(schedule)) == Storing(j, Pipeline.Run(cfg, j.pipe, schedule))
    decreases |schedule|
  {
    var end := Pipeline.Run(cfg, j.pipe, schedule);
    LogsGrow(cfg, j.pipe, schedule);
    if schedule == [] {
      assert Storing(j, end).db == j.db;
    } else {
      var mid := Pipeline.Do(cfg, j.pipe, schedule[0]);
      GroupsGrow(cfg, j.pipe, schedule[0]);
      LogsGrow(cfg, mid, schedule[1..]);
      assert schedule[0] in schedule && Pipes(schedule)[1..] == Pipes(schedule[1..]);
      assert Perform(cfg, mode, md5, j, Piped(schedule[0])) == Storing(j, mid);
      PipesRun(cfg, mode, md5, Storing(j, mid), schedule[1..]);
      StoringTwice(j, mid, end);
    }
  }

  lemma RecordIsStored(cfg: Pipeline.Config, mode: UndoMode, md5: string -> seq<Byte>, j: Joint, pid: nat, rec: Fields)
    requires j.pipe.reader.Ready? && j.pipe.lock == Pipeline.Free && j.pipe.Pc(pid).Idle? && j.pipe.carry == j.pipe.ring == ""
    requires Pipeline.Good(cfg, rec) && |Print(rec)| <= cfg.size && j.printed == j.pipe.accepted + [rec]
    ensures
      var moves := Pipes(Daemon.DeliverSchedule(pid, rec));
      && Lawful(cfg, mode, md5, j, moves)
      && End(cfg, mode, md5, j, moves)
         == j.(pipe := j.pipe.SetPc(pid, Pipeline.Idle).(groups := j.pipe.groups + [rec], accepted := j.printed),
               db := j.db + [Stored(j.sys.epoch, rec)])
  {
    var schedule := Daemon.DeliverSchedule(pid, rec);
    var end := Pipeline.Run(cfg, j.pipe, schedule);
    Daemon.Delivered(cfg, j.pipe, pid, rec);
    assert end.accepted == j.printed;
    PipesRun(cfg, mode, md5, j, schedule);
    assert end.groups[|j.pipe.groups|..] == [rec] && StampAll([rec], j.sys.epoch) == [Stored(j.sys.epoch, rec)];
  }

  /** When nothing is under way, a hook's row can be carried to the table, and then nothing is under way again. */
  lemma HookIsStored(cfg: Pipeline.Config, mode: UndoMode, md5: string -> seq<Byte>, j: Joint, e: Event, o: Owner, pid: nat)
    requires Linked(md5, j) && Pipeline.Inv(cfg, j.pipe) && Drained(j)
    requires j.pipe.reader.Ready? && j.pipe.lock == Pipeline.Free && j.pipe.Pc(pid).Idle?
    requires Allowed(mode, j.sys, e) && Logged(j.sys, e).Some?
    requires
      var rec := FieldsOf(Printed(md5, Logged(j.sys, e).value, o));
      Pipeline.Good(cfg, rec) && |Print(rec)| <= cfg.size
    ensures
      var rec := FieldsOf(Printed(md5, Logged(j.sys, e).value, o));
      var moves := [Hooked(e, o)] + Pipes(Daemon.DeliverSchedule(pid, rec));
      && Lawful(cfg, mode, md5, j, moves)
      && var end := End(cfg, mode, md5, j, moves);
      && end.sys == Apply(j.sys, e) && end.db == j.db + [Stored(j.sys.epoch, rec)]
      && Drained(end) && end.pipe.reader.Ready? && end.pipe.lock == Pipeline.Free && end.pipe.Pc(pid).Idle?
  {
    var rec := FieldsOf(Printed(md5, Logged(j.sys, e).value, o));
    var moves := Pipes(Daemon.DeliverSchedule(pid, rec));
    LogsOneRow(j.sys, e);
    RecordIsStored(cfg, mode, md5, Perform(cfg, mode, md5, j, Hooked(e, o)), pid, rec);
    assert ([Hooked(e, o)] + moves)[1..] == moves;
  }
}
