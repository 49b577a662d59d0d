/**
 * Opening the device and reading from it: device_open, and the
 * unlock, wait and relock of device_read, for any number of processes. Only the
 * number of waiting bytes matters here.
 */
module DeviceOpen {
  import opened Base

  datatype Pc =
    | Closed
    | Opening                            // Device_Open was tested, not yet incremented
    | Opened
    | Entering(length: nat)              // before the first lock
    | Checking(length: nat)              // holds the lock, before the test of count_data
    | Asleep(length: nat)                // unlocked, in wait_event
    | Relocking(length: nat)             // awoken, before the second lock
    | Copying(length: nat, got: nat)     // holds the lock, in the loop
    | Returned(got: nat)

  datatype Owner = Free | Inserting | Reader(id: nat)

  datatype State = State(deviceOpen: nat, count: nat, lock: Owner, readers: map<nat, Pc>) {
    function Pc(r: nat): Pc {
      if r in readers then readers[r] else Closed
    }

    function Set(r: nat, pc: Pc): State {
      this.(readers := readers[r := pc])
    }
  }

  datatype Action =
    | InsertLock | InsertByte | InsertUnlock
    | TestOpen(r: nat) | CountOpen(r: nat) | Release(r: nat)
    | Read(r: nat, length: nat) | Lock(r: nat) | Test(r: nat) | Wake(r: nat) | Relock(r: nat) | GetByte(r: nat) | Unlock(r: nat)

  const INITIAL := State(0, 0, Free, map[])

  /** `atomicOpen`: the test and the increment of Device_Open are one step. */
  function Do(atomicOpen: bool, s: State, a: Action): State {
    match a
    case InsertLock => if s.lock == Free then s.(lock := Inserting) else s
    case InsertByte => if s.lock == Inserting then s.(count := s.count + 1) else s
    case InsertUnlock => if s.lock == Inserting then s.(lock := Free) else s
    case TestOpen(r) =>
      if !s.Pc(r).Closed? || s.deviceOpen != 0 then s
      else if atomicOpen then s.Set(r, Opened).(deviceOpen := 1)
      else s.Set(r, Opening)
    case CountOpen(r) => if s.Pc(r).Opening? then s.Set(r, Opened).(deviceOpen := s.deviceOpen + 1) else s
    case Release(r) =>
      if (s.Pc(r).Opened? || s.Pc(r).Returned?) && s.deviceOpen > 0
      then s.Set(r, Closed).(deviceOpen := s.deviceOpen - 1)
      else s
    case Read(r, length) =>
      if (s.Pc(r).Opened? || s.Pc(r).Returned?) && length > 0 then s.Set(r, Entering(length)) else s
    case Lock(r) =>
      if s.Pc(r).Entering? && s.lock == Free then s.Set(r, Checking(s.Pc(r).length)).(lock := Reader(r)) else s
    case Test(r) =>
      if !s.Pc(r).Checking? then s
      else if s.count == 0 then s.Set(r, Asleep(s.Pc(r).length)).(lock := Free)
      else s.Set(r, Copying(s.Pc(r).length, 0))
    case Wake(r) => if s.Pc(r).Asleep? && s.count != 0 then s.Set(r, Relocking(s.Pc(r).length)) else s
    case Relock(r) =>
      if s.Pc(r).Relocking? && s.lock == Free then s.Set(r, Copying(s.Pc(r).length, 0)).(lock := Reader(r)) else s
    case GetByte(r) =>
      if s.Pc(r).Copying? && s.Pc(r).got < s.Pc(r).length && s.count > 0
      then s.Set(r, Copying(s.Pc(r).length, s.Pc(r).got + 1)).(count := s.count - 1)
      else s
    case Unlock(r) =>
      if s.Pc(r).Copying? && (s.Pc(r).got >= s.Pc(r).length || s.count == 0)
      then s.Set(r, Returned(s.Pc(r).got)).(lock := Free)
      else s
  }

  function Run(atomicOpen: bool, s: State, schedule: seq<Action>): State
    decreases |schedule|
  {
    if schedule == [] then s else Run(atomicOpen, Do(atomicOpen, s, schedule[0]), schedule[1..])
  }

  /** No read has come back empty. */
  predicate Fed(s: State) {
    forall r | r in s.readers :: s.readers[r].Returned? ==> s.readers[r].got > 0
  }

  /** At most one process is past open, and the bytes it was promised are still there. */
  ghost predicate Inv(s: State) {
    && (forall r, q | r in s.readers && q in s.readers && !s.readers[r].Closed? && !s.readers[q].Closed? :: r == q)
    && (forall r | r in s.readers && !s.readers[r].Closed? :: s.deviceOpen == 1 && ReaderOk(s, s.readers[r]))
  }

  predicate ReaderOk(s: State, pc: Pc) {
    match pc
    case Opening => false
    case Entering(length) => length > 0
    case Checking(length) => length > 0
    case Asleep(length) => length > 0
    case Relocking(length) => length > 0 && s.count > 0
    case Copying(length, got) => length > 0 && got + s.count > 0
    case Returned(got) => got > 0
    case _ => true
  }

  lemma StepKeepsInv(s: State, a: Action)
    requires Inv(s)
    ensures Inv(Do(true, s, a))
  {
  }

  lemma {:induction false} RunKeepsInv(s: State, schedule: seq<Action>)
    requires Inv(s)
    ensures Inv(Run(true, s, schedule))
    decreases |schedule|
  {
    if schedule != [] {
      StepKeepsInv(s, schedule[0]);
      RunKeepsInv(Do(true, s, schedule[0]), schedule[1..]);
    }
  }

  lemma RunCons(s: State, a: Action, rest: seq<Action>)
    ensures Run(false, s, [a] + rest) == Run(false, Do(false, s, a), rest)
  {
    assert ([a] + rest)[1..] == rest;
  }

  lemma RunThree(s: State, a: Action, b: Action, c: Action, rest: seq<Action>)
    ensures Run(false, s, [a, b, c] + rest) == Run(false, Do(false, Do(false, Do(false, s, a), b), c), rest)
  {
    RunCons(s, a, [b, c] + rest);
    RunCons(Do(false, s, a), b, [c] + rest);
    RunCons(Do(false, Do(false, s, a), b), c, rest);
    assert [a] + ([b, c] + rest) == [a, b, c] + rest && [b] + ([c] + rest) == [b, c] + rest;
  }

  // ---- One process alone ----

  function Actor(a: Action): Option<nat> {
    match a
    case InsertLock => None
    case InsertByte => None
    case InsertUnlock => None
    case TestOpen(r) => Some(r)
    case CountOpen(r) => Some(r)
    case Release(r) => Some(r)
    case Read(r, _) => Some(r)
    case Lock(r) => Some(r)
    case Test(r) => Some(r)
    case Wake(r) => Some(r)
    case Relock(r) => Some(r)
    case GetByte(r) => Some(r)
    case Unlock(r) => Some(r)
  }

  /** Only these processes open and read; hooks insert as they like. */
  predicate By(schedule: seq<Action>, procs: set<nat>) {
    forall a | a in schedule && Actor(a).Some? :: Actor(a).value in procs
  }

  /** With nobody to race, Device_Open counts the one process that is past open. */
  predicate Solo(s: State, id: nat) {
    && s.readers.Keys <= {id}
    && if s.Pc(id).Closed? || s.Pc(id).Opening? then s.deviceOpen == 0 else s.deviceOpen == 1 && ReaderOk(s, s.Pc(id))
  }

  lemma {:induction false} RunKeepsSolo(s: State, schedule: seq<Action>, id: nat)
    requires Solo(s, id) && By(schedule, {id})
    ensures Solo(Run(false, s, schedule), id)
    decreases |schedule|
  {
    if schedule != [] {
      assert schedule[0] in schedule;
      RunKeepsSolo(Do(false, s, schedule[0]), schedule[1..], id);
    }
  }

  // ---- Two processes: both pass the test before either counts itself, and both wait for the same byte ----

  function BothOpening(a: nat, b: nat): State {
    State(1, 0, Free, map[a := Opened, b := Opening])
  }

  function BothReading(a: nat, b: nat): State {
    State(2, 0, Free, map[a := Entering(1), b := Entering(1)])
  }

  function OneAsleep(a: nat, b: nat): State {
    State(2, 0, Inserting, map[a := Entering(1), b := Asleep(1)])
  }

  function OneAwoken(a: nat, b: nat): State {
    State(2, 1, Free, map[a := Entering(1), b := Relocking(1)])
  }

  function ByteTaken(a: nat, b: nat): State {
    State(2, 0, Reader(a), map[a := Copying(1, 1), b := Relocking(1)])
  }

  function OneStarved(a: nat, b: nat): State {
    State(2, 0, Free, map[a := Returned(1), b := Returned(0)])
  }

  lemma RaceOpens(a: nat, b: nat, rest: seq<Action>)
    requires a != b
    ensures Run(false, INITIAL, [TestOpen(a), TestOpen(b), CountOpen(a)] + rest) == Run(false, BothOpening(a, b), rest)
  {
    RunThree(INITIAL, TestOpen(a), TestOpen(b), CountOpen(a), rest);
    assert Do(false, Do(false, Do(false, INITIAL, TestOpen(a)), TestOpen(b)), CountOpen(a)) == BothOpening(a, b);
  }

  lemma RaceReads(a: nat, b: nat, rest: seq<Action>)
    requires a != b
    ensures Run(false, BothOpening(a, b), [CountOpen(b), Read(a, 1), Read(b, 1)] + rest) == Run(false, BothReading(a, b), rest)
  {
    RunThree(BothOpening(a, b), CountOpen(b), Read(a, 1), Read(b, 1), rest);
    assert Do(false, Do(false, Do(false, BothOpening(a, b), CountOpen(b)), Read(a, 1)), Read(b, 1)) == BothReading(a, b);
  }

  lemma RaceSleeps(a: nat, b: nat, rest: seq<Action>)
    requires a != b
    ensures Run(false, BothReading(a, b), [Lock(b), Test(b), InsertLock] + rest) == Run(false, OneAsleep(a, b), rest)
  {
    RunThree(BothReading(a, b), Lock(b), Test(b), InsertLock, rest);
    assert Do(false, Do(false, Do(false, BothReading(a, b), Lock(b)), Test(b)), InsertLock) == OneAsleep(a, b);
  }

  lemma RaceWakes(a: nat, b: nat, rest: seq<Action>)
    requires a != b
    ensures Run(false, OneAsleep(a, b), [InsertByte, InsertUnlock, Wake(b)] + rest) == Run(false, OneAwoken(a, b), rest)
  {
    RunThree(OneAsleep(a, b), InsertByte, InsertUnlock, Wake(b), rest);
    assert Do(false, Do(false, Do(false, OneAsleep(a, b), InsertByte), InsertUnlock), Wake(b)) == OneAwoken(a, b);
  }

  lemma RaceTakes(a: nat, b: nat, rest: seq<Action>)
    requires a != b
    ensures Run(false, OneAwoken(a, b), [Lock(a), Test(a), GetByte(a)] + rest) == Run(false, ByteTaken(a, b), rest)
  {
    RunThree(OneAwoken(a, b), Lock(a), Test(a), GetByte(a), rest);
    assert Do(false, Do(false, Do(false, OneAwoken(a, b), Lock(a)), Test(a)), GetByte(a)) == ByteTaken(a, b);
  }

  lemma RaceStarves(a: nat, b: nat, rest: seq<Action>)
    requires a != b
    ensures Run(false, ByteTaken(a, b), [Unlock(a), Relock(b), Unlock(b)] + rest) == Run(false, OneStarved(a, b), rest)
  {
    RunThree(ByteTaken(a, b), Unlock(a), Relock(b), Unlock(b), rest);
    assert Do(false, Do(false, Do(false, ByteTaken(a, b), Unlock(a)), Relock(b)), Unlock(b)) == OneStarved(a, b);
  }

  function RaceSchedule(a: nat, b: nat): seq<Action> {
    [TestOpen(a), TestOpen(b), CountOpen(a)]
    + ([CountOpen(b), Read(a, 1), Read(b, 1)]
    + ([Lock(b), Test(b), InsertLock]
    + ([InsertByte, InsertUnlock, Wake(b)]
    + ([Lock(a), Test(a), GetByte(a)]
    + ([Unlock(a), Relock(b), Unlock(b)] + [])))))
  }

  lemma RaceIsBetweenTwo(a: nat, b: nat)
    ensures By(RaceSchedule(a, b), {a, b})
  {
  }

  /** Two processes can starve one of them. */
  lemma RaceStarvesReader(a: nat, b: nat)
    requires a != b
    ensures By(RaceSchedule(a, b), {a, b}) && !Fed(Run(false, INITIAL, RaceSchedule(a, b)))
  {
    RaceIsBetweenTwo(a, b);
    RaceRuns(a, b);
    assert OneStarved(a, b).readers[b] == Returned(0);
  }

  lemma RaceRuns(a: nat, b: nat)
    requires a != b
    ensures Run(false, INITIAL, RaceSchedule(a, b)) == OneStarved(a, b)
  {
    var t6 := [];
    var t5 := [Unlock(a), Relock(b), Unlock(b)] + t6;
    var t4 := [Lock(a), Test(a), GetByte(a)] + t5;
    var t3 := [InsertByte, InsertUnlock, Wake(b)] + t4;
    var t2 := [Lock(b), Test(b), InsertLock] + t3;
    var t1 := [CountOpen(b), Read(a, 1), Read(b, 1)] + t2;
    RaceOpens(a, b, t1);
    RaceReads(a, b, t2);
    RaceSleeps(a, b, t3);
    RaceWakes(a, b, t4);
    RaceTakes(a, b, t5);
    RaceStarves(a, b, t6);
  }

  // ---- When reads return data ----

  lemma TwoMembers(procs: set<nat>) returns (a: nat, b: nat)
    requires |procs| > 1
    ensures a in procs && b in procs && a != b
  {
    a :| a in procs;
    assert |procs - {a}| == |procs| - 1;
    b :| b in procs - {a};
  }

  lemma OneMember(procs: set<nat>) returns (id: nat)
    requires |procs| <= 1
    ensures procs <= {id}
  {
    id := 0;
    if p :| p in procs {
      id := p;
      assert |procs - {p}| == |procs| - 1;
    }
  }

  /**
   * An uninterrupted read of positive length returns at least one byte in every
   * interleaving of the processes `procs` exactly when open is one atomic step, which
   * in the code it is not, or there is at most one process.
   */
  lemma ReadsReturnDataExactly(atomicOpen: bool, procs: set<nat>)
    ensures (forall schedule | By(schedule, procs) :: Fed(Run(atomicOpen, INITIAL, schedule)))
            <==> atomicOpen || |procs| <= 1
  {
    if atomicOpen {
      forall schedule
        ensures Fed(Run(true, INITIAL, schedule))
      {
        RunKeepsInv(INITIAL, schedule);
      }
    } else if |procs| <= 1 {
      var id := OneMember(procs);
      forall schedule | By(schedule, procs)
        ensures Fed(Run(false, INITIAL, schedule))
      {
        RunKeepsSolo(INITIAL, schedule, id);
      }
    } else {
      var a, b := TwoMembers(procs);
      RaceStarvesReader(a, b);
      assert By(RaceSchedule(a, b), procs);
    }
  }

  // ---- What one process can do alone ----

  /** Open and release: whoever opens the closed device holds it, others are refused, and a release closes it. */
  lemma OpenAndRelease(atomicOpen: bool, s: State, r: nat, q: nat)
    requires s.deviceOpen == 0 && s.Pc(r).Closed? && s.Pc(q).Closed? && q != r
    ensures
      var held := Do(atomicOpen, Do(atomicOpen, s, TestOpen(r)), CountOpen(r));
      && held == s.Set(r, Opened).(deviceOpen := 1)
      && Do(atomicOpen, held, TestOpen(q)) == held
      && Do(atomicOpen, held, Release(r)) == held.Set(r, Closed).(deviceOpen := 0)
  {
    assert s.readers[r := Opening][r := Opened] == s.readers[r := Opened];
  }

  function Gets(r: nat, n: nat): seq<Action> {
    if n == 0 then [] else [GetByte(r)] + Gets(r, n - 1)
  }

  lemma {:induction false} RunGets(s: State, r: nat, length: nat, got: nat, n: nat)
    requires s.Pc(r) == Copying(length, got) && got + n <= length && n <= s.count
    ensures
      Run(false, s, Gets(r, n)) == if n == 0 then s else s.Set(r, Copying(length, got + n)).(count := s.count - n)
    decreases n
  {
    if n > 0 {
      var s1 := s.Set(r, Copying(length, got + 1)).(count := s.count - 1);
      assert Gets(r, n)[1..] == Gets(r, n - 1) && Do(false, s, GetByte(r)) == s1;
      RunGets(s1, r, length, got + 1, n - 1);
      assert s.readers[r := Copying(length, got + 1)][r := Copying(length, got + n)] == s.readers[r := Copying(length, got + n)];
    }
  }

  lemma ReadEnters(s: State, r: nat, length: nat, rest: seq<Action>)
    requires s.Pc(r).Opened? && s.lock == Free && s.count > 0 && length > 0
    ensures
      Run(false, s, [Read(r, length), Lock(r), Test(r)] + rest)
      == Run(false, s.Set(r, Copying(length, 0)).(lock := Reader(r)), rest)
  {
    RunThree(s, Read(r, length), Lock(r), Test(r), rest);
    assert s.readers[r := Entering(length)][r := Checking(length)][r := Copying(length, 0)] == s.readers[r := Copying(length, 0)];
  }

  lemma ReadLeaves(s: State, r: nat, length: nat, n: nat)
    requires s.Pc(r) == Copying(length, n) && (n == length || s.count == 0)
    ensures Run(false, s, [Unlock(r)]) == s.Set(r, Returned(n)).(lock := Free)
  {
    RunCons(s, Unlock(r), []);
    assert [Unlock(r)] + [] == [Unlock(r)];
  }

  /** A read that finds bytes takes as many as it asks for and as there are. */
  lemma ReadTakes(s: State, r: nat, length: nat)
    requires s.Pc(r).Opened? && s.lock == Free && s.count > 0 && length > 0
    ensures
      var n := if length <= s.count then length else s.count;
      Run(false, s, [Read(r, length), Lock(r), Test(r)] + (Gets(r, n) + [Unlock(r)]))
      == s.Set(r, Returned(n)).(count := s.count - n)
  {
    var n := if length <= s.count then length else s.count;
    var s3 := s.Set(r, Copying(length, 0)).(lock := Reader(r));
    ReadEnters(s, r, length, Gets(r, n) + [Unlock(r)]);
    RunGets(s3, r, length, 0, n);
    RunAppend(s3, Gets(r, n), [Unlock(r)]);
    var s4 := s3.Set(r, Copying(length, n)).(count := s.count - n);
    ReadLeaves(s4, r, length, n);
    assert s3.readers[r := Copying(length, n)][r := Returned(n)] == s.readers[r := Returned(n)];
  }

  lemma {:induction false} RunAppend(s: State, a: seq<Action>, b: seq<Action>)
    ensures Run(false, s, a + b) == Run(false, Run(false, s, a), b)
    decreases |a|
  {
    if a == [] {
      assert a + b == b;
    } else {
      assert (a + b)[1..] == a[1..] + b;
      RunAppend(Do(false, s, a[0]), a[1..], b);
    }
  }
}
