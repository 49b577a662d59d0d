/**
 * Hooks insert records into the device's ring while the daemon reads, parses and
 * stores them: every interleaving of the single steps, byte by byte. The ring is
 * the device's FIFO of waiting bytes.
 */
module Pipeline {
  import opened Base
  import opened Records
  import opened Parser
  import opened Stream
  import Chardev

  /** The daemon's SZ and the device's SIZE. */
  datatype Config = Config(sz: nat, size: nat)

  /** Where a hook is inside char_dev_buffer_insert. */
  datatype ProducerPc =
    | Idle
    | Wanting(rec: Fields)             // before mutex_lock_interruptible
    | Testing(rec: Fields)             // holds the lock, before the space test
    | Copying(rec: Fields, done: nat)  // holds the lock, in the loop
    | Leaving                          // holds the lock, refused

  /** Where the daemon is: inside device_read, or between two reads. */
  datatype ReaderPc =
    | Ready
    | Entering                  // before the first lock
    | Checking                  // holds the lock, before the test of count_data
    | Asleep                    // unlocked, in wait_event
    | Relocking                 // awoken, before the second lock
    | CopyingOut(got: string)   // holds the lock, in the loop
    | Returned(got: string)     // read has returned
    | Stopped                   // read returned 0: backup() returns -1
    | Crashed                   // assert(last_bracket != NULL) failed

  datatype Owner = Free | Producer(pid: nat) | Daemon

  datatype State = State(ring: string, lock: Owner, producers: map<nat, ProducerPc>, reader: ReaderPc,
                         carry: string, groups: seq<Fields>, accepted: seq<Fields>)
  {
    function Pc(pid: nat): ProducerPc {
      if pid in producers then producers[pid] else Idle
    }

    function SetPc(pid: nat, pc: ProducerPc): State {
      this.(producers := producers[pid := pc])
    }
  }

  datatype Action =
    | Submit(pid: nat, rec: Fields) | Lock(pid: nat) | Test(pid: nat) | PutByte(pid: nat) | Unlock(pid: nat) | Drop(pid: nat)
    | Read | ReadLock | ReadTest | Wake | ReadRelock | GetByte | ReadUnlock | Interrupt | Parse

  const INITIAL := State("", Free, map[], Ready, "", [], [])

  /** The step `a`, when it is enabled. */
  function Next(cfg: Config, s: State, a: Action): Option<State> {
    match a
    case Submit(pid, rec) => if s.Pc(pid).Idle? then Some(s.SetPc(pid, Wanting(rec))) else None
    case Lock(pid) =>
      if s.Pc(pid).Wanting? && s.lock == Free
      then Some(s.SetPc(pid, Testing(s.Pc(pid).rec)).(lock := Producer(pid)))
      else None
    case Drop(pid) => if s.Pc(pid).Wanting? then Some(s.SetPc(pid, Idle)) else None
    case Test(pid) =>
      if !s.Pc(pid).Testing? then None
      else if |Print(s.Pc(pid).rec)| > cfg.size - |s.ring| then Some(s.SetPc(pid, Leaving))
      else Some(s.SetPc(pid, Copying(s.Pc(pid).rec, 0)))
    case PutByte(pid) =>
      if s.Pc(pid).Copying? && s.Pc(pid).done < |Print(s.Pc(pid).rec)|
      then
        var Copying(rec, done) := s.Pc(pid);
        Some(s.SetPc(pid, Copying(rec, done + 1)).(ring := s.ring + [Print(rec)[done]]))
      else None
    case Unlock(pid) =>
      if s.Pc(pid).Leaving? then Some(s.SetPc(pid, Idle).(lock := Free))
      else if s.Pc(pid).Copying? && s.Pc(pid).done == |Print(s.Pc(pid).rec)|
      then Some(s.SetPc(pid, Idle).(lock := Free, accepted := s.accepted + [s.Pc(pid).rec]))
      else None
    case Read => if s.reader.Ready? then Some(s.(reader := Entering)) else None
    case ReadLock =>
      if s.reader.Entering? && s.lock == Free then Some(s.(reader := Checking, lock := Daemon)) else None
    case ReadTest =>
      if !s.reader.Checking? then None
      else if s.ring == "" then Some(s.(reader := Asleep, lock := Free))
      else Some(s.(reader := CopyingOut("")))
    case Wake => // count_data is read without the lock
      if s.reader.Asleep? && s.ring != "" then Some(s.(reader := Relocking)) else None
    case ReadRelock =>
      if s.reader.Relocking? && s.lock == Free then Some(s.(reader := CopyingOut(""), lock := Daemon)) else None
    case GetByte =>
      if s.reader.CopyingOut? && |s.reader.got| < cfg.sz - |s.carry| && s.ring != ""
      then Some(s.(reader := CopyingOut(s.reader.got + [s.ring[0]]), ring := s.ring[1..]))
      else None
    case ReadUnlock =>
      if s.reader.CopyingOut? && (|s.reader.got| >= cfg.sz - |s.carry| || s.ring == "")
      then Some(s.(reader := Returned(s.reader.got), lock := Free))
      else None
    case Interrupt =>
      if s.reader.Entering? || s.reader.Asleep? || s.reader.Relocking? then Some(s.(reader := Returned(""))) else None
    case Parse =>
      if !s.reader.Returned? then None
      else if s.reader.got == "" then Some(s.(reader := Stopped))
      else Some(Parsed(s, s.carry + s.reader.got))
  }

  /** parse_event_buffer and the insertion of its rows. Data that reach it with a bracket are framed (`Stream.ParseStream`). */
  function Parsed(s: State, data: string): State {
    if '}' !in data then s.(reader := Crashed)
    else s.(reader := Ready, carry := Residue(data), groups := s.groups + Groups(ParsedFields(data)))
  }

  /** Enabled steps of a schedule happen, the others are skipped. */
  function Run(cfg: Config, s: State, schedule: seq<Action>): State
    decreases |schedule|
  {
    if schedule == [] then s
    else Run(cfg, Do(cfg, s, schedule[0]), schedule[1..])
  }

  function Do(cfg: Config, s: State, a: Action): State {
    match Next(cfg, s, a)
    case None => s
    case Some(s') => s'
  }

  // ---- The invariant ----

  /** A record the ring can hold fits the daemon's buffer. */
  predicate Fits(cfg: Config, rec: Fields) {
    |Print(rec)| <= cfg.size ==> |Print(rec)| <= cfg.sz
  }

  predicate Good(cfg: Config, rec: Fields) {
    Clean(rec) && |rec| == 8 && Fits(cfg, rec)
  }

  predicate Submits(cfg: Config, schedule: seq<Action>) {
    forall a | a in schedule :: a.Submit? ==> Good(cfg, a.rec)
  }

  predicate Holding(pc: ProducerPc) {
    pc.Testing? || pc.Copying? || pc.Leaving?
  }

  /** Bytes of a record whose insertion is under way. */
  function Partial(s: State): string {
    if s.lock.Producer? && s.Pc(s.lock.pid).Copying? && s.Pc(s.lock.pid).done <= |Print(s.Pc(s.lock.pid).rec)|
    then Print(s.Pc(s.lock.pid).rec)[..s.Pc(s.lock.pid).done]
    else ""
  }

  function Got(s: State): string {
    if s.reader.CopyingOut? || s.reader.Returned? then s.reader.got else ""
  }

  ghost predicate LocksOk(s: State) {
    && (forall pid | pid in s.producers :: Holding(s.producers[pid]) <==> s.lock == Producer(pid))
    && (s.lock.Producer? ==> s.lock.pid in s.producers)
    && (s.lock == Daemon <==> s.reader.Checking? || s.reader.CopyingOut?)
  }

  predicate ProducersOk(cfg: Config, s: State) {
    && |s.ring| <= cfg.size
    && forall pid | pid in s.producers ::
         match s.producers[pid]
         case Wanting(rec) => Good(cfg, rec)
         case Testing(rec) => Good(cfg, rec)
         case Copying(rec, done) =>
           Good(cfg, rec) && done <= |Print(rec)| <= cfg.size && |s.ring| + |Print(rec)| - done <= cfg.size
         case _ => true
  }

  predicate AcceptedOk(cfg: Config, s: State) {
    forall r | r in s.accepted :: Good(cfg, r) && |Print(r)| <= cfg.size
  }

  /** Accepted records the daemon has not stored yet. */
  function Unstored(s: State): seq<Fields> {
    if |s.groups| <= |s.accepted| then s.accepted[|s.groups|..] else []
  }

  /** The daemon's rows are the first accepted records; what is not yet stored is carried, read or waiting. */
  predicate StreamOk(s: State) {
    && s.groups <= s.accepted
    && s.carry + Got(s) + s.ring == PrintAll(Unstored(s)) + Partial(s)
  }

  predicate ReaderOk(cfg: Config, s: State) {
    && '}' !in s.carry && |s.carry| < cfg.sz
    && (s.reader.Relocking? ==> s.ring != "")
    && (s.reader.CopyingOut? ==> |s.carry| + |s.reader.got| <= cfg.sz && s.reader.got + s.ring != "")
    && (s.reader.Returned? && s.reader.got != "" ==>
          '}' in s.carry + s.reader.got && s.carry + s.reader.got <= PrintAll(Unstored(s)))
    && !s.reader.Crashed?
  }

  ghost predicate Inv(cfg: Config, s: State) {
    LocksOk(s) && ProducersOk(cfg, s) && AcceptedOk(cfg, s) && StreamOk(s) && ReaderOk(cfg, s)
  }

  // ---- Every step keeps it ----

  /** A hook moves on without moving bytes or accepting a record. */
  ghost predicate QuietMove(cfg: Config, s: State, s': State, pid: nat, pc: ProducerPc, lock: Owner) {
    && s' == s.SetPc(pid, pc).(lock := lock)
    && (Holding(pc) <==> lock == Producer(pid))
    && (lock == s.lock || (s.lock == Free && lock == Producer(pid)) || (s.lock == Producer(pid) && lock == Free))
    && (Holding(s.Pc(pid)) <==> s.lock == Producer(pid))
    && match pc
       case Wanting(rec) => Good(cfg, rec)
       case Testing(rec) => Good(cfg, rec)
       case Copying(rec, done) => Good(cfg, rec) && done == 0 && |s.ring| + |Print(rec)| <= cfg.size
       case _ => true
  }

  lemma QuietMoveKeepsInv(cfg: Config, s: State, s': State, pid: nat, pc: ProducerPc, lock: Owner)
    requires Inv(cfg, s) && QuietMove(cfg, s, s', pid, pc, lock) && !s.Pc(pid).Copying?
    ensures Inv(cfg, s')
  {
    assert LocksOk(s') && ProducersOk(cfg, s');
    assert Partial(s) == Partial(s');
  }

  lemma QuietHookStep(cfg: Config, s: State, a: Action)
    requires Inv(cfg, s) && Next(cfg, s, a).Some?
    requires a.Submit? || a.Lock? || a.Test? || a.Drop? || (a.Unlock? && s.Pc(a.pid).Leaving?)
    requires a.Submit? ==> Good(cfg, a.rec)
    ensures Inv(cfg, Do(cfg, s, a))
  {
    var s' := Do(cfg, s, a);
    assert Holding(s.Pc(a.pid)) <==> s.lock == Producer(a.pid);
    QuietMoveKeepsInv(cfg, s, s', a.pid, s'.Pc(a.pid), s'.lock);
  }

  lemma AppendByte(a: string, got: string, ring: string, whole: string, partial: string, c: char)
    requires a + got + ring == whole + partial
    ensures a + got + (ring + [c]) == whole + (partial + [c])
  {
    assert a + got + (ring + [c]) == (a + got + ring) + [c];
    assert whole + (partial + [c]) == (whole + partial) + [c];
  }

  lemma PutByteKeepsInv(cfg: Config, s: State, s': State, pid: nat, rec: Fields, done: nat)
    requires Inv(cfg, s) && s.Pc(pid) == Copying(rec, done) && done < |Print(rec)|
    requires s' == s.SetPc(pid, Copying(rec, done + 1)).(ring := s.ring + [Print(rec)[done]])
    ensures Inv(cfg, s')
  {
    assert s.lock == Producer(pid);
    var text := Print(rec);
    assert Partial(s') == text[..done + 1] == Partial(s) + [text[done]];
    AppendByte(s.carry, Got(s), s.ring, PrintAll(Unstored(s)), Partial(s), text[done]);
    assert StreamOk(s');
    assert LocksOk(s');
    assert ProducersOk(cfg, s');
  }

  lemma PrintAllSnoc(rs: seq<Fields>, rec: Fields)
    ensures PrintAll(rs + [rec]) == PrintAll(rs) + Print(rec)
  {
    PrintAllAppend(rs, [rec]);
    assert PrintAll([rec]) == Print(rec);
  }

  lemma AcceptKeepsStream(s: State, s': State, pid: nat, rec: Fields)
    requires StreamOk(s) && s.lock == Producer(pid) && s.Pc(pid) == Copying(rec, |Print(rec)|)
    requires s' == s.SetPc(pid, Idle).(lock := Free, accepted := s.accepted + [rec])
    ensures StreamOk(s') && PrintAll(Unstored(s)) <= PrintAll(Unstored(s'))
  {
    assert Print(rec)[..|Print(rec)|] == Print(rec);
    assert Unstored(s') == Unstored(s) + [rec];
    PrintAllSnoc(Unstored(s), rec);
    assert PrintAll(Unstored(s')) + "" == PrintAll(Unstored(s'));
  }

  lemma AcceptKeepsInv(cfg: Config, s: State, s': State, pid: nat, rec: Fields)
    requires Inv(cfg, s) && s.Pc(pid) == Copying(rec, |Print(rec)|)
    requires s' == s.SetPc(pid, Idle).(lock := Free, accepted := s.accepted + [rec])
    ensures Inv(cfg, s')
  {
    assert s.lock == Producer(pid);
    AcceptKeepsStream(s, s', pid, rec);
    assert AcceptedOk(cfg, s');
    assert LocksOk(s') && ProducersOk(cfg, s');
  }

  /** Steps of the daemon inside device_read that move no byte. */
  lemma QuietReadKeepsInv(cfg: Config, s: State, s': State)
    requires Inv(cfg, s) && s' == s.(reader := s'.reader, lock := s'.lock)
    requires s'.lock == s.lock || (s.lock == Free && s'.lock == Daemon) || (s.lock == Daemon && s'.lock == Free)
    requires s'.lock == Daemon <==> s'.reader.Checking? || s'.reader.CopyingOut?
    requires Got(s) == Got(s') == "" && !s'.reader.Crashed?
    requires (s'.reader.Relocking? || s'.reader.CopyingOut?) ==> s.ring != ""
    ensures Inv(cfg, s')
  {
    assert Partial(s) == Partial(s');
  }

  lemma GetByteKeepsInv(cfg: Config, s: State, s': State)
    requires Inv(cfg, s) && s.reader.CopyingOut? && |s.reader.got| < cfg.sz - |s.carry| && s.ring != ""
    requires s' == s.(reader := CopyingOut(s.reader.got + [s.ring[0]]), ring := s.ring[1..])
    ensures Inv(cfg, s')
  {
    assert s.ring == [s.ring[0]] + s.ring[1..];
    assert s'.carry + Got(s') + s'.ring == s.carry + Got(s) + s.ring;
    assert Partial(s) == Partial(s') == "";
  }

  /** A full buffer, or all there is, holds a whole record. */
  lemma ReadHoldsBracket(cfg: Config, data: string, ring: string, rs: seq<Fields>)
    requires data + ring == PrintAll(rs) && data != ""
    requires ring == "" || |data| == cfg.sz
    requires forall r | r in rs :: |Print(r)| <= cfg.sz
    ensures '}' in data
  {
    if ring == "" {
      assert data == PrintAll(rs);
      PrintAllEnds(rs);
    } else {
      assert rs[0] in rs;
      var head := Print(rs[0]);
      assert data[|head| - 1] == (data + ring)[|head| - 1] == head[|head| - 1];
    }
  }

  /** The daemon holds the lock, so what it has read is a prefix of whole records. */
  lemma ReadUnlockKeepsInv(cfg: Config, s: State, s': State)
    requires Inv(cfg, s) && s.reader.CopyingOut?
    requires |s.reader.got| >= cfg.sz - |s.carry| || s.ring == ""
    requires s' == s.(reader := Returned(s.reader.got), lock := Free)
    ensures Inv(cfg, s')
  {
    var data, rs := s.carry + s.reader.got, Unstored(s);
    assert Partial(s) == Partial(s') == "";
    assert data + s.ring == PrintAll(rs);
    assert forall r | r in rs :: r in s.accepted;
    if s.reader.got != "" {
      ReadHoldsBracket(cfg, data, s.ring, rs);
    }
  }

  lemma Cancel(head: string, a: string, b: string)
    requires head + a == head + b
    ensures a == b
  {
    assert (head + a)[|head|..] == a;
    assert (head + b)[|head|..] == b;
  }

  /** Stored text leaves the front of the stream, the rest stays. */
  lemma StoredLeaves(head: string, residue: string, ring: string, tail: string, partial: string)
    requires (head + residue) + ring == (head + tail) + partial
    ensures residue + ring == tail + partial
  {
    assert (head + residue) + ring == head + (residue + ring);
    assert (head + tail) + partial == head + (tail + partial);
    Cancel(head, residue + ring, tail + partial);
  }

  lemma PrintAllSplit(rs: seq<Fields>, m: nat)
    requires m <= |rs|
    ensures PrintAll(rs) == PrintAll(rs[..m]) + PrintAll(rs[m..])
  {
    var a, b := rs[..m], rs[m..];
    assert rs == a + b;
    PrintAllAppend(a, b);
  }

  lemma RowsAdvance(groups: seq<Fields>, accepted: seq<Fields>, m: nat)
    requires groups <= accepted && m <= |accepted| - |groups|
    ensures
      var rs := accepted[|groups|..];
      groups + rs[..m] <= accepted && accepted[|groups + rs[..m]|..] == rs[m..]
  {
  }

  /** One parse, seen on the whole stream. */
  lemma ParseText(data: string, ring: string, partial: string, rs: seq<Fields>)
    requires AllClean(rs) && AllRows(rs) && '}' in data && data <= PrintAll(rs)
    requires data + ring == PrintAll(rs) + partial
    ensures
      var m := Whole(data, rs);
      && Framed(data) && Groups(ParsedFields(data)) == rs[..m] && '}' !in Residue(data)
      && Residue(data) + ring == PrintAll(rs[m..]) + partial
      && (Residue(data) != "" ==> m < |rs| && |Residue(data)| < |Print(rs[m])|)
  {
    var m := Whole(data, rs);
    ParseStream(data, PrintAll(rs)[|data|..], rs);
    PrintAllSplit(rs, m);
    StoredLeaves(PrintAll(rs[..m]), Residue(data), ring, PrintAll(rs[m..]), partial);
  }

  /** The daemon stores the first `m` unstored records and carries `residue`. */
  lemma StoreKeepsInv(cfg: Config, s: State, s': State, m: nat, residue: string)
    requires Inv(cfg, s) && s.reader.Returned? && m <= |Unstored(s)|
    requires s' == s.(reader := Ready, carry := residue, groups := s.groups + Unstored(s)[..m])
    requires residue + s.ring == PrintAll(Unstored(s)[m..]) + Partial(s)
    requires '}' !in residue && |residue| < cfg.sz
    ensures Inv(cfg, s')
  {
    RowsAdvance(s.groups, s.accepted, m);
    assert Unstored(s') == Unstored(s)[m..] && Partial(s') == Partial(s);
    assert residue + "" == residue;
    assert s'.carry + Got(s') + s'.ring == residue + s.ring;
  }

  lemma ParseKeepsInv(cfg: Config, s: State)
    requires Inv(cfg, s) && s.reader.Returned? && s.reader.got != ""
    ensures Inv(cfg, Parsed(s, s.carry + s.reader.got))
  {
    var data, rs := s.carry + s.reader.got, Unstored(s);
    assert forall r | r in rs :: r in s.accepted;
    ParseText(data, s.ring, Partial(s), rs);
    StoreKeepsInv(cfg, s, Parsed(s, data), Whole(data, rs), Residue(data));
  }

  lemma Step(cfg: Config, s: State, a: Action)
    requires Inv(cfg, s)
    requires a.Submit? ==> Good(cfg, a.rec)
    ensures Inv(cfg, Do(cfg, s, a))
  {
    if Next(cfg, s, a).Some? {
      var s' := Do(cfg, s, a);
      match a
      case PutByte(pid) => PutByteKeepsInv(cfg, s, s', pid, s.Pc(pid).rec, s.Pc(pid).done);
      case Unlock(pid) =>
        if s.Pc(pid).Copying? { AcceptKeepsInv(cfg, s, s', pid, s.Pc(pid).rec); } else { QuietHookStep(cfg, s, a); }
      case GetByte => GetByteKeepsInv(cfg, s, s');
      case ReadUnlock => ReadUnlockKeepsInv(cfg, s, s');
      case Parse => if s.reader.got != "" { ParseKeepsInv(cfg, s); } else { QuietReadKeepsInv(cfg, s, s'); }
      case Submit(_, _) => QuietHookStep(cfg, s, a);
      case Lock(_) => QuietHookStep(cfg, s, a);
      case Test(_) => QuietHookStep(cfg, s, a);
      case Drop(_) => QuietHookStep(cfg, s, a);
      case _ => QuietReadKeepsInv(cfg, s, s');
    }
  }

  lemma {:induction false} RunKeepsInv(cfg: Config, s: State, schedule: seq<Action>)
    requires Inv(cfg, s) && Submits(cfg, schedule)
    ensures Inv(cfg, Run(cfg, s, schedule))
    decreases |schedule|
  {
    if schedule != [] {
      Step(cfg, s, schedule[0]);
      RunKeepsInv(cfg, Do(cfg, s, schedule[0]), schedule[1..]);
    }
  }

  lemma InitialInv(cfg: Config)
    requires cfg.sz > 0
    ensures Inv(cfg, INITIAL)
  {
  }

  // ---- What every interleaving gives ----

  lemma NothingPrinted(rs: seq<Fields>)
    requires PrintAll(rs) == ""
    ensures rs == []
  {
    if rs != [] {
      PrintAllEnds(rs);
    }
  }

  /**
   * End to end. In every schedule the stored rows are, in order, the first accepted
   * records, and all of them once nothing is carried, read or waiting. The
   * assertion never fails, and the next read asks for at least one byte.
   */
  lemma DaemonStoresAcceptedRecords(cfg: Config, schedule: seq<Action>)
    requires cfg.sz > 0 && Submits(cfg, schedule)
    ensures
      var end := Run(cfg, INITIAL, schedule);
      && end.groups <= end.accepted
      && (end.carry + Got(end) + end.ring == "" ==> end.groups == end.accepted)
      && !end.reader.Crashed? && |end.carry| < cfg.sz
  {
    InitialInv(cfg);
    RunKeepsInv(cfg, INITIAL, schedule);
    var end := Run(cfg, INITIAL, schedule);
    if end.carry + Got(end) + end.ring == "" {
      NothingPrinted(Unstored(end));
    }
  }

  /** The bytes not yet stored are always whole records, up to the insertion under way. */
  lemma StreamStaysAligned(cfg: Config, schedule: seq<Action>)
    requires cfg.sz > 0 && Submits(cfg, schedule)
    ensures
      var end := Run(cfg, INITIAL, schedule);
      end.carry + Got(end) + end.ring == PrintAll(Unstored(end)) + Partial(end)
  {
    InitialInv(cfg);
    RunKeepsInv(cfg, INITIAL, schedule);
  }

  // ---- An uninterrupted read returns data ----

  predicate Fed(s: State) {
    !s.reader.Stopped? && (s.reader.Returned? ==> s.reader.got != "")
  }

  lemma ParsedStaysFed(s: State, data: string)
    ensures Fed(Parsed(s, data))
  {
  }

  lemma StepStaysFed(cfg: Config, s: State, a: Action)
    requires ReaderOk(cfg, s) && Fed(s) && !a.Interrupt?
    ensures Fed(Do(cfg, s, a))
  {
    if a.Parse? && s.reader.Returned? {
      ParsedStaysFed(s, s.carry + s.reader.got);
    }
  }

  lemma {:induction false} RunStaysFed(cfg: Config, s: State, schedule: seq<Action>)
    requires Inv(cfg, s) && Fed(s) && Submits(cfg, schedule) && Interrupt !in schedule
    ensures Fed(Run(cfg, s, schedule))
    decreases |schedule|
  {
    if schedule != [] {
      var s' := Do(cfg, s, schedule[0]);
      Step(cfg, s, schedule[0]);
      StepStaysFed(cfg, s, schedule[0]);
      RunStaysFed(cfg, s', schedule[1..]);
    }
  }

  /** The daemon stops on an empty read only when a signal interrupted one. */
  lemma OnlyInterruptsStopTheDaemon(cfg: Config, schedule: seq<Action>)
    requires cfg.sz > 0 && Submits(cfg, schedule) && Interrupt !in schedule
    ensures
      var end := Run(cfg, INITIAL, schedule);
      !end.reader.Stopped? && (end.reader.Returned? ==> end.reader.got != "")
  {
    InitialInv(cfg);
    RunStaysFed(cfg, INITIAL, schedule);
  }

  // ---- The size bound is exact ----

  function Times(a: Action, n: nat): (t: seq<Action>)
    ensures |t| == n && forall x | x in t :: x == a
  {
    if n == 0 then [] else [a] + Times(a, n - 1)
  }

  lemma {:induction false} RunConcat(cfg: Config, s: State, a: seq<Action>, b: seq<Action>)
    ensures Run(cfg, s, a + b) == Run(cfg, Run(cfg, s, a), b)
    decreases |a|
  {
    if a == [] {
      assert a + b == b;
    } else {
      assert (a + b)[1..] == a[1..] + b;
      RunConcat(cfg, Do(cfg, s, a[0]), a[1..], b);
    }
  }

  lemma RunCons(cfg: Config, s: State, a: Action, rest: seq<Action>)
    ensures Run(cfg, s, [a] + rest) == Run(cfg, Do(cfg, s, a), rest)
  {
    assert ([a] + rest)[1..] == rest;
  }

  lemma RingGrows(ring: string, text: string, done: nat)
    requires done < |text|
    ensures (ring + [text[done]]) + text[done + 1..] == ring + text[done..]
  {
  }

  lemma {:induction false} RunPuts(cfg: Config, s: State, pid: nat, rec: Fields, text: string, done: nat)
    requires s.Pc(pid) == Copying(rec, done) && text == Print(rec) && done <= |text|
    ensures
      var n := |text| - done;
      Run(cfg, s, Times(PutByte(pid), n))
      == if n == 0 then s else s.SetPc(pid, Copying(rec, |text|)).(ring := s.ring + text[done..])
    decreases |text| - done
  {
    if done < |text| {
      var s' := s.SetPc(pid, Copying(rec, done + 1)).(ring := s.ring + [text[done]]);
      assert s' == Do(cfg, s, PutByte(pid));
      RunCons(cfg, s, PutByte(pid), Times(PutByte(pid), |text| - done - 1));
      RunPuts(cfg, s', pid, rec, text, done + 1);
      RingGrows(s.ring, text, done);
    }
  }

  lemma {:induction false} RunGets(cfg: Config, s: State, got: string, n: nat)
    requires s.reader == CopyingOut(got) && |got| + n <= cfg.sz - |s.carry| && n <= |s.ring|
    ensures Run(cfg, s, Times(GetByte, n)) == s.(reader := CopyingOut(got + s.ring[..n]), ring := s.ring[n..])
    decreases n
  {
    if n > 0 {
      var s' := Do(cfg, s, GetByte);
      RunGets(cfg, s', got + [s.ring[0]], n - 1);
      assert Times(GetByte, n)[1..] == Times(GetByte, n - 1);
      assert got + [s.ring[0]] + s.ring[1..][..n - 1] == got + s.ring[..n];
      assert s.ring[1..][n - 1..] == s.ring[n..];
    } else {
      assert got + s.ring[..0] == got && s.ring[0..] == s.ring;
    }
  }

  // ---- One insertion, from any state ----

  /** The steps of char_dev_buffer_insert; those that are not enabled are skipped. */
  function InsertSchedule(pid: nat, rec: Fields): seq<Action> {
    [Lock(pid), Test(pid)] + Times(PutByte(pid), |Print(rec)|) + [Unlock(pid)]
  }

  lemma {:induction false} RunRefused(cfg: Config, s: State, pid: nat, n: nat)
    requires s.Pc(pid).Leaving?
    ensures Run(cfg, s, Times(PutByte(pid), n)) == s
    decreases n
  {
    if n > 0 {
      RunRefused(cfg, s, pid, n - 1);
      assert Times(PutByte(pid), n)[1..] == Times(PutByte(pid), n - 1);
    }
  }

  lemma RunOne(cfg: Config, s: State, a: Action)
    ensures Run(cfg, s, [a]) == Do(cfg, s, a)
  {
    RunCons(cfg, s, a, []);
    assert [a] + [] == [a];
  }

  lemma SetPcTwice(s: State, pid: nat, a: ProducerPc, b: ProducerPc)
    ensures s.SetPc(pid, a).SetPc(pid, b) == s.SetPc(pid, b)
  {
    assert s.producers[pid := a][pid := b] == s.producers[pid := b];
  }

  /** The lock is taken and the space tested. */
  lemma InsertEntered(cfg: Config, s: State, pid: nat, rec: Fields)
    requires s.Pc(pid) == Wanting(rec) && s.lock == Free
    ensures
      Run(cfg, s, [Lock(pid), Test(pid)])
      == s.SetPc(pid, if |s.ring| + |Print(rec)| <= cfg.size then Copying(rec, 0) else Leaving).(lock := Producer(pid))
  {
    RunTwo(cfg, s, Lock(pid), Test(pid));
    SetPcTwice(s, pid, Testing(rec), Copying(rec, 0));
    SetPcTwice(s, pid, Testing(rec), Leaving);
  }

  /**
   * A hook that finds the lock free accepts its record exactly when the ring has room
   * for all of it, and then appends exactly its text; otherwise nothing changes.
   */
  lemma InsertExactly(cfg: Config, s: State, pid: nat, rec: Fields)
    requires s.Pc(pid) == Wanting(rec) && s.lock == Free
    ensures
      Run(cfg, s, InsertSchedule(pid, rec))
      == s.SetPc(pid, Idle).(ring := Chardev.Inserted(s.ring, cfg.size, Print(rec)),
                             accepted := if |s.ring| + |Print(rec)| <= cfg.size then s.accepted + [rec] else s.accepted)
  {
    var text := Print(rec);
    var puts := Times(PutByte(pid), |text|);
    var s1 := Run(cfg, s, [Lock(pid), Test(pid)]);
    InsertEntered(cfg, s, pid, rec);
    RunConcat(cfg, s, [Lock(pid), Test(pid)] + puts, [Unlock(pid)]);
    RunConcat(cfg, s, [Lock(pid), Test(pid)], puts);
    RunOne(cfg, Run(cfg, s1, puts), Unlock(pid));
    if |s.ring| + |text| <= cfg.size {
      RunPuts(cfg, s1, pid, rec, text, 0);
      assert text[0..] == text && |text| > 0;
      SetPcTwice(s, pid, Copying(rec, 0), Copying(rec, |text|));
      SetPcTwice(s, pid, Copying(rec, |text|), Idle);
    } else {
      RunRefused(cfg, s1, pid, |text|);
      SetPcTwice(s, pid, Leaving, Idle);
    }
  }

  /** An idle hook may submit any record; a signal while it waits for the lock loses the record and nothing else. */
  lemma SubmitAndDrop(cfg: Config, s: State, pid: nat, rec: Fields)
    requires s.Pc(pid).Idle?
    ensures Do(cfg, s, Submit(pid, rec)) == s.SetPc(pid, Wanting(rec))
    ensures Do(cfg, Do(cfg, s, Submit(pid, rec)), Drop(pid)) == s.SetPc(pid, Idle)
  {
    SetPcTwice(s, pid, Wanting(rec), Idle);
  }

  /** One record through an empty pipeline, up to the daemon's first full read. */
  function OversizeSchedule(cfg: Config, rec: Fields): seq<Action> {
    [Submit(0, rec), Lock(0), Test(0)] + Times(PutByte(0), |Print(rec)|)
    + [Unlock(0), Read, ReadLock, ReadTest] + Times(GetByte, cfg.sz)
    + [ReadUnlock, Parse]
  }

  lemma RunTwo(cfg: Config, s: State, a: Action, b: Action)
    ensures Run(cfg, s, [a, b]) == Do(cfg, Do(cfg, s, a), b)
  {
    RunCons(cfg, s, a, [b]);
    RunCons(cfg, Do(cfg, s, a), b, []);
    assert [a] + [b] == [a, b] && [b] + [] == [b];
  }

  lemma RunThree(cfg: Config, s: State, a: Action, b: Action, c: Action)
    ensures Run(cfg, s, [a, b, c]) == Do(cfg, Do(cfg, Do(cfg, s, a), b), c)
  {
    RunCons(cfg, s, a, [b, c]);
    RunTwo(cfg, Do(cfg, s, a), b, c);
    assert [a] + [b, c] == [a, b, c];
  }

  lemma OversizeInserted(cfg: Config, rec: Fields)
    requires |Print(rec)| <= cfg.size
    ensures
      Run(cfg, INITIAL, [Submit(0, rec), Lock(0), Test(0)] + Times(PutByte(0), |Print(rec)|))
      == State(Print(rec), Producer(0), map[0 := Copying(rec, |Print(rec)|)], Ready, "", [], [])
  {
    var s3 := State("", Producer(0), map[0 := Copying(rec, 0)], Ready, "", [], []);
    RunThree(cfg, INITIAL, Submit(0, rec), Lock(0), Test(0));
    assert Run(cfg, INITIAL, [Submit(0, rec), Lock(0), Test(0)]) == s3;
    RunConcat(cfg, INITIAL, [Submit(0, rec), Lock(0), Test(0)], Times(PutByte(0), |Print(rec)|));
    RunPuts(cfg, s3, 0, rec, Print(rec), 0);
    assert "" + Print(rec)[0..] == Print(rec);
  }

  lemma OversizeEntered(cfg: Config, rec: Fields)
    ensures
      var s := State(Print(rec), Producer(0), map[0 := Copying(rec, |Print(rec)|)], Ready, "", [], []);
      Run(cfg, s, [Unlock(0), Read, ReadLock, ReadTest])
      == State(Print(rec), Daemon, map[0 := Idle], CopyingOut(""), "", [], [rec])
  {
    var s := State(Print(rec), Producer(0), map[0 := Copying(rec, |Print(rec)|)], Ready, "", [], []);
    var s2 := State(Print(rec), Free, map[0 := Idle], Entering, "", [], [rec]);
    RunTwo(cfg, s, Unlock(0), Read);
    assert s.producers[0 := Idle] == map[0 := Idle] && [] + [rec] == [rec];
    assert Run(cfg, s, [Unlock(0), Read]) == s2;
    RunTwo(cfg, s2, ReadLock, ReadTest);
    RunConcat(cfg, s, [Unlock(0), Read], [ReadLock, ReadTest]);
    assert [Unlock(0), Read] + [ReadLock, ReadTest] == [Unlock(0), Read, ReadLock, ReadTest];
  }

  lemma ParseAfterRead(cfg: Config, s: State, got: string)
    requires s.reader == CopyingOut(got) && got != ""
    requires |got| >= cfg.sz - |s.carry| || s.ring == ""
    ensures Run(cfg, s, [ReadUnlock, Parse]) == Parsed(s.(reader := Returned(got), lock := Free), s.carry + got)
  {
    RunTwo(cfg, s, ReadUnlock, Parse);
    var s1 := s.(reader := Returned(got), lock := Free);
    assert Do(cfg, s, ReadUnlock) == s1;
  }

  lemma OversizeParsed(cfg: Config, s: State, rec: Fields)
    requires Clean(rec) && 0 < cfg.sz < |Print(rec)|
    requires s.reader == CopyingOut(Print(rec)[..cfg.sz]) && s.carry == ""
    ensures Run(cfg, s, [ReadUnlock, Parse]).reader.Crashed?
  {
    var text := Print(rec);
    ParseAfterRead(cfg, s, text[..cfg.sz]);
    ProperPrefixOpen(rec, text[..cfg.sz], text[cfg.sz..]);
    assert "" + text[..cfg.sz] == text[..cfg.sz];
  }

  lemma OversizeCrashes(cfg: Config, rec: Fields)
    requires Clean(rec) && 0 < cfg.sz && !Fits(cfg, rec)
    ensures Run(cfg, INITIAL, OversizeSchedule(cfg, rec)).reader.Crashed?
  {
    var fill := [Submit(0, rec), Lock(0), Test(0)] + Times(PutByte(0), |Print(rec)|);
    var enter, gets, finish := [Unlock(0), Read, ReadLock, ReadTest], Times(GetByte, cfg.sz), [ReadUnlock, Parse];
    assert OversizeSchedule(cfg, rec) == ((fill + enter) + gets) + finish;
    RunConcat(cfg, INITIAL, (fill + enter) + gets, finish);
    RunConcat(cfg, INITIAL, fill + enter, gets);
    RunConcat(cfg, INITIAL, fill, enter);
    OversizeInserted(cfg, rec);
    OversizeEntered(cfg, rec);
    var s := State(Print(rec), Daemon, map[0 := Idle], CopyingOut(""), "", [], [rec]);
    RunGets(cfg, s, "", cfg.sz);
    assert "" + Print(rec)[..cfg.sz] == Print(rec)[..cfg.sz];
    OversizeParsed(cfg, Run(cfg, s, gets), rec);
  }

  predicate SubmitsOnly(schedule: seq<Action>, allowed: set<Fields>) {
    forall a | a in schedule :: a.Submit? ==> a.rec in allowed
  }

  /**
   * The daemon's assertion holds in every schedule exactly when no record that the
   * ring can hold is longer than the daemon's buffer.
   */
  lemma AssertionHoldsExactly(cfg: Config, allowed: set<Fields>)
    requires cfg.sz > 0 && forall r | r in allowed :: Clean(r) && |r| == 8
    ensures (forall schedule | SubmitsOnly(schedule, allowed) :: !Run(cfg, INITIAL, schedule).reader.Crashed?)
            <==> (forall r | r in allowed :: Fits(cfg, r))
  {
    if r :| r in allowed && !Fits(cfg, r) {
      OversizeCrashes(cfg, r);
      assert SubmitsOnly(OversizeSchedule(cfg, r), allowed);
    } else {
      forall schedule | SubmitsOnly(schedule, allowed)
        ensures !Run(cfg, INITIAL, schedule).reader.Crashed?
      {
        DaemonStoresAcceptedRecords(cfg, schedule);
      }
    }
  }
}
