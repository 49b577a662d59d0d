/** One turn of the daemon's loop: read behind the carried bytes, parse in place, group by eight. */
module Daemon {
  import opened Records
  import opened Parser
  import opened Stream
  import opened Chardev
  import Pipeline

  function Min(a: nat, b: nat): nat {
    if a <= b then a else b
  }

  class BackupDaemon {
    const sz: nat
    const buff: array<char>
    var count: nat
    var groups: seq<Fields>

    ghost predicate Valid()
      reads this
    {
      count <= sz && buff.Length == sz + 1
    }

    /** The unfinished record in front of the buffer. */
    ghost function Carry(): string
      reads this, buff
      requires Valid()
    {
      buff[..count]
    }

    /** What the next read and the carried bytes make together. */
    ghost function NextData(dev: Device): string
      reads this, buff, dev, dev.msgbuffer
      requires Valid() && dev.Valid()
    {
      Carry() + dev.Contents()[..Min(sz - count, dev.countData)]
    }

    /** The whole buffer once the next read has returned. */
    ghost function NextBuffer(dev: Device): string
      reads this, buff, dev, dev.msgbuffer
      requires Valid() && dev.Valid()
    {
      NextData(dev) + buff[|NextData(dev)|..]
    }

    constructor (sz: nat)
      requires sz > 0
      ensures Valid() && fresh(buff) && Carry() == "" && groups == [] && this.sz == sz
    {
      this.sz := sz;
      buff := new char[sz + 1];
      count, groups := 0, [];
    }

    lemma SameBuffer(now: string, data: string, all: string)
      requires |data| <= |now| == |all| && now[..|data|] == data == all[..|data|] && now[|data|..] == all[|data|..]
      ensures now == all
    {
      assert now == now[..|data|] + now[|data|..];
      assert all == all[..|data|] + all[|data|..];
    }

    /** read(fd, buff + count, SZ - count) */
    method ReadBehindCarry(dev: Device) returns (rslt: nat)
      requires Valid() && dev.Valid() && dev.msgbuffer != buff
      modifies buff, dev`startPos, dev`countData
      ensures dev.Valid() && rslt == Min(sz - count, old(dev.countData))
      ensures dev.Contents() == old(dev.Contents())[rslt..]
      ensures count + rslt == |old(NextData(dev))| && buff[..count + rslt] == old(NextData(dev))
      ensures buff[..] == old(NextBuffer(dev))
    {
      ghost var carry, data, all := buff[..count], NextData(dev), NextBuffer(dev);
      rslt := dev.DeviceRead(buff, count, sz - count);
      assert buff[..count] == carry;
      assert buff[..count + rslt] == buff[..count] + buff[count..count + rslt];
      SameBuffer(buff[..], data, all);
    }

    /** parse_event_buffer on the filled part, and the rows it completes. */
    method StoreRows(filled: nat, ghost data: string, ghost all: string)
      requires Valid() && filled <= sz && all == buff[..] && data == all[..filled] && '}' in data
      requires StaysInside(all, filled, LastBracket(data), ScanEnd(data))
      modifies this, buff
      ensures Valid() && Carry() == Slid(all, filled, LastBracket(data), ScanEnd(data))
      ensures groups == old(groups) + Groups(ParsedFields(data))
      ensures Framed(data) ==> Carry() == Residue(data)
    {
      assert buff[..filled] == data;
      SlidFits(all, filled, LastBracket(data), ScanEnd(data));
      if Framed(data) {
        FramedSlides(all, filled);
      }
      var parsed;
      count, parsed := ParseEventBuffer(buff, filled);
      groups := groups + Groups(parsed);
    }

    /**
     * The carried bytes and what this read adds to them are parsed, stored and slid; a
     * full buffer leaves nothing to ask for, and the daemon stops.
     */
    method Turn(dev: Device) returns (running: bool)
      requires Valid() && dev.Valid() && dev.msgbuffer != buff && dev.countData > 0
      requires count < sz ==> '}' in NextData(dev)
      requires count < sz ==> StaysInside(NextBuffer(dev), |NextData(dev)|, LastBracket(NextData(dev)), ScanEnd(NextData(dev)))
      modifies this, buff, dev`startPos, dev`countData
      ensures Valid() && dev.Valid() && running == (old(count) < sz)
      ensures dev.Contents() == old(dev.Contents()[Min(sz - count, dev.countData)..])
      ensures !running ==> Carry() == old(Carry()) && groups == old(groups)
      ensures
        var data := old(NextData(dev));
        running ==>
          && Carry() == Slid(old(NextBuffer(dev)), |data|, LastBracket(data), ScanEnd(data))
          && groups == old(groups) + Groups(ParsedFields(data))
          && (Framed(data) ==> Carry() == Residue(data))
    {
      ghost var data, all, taken := NextData(dev), NextBuffer(dev), Min(sz - count, dev.countData);
      var rslt := ReadBehindCarry(dev);
      if rslt == 0 {
        return false;
      }
      assert rslt == taken > 0 && buff[..] == all && data == all[..count + rslt];
      StoreRows(count + rslt, data, all);
      return true;
    }
  }

  /** The same turn as a schedule of the pipeline's single steps. */
  function TurnSchedule(n: nat): seq<Pipeline.Action> {
    [Pipeline.Read, Pipeline.ReadLock, Pipeline.ReadTest] + Pipeline.Times(Pipeline.GetByte, n)
    + [Pipeline.ReadUnlock, Pipeline.Parse]
  }

  /** Run without interference, the single steps do what `Turn` promises. */
  lemma TurnIsASchedule(cfg: Pipeline.Config, s: Pipeline.State)
    requires s.reader.Ready? && s.lock == Pipeline.Free && s.ring != "" && |s.carry| < cfg.sz
    ensures
      var n := Min(cfg.sz - |s.carry|, |s.ring|);
      Pipeline.Run(cfg, s, TurnSchedule(n))
      == Pipeline.Parsed(s.(reader := Pipeline.Returned(s.ring[..n]), ring := s.ring[n..]), s.carry + s.ring[..n])
  {
    var n := Min(cfg.sz - |s.carry|, |s.ring|);
    var enter := [Pipeline.Read, Pipeline.ReadLock, Pipeline.ReadTest];
    var gets := Pipeline.Times(Pipeline.GetByte, n);
    var entered := s.(reader := Pipeline.CopyingOut(""), lock := Pipeline.Daemon);
    var read := entered.(reader := Pipeline.CopyingOut(s.ring[..n]), ring := s.ring[n..]);
    Pipeline.RunConcat(cfg, s, enter + gets, [Pipeline.ReadUnlock, Pipeline.Parse]);
    Pipeline.RunConcat(cfg, s, enter, gets);
    Pipeline.RunThree(cfg, s, Pipeline.Read, Pipeline.ReadLock, Pipeline.ReadTest);
    assert Pipeline.Run(cfg, s, enter) == entered;
    Pipeline.RunGets(cfg, entered, "", n);
    assert "" + s.ring[..n] == s.ring[..n];
    Pipeline.ParseAfterRead(cfg, read, s.ring[..n]);
    assert read.(reader := Pipeline.Returned(s.ring[..n]), lock := Pipeline.Free)
        == s.(reader := Pipeline.Returned(s.ring[..n]), ring := s.ring[n..]);
  }

  /** One record through an idle, empty pipeline: a hook inserts it, the daemon reads and parses it. */
  function DeliverSchedule(pid: nat, rec: Fields): seq<Pipeline.Action> {
    [Pipeline.Submit(pid, rec)] + Pipeline.InsertSchedule(pid, rec) + TurnSchedule(|Print(rec)|)
  }

  lemma ParsedRecord(s: Pipeline.State, rec: Fields)
    requires Clean(rec) && |rec| == 8
    ensures Pipeline.Parsed(s, Print(rec)) == s.(reader := Pipeline.Ready, carry := "", groups := s.groups + [rec])
  {
    ParseUndoesPrint([rec], "");
    GroupsFlatten([rec]);
    assert PrintAll([rec]) + "" == Print(rec);
  }

  /** The record is accepted, stored as one row, and nothing stays behind. */
  lemma Delivered(cfg: Pipeline.Config, s: Pipeline.State, pid: nat, rec: Fields)
    requires s.reader.Ready? && s.lock == Pipeline.Free && s.Pc(pid).Idle? && s.carry == s.ring == ""
    requires Pipeline.Good(cfg, rec) && |Print(rec)| <= cfg.size
    ensures
      Pipeline.Run(cfg, s, DeliverSchedule(pid, rec))
      == s.SetPc(pid, Pipeline.Idle).(groups := s.groups + [rec], accepted := s.accepted + [rec])
  {
    var text := Print(rec);
    var insert := Pipeline.InsertSchedule(pid, rec);
    var wanting := s.SetPc(pid, Pipeline.Wanting(rec));
    var filled := s.SetPc(pid, Pipeline.Idle).(ring := text, accepted := s.accepted + [rec]);
    Pipeline.RunConcat(cfg, s, [Pipeline.Submit(pid, rec)] + insert, TurnSchedule(|text|));
    Pipeline.RunCons(cfg, s, Pipeline.Submit(pid, rec), insert);
    Pipeline.SubmitAndDrop(cfg, s, pid, rec);
    assert Pipeline.Run(cfg, wanting, insert) == filled by {
      Pipeline.InsertExactly(cfg, wanting, pid, rec);
      Pipeline.SetPcTwice(s, pid, Pipeline.Wanting(rec), Pipeline.Idle);
      assert "" + text == text;
    }
    TurnIsASchedule(cfg, filled);
    assert "" + text == text && text[..|text|] == text && text[|text|..] == "";
    ParsedRecord(filled.(reader := Pipeline.Returned(text), ring := ""), rec);
  }

  /** A daemon that fell asleep on an empty ring wakes when bytes wait, and its turn is the same. */
  lemma AsleepTurn(cfg: Pipeline.Config, s: Pipeline.State)
    requires s.reader.Asleep? && s.lock == Pipeline.Free && s.ring != "" && |s.carry| < cfg.sz
    ensures
      var n := Min(cfg.sz - |s.carry|, |s.ring|);
      Pipeline.Run(cfg, s, [Pipeline.Wake, Pipeline.ReadRelock] + Pipeline.Times(Pipeline.GetByte, n)
                           + [Pipeline.ReadUnlock, Pipeline.Parse])
      == Pipeline.Parsed(s.(reader := Pipeline.Returned(s.ring[..n]), ring := s.ring[n..]), s.carry + s.ring[..n])
  {
    var n := Min(cfg.sz - |s.carry|, |s.ring|);
    var enter, gets := [Pipeline.Wake, Pipeline.ReadRelock], Pipeline.Times(Pipeline.GetByte, n);
    var entered := s.(reader := Pipeline.CopyingOut(""), lock := Pipeline.Daemon);
    var read := entered.(reader := Pipeline.CopyingOut(s.ring[..n]), ring := s.ring[n..]);
    Pipeline.RunConcat(cfg, s, enter + gets, [Pipeline.ReadUnlock, Pipeline.Parse]);
    Pipeline.RunConcat(cfg, s, enter, gets);
    Pipeline.RunTwo(cfg, s, Pipeline.Wake, Pipeline.ReadRelock);
    assert Pipeline.Run(cfg, s, enter) == entered;
    Pipeline.RunGets(cfg, entered, "", n);
    assert "" + s.ring[..n] == s.ring[..n];
    Pipeline.ParseAfterRead(cfg, read, s.ring[..n]);
    assert read.(reader := Pipeline.Returned(s.ring[..n]), lock := Pipeline.Free)
        == s.(reader := Pipeline.Returned(s.ring[..n]), ring := s.ring[n..]);
  }

  /** A signal that reaches a read before it holds the lock, or in its sleep, makes it return nothing: the daemon stops. */
  lemma SignalStops(cfg: Pipeline.Config, s: Pipeline.State)
    requires s.reader.Entering? || s.reader.Asleep? || s.reader.Relocking?
    ensures Pipeline.Run(cfg, s, [Pipeline.Interrupt, Pipeline.Parse]) == s.(reader := Pipeline.Stopped)
  {
    Pipeline.RunTwo(cfg, s, Pipeline.Interrupt, Pipeline.Parse);
  }

  /** A read on an empty ring falls asleep with the lock free, where a signal stops the daemon. */
  lemma EmptyRingSleeps(cfg: Pipeline.Config, s: Pipeline.State)
    requires s.reader.Ready? && s.lock == Pipeline.Free && s.ring == ""
    ensures
      var asleep := Pipeline.Run(cfg, s, [Pipeline.Read, Pipeline.ReadLock, Pipeline.ReadTest]);
      && asleep == s.(reader := Pipeline.Asleep)
      && Pipeline.Run(cfg, asleep, [Pipeline.Interrupt, Pipeline.Parse]) == s.(reader := Pipeline.Stopped)
  {
    var asleep := s.(reader := Pipeline.Asleep);
    assert Pipeline.Run(cfg, s, [Pipeline.Read, Pipeline.ReadLock, Pipeline.ReadTest]) == asleep by {
      Pipeline.RunThree(cfg, s, Pipeline.Read, Pipeline.ReadLock, Pipeline.ReadTest);
    }
    SignalStops(cfg, asleep);
  }
}
