/** The character device: a ring buffer under a mutex that refines a bounded FIFO of bytes. */
module Chardev {

  /** (start + k) % size for k <= size, without the division. */
  function Slot(start: nat, k: nat, size: nat): (i: nat)
    requires start < size && k <= size
    ensures i < size && i == (start + k) % size
  {
    ModOnce(start + k, size);
    if start + k < size then start + k else start + k - size
  }

  lemma ModOnce(x: nat, size: nat)
    requires size > 0 && x < 2 * size
    ensures x % size == if x < size then x else x - size
  {
    if x >= size {
      assert x == (x - size) + 1 * size;
    }
  }

  /** What an insertion makes of the waiting bytes: all of the message, or nothing when it does not fit. */
  function Inserted(waiting: string, size: nat, msg: string): (s: string)
    ensures |waiting| + |msg| <= size ==> s == waiting + msg
    ensures |waiting| + |msg| > size ==> s == waiting
  {
    if |msg| <= size - |waiting| then waiting + msg else waiting
  }

  // ---- The time the hooks compare against ----

  /** UPDATE_MODIF_TYM is 1; zero leaves the time alone. */
  function AfterIoctl(modifTym: int, num: nat, param: int): int {
    if num == 1 && param != 0 then param else modifTym
  }

  function AfterIoctls(modifTym: int, calls: seq<(nat, int)>): int {
    if calls == [] then modifTym
    else AfterIoctl(AfterIoctls(modifTym, calls[..|calls| - 1]), calls[|calls| - 1].0, calls[|calls| - 1].1)
  }

  /** update_wrapfs_modif_tym: before a time is set, the present. */
  function Epoch(modifTym: int, now: int): int {
    if modifTym == 0 then now else modifTym
  }

  predicate SetsTime(call: (nat, int)) {
    call.0 == 1 && call.1 != 0
  }

  lemma {:induction false} TimeOnceSet(modifTym: int, calls: seq<(nat, int)>)
    ensures AfterIoctls(modifTym, calls) != 0 <==> modifTym != 0 || exists call :: call in calls && SetsTime(call)
  {
    if calls != [] {
      var n := |calls| - 1;
      TimeOnceSet(modifTym, calls[..n]);
      assert calls == calls[..n] + [calls[n]];
      assert SetsTime(calls[n]) ==> calls[n] in calls;
      assert forall call | call in calls[..n] && SetsTime(call) :: call in calls;
    }
  }

  /** The hooks' answer stops following the clock exactly when some call has set a time, and is then the last one set. */
  lemma EpochFixedExactly(calls: seq<(nat, int)>)
    ensures (forall now, later :: Epoch(AfterIoctls(0, calls), now) == Epoch(AfterIoctls(0, calls), later))
            <==> exists call :: call in calls && SetsTime(call)
    ensures forall i, now | 0 <= i < |calls| && SetsTime(calls[i]) && (forall j | i < j < |calls| :: !SetsTime(calls[j])) ::
              Epoch(AfterIoctls(0, calls), now) == calls[i].1
  {
    TimeOnceSet(0, calls);
    assert Epoch(0, 1) != Epoch(0, 2);
    forall i | 0 <= i < |calls| && SetsTime(calls[i]) && (forall j | i < j < |calls| :: !SetsTime(calls[j]))
      ensures AfterIoctls(0, calls) == calls[i].1
    {
      LastTimeSet(0, calls, i);
    }
  }

  lemma {:induction false} LastTimeSet(modifTym: int, calls: seq<(nat, int)>, i: nat)
    requires i < |calls| && SetsTime(calls[i]) && forall j | i < j < |calls| :: !SetsTime(calls[j])
    ensures AfterIoctls(modifTym, calls) == calls[i].1
  {
    var n := |calls| - 1;
    if i < n {
      LastTimeSet(modifTym, calls[..n], i);
    }
  }

  class Device {
    const msgbuffer: array<char>
    var startPos: nat
    var currentPos: nat
    var countData: nat
    var deviceOpen: nat
    var modifTym: int

    ghost predicate Valid()
      reads this
    {
      && startPos < msgbuffer.Length && countData <= msgbuffer.Length
      && currentPos == Slot(startPos, countData, msgbuffer.Length)
    }

    /** The bytes waiting, oldest first. */
    ghost function Contents(): (s: string)
      reads this, msgbuffer
      requires Valid()
      ensures |s| == countData
    {
      seq(countData, k requires 0 <= k < countData reads this, msgbuffer requires Valid()
            => msgbuffer[Slot(startPos, k, msgbuffer.Length)])
    }

    constructor (size: nat)
      requires size > 0
      ensures Valid() && Contents() == [] && msgbuffer.Length == size && fresh(msgbuffer)
      ensures deviceOpen == 0 && modifTym == 0
    {
      msgbuffer := new char[size];
      startPos, currentPos, countData, deviceOpen, modifTym := 0, 0, 0, 0, 0;
    }

    /** All of the message or nothing; an interrupted lock drops the message and still returns its length. */
    method CharDevBufferInsert(msg: string, interrupted: bool) returns (r: int)
      requires Valid()
      modifies this`currentPos, this`countData, msgbuffer
      ensures Valid()
      ensures interrupted ==> Contents() == old(Contents()) && r == |msg|
      ensures !interrupted ==> Contents() == Inserted(old(Contents()), msgbuffer.Length, msg)
      ensures !interrupted && |old(Contents())| + |msg| <= msgbuffer.Length ==>
                Contents() == old(Contents()) + msg && r == |msg|
      ensures !interrupted && |old(Contents())| + |msg| > msgbuffer.Length ==>
                Contents() == old(Contents()) && r == -1
    {
      if interrupted {
        return |msg|;
      }
      if |msg| > msgbuffer.Length - countData {
        return -1;
      }
      for j := 0 to |msg|
        invariant Valid() && countData == old(countData) + j
        invariant Contents() == old(Contents()) + msg[..j]
      {
        PutByte(msg[j]);
        assert msg[..j + 1] == msg[..j] + [msg[j]];
      }
      assert msg[..|msg|] == msg;
      return |msg|;
    }

    /** The body of the insert loop. */
    method PutByte(c: char)
      requires Valid() && countData < msgbuffer.Length
      modifies this`currentPos, this`countData, msgbuffer
      ensures Valid() && Contents() == old(Contents()) + [c]
    {
      msgbuffer[currentPos] := c;
      ModOnce(currentPos + 1, msgbuffer.Length);
      currentPos := (currentPos + 1) % msgbuffer.Length;
      countData := countData + 1;
    }

    /** The body of the copy loop, into `buffer[k]`. */
    method GetByte(buffer: array<char>, k: nat)
      requires Valid() && countData > 0 && buffer != msgbuffer && k < buffer.Length
      modifies this`startPos, this`countData, buffer
      ensures Valid() && buffer[k] == old(Contents())[0] && Contents() == old(Contents())[1..]
      ensures forall j | 0 <= j < buffer.Length && j != k :: buffer[j] == old(buffer[j])
    {
      buffer[k] := msgbuffer[startPos];
      ModOnce(startPos + 1, msgbuffer.Length);
      startPos := (startPos + 1) % msgbuffer.Length;
      countData := countData - 1;
    }

    /** The copy of device_read, entered with the lock held; it reads into `buffer` from `at`. */
    method DeviceRead(buffer: array<char>, at: nat, length: nat) returns (bytesRead: nat)
      requires Valid() && buffer != msgbuffer && at + length <= buffer.Length
      modifies this`startPos, this`countData, buffer
      ensures Valid()
      ensures bytesRead == if length <= old(countData) then length else old(countData)
      ensures buffer[at..at + bytesRead] == old(Contents()[..bytesRead]) && Contents() == old(Contents()[bytesRead..])
      ensures forall k | 0 <= k < buffer.Length && !(at <= k < at + bytesRead) :: buffer[k] == old(buffer[k])
    {
      bytesRead := 0;
      ghost var all := Contents();
      while bytesRead < length && countData > 0
        invariant Valid() && bytesRead <= length && bytesRead + countData == |all|
        invariant Contents() == all[bytesRead..]
        invariant forall k | 0 <= k < buffer.Length ::
                    buffer[k] == if at <= k < at + bytesRead then all[k - at] else old(buffer[k])
        decreases length - bytesRead
      {
        GetByte(buffer, at + bytesRead);
        assert all[bytesRead..][1..] == all[bytesRead + 1..];
        bytesRead := bytesRead + 1;
      }
    }

    /** -EBUSY unless the device is closed. */
    method DeviceOpen() returns (ok: bool)
      modifies this`deviceOpen
      ensures ok <==> old(deviceOpen) == 0
      ensures deviceOpen == if ok then 1 else old(deviceOpen)
    {
      if deviceOpen != 0 {
        return false;
      }
      deviceOpen := deviceOpen + 1;
      return true;
    }

    method DeviceIoctl(num: nat, param: int)
      modifies this`modifTym
      ensures modifTym == AfterIoctl(old(modifTym), num, param)
      ensures modifTym == if num == 1 && param != 0 then param else old(modifTym)
    {
      if num == 1 {
        if param != 0 {
          modifTym := param;
        }
      }
    }

    method UpdateWrapfsModifTym(now: int) returns (t: int)
      ensures t == Epoch(modifTym, now)
      ensures t == if modifTym == 0 then now else modifTym
    {
      if modifTym == 0 {
        return now;
      } else {
        return modifTym;
      }
    }
  }
}
