/** The handshake that reads and writes vital product data: `vpd_read` and `vpd_write` of
    nnt_ioctl.c, over the flag protocol of Appendix I of the PCI Local Bus Specification,
    Revision 3.0. */
module Vpd {
  import opened Bits
  import opened Errno

  /** The two masks of the driver. */
  const MASK := 0x7fff
  const MSB_MASK := 0x8000

  type Memory = map<nat, U32>

  function Get(memory: Memory, address: nat): U32 {
    if address in memory then memory[address] else 0
  }

  /** `word` is the address register: a 15-bit address below the flag. `remaining` counts the
      polls that still find the device at work. */
  datatype VpdState = VpdState(word: nat, data: U32, busy: bool, remaining: nat, memory: Memory)

  /** One look at the flag: when it was taken, and whether the flag was as awaited. */
  datatype Look = Look(time: nat, seen: bool)

  const JIFFIES_LIMIT := 0x1_0000_0000_0000_0000
  const HALF := 0x8000_0000_0000_0000

  /** `time_before(a, b)` on wrapping 64-bit counters: `(long)(a - b) < 0`. */
  predicate TimeBefore(a: nat, b: nat) {
    (a - b) % JIFFIES_LIMIT >= HALF
  }

  /** The wrapped comparison is the comparison of the times, as long as they are less than half
      the counter's range apart. */
  lemma WrappedComparison(now: nat, deadline: nat)
    requires -HALF < now - deadline < HALF
    ensures TimeBefore(Wrap(now), Wrap(deadline)) <==> now < deadline
  {
    var difference := now % JIFFIES_LIMIT - deadline % JIFFIES_LIMIT;
    var turns := now / JIFFIES_LIMIT - deadline / JIFFIES_LIMIT;
    assert difference == now - deadline - turns * JIFFIES_LIMIT;
  }

  /** What a 64-bit counter shows at time `t`. */
  function Wrap(t: nat): nat {
    t % JIFFIES_LIMIT
  }

  lemma DeadlineWraps(timeout: nat, start: nat)
    ensures Wrap(timeout + Wrap(start)) == Wrap(start + timeout)
  {
    var turns := start / JIFFIES_LIMIT;
    assert start == start % JIFFIES_LIMIT + turns * JIFFIES_LIMIT;
  }

  /** `mask & offset`, and the flag set above it. */
  lemma AddressWords(offset: U32)
    ensures And(MASK, offset) == offset % 0x8000
    ensures Or(MSB_MASK, offset % 0x8000) == 0x8000 + offset % 0x8000
  {
    assert Pow2(8) == 0x100;
    assert Pow2(15) == 0x8000;
    assert Pow2(17) == 0x2_0000;
    ShrDivides(WORD_LIMIT - 1, 17);
    assert Ones32(15) == MASK;
    hide Bits.Shr, Bits.Ones32, Bits.And, Bits.Or;
    AndCommutes(MASK, offset);
    AndOnes(offset, 15);
    OrOntoLower(15, offset % 0x8000);
  }

  lemma {:induction false} AndCommutes(x: nat, y: nat)
    ensures And(x, y) == And(y, x)
  {
    if x != 0 && y != 0 {
      AndCommutes(x / 2, y / 2);
    }
  }

  /** `data & msb_mask`. */
  lemma FlagTest(word: nat)
    requires word < 0x1_0000
    ensures And(word, MSB_MASK) != 0 <==> word >= 0x8000
  {
    assert Pow2(8) == 0x100;
    assert Pow2(15) == 0x8000;
    ShiftLeftMultiplies(1, 15);
    assert Shl32(1, 15) == MSB_MASK;
    hide Bits.Shl32, Bits.And, Bits.Bit;
    AndTestsBit(word, 15);
    BitArithmetic(word, 15);
  }

  /** Every look since `before` was before `end`, and the last one is the first that saw the flag
      as awaited, if any did. */
  ghost predicate Looked(before: seq<Look>, looks: seq<Look>, end: nat, seen: bool) {
    && before <= looks
    && (forall k :: |before| <= k < |looks| ==> looks[k].time < end && (looks[k].seen <==> seen && k == |looks| - 1))
    && (seen ==> |before| < |looks|)
  }

  lemma LookedEitherWay(before: seq<Look>, looks: seq<Look>, end: nat)
    ensures !(Looked(before, looks, end, true) && Looked(before, looks, end, false))
  {
    var k := |looks| - 1;
    assert Looked(before, looks, end, true) ==> k >= |before| && looks[k].seen;
  }

  lemma LookedOnceMore(before: seq<Look>, looks: seq<Look>, end: nat, time: nat, seen: bool)
    requires time < end
    ensures Looked(before, looks, end, false) ==> Looked(before, looks + [Look(time, seen)], end, seen)
  {
  }

  class VpdPort {
    /** The error code of the n-th access; 0 when it succeeds. */
    const fails: nat -> int
    /** For a transfer started by the n-th access, the number of polls that find it unfinished. */
    const delay: nat -> nat
    /** The time, in jiffies, at the n-th look at the clock. */
    const clock: nat -> nat

    var state: VpdState
    var accesses: nat
    var samples: nat
    /** The looks at the flag, in order. */
    ghost var looks: seq<Look>

    constructor (fails: nat -> int, delay: nat -> nat, clock: nat -> nat, state: VpdState)
      requires state.word < 0x1_0000
      ensures this.fails == fails && this.delay == delay && this.clock == clock
      ensures Valid() && this.state == state && looks == []
    {
      this.fails, this.delay, this.clock, this.state := fails, delay, clock, state;
      accesses, samples, looks := 0, 0, [];
    }

    function TimeAt(n: nat): nat {
      clock(n)
    }

    predicate Valid()
      reads this
    {
      state.word < 0x1_0000
    }

    /** The accesses from access `from` on up to access `to` were made, and `error` is what the last of
        them returned: the code of the first that was refused, or 0. */
    ghost predicate Made(from: nat, to: nat, error: int) {
      if error == 0 then from <= to && forall n :: from <= n < to ==> fails(n) == 0
      else from < to && error == fails(to - 1) && forall n :: from <= n < to - 1 ==> fails(n) == 0
    }

    lemma MadeThen(from: nat, between: nat, to: nat, error: int)
      requires Made(from, between, 0) && Made(between, to, error)
      ensures Made(from, to, error)
    {
    }

    lemma MadeOne(n: nat)
      ensures Made(n, n, 0) && Made(n, n + 1, fails(n))
    {
    }

    /** Time moves forward, and no two looks at the clock are a quarter of its range apart. */
    ghost predicate Ticks() {
      forall n: nat :: TimeAt(n) <= TimeAt(n + 1) < TimeAt(n) + HALF / 2
    }

    function Complete(s: VpdState): VpdState {
      if !s.busy then s
      else if s.word < 0x8000 then
        s.(busy := false, remaining := 0, word := s.word + 0x8000, data := Get(s.memory, s.word))
      else
        s.(busy := false, remaining := 0, word := s.word - 0x8000, memory := s.memory[s.word - 0x8000 := s.data])
    }

    function DeviceMoves(s: VpdState): VpdState {
      if s.busy && s.remaining > 0 then s.(remaining := s.remaining - 1) else Complete(s)
    }

    method Jiffies() returns (now: nat)
      modifies this`samples
      ensures now == Wrap(TimeAt(old(samples))) && samples == old(samples) + 1
    {
      now := Wrap(TimeAt(samples));
      samples := samples + 1;
    }

    method WriteAddress(word: nat) returns (error: int)
      requires word < 0x1_0000
      modifies this`state, this`accesses
      ensures error == fails(old(accesses)) && accesses == old(accesses) + 1
      ensures state == if error != 0 then old(state)
                       else old(state).(word := word, busy := true, remaining := delay(old(accesses)))
    {
      error := fails(accesses);
      if error == 0 {
        state := state.(word := word, busy := true, remaining := delay(accesses));
      }
      accesses := accesses + 1;
    }

    method ReadAddress() returns (error: int, word: nat)
      requires Valid()
      modifies this`state, this`accesses
      ensures Valid() && word < 0x1_0000
      ensures error == fails(old(accesses)) && accesses == old(accesses) + 1
      ensures state == if error != 0 then old(state) else DeviceMoves(old(state))
      ensures error == 0 ==> word == state.word
    {
      error, word := fails(accesses), 0;
      if error == 0 {
        state := DeviceMoves(state);
        word := state.word;
      }
      accesses := accesses + 1;
    }

    method ReadData() returns (error: int, data: U32)
      modifies this`accesses
      ensures error == fails(old(accesses)) && accesses == old(accesses) + 1
      ensures data == state.data
    {
      error, data := fails(accesses), state.data;
      accesses := accesses + 1;
    }

    method WriteData(data: U32) returns (error: int)
      modifies this`state, this`accesses
      ensures error == fails(old(accesses)) && accesses == old(accesses) + 1
      ensures state == if error != 0 then old(state) else old(state).(data := data)
    {
      error := fails(accesses);
      if error == 0 {
        state := state.(data := data);
      }
      accesses := accesses + 1;
    }

    /** How far the device can have come with the transfer it had in `s`. */
    ghost predicate Advanced(s: VpdState, s': VpdState) {
      s' == s || s' == Complete(s) || (s.busy && s' == s.(remaining := s'.remaining))
    }

    ghost predicate Pending(s: VpdState, s': VpdState) {
      s.busy && s' == s.(remaining := s'.remaining)
    }

    lemma MoveOnce(s: VpdState, s': VpdState, awaited: bool)
      requires s.word < 0x1_0000 && Advanced(s, s')
      ensures Advanced(s, DeviceMoves(s'))
      ensures Pending(s, s') && (s.word < 0x8000) == awaited ==>
                var t := DeviceMoves(s');
                if (t.word >= 0x8000) == awaited then t == Complete(s) else Pending(s, t)
    {
    }

    /** One poll of the address register, at `time`. */
    method PollFlag(awaited: bool, ghost s: VpdState, ghost time: nat) returns (error: int, seen: bool)
      requires Valid() && s.word < 0x1_0000 && Advanced(s, state)
      modifies this`state, this`accesses, this`looks
      ensures Valid() && Advanced(s, state)
      ensures error == 0 ==> looks == old(looks) + [Look(time, seen)]
      ensures error != 0 ==> looks == old(looks) && !seen
      ensures error == 0 && (s.word < 0x8000) == awaited && Pending(s, old(state)) ==>
                if seen then state == Complete(s) else Pending(s, state)
      ensures Made(old(accesses), accesses, error)
    {
      MadeOne(accesses);
      MoveOnce(s, state, awaited);
      hide Advanced, Pending, DeviceMoves, Complete, Made, Bits.And;
      var word: nat;
      error, word := ReadAddress();
      if error != 0 {
        return error, false;
      }
      FlagTest(word);
      seen := (And(word, MSB_MASK) != 0) == awaited;
      looks := looks + [Look(time, seen)];
    }

    /** The waiting loop of both functions: polls until the flag is as awaited or the clock has
        reached the deadline. `patience` is a number of looks at the clock after which the
        deadline has passed. */
    method AwaitFlag(awaited: bool, timeout: nat, ghost patience: nat) returns (error: int, seen: bool)
      requires Valid() && Ticks() && timeout < HALF / 2
      requires TimeAt(samples + patience) >= TimeAt(samples) + timeout
      modifies this
      ensures Valid()
      ensures Advanced(old(state), state)
      ensures Looked(old(looks), looks, TimeAt(old(samples)) + timeout, seen)
      ensures error == 0 && !seen ==> samples > 0 && TimeAt(samples - 1) >= TimeAt(old(samples)) + timeout
      ensures error == 0 && old(state.busy) && (old(state.word) < 0x8000) == awaited ==>
                if seen then state == Complete(old(state)) else Pending(old(state), state)
      ensures Made(old(accesses), accesses, error)
      ensures error != 0 ==> !seen
    {
      error, seen := 0, false;
      ghost var s, s0, looks0, first := state, samples, looks, accesses;
      ghost var end := TimeAt(s0) + timeout;
      DeadlineWraps(timeout, TimeAt(s0));
      assert Advanced(s, s) && (s.busy ==> Pending(s, s));
      assert Looked(looks0, looks0, end, false);
      hide TimeBefore, Wrap, Looked, TimeAt, Ticks, Made, Bits.And, Advanced, Pending, DeviceMoves, Complete;
      var now := Jiffies();
      var deadline := Wrap(timeout + now);
      var early := Early(deadline, end);
      hide Waiting;
      assert Waiting(s, looks0, end, awaited, early, first) by { WaitingHolds(s, looks0, end, awaited, early, first); }
      while early
        invariant Waiting(s, looks0, end, awaited, early, first)
        invariant error == 0 && !seen && deadline == Wrap(end) && samples > s0
        decreases s0 + patience + 2 - samples
      {
        LastLook(s, looks0, end, awaited, early, first, s0 + patience);
        error, seen, early := Turn(awaited, deadline, s, looks0, end, first);
        if error != 0 || seen {
          return;
        }
      }
      LastLook(s, looks0, end, awaited, early, first, s0 + patience);
    }

    /** The state of the waiting loop when `time_before` has answered `early`. */
    ghost predicate Waiting(s: VpdState, looks0: seq<Look>, end: nat, awaited: bool, early: bool, first: nat)
      reads this
    {
      && Valid() && samples > 0 && end < TimeAt(samples - 1) + HALF
      && (early <==> TimeAt(samples - 1) < end)
      && s.word < 0x1_0000 && Advanced(s, state)
      && (s.busy && (s.word < 0x8000) == awaited ==> Pending(s, state))
      && Looked(looks0, looks, end, false) && Made(first, accesses, 0)
    }

    lemma WaitingHolds(s: VpdState, looks0: seq<Look>, end: nat, awaited: bool, early: bool, first: nat)
      requires Valid() && samples > 0 && end < TimeAt(samples - 1) + HALF
      requires early <==> TimeAt(samples - 1) < end
      requires s == state && looks0 == looks && first == accesses
      ensures Waiting(s, looks0, end, awaited, early, first)
    {
    }

    lemma LastLook(s: VpdState, looks0: seq<Look>, end: nat, awaited: bool, early: bool, first: nat, last: nat)
      requires Ticks() && Waiting(s, looks0, end, awaited, early, first) && TimeAt(last) >= end
      ensures early ==> samples <= last
      ensures Valid() && Advanced(s, state) && Looked(looks0, looks, end, false)
      ensures s.busy && (s.word < 0x8000) == awaited ==> Pending(s, state)
      ensures !early ==> samples > 0 && TimeAt(samples - 1) >= end
      ensures Made(first, accesses, 0)
    {
      hide Made;
      MonotoneClock(last, samples - 1);
    }

    /** One turn of the waiting loop: a poll, and another look at the clock. */
    method Turn(awaited: bool, deadline: nat, ghost s: VpdState, ghost looks0: seq<Look>, ghost end: nat,
                ghost first: nat)
      returns (error: int, seen: bool, early: bool)
      requires Ticks() && Waiting(s, looks0, end, awaited, true, first) && deadline == Wrap(end)
      modifies this
      ensures samples >= old(samples)
      ensures error == 0 && !seen ==> Waiting(s, looks0, end, awaited, early, first) && samples == old(samples) + 1
      ensures Valid() && Advanced(s, state) && Looked(looks0, looks, end, seen)
      ensures error == 0 && seen && s.busy && (s.word < 0x8000) == awaited ==> state == Complete(s)
      ensures Made(first, accesses, error)
      ensures error != 0 ==> !seen
    {
      hide TimeBefore, Wrap, Looked, TimeAt, Made, Advanced, Pending, DeviceMoves, Complete;
      early := true;
      LookedOnceMore(looks0, looks, end, TimeAt(samples - 1), true);
      LookedOnceMore(looks0, looks, end, TimeAt(samples - 1), false);
      ghost var between := accesses;
      error, seen := PollFlag(awaited, s, TimeAt(samples - 1));
      MadeThen(first, between, accesses, error);
      if error != 0 || seen {
        return;
      }
      early := Early(deadline, end);
    }

    /** `time_before(jiffies, deadline)` for the deadline `end`. */
    method Early(deadline: nat, ghost end: nat) returns (early: bool)
      requires Ticks() && samples > 0 && TimeAt(samples - 1) <= end && end < TimeAt(samples - 1) + HALF
      requires deadline == Wrap(end)
      modifies this`samples
      ensures samples == old(samples) + 1
      ensures TimeAt(samples - 1) >= TimeAt(samples - 2)
      ensures TimeAt(samples - 1) < end + HALF / 2
      ensures early <==> TimeAt(samples - 1) < end
    {
      assert TimeAt(samples - 1) <= TimeAt(samples - 1 + 1) < TimeAt(samples - 1) + HALF / 2;
      WrappedComparison(TimeAt(samples), end);
      hide TimeBefore, Wrap;
      var now := Jiffies();
      early := TimeBefore(now, deadline);
    }

    lemma {:induction false} MonotoneClock(a: nat, b: nat)
      requires Ticks()
      ensures a <= b ==> TimeAt(a) <= TimeAt(b)
      decreases b - a
    {
      if a < b {
        MonotoneClock(a + 1, b);
        assert TimeAt(a) <= TimeAt(a + 1);
      }
    }
  }

  /** No look at the flag within a call saw it as awaited, and the last look at the clock found
      the deadline passed. */
  ghost predicate TimedOut(port: VpdPort, end: nat, before: seq<Look>, looks: seq<Look>, samples: nat) {
    Looked(before, looks, end, false) && samples > 0 && port.TimeAt(samples - 1) >= end
  }

  /** No access since access `from` was refused. */
  ghost predicate Granted(port: VpdPort, from: nat)
    reads port
  {
    port.Made(from, port.accesses, 0)
  }

  /** `vpd_read`. A refused access ends it with its code. Otherwise, whatever the device's delay, a return
      of 0 comes with the stored dword, and -ETIMEDOUT exactly when no poll before the deadline saw the
      flag. Memory is never changed. */
  method VpdRead(port: VpdPort, offset: U32, timeout: nat, data0: U32, ghost patience: nat)
    returns (error: int, data: U32)
    requires port.Valid() && port.Ticks() && timeout < HALF / 2
    requires port.TimeAt(port.samples + patience) >= port.TimeAt(port.samples) + timeout
    modifies port
    ensures port.Valid() && port.state.memory == old(port.state.memory)
    ensures Granted(port, old(port.accesses)) || port.Made(old(port.accesses), port.accesses, error)
    ensures Granted(port, old(port.accesses)) ==>
              && error in {0, -110}
              && (error == 0 ==> data == Get(port.state.memory, offset % 0x8000))
              && var end := port.TimeAt(old(port.samples)) + timeout;
                 && (error == 0 <==> Looked(old(port.looks), port.looks, end, true))
                 && (error == -ETIMEDOUT <==> TimedOut(port, end, old(port.looks), port.looks, port.samples))
    ensures error != 0 ==> data == data0
  {
    AddressWords(offset);
    hide Bits.And, Bits.Or, VpdPort.Made;
    ghost var first := port.accesses;
    port.MadeOne(first);
    data := data0;
    var address := And(MASK, offset);
    error := port.WriteAddress(address);
    if error != 0 {
      NotGranted(port, first, error);
      return;
    }
    var isBitSet: bool;
    error, isBitSet := port.AwaitFlag(true, timeout, patience);
    port.MadeThen(first, first + 1, port.accesses, error);
    if error != 0 {
      NotGranted(port, first, error);
      return;
    }
    LookedEitherWay(old(port.looks), port.looks, port.TimeAt(old(port.samples)) + timeout);
    if !isBitSet {
      return -ETIMEDOUT, data;
    }
    ghost var between := port.accesses;
    port.MadeOne(between);
    var value: U32;
    error, value := port.ReadData();
    port.MadeThen(first, between, port.accesses, error);
    if error == 0 {
      data := value;
    } else {
      NotGranted(port, first, error);
    }
  }

  lemma NotGranted(port: VpdPort, from: nat, error: int)
    requires port.Made(from, port.accesses, error) && error != 0
    ensures !Granted(port, from)
  {
  }

  /** `vpd_write`, like `VpdRead`. After a refused access the dword may have been stored or not. */
  method VpdWrite(port: VpdPort, offset: U32, timeout: nat, data: U32, ghost patience: nat) returns (error: int)
    requires port.Valid() && port.Ticks() && timeout < HALF / 2
    requires port.TimeAt(port.samples + patience) >= port.TimeAt(port.samples) + timeout
    modifies port
    ensures port.Valid()
    ensures port.state.memory in {old(port.state.memory), old(port.state.memory)[offset % 0x8000 := data]}
    ensures Granted(port, old(port.accesses)) || port.Made(old(port.accesses), port.accesses, error)
    ensures Granted(port, old(port.accesses)) ==>
              && error in {0, -110}
              && port.state.memory ==
                   (if error == 0 then old(port.state.memory)[offset % 0x8000 := data] else old(port.state.memory))
              && var end := port.TimeAt(old(port.samples)) + timeout;
                 && (error == 0 <==> Looked(old(port.looks), port.looks, end, true))
                 && (error == -ETIMEDOUT <==> TimedOut(port, end, old(port.looks), port.looks, port.samples))
  {
    AddressWords(offset);
    hide Bits.And, Bits.Or, VpdPort.Made;
    ghost var first := port.accesses;
    port.MadeOne(first);
    port.MadeOne(first + 1);
    error := port.WriteData(data);
    if error != 0 {
      NotGranted(port, first, error);
      return;
    }
    var address := Or(MSB_MASK, And(MASK, offset));
    error := port.WriteAddress(address);
    port.MadeThen(first, first + 1, port.accesses, error);
    if error != 0 {
      NotGranted(port, first, error);
      return;
    }
    var isBitSet: bool;
    error, isBitSet := port.AwaitFlag(false, timeout, patience);
    port.MadeThen(first, first + 2, port.accesses, error);
    if error != 0 {
      NotGranted(port, first, error);
      return;
    }
    LookedEitherWay(old(port.looks), port.looks, port.TimeAt(old(port.samples)) + timeout);
    if !isBitSet {
      return -ETIMEDOUT;
    }
  }

  /** A successful write and a successful read of the same address, one after the other, hand the
      data through. */
  method WriteThenRead(port: VpdPort, offset: U32, timeout: nat, data: U32, ghost patience: nat)
    returns (written: int, read: int, back: U32)
    requires port.Valid() && port.Ticks() && timeout < HALF / 2
    requires forall n: nat :: port.TimeAt(n + patience) >= port.TimeAt(n) + timeout
    modifies port
    ensures Granted(port, old(port.accesses)) && written == 0 && read == 0 ==> back == data
  {
    written := VpdWrite(port, offset, timeout, data, patience);
    read, back := VpdRead(port, offset, timeout, 0, patience);
  }
}
