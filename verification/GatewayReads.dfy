/** What interleaved readers see: the block written last. */
module GatewayReads {
  import opened Bits
  import opened Blocks
  import opened Gateway
  import opened GatewayAtomicity

  /** The call stores a dword at `key` when it is run. */
  predicate Stores(chip: Chip, call: Call, key: Key) {
    call.WriteBlock? && Supports(chip.status, SelectedSpace(call.space))
    && exists i :: 0 <= i < Accepted(call.offset, 0, DwordCount(call.size))
         && key == Key(SelectedSpace(call.space), DwordAddress(call.offset, i))
  }

  lemma {:induction false} WrittenElsewhere(memory: Memory, space: nat, offset: U32, data: seq<U32>, k: nat, key: Key)
    requires k <= |data|
    requires forall i :: 0 <= i < k ==> key != Key(space, DwordAddress(offset, i))
    ensures Get(Written(memory, space, offset, data, k), key) == Get(memory, key)
  {
    if k > 0 {
      WrittenElsewhere(memory, space, offset, data, k - 1, key);
    }
  }

  /** A call that does not store at `key` leaves the dword there alone. */
  lemma EffectElsewhere(chip: Chip, memory: Memory, call: Call, key: Key)
    requires !Stores(chip, call, key)
    ensures Get(Effect(chip, memory, call).1, key) == Get(memory, key)
  {
    if call.WriteBlock? && Supports(chip.status, SelectedSpace(call.space)) {
      WrittenElsewhere(memory, SelectedSpace(call.space), call.offset, call.buffer,
                       Accepted(call.offset, 0, DwordCount(call.size)), key);
    }
  }

  /** What a stored dword becomes does not depend on the memory before. */
  lemma {:induction false} WrittenOver(m: Memory, m': Memory, space: nat, offset: U32, data: seq<U32>, k: nat, i: nat)
    requires i < k <= |data|
    ensures var key := Key(space, DwordAddress(offset, i));
            Get(Written(m, space, offset, data, k), key) == Get(Written(m', space, offset, data, k), key)
  {
    if i < k - 1 {
      WrittenOver(m, m', space, offset, data, k - 1, i);
    }
  }

  /** `Stores` says exactly which dwords a call can change. */
  lemma StoresExactly(chip: Chip, call: Call, key: Key)
    ensures Stores(chip, call, key) <==>
            exists memory :: Get(Effect(chip, memory, call).1, key) != Get(memory, key)
  {
    if Stores(chip, call, key) {
      var n := Accepted(call.offset, 0, DwordCount(call.size));
      var i :| 0 <= i < n && key == Key(SelectedSpace(call.space), DwordAddress(call.offset, i));
      var value := Get(Effect(chip, map[], call).1, key);
      var other: U32 := if value == 0 then 1 else 0;
      var memory: Memory := map[key := other];
      WrittenOver(map[], memory, SelectedSpace(call.space), call.offset, call.buffer, n, i);
      assert Get(Effect(chip, memory, call).1, key) != Get(memory, key);
    } else {
      forall memory ensures Get(Effect(chip, memory, call).1, key) == Get(memory, key) {
        EffectElsewhere(chip, memory, call, key);
      }
    }
  }

  lemma {:induction false} KeptBetween(chip: Chip, memory: Memory, calls: seq<Call>, i: nat, j: nat, key: Key)
    requires i <= j <= |calls|
    requires forall k :: i <= k < j ==> !Stores(chip, calls[k], key)
    ensures Get(MemoryAfter(chip, memory, calls[..j]), key) == Get(MemoryAfter(chip, memory, calls[..i]), key)
    decreases j - i
  {
    if i < j {
      KeptBetween(chip, memory, calls, i, j - 1, key);
      assert calls[..j][..j - 1] == calls[..j - 1];
      EffectElsewhere(chip, MemoryAfter(chip, memory, calls[..j - 1]), calls[j - 1], key);
      hide Effect, Stores;
    }
  }

  lemma {:induction false} ReportAt(chip: Chip, memory: Memory, calls: seq<Call>, j: nat)
    requires j < |calls|
    ensures |ReportsOf(chip, memory, calls)| == |calls|
    ensures ReportsOf(chip, memory, calls)[j] == Effect(chip, MemoryAfter(chip, memory, calls[..j]), calls[j]).0
    decreases |calls|
  {
    hide Effect;
    var last := |calls| - 1;
    if j < last {
      ReportAt(chip, memory, calls[..last], j);
      assert calls[..last][..j] == calls[..j];
    } else {
      ReportLength(chip, memory, calls[..last]);
    }
  }

  lemma {:induction false} ReportLength(chip: Chip, memory: Memory, calls: seq<Call>)
    ensures |ReportsOf(chip, memory, calls)| == |calls|
  {
    hide Effect;
    if calls != [] {
      ReportLength(chip, memory, calls[..|calls| - 1]);
    }
  }

  /** The two calls move the same block of the same space. */
  predicate SameBlock(w: Call, r: Call) {
    && w.WriteBlock? && r.ReadBlock?
    && SelectedSpace(w.space) == SelectedSpace(r.space) && w.offset == r.offset && w.size == r.size
    && |w.buffer| == |r.buffer| && DwordCount(w.size) <= DWORD_LIMIT
  }

  /** A read after a write with nothing stored there in between, among calls run one by one. */
  lemma SequentialRead(chip: Chip, memory: Memory, calls: seq<Call>, i: nat, j: nat)
    requires i < j < |calls| && SameBlock(calls[i], calls[j])
    requires Supports(chip.status, SelectedSpace(calls[i].space))
    requires forall k, key :: i < k < j && Stores(chip, calls[i], key) ==> !Stores(chip, calls[k], key)
    ensures |ReportsOf(chip, memory, calls)| == |calls|
    ensures var n := Accepted(calls[i].offset, 0, DwordCount(calls[i].size));
            && ReportsOf(chip, memory, calls)[j].buffer == calls[i].buffer[..n] + calls[j].buffer[n..]
            && ReportsOf(chip, memory, calls)[j].error == ReportsOf(chip, memory, calls)[i].error
  {
    var w, r := calls[i], calls[j];
    var space := SelectedSpace(w.space);
    var n := Accepted(w.offset, 0, DwordCount(w.size));
    ReportAt(chip, memory, calls, i);
    ReportAt(chip, memory, calls, j);
    var before := MemoryAfter(chip, memory, calls[..i]);
    var atRead := MemoryAfter(chip, memory, calls[..j]);
    assert calls[..i + 1][..i] == calls[..i];
    assert MemoryAfter(chip, memory, calls[..i + 1]) == Written(before, space, w.offset, w.buffer, n);
    assert ReportsOf(chip, memory, calls)[j].buffer == Fetched(atRead, space, r.offset, r.buffer, n);
    hide ReportsOf, MemoryAfter, Effect, Accepted, Fetched, Written;
    forall k | 0 <= k < n
      ensures var key := Key(space, DwordAddress(w.offset, k));
              Get(atRead, key) == Get(Written(before, space, w.offset, w.buffer, n), key)
    {
      var key := Key(space, DwordAddress(w.offset, k));
      assert Stores(chip, w, key);
      KeptBetween(chip, memory, calls, i + 1, j, key);
    }
    FetchesWhatWasWritten(before, atRead, space, w.offset, w.buffer, r.buffer, n);
  }

  lemma FetchesWhatWasWritten(before: Memory, atRead: Memory, space: nat, offset: U32,
                              data: seq<U32>, buffer: seq<U32>, n: nat)
    requires n <= |data| == |buffer| && n <= DWORD_LIMIT
    requires forall k :: 0 <= k < n ==>
               var key := Key(space, DwordAddress(offset, k));
               Get(atRead, key) == Get(Written(before, space, offset, data, n), key)
    ensures Fetched(atRead, space, offset, buffer, n) == data[..n] + buffer[n..]
  {
    var r := Fetched(atRead, space, offset, buffer, n);
    forall k | 0 <= k < |r| ensures r[k] == (data[..n] + buffer[n..])[k] {
      if k < n {
        WrittenAt(before, space, offset, data, n, Key(space, DwordAddress(offset, k)));
      }
    }
  }

  /** Readers see the last write: on a clean run, whatever the interleaving, a finished block read
      returns the block stored by an earlier accepted write of the same block when no call
      accepted in between stores into it. */
  lemma ReadsTheLastWrite(s: State, events: seq<Event>, i: nat, j: nat)
    requires Initial(s) && Clean(s, events)
    requires var r := Run(s, events);
             && i < j < |r.reports| && j < |r.accepted| && SameBlock(r.accepted[i], r.accepted[j])
             && Supports(s.device.status, SelectedSpace(r.accepted[i].space))
             && forall k, key :: i < k < j && Stores(ChipOf(s.device), r.accepted[i], key) ==>
                  !Stores(ChipOf(s.device), r.accepted[k], key)
    ensures var r := Run(s, events);
            var n := Accepted(r.accepted[i].offset, 0, DwordCount(r.accepted[i].size));
            && r.reports[j].buffer == r.accepted[i].buffer[..n] + r.accepted[j].buffer[n..]
            && r.reports[j].error == r.reports[i].error
  {
    Atomicity(s, events);
    var r := Run(s, events);
    var calls := r.accepted[..|r.reports|];
    assert calls[i] == r.accepted[i] && calls[j] == r.accepted[j];
    hide Run, Stores, Accepted, ReportsOf;
    forall k, key | i < k < j && Stores(ChipOf(s.device), calls[i], key)
      ensures !Stores(ChipOf(s.device), calls[k], key)
    {
      assert calls[k] == r.accepted[k];
    }
    SequentialRead(ChipOf(s.device), s.device.memory, calls, i, j);
  }
}
