/** How many accesses a call makes past its lock, on every path. */
module GatewayBound {
  import opened Errno
  import opened Registers
  import opened Blocks
  import opened Gateway
  import opened Accesses

  /** Accesses per dword: the address, the data, and the polls. */
  const PER_DWORD := 0x10002

  function Dwords(c: Call): nat {
    if c.ReadBlock? || c.WriteBlock? then DwordCount(c.size) else 0
  }

  /** All dwords of a call together. */
  function DwordsCost(c: Call): nat {
    Dwords(c) * PER_DWORD
  }

  /** What holds of the locals of a call past its lock. */
  predicate WellFormed(l: Local) {
    && l.polls < 0x10000
    && match l.pc
       case ControlRead => |l.found| < |Spaces(l.call)| && l.index == 0
       case ControlWrite => |l.found| < |Spaces(l.call)| && l.index == 0
       case ControlCheck => |l.found| < |Spaces(l.call)| && l.index == 0
       case ReadAddress => l.index < Dwords(l.call)
       case ReadPoll => l.index < Dwords(l.call)
       case ReadData => l.index < Dwords(l.call)
       case WriteData => l.index < Dwords(l.call)
       case WriteAddress => l.index < Dwords(l.call)
       case WritePoll => l.index < Dwords(l.call)
       case DwordRead => true
       case Clear => true
       case _ => l.index == 0 && l.found == []
  }

  /** An upper bound on the accesses still to come, the clear included. */
  function Left(l: Local): nat
    requires WellFormed(l) && InCritical(l)
  {
    match l.pc
    case ControlRead => 3 * (|Spaces(l.call)| - |l.found|) + Dwords(l.call) * PER_DWORD + 1
    case ControlWrite => 3 * (|Spaces(l.call)| - |l.found|) + Dwords(l.call) * PER_DWORD
    case ControlCheck => 3 * (|Spaces(l.call)| - |l.found|) - 1 + Dwords(l.call) * PER_DWORD
    case ReadAddress => (Dwords(l.call) - l.index) * PER_DWORD + 1
    case ReadPoll => (Dwords(l.call) - l.index) * PER_DWORD - l.polls
    case ReadData => (Dwords(l.call) - l.index - 1) * PER_DWORD + 2
    case WriteData => (Dwords(l.call) - l.index) * PER_DWORD + 1
    case WriteAddress => (Dwords(l.call) - l.index) * PER_DWORD
    case WritePoll => (Dwords(l.call) - l.index) * PER_DWORD - 1 - l.polls
    case DwordRead => 2
    case Clear => 1
  }

  lemma NextDwordLeft(l: Local)
    requires l.polls < 0x10000 && (l.call.ReadBlock? || l.call.WriteBlock?)
    ensures WellFormed(NextDword(l)) && InCritical(NextDword(l))
    ensures Left(NextDword(l)) <=
            (if l.index < Dwords(l.call) then Dwords(l.call) - l.index else 0) * PER_DWORD + 1
  {
    hide Registers.SetRwAddress;
  }

  lemma NextSpaceLeft(l: Local)
    requires l.polls < 0x10000 && l.index == 0 && |l.found| <= |Spaces(l.call)|
    ensures WellFormed(NextSpace(l)) && InCritical(NextSpace(l))
    ensures Left(NextSpace(l)) <= 3 * (|Spaces(l.call)| - |l.found|) + DwordsCost(l.call) + 1
  {
    if l.call.ReadBlock? || l.call.WriteBlock? {
      NextDwordLeft(l);
    }
    hide NextDword;
  }

  ghost predicate UsesOne(l: Local, l': Local)
    requires WellFormed(l) && InCritical(l)
  {
    WellFormed(l') && InCritical(l') && Left(l') < Left(l)
  }

  lemma ControlCheckUsesOne(d: Device, l: Local)
    requires WellFormed(l) && l.pc == ControlCheck
    ensures UsesOne(l, CriticalStep(d, l).1)
  {
    hide Registers.StatusOf, Gateway.ControlWord, Gateway.NextSpace;
    var error := if StatusOf(ControlWord(d)) == 0 then -EINVAL else 0;
    NextSpaceLeft(l.(value := ControlWord(d), found := l.found + [error == 0]));
  }

  lemma ReadDataUsesOne(d: Device, l: Local)
    requires WellFormed(l) && l.pc == ReadData
    ensures UsesOne(l, CriticalStep(d, l).1)
  {
    hide Gateway.NextDword, Gateway.BufferStore;
    NextDwordLeft(l.(buffer := BufferStore(l.buffer, l.index, d.data), index := l.index + 1));
  }

  /** What a dword still costs at its polls covers the next dword and the clear. */
  lemma PollsCoverRest(dwords: nat, polls: nat)
    requires dwords > 0 && polls < 0x10000
    ensures (dwords - 1) * PER_DWORD + 1 < dwords * PER_DWORD - 1 - polls
  {
  }

  /** The bound at the polls of a write, and how it goes with one more of them. */
  lemma WritePollLeft(l: Local)
    requires WellFormed(l) && l.pc == WritePoll
    ensures l.index < Dwords(l.call) && l.polls < 0x10000 && InCritical(l)
    ensures Left(l) == (Dwords(l.call) - l.index) * PER_DWORD - 1 - l.polls
    ensures var l' := l.(polls := l.polls + 1); l'.polls < 0x10000 ==> UsesOne(l, l')
  {
    hide Gateway.Spaces, Dwords;
  }

  /** Where a poll of a write leads: to the next poll, or to the head of the loop. */
  lemma WritePollLeads(d: Device, l: Local)
    requires l.pc == WritePoll && (l.call.ReadBlock? || l.call.WriteBlock?)
    ensures var l' := CriticalStep(d, l).1;
            || l' == NextDword(l.(index := l.index + 1))
            || (l' == l.(polls := l.polls + 1) && l'.polls < 0x10000)
  {
    hide Gateway.NextDword, Registers.FlagOf;
  }

  /** The dword is done, and the next one begins or the call ends. */
  lemma DwordDoneUsesOne(l: Local)
    requires WellFormed(l) && l.pc == WritePoll
    ensures l.call.ReadBlock? || l.call.WriteBlock?
    ensures UsesOne(l, NextDword(l.(index := l.index + 1)))
  {
    WritePollLeft(l);
    NextDwordLeft(l.(index := l.index + 1));
    PollsCoverRest(Dwords(l.call) - l.index, l.polls);
    assert l.call.ReadBlock? || l.call.WriteBlock?;
    hide Gateway.NextDword, Gateway.Spaces, Dwords, Left, WellFormed, InCritical;
  }

  lemma WritePollUsesOne(d: Device, l: Local)
    requires WellFormed(l) && l.pc == WritePoll
    ensures UsesOne(l, CriticalStep(d, l).1)
  {
    WritePollLeft(l);
    DwordDoneUsesOne(l);
    WritePollLeads(d, l);
    hide Gateway.CriticalStep, Gateway.NextDword, UsesOne, Left, WellFormed, InCritical;
  }

  lemma ControlAccessUsesOne(d: Device, l: Local)
    requires WellFormed(l) && l.pc in {ControlRead, ControlWrite}
    ensures UsesOne(l, CriticalStep(d, l).1)
  {
    hide Registers.SelectSpace, Gateway.ControlWord, Gateway.CurrentSpace, Gateway.Spaces, Dwords;
  }

  lemma ReadUsesOne(d: Device, l: Local)
    requires WellFormed(l) && l.pc in {ReadAddress, ReadPoll}
    ensures UsesOne(l, CriticalStep(d, l).1)
  {
    hide Registers.FlagOf, Gateway.TransferWord, Gateway.Spaces, Dwords;
  }

  lemma WriteUsesOne(d: Device, l: Local)
    requires WellFormed(l) && l.pc in {WriteData, WriteAddress}
    ensures UsesOne(l, CriticalStep(d, l).1)
  {
    hide Gateway.TransferWord, Gateway.BufferAt, Gateway.Spaces, Dwords;
  }

  /** Every access of a call past its lock uses up at least one of them. */
  lemma StepUsesOne(d: Device, l: Local)
    requires WellFormed(l) && InCritical(l) && l.pc != Clear
    ensures UsesOne(l, CriticalStep(d, l).1)
  {
    if l.pc == DwordRead {
      hide Gateway.ReadRegister, Gateway.Spaces, Dwords;
    } else {
      hide UsesOne, CriticalStep;
      if l.pc == ControlCheck {
        ControlCheckUsesOne(d, l);
      } else if l.pc == ReadData {
        ReadDataUsesOne(d, l);
      } else if l.pc == WritePoll {
        WritePollUsesOne(d, l);
      } else if l.pc in {ControlRead, ControlWrite} {
        ControlAccessUsesOne(d, l);
      } else if l.pc in {ReadAddress, ReadPoll} {
        ReadUsesOne(d, l);
      } else {
        WriteUsesOne(d, l);
      }
    }
  }

  /** A call that is selecting a space has at least the other spaces and its dwords before it. */
  lemma SelectingLeft(l: Local)
    requires WellFormed(l) && l.pc in {ControlRead, ControlWrite, ControlCheck}
    ensures l.index == 0 && l.polls < 0x10000 && |l.found| < |Spaces(l.call)| && InCritical(l)
    ensures Left(l) >= 3 * (|Spaces(l.call)| - |l.found|) + DwordsCost(l.call) - 1
  {
    hide Gateway.Spaces, Dwords;
  }

  lemma SpaceRefusalLeads(l: Local, code: int)
    requires l.pc in {ControlRead, ControlWrite, ControlCheck}
    ensures var l' := l.(found := l.found + [code == 0]);
            RefusedStep(l, code) == NextSpace(l') || RefusedStep(l, code) == l'.(pc := Clear, error := code)
  {
    hide NextSpace;
  }

  lemma ClearLeft(l: Local)
    requires l.pc == Clear && l.polls < 0x10000
    ensures WellFormed(l) && InCritical(l) && Left(l) == 1
  {
    hide Gateway.Spaces, Dwords;
  }

  lemma SpaceRefusalUsesOne(l: Local, code: int)
    requires WellFormed(l) && l.pc in {ControlRead, ControlWrite, ControlCheck}
    ensures UsesOne(l, RefusedStep(l, code))
  {
    var l' := l.(found := l.found + [code == 0]);
    SelectingLeft(l);
    SpaceRefusalLeads(l, code);
    NextSpaceLeft(l');
    ClearLeft(l'.(pc := Clear, error := code));
    hide RefusedStep, NextSpace, Gateway.Spaces, Dwords, DwordsCost, Left, WellFormed, InCritical;
  }

  /** Before its clear a call still has something to do. */
  lemma MoreThanClear(l: Local)
    requires WellFormed(l) && InCritical(l) && l.pc != Clear
    ensures Left(l) >= 2
  {
    hide Gateway.Spaces, Dwords;
  }

  lemma RefusalUsesOne(l: Local, code: int)
    requires WellFormed(l) && InCritical(l) && l.pc != Clear
    ensures UsesOne(l, RefusedStep(l, code))
  {
    if l.pc in {ControlRead, ControlWrite, ControlCheck} {
      SpaceRefusalUsesOne(l, code);
      hide UsesOne, RefusedStep;
    } else {
      MoreThanClear(l);
      var l' := RefusedStep(l, code);
      assert l'.pc == Clear && l'.polls == l.polls < 0x10000 && Left(l') == 1;
      hide RefusedStep, Gateway.Spaces, Dwords;
    }
  }

  lemma EntryLeft(l: Local)
    requires l.polls < 0x10000 && l.index == 0 && l.found == []
    ensures var l' := EnterCritical(l);
            && WellFormed(l') && InCritical(l')
            && (l.call.ReadBlock? || l.call.WriteBlock? ==> Left(l') <= 4 + Dwords(l.call) * PER_DWORD)
            && (l.call.ProbeSpaces? ==> Left(l') <= 3 * |l.call.spaces| + 1)
            && (l.call.ReadDword? ==> Left(l') == 2)
  {
    if !l.call.ReadDword? {
      NextSpaceLeft(l);
      hide NextSpace;
    }
  }

  // ------------------------------------------------------------------
  // Whole runs

  predicate AllWellFormed(s: State) {
    forall a :: a in s.agents ==> WellFormed(s.agents[a])
  }

  lemma LockStepWellFormed(d: Device, l: Local)
    requires WellFormed(l) && InLock(l)
    ensures WellFormed(LockStep(d, l).1)
  {
    EntryLeft(l);
    EntryLeft(l.(retries := l.retries + 1));
    hide EnterCritical;
  }

  lemma NextWellFormed(s: State, e: Event)
    requires AllWellFormed(s)
    ensures AllWellFormed(Next(s, e))
  {
    match e
    case Access(agent) =>
      if agent in s.agents && s.agents[agent].pc != Clear {
        var l := s.agents[agent];
        if InLock(l) {
          LockStepWellFormed(s.device, l);
        } else {
          StepUsesOne(s.device, l);
        }
        hide LockStep, CriticalStep;
      }
    case Refuse(agent, code) =>
      if agent in s.agents && s.agents[agent].pc != Clear {
        var l := s.agents[agent];
        if InCritical(l) {
          RefusalUsesOne(l, code);
        }
        hide SpaceSelected;
      }
    case _ =>
  }

  lemma {:induction false} RunWellFormed(s: State, events: seq<Event>)
    requires AllWellFormed(s)
    ensures AllWellFormed(Run(s, events))
    decreases |events|
  {
    if events != [] {
      NextWellFormed(s, events[0]);
      RunWellFormed(Next(s, events[0]), events[1..]);
    }
  }

  predicate IsAccessOf(e: Event, a: nat) {
    (e.Access? && e.agent == a) || (e.Refuse? && e.agent == a && e.code != 0)
  }

  predicate Past(s: State, a: nat) {
    a in s.agents && InCritical(s.agents[a])
  }

  /** The accesses of `a` from here to the end of its call, successful or refused. */
  function AccessesToEnd(s: State, events: seq<Event>, a: nat): nat
    decreases |events|
  {
    if events == [] || !Past(s, a) then 0
    else (if IsAccessOf(events[0], a) then 1 else 0) + AccessesToEnd(Next(s, events[0]), events[1..], a)
  }

  /** They are the accesses the agent makes, as long as it does not leave its call before the last event. */
  lemma {:induction false} AccessesCounted(s: State, events: seq<Event>, a: nat)
    requires forall i :: 0 <= i < |events| ==> Past(Run(s, events[..i]), a)
    ensures AccessesToEnd(s, events, a) == |EntriesOf(s, events, a)|
    decreases |events|
  {
    hide Next, Made, Past;
    if events != [] {
      var s1, rest := Next(s, events[0]), events[1..];
      assert events[..0] == [] && Run(s, []) == s;
      forall i | 0 <= i < |rest| ensures Past(Run(s1, rest[..i]), a) {
        assert events[..i + 1][0] == events[0] && events[..i + 1][1..] == rest[..i];
        assert Past(Run(s, events[..i + 1]), a);
      }
      AccessesCounted(s1, rest, a);
      assert a in s.agents by { assert Past(Run(s, events[..0]), a); PastAgent(s, a); }
    }
  }

  lemma PastAgent(s: State, a: nat)
    requires Past(s, a)
    ensures a in s.agents
  {
  }

  /** An event of the environment leaves an agent where it is, and an agent past its lock leaves
      the call exactly with its clear. */
  lemma CriticalAgentMoves(s: State, e: Event, a: nat)
    requires AllWellFormed(s) && Past(s, a)
    ensures !IsAccessOf(e, a) ==> Past(Next(s, e), a) && Next(s, e).agents[a] == s.agents[a]
    ensures IsAccessOf(e, a) && s.agents[a].pc == Clear ==> a !in Next(s, e).agents
    ensures IsAccessOf(e, a) && s.agents[a].pc != Clear ==>
              AllWellFormed(Next(s, e)) && Past(Next(s, e), a)
              && Left(Next(s, e).agents[a]) < Left(s.agents[a])
  {
    NextWellFormed(s, e);
    if IsAccessOf(e, a) && s.agents[a].pc != Clear {
      if e.Access? {
        StepUsesOne(s.device, s.agents[a]);
      } else {
        RefusalUsesOne(s.agents[a], e.code);
      }
    }
    hide CriticalStep, RefusedStep, LockStep;
  }

  lemma {:induction false} AccessesBounded(s: State, events: seq<Event>, a: nat)
    requires AllWellFormed(s) && Past(s, a)
    ensures AccessesToEnd(s, events, a) <= Left(s.agents[a])
    decreases |events|
  {
    if events != [] {
      var s' := Next(s, events[0]);
      CriticalAgentMoves(s, events[0], a);
      NextWellFormed(s, events[0]);
      hide Next;
      if Past(s', a) {
        AccessesBounded(s', events[1..], a);
      }
    }
  }

  /** The access bound: once a block transfer has its lock it makes at most
      4 + ceil(size / 4) * 0x10002 accesses, whatever is refused, however slow the device is and
      whatever other agents do; and it leaves the call only by the access at its clear. */
  lemma AccessBound(s: State, before: seq<Event>, a: nat, events: seq<Event>)
    requires Initial(s)
    requires var r := Run(s, before);
             a in r.agents && InLock(r.agents[a]) && !LockFails(r, Access(a))
             && Past(Next(r, Access(a)), a)
             && (r.agents[a].call.ReadBlock? || r.agents[a].call.WriteBlock?)
    ensures var r := Run(s, before);
            AccessesToEnd(Next(r, Access(a)), events, a)
              <= 4 + DwordCount(r.agents[a].call.size) * 0x10002
  {
    RunWellFormed(s, before);
    var r := Run(s, before);
    var l := r.agents[a];
    assert WellFormed(l);
    EntryLeft(l);
    EntryLeft(l.(retries := l.retries + 1));
    NextWellFormed(r, Access(a));
    hide EnterCritical;
    assert Left(Next(r, Access(a)).agents[a]) <= 4 + Dwords(l.call) * PER_DWORD;
    AccessesBounded(Next(r, Access(a)), events, a);
  }

  lemma LeavesByClear(s: State, e: Event, a: nat)
    requires AllWellFormed(s) && Past(s, a) && !Past(Next(s, e), a)
    ensures IsAccessOf(e, a) && s.agents[a].pc == Clear && a !in Next(s, e).agents
  {
    CriticalAgentMoves(s, e, a);
  }
}
