/** Exactly when exclusion is lost. The callers clear the semaphore after a failed
    `lock_vsec_semaphore` too; what matters is whose ticket such a clear removes. */
module GatewayClears {
  import opened Gateway
  import opened GatewayMutex
  import opened GatewayTimeout

  /** Using the gateway's registers: past a successful lock and not yet at the clear. */
  predicate Working(l: Local) {
    InCritical(l) && l.pc != Clear
  }

  /** The clear of an agent whose ticket is not the one in the semaphore. */
  predicate ForeignClear(s: State, e: Event) {
    e.Access? && e.agent in s.agents && s.agents[e.agent].pc == Clear
    && s.device.semaphore != 0 && s.agents[e.agent].ticket != s.device.semaphore
  }

  predicate NoForeignClear(s: State, events: seq<Event>)
    decreases |events|
  {
    events != [] ==> !ForeignClear(s, events[0]) && NoForeignClear(Next(s, events[0]), events[1..])
  }

  /** Like `Exclusive`, but agents may stand at their clear with any ticket. */
  ghost predicate Guarded(s: State) {
    Ticketed(s) && forall a :: a in s.agents && Working(s.agents[a]) ==> Owns(s.device, s.agents[a])
  }

  lemma AccessGuarded(s: State, a: nat)
    requires Guarded(s) && a in s.agents && !ForeignClear(s, Access(a))
    ensures Guarded(Next(s, Access(a)))
  {
    var l := s.agents[a];
    var s' := Next(s, Access(a));
    AccessTicketed(s, a);
    assert Standing(s.device, l);
    if InLock(l) {
      LockStepLeads(s.device, l);
    } else if l.pc != Clear {
      CriticalStepKeeps(s.device, l);
    }
    forall b | b in s'.agents && Working(s'.agents[b]) ensures Owns(s'.device, s'.agents[b]) {
      if b != a {
        assert Owns(s.device, s.agents[b]);
      }
    }
    hide EnterCritical, CriticalStep;
  }

  /** The protocol survives failing locks, refused accesses and exhausted polls, as long as no
      clear is foreign. */
  lemma NextGuarded(s: State, e: Event)
    requires Guarded(s) && !ForeignClear(s, e)
    ensures Guarded(Next(s, e))
  {
    var s' := Next(s, e);
    NextTicketed(s, e);
    if e.Access? && e.agent in s.agents {
      AccessGuarded(s, e.agent);
    } else {
      if e.Complete? {
        CompleteKeeps(s.device);
      } else if e.Refuse? && e.agent in s.agents && s.agents[e.agent].pc != Clear {
        RefusedStepKeeps(s.agents[e.agent], e.code);
      }
      hide CompleteTransfer, RefusedStep;
      forall b | b in s'.agents && Working(s'.agents[b]) ensures Owns(s'.device, s'.agents[b]) {
        assert b in s.agents && Owns(s.device, s.agents[b]);
      }
    }
  }

  lemma {:induction false} RunGuarded(s: State, events: seq<Event>)
    requires Guarded(s) && NoForeignClear(s, events)
    ensures Guarded(Run(s, events))
    decreases |events|
  {
    if events != [] {
      NextGuarded(s, events[0]);
      RunGuarded(Next(s, events[0]), events[1..]);
    }
  }

  /** Two agents use the gateway's registers at once. */
  ghost predicate Clash(s: State) {
    exists a, b :: a in s.agents && b in s.agents && a != b && Working(s.agents[a]) && Working(s.agents[b])
  }

  lemma GuardedNoClash(s: State)
    requires Guarded(s)
    ensures !Clash(s)
  {
    forall a, b | a in s.agents && b in s.agents && a != b ensures !(Working(s.agents[a]) && Working(s.agents[b])) {
      assert s.agents[a].ticket != s.agents[b].ticket || s.agents[a].ticket == 0;
    }
  }

  /** On a run without foreign clears no two agents ever use the gateway at once. */
  lemma NoClash(s: State, events: seq<Event>)
    requires Initial(s) && NoForeignClear(s, events)
    ensures !Clash(Run(s, events))
  {
    RunGuarded(s, events);
    GuardedNoClash(Run(s, events));
  }

  /** Some agent has no call in progress. */
  lemma {:induction false} IdleAgent(busy: set<nat>) returns (a: nat)
    ensures a !in busy && forall b :: b in busy ==> b < a
    decreases |busy|
  {
    if busy == {} {
      a := 0;
    } else {
      var b :| b in busy;
      var above := IdleAgent(busy - {b});
      a := if b < above then above else b + 1;
      assert busy == busy - {b} + {b};
    }
  }

  lemma AccessThenRepeat(s: State, a: nat, k: nat)
    requires a in s.agents && s.agents[a].pc != Clear
    requires NoForeignClear(Next(s, Access(a)), Repeat(Access(a), k))
    ensures NoForeignClear(s, Repeat(Access(a), k + 1))
  {
    assert Repeat(Access(a), k + 1)[1..] == Repeat(Access(a), k);
    hide Next;
  }

  lemma NothingToClear(s: State, a: nat)
    ensures NoForeignClear(s, Repeat(Access(a), 0))
  {
  }

  /** Taking a free semaphore involves no clear at all. */
  lemma TakesWithoutClear(s: State, a: nat)
    requires AtLoop(s, a) && s.device.semaphore == 0 && s.device.counter > 0
    ensures NoForeignClear(s, Repeat(Access(a), 4))
  {
    TakingSteps(s, a);
    var s1 := Next(s, Access(a));
    var s2 := Next(s1, Access(a));
    var s3 := Next(s2, Access(a));
    NothingToClear(Next(s3, Access(a)), a);
    hide Repeat, NoForeignClear, Next, EnterCritical, LockFails;
    AccessThenRepeat(s3, a, 0);
    AccessThenRepeat(s2, a, 1);
    AccessThenRepeat(s1, a, 2);
    AccessThenRepeat(s, a, 3);
  }

  /** A new agent takes the free semaphore. */
  lemma NewAgentTakes(s: State, a: nat) returns (events: seq<Event>)
    requires a !in s.agents && s.device.semaphore == 0 && s.device.counter > 0
    ensures var r := Run(s, events);
            && NoForeignClear(s, events)
            && a in r.agents && Working(r.agents[a]) && r.agents == s.agents[a := r.agents[a]]
  {
    var start := Start(a, ProbeSpaces([2]));
    var s0 := Next(s, start);
    TakesFreeSemaphore(s0, a);
    TakesWithoutClear(s0, a);
    var rest := Repeat(Access(a), 4);
    hide Repeat, Run;
    RunCons(s, start, rest);
    events := [start] + rest;
    assert events[1..] == rest;
  }

  /** Exclusion is lost exactly by a foreign clear. At any moment of a run without one, while an
      agent uses the gateway: the next event can be followed by a run that has no foreign clear
      and ends in a clash if and only if that event is a foreign clear. */
  lemma LostExactlyByForeignClear(s: State, before: seq<Event>, worker: nat, e: Event)
    requires Initial(s) && NoForeignClear(s, before)
    requires var r := Run(s, before); worker in r.agents && Working(r.agents[worker])
    ensures var r := Run(s, before);
            ForeignClear(r, e) <==>
            exists events :: NoForeignClear(Next(r, e), events) && Clash(Run(Next(r, e), events))
  {
    RunGuarded(s, before);
    var r := Run(s, before);
    var r' := Next(r, e);
    if ForeignClear(r, e) {
      var a := IdleAgent(r'.agents.Keys);
      var events := NewAgentTakes(r', a);
      hide Run, NoForeignClear;
      var t := Run(r', events);
      assert worker in t.agents && Working(t.agents[worker]);
      assert Clash(t);
    } else {
      NextGuarded(r, e);
      forall events | NoForeignClear(r', events) ensures !Clash(Run(r', events)) {
        RunGuarded(r', events);
        GuardedNoClash(Run(r', events));
      }
    }
  }

  /** A run in which no lock attempt fails has no foreign clear. */
  lemma {:induction false} NoFailedLockNoForeignClear(s: State, events: seq<Event>)
    requires Exclusive(s) && NoLockFails(s, events)
    ensures NoForeignClear(s, events)
    decreases |events|
  {
    if events != [] {
      NextExclusive(s, events[0]);
      NoFailedLockNoForeignClear(Next(s, events[0]), events[1..]);
      hide Next;
    }
  }

  /** Ownership can be lost: from every initial state some run in which no lock fails, but the clear of
      the owner does, leaves the semaphore taken and nobody to clear it. */
  lemma OwnerLostByFailedClear(s: State, a: nat)
    requires Initial(s)
    ensures exists events ::
              NoLockFails(s, events) && !NoOwnersClearFails(s, events)
              && Run(s, events).device.semaphore != 0 && Run(s, events).agents == map[]
              && !Owned(Run(s, events))
  {
    var events := BeginsAndTakes(s, a, ProbeSpaces([]));
    var r := Run(s, events);
    assert r.agents[a].pc == Clear && r.device.semaphore == s.device.counter;
    var refused := Refuse(a, 1);
    var t := Next(r, refused);
    assert t.agents == map[] && t.device.semaphore != 0 && !LockFails(r, refused);
    RunAppend(s, events, [refused]);
    RunOnce(r, refused);
    InitialExclusive(s);
    OwnedExactly(s, events + [refused]);
    AlwaysOwnedFrom(s, events + [refused]);
    hide Run, NoLockFails, Next;
    assert Run(s, events + [refused]) == t;
  }
}
