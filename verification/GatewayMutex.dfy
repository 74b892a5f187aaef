/** Tickets, ownership and mutual exclusion of the VSEC semaphore. */
module GatewayMutex {
  import opened Registers
  import opened Gateway

  /** Where an agent may stand in the ticket protocol: a ticket kept from a lost race is never the
      one in the semaphore. Nothing is said of an agent past its lock. */
  ghost predicate Standing(d: Device, l: Local) {
    && l.ticket < d.counter
    && match l.pc
       case SemaphoreRead => l.ticket == 0 || l.ticket != d.semaphore
       case TicketRead => l.ticket == 0 || l.ticket != d.semaphore
       case TicketWrite => l.ticket != 0 && l.ticket != d.semaphore
       case TicketCheck => l.ticket != 0
       case _ => true
  }

  /** What every reachable state satisfies, whatever has failed on the way. */
  ghost predicate Ticketed(s: State) {
    && s.device.semaphore < s.device.counter
    && (forall a :: a in s.agents ==> Standing(s.device, s.agents[a]))
    && (forall a, b :: a in s.agents && b in s.agents && a != b && s.agents[a].ticket != 0 ==>
          s.agents[a].ticket != s.agents[b].ticket)
  }

  /** The agent whose accepted ticket is in the semaphore: it has written and not yet cleared. */
  ghost predicate Owns(d: Device, l: Local) {
    d.semaphore != 0 && l.ticket == d.semaphore && l.pc !in {SemaphoreRead, TicketRead, TicketWrite}
  }

  /** A taken semaphore has an owner. */
  ghost predicate Owned(s: State) {
    s.device.semaphore != 0 ==> exists a :: a in s.agents && Owns(s.device, s.agents[a])
  }

  /** Every agent past its lock owns the semaphore. */
  ghost predicate Exclusive(s: State) {
    Ticketed(s) && forall a :: a in s.agents && InCritical(s.agents[a]) ==> Owns(s.device, s.agents[a])
  }

  lemma InitialExclusive(s: State)
    requires Initial(s)
    ensures Exclusive(s) && Owned(s)
  {
  }

  // ------------------------------------------------------------------
  // What one step does to the ticket of its agent

  /** A step between the lock and the clear leaves the semaphore and the ticket alone. */
  lemma CriticalStepKeeps(d: Device, l: Local)
    requires InCritical(l) && l.pc != Clear
    ensures var (d', l') := CriticalStep(d, l);
            d'.semaphore == d.semaphore && d'.counter >= d.counter
            && l'.ticket == l.ticket && l'.call == l.call && InCritical(l')
  {
    hide SelectSpace, ControlWord, StatusOf, FlagOf, TransferWord, BufferStore, BufferAt, Registers.SetRwAddress;
  }

  /** A refused access moves the agent towards its clear. */
  lemma RefusedStepKeeps(l: Local, code: int)
    requires l.pc != Clear
    ensures RefusedStep(l, code).ticket == l.ticket && RefusedStep(l, code).call == l.call
    ensures InCritical(RefusedStep(l, code)) && (InLock(l) ==> RefusedStep(l, code).pc == Clear)
  {
    hide Registers.SetRwAddress;
  }

  lemma CompleteKeeps(d: Device)
    ensures var d' := CompleteTransfer(d);
            d'.semaphore == d.semaphore && d'.counter == d.counter
            && d'.control == d.control && d'.status == d.status && d'.config == d.config && !d'.busy
  {
  }

  lemma EnterKeeps(l: Local)
    ensures EnterCritical(l).ticket == l.ticket && EnterCritical(l).call == l.call
    ensures InCritical(EnterCritical(l))
  {
    hide Registers.SetRwAddress;
  }

  /** Where a step of the lock leads: back to the head of the loop, to the clear, or past the lock,
      the last only with the ticket that the semaphore holds. */
  lemma LockStepLeads(d: Device, l: Local)
    requires InLock(l) && Standing(d, l) && d.semaphore < d.counter
    ensures var (d', l') := LockStep(d, l);
            && l'.call == l.call && d'.counter >= d.counter
            && d' == d.(semaphore := d'.semaphore, counter := d'.counter)
            && (d'.semaphore == d.semaphore
                || (l.pc == TicketWrite && d.semaphore == 0 && d'.semaphore == l.ticket))
            && (l'.ticket == l.ticket || (l.pc == TicketRead && l'.ticket == d.counter < d'.counter))
            && (l'.pc == Clear ==> l.ticket != d.semaphore || l.pc == TicketCheck)
            && Standing(d', l')
            && (InCritical(l') && l.ticket != d.semaphore ==> l'.pc == Clear && l.pc in {SemaphoreRead, TicketCheck})
            && (InCritical(l') && l.ticket == d.semaphore ==>
                  l.pc == TicketCheck && d.semaphore != 0 && l' == EnterCritical(l))
            && (l.pc == TicketWrite ==> l'.pc == TicketCheck)
            && (l.pc == TicketCheck && l.ticket == d.semaphore ==> InCritical(l'))
  {
    EnterKeeps(l);
    EnterKeeps(l.(retries := l.retries + 1));
    hide EnterCritical;
  }

  // ------------------------------------------------------------------
  // Tickets and owners, on every run

  /** One agent moved and the semaphore did not change. */
  lemma QuietMove(s: State, a: nat, s': State)
    requires Ticketed(s) && a in s.agents && a in s'.agents
    requires s'.agents == s.agents[a := s'.agents[a]]
    requires s'.device.semaphore == s.device.semaphore && s'.device.counter >= s.device.counter
    requires s'.agents[a].ticket == s.agents[a].ticket
             || (s.device.counter <= s'.agents[a].ticket < s'.device.counter && !Owns(s.device, s.agents[a]))
    requires Standing(s'.device, s'.agents[a])
    requires Owns(s.device, s.agents[a]) ==> Owns(s'.device, s'.agents[a])
    ensures Ticketed(s') && (Owned(s) ==> Owned(s'))
  {
    if Owned(s) && s.device.semaphore != 0 {
      var o :| o in s.agents && Owns(s.device, s.agents[o]);
      assert o in s'.agents && Owns(s'.device, s'.agents[o]);
    }
  }

  lemma LockStepTicketed(s: State, a: nat)
    requires Ticketed(s) && a in s.agents && InLock(s.agents[a])
    ensures Ticketed(Next(s, Access(a))) && (Owned(s) ==> Owned(Next(s, Access(a))))
  {
    var l := s.agents[a];
    var s' := Next(s, Access(a));
    assert Standing(s.device, l);
    LockStepLeads(s.device, l);
    hide LockStep;
    if s'.device.semaphore != s.device.semaphore {
      forall b | b in s'.agents ensures Standing(s'.device, s'.agents[b]) {
        assert Standing(s.device, s.agents[b]);
      }
      assert Owns(s'.device, s'.agents[a]);
    } else {
      QuietMove(s, a, s');
    }
  }

  /** A clear takes its agent out of the call, whether it reaches the semaphore or not. */
  lemma FinishTicketed(s: State, a: nat, semaphore: nat)
    requires Ticketed(s) && a in s.agents && semaphore in {0, s.device.semaphore}
    ensures Ticketed(Finish(s, a, semaphore))
    ensures Owned(s) && semaphore == s.device.semaphore != 0 ==>
              (Owned(Finish(s, a, semaphore)) <==> !Owns(s.device, s.agents[a]))
  {
    var s' := Finish(s, a, semaphore);
    forall b | b in s'.agents ensures Standing(s'.device, s'.agents[b]) {
      assert Standing(s.device, s.agents[b]);
    }
    if Owned(s) && semaphore == s.device.semaphore != 0 && !Owns(s.device, s.agents[a]) {
      var o :| o in s.agents && Owns(s.device, s.agents[o]);
      assert o in s'.agents && Owns(s'.device, s'.agents[o]);
    }
  }

  /** The clear of the owner fails: its ticket stays in the semaphore without it. */
  ghost predicate OwnersClearFails(s: State, e: Event) {
    && e.Refuse? && e.code != 0 && e.agent in s.agents && s.agents[e.agent].pc == Clear
    && Owns(s.device, s.agents[e.agent])
  }

  lemma AccessTicketed(s: State, a: nat)
    requires Ticketed(s) && a in s.agents
    ensures Ticketed(Next(s, Access(a))) && (Owned(s) ==> Owned(Next(s, Access(a))))
  {
    var l := s.agents[a];
    if l.pc == Clear {
      FinishTicketed(s, a, 0);
    } else if InLock(l) {
      LockStepTicketed(s, a);
    } else {
      CriticalStepKeeps(s.device, l);
      hide CriticalStep;
      assert Standing(s.device, l);
      QuietMove(s, a, Next(s, Access(a)));
    }
  }

  lemma RefuseTicketed(s: State, a: nat, code: int)
    requires Ticketed(s) && a in s.agents && code != 0
    ensures var s' := Next(s, Refuse(a, code));
            Ticketed(s') && (Owned(s) ==> (Owned(s') <==> !OwnersClearFails(s, Refuse(a, code))))
  {
    var l := s.agents[a];
    if l.pc == Clear {
      FinishTicketed(s, a, s.device.semaphore);
    } else {
      RefusedStepKeeps(l, code);
      hide RefusedStep;
      assert Standing(s.device, l);
      QuietMove(s, a, Next(s, Refuse(a, code)));
    }
  }

  /** Every event keeps the tickets in order, and ownership is lost exactly when the clear of the
      owner fails. */
  lemma NextTicketed(s: State, e: Event)
    requires Ticketed(s)
    ensures Ticketed(Next(s, e))
    ensures Owned(s) ==> (Owned(Next(s, e)) <==> !OwnersClearFails(s, e))
  {
    match e
    case Start(agent, call) =>
      OthersStay(s, Next(s, e));
    case Access(agent) =>
      if agent in s.agents {
        AccessTicketed(s, agent);
      }
    case Refuse(agent, code) =>
      if agent in s.agents && code != 0 {
        RefuseTicketed(s, agent, code);
      }
    case Complete =>
      CompleteKeeps(s.device);
      hide CompleteTransfer;
      OthersStay(s, Next(s, e));
  }

  lemma OthersStay(s: State, s': State)
    requires Ticketed(s)
    requires s'.device.semaphore == s.device.semaphore && s'.device.counter == s.device.counter
    requires forall a :: a in s.agents ==> a in s'.agents && s'.agents[a] == s.agents[a]
    requires forall a :: a in s'.agents && a !in s.agents ==>
               s'.agents[a].ticket == 0 && s'.agents[a].pc == SemaphoreRead
    ensures Ticketed(s') && (Owned(s) ==> Owned(s'))
  {
    forall a | a in s'.agents ensures Standing(s'.device, s'.agents[a]) {
      assert a in s.agents ==> Standing(s.device, s.agents[a]);
    }
    if Owned(s) && s.device.semaphore != 0 {
      var o :| o in s.agents && Owns(s.device, s.agents[o]);
      assert o in s'.agents && Owns(s'.device, s'.agents[o]);
    }
  }

  lemma {:induction false} RunTicketed(s: State, events: seq<Event>)
    requires Ticketed(s)
    ensures Ticketed(Run(s, events))
    decreases |events|
  {
    if events != [] {
      NextTicketed(s, events[0]);
      RunTicketed(Next(s, events[0]), events[1..]);
    }
  }

  ghost predicate NoOwnersClearFails(s: State, events: seq<Event>)
    decreases |events|
  {
    events != [] ==> !OwnersClearFails(s, events[0]) && NoOwnersClearFails(Next(s, events[0]), events[1..])
  }

  /** The semaphore has an owner whenever it is taken, from here to the end of the run. */
  ghost predicate AlwaysOwned(s: State, events: seq<Event>)
    decreases |events|
  {
    Owned(s) && (events != [] ==> AlwaysOwned(Next(s, events[0]), events[1..]))
  }

  lemma {:induction false} AlwaysOwnedFrom(s: State, events: seq<Event>)
    requires Ticketed(s) && Owned(s)
    ensures AlwaysOwned(s, events) <==> NoOwnersClearFails(s, events)
    ensures AlwaysOwned(s, events) ==> Owned(Run(s, events))
    decreases |events|
  {
    if events != [] {
      var s' := Next(s, events[0]);
      NextTicketed(s, events[0]);
      hide Next, Ticketed, Owned, OwnersClearFails;
      if OwnersClearFails(s, events[0]) {
        assert !Owned(s');
      } else {
        AlwaysOwnedFrom(s', events[1..]);
      }
    }
  }

  /** A taken semaphore always has an owner, on exactly the runs on which no owner's clear fails.
      Failed locks, refused accesses, exhausted polls and the clears of agents that never got the
      semaphore do not matter. */
  lemma OwnedExactly(s: State, events: seq<Event>)
    requires Initial(s)
    ensures AlwaysOwned(s, events) <==> NoOwnersClearFails(s, events)
  {
    InitialExclusive(s);
    AlwaysOwnedFrom(s, events);
  }

  /** Ownership: a taken semaphore holds the ticket of exactly one agent in a call, one whose
      write was accepted and who has not cleared; if that agent is about to read the semaphore
      back, the read-back matches and it leaves the loop. */
  lemma Ownership(s: State, events: seq<Event>)
    requires Initial(s) && NoOwnersClearFails(s, events)
    requires Run(s, events).device.semaphore != 0
    ensures var r := Run(s, events);
            exists o :: o in r.agents && Owns(r.device, r.agents[o])
              && (forall a :: a in r.agents && r.agents[a].ticket == r.device.semaphore ==> a == o)
              && (r.agents[o].pc == TicketCheck ==> InCritical(Next(r, Access(o)).agents[o]))
  {
    InitialExclusive(s);
    RunTicketed(s, events);
    AlwaysOwnedFrom(s, events);
    var r := Run(s, events);
    var o :| o in r.agents && Owns(r.device, r.agents[o]);
    EnterKeeps(r.agents[o]);
    hide EnterCritical;
  }

  /** An access that leaves the loop of `lock_vsec_semaphore` without an error. */
  predicate LeavesLoop(s: State, a: nat) {
    a in s.agents && InLock(s.agents[a]) && !LockFails(s, Access(a))
    && a in Next(s, Access(a)).agents && InCritical(Next(s, Access(a)).agents[a])
  }

  /** No stale exit, on any run at all: whoever leaves the loop of `lock_vsec_semaphore`
      successfully has just read back its own ticket, which the semaphore holds; in particular
      nobody leaves through `continue` with a ticket kept from a race it lost. */
  lemma NoStaleExit(s: State, events: seq<Event>, a: nat)
    requires Initial(s) && LeavesLoop(Run(s, events), a)
    ensures var r := Run(s, events);
            r.agents[a].pc == TicketCheck && r.agents[a].ticket == r.device.semaphore != 0
  {
    InitialExclusive(s);
    RunTicketed(s, events);
    var r := Run(s, events);
    assert Standing(r.device, r.agents[a]);
    LockStepLeads(r.device, r.agents[a]);
    hide EnterCritical;
  }

  // ------------------------------------------------------------------
  // Mutual exclusion

  lemma AccessExclusive(s: State, a: nat)
    requires Exclusive(s) && a in s.agents && !LockFails(s, Access(a))
    ensures Exclusive(Next(s, Access(a)))
  {
    var l := s.agents[a];
    var s' := Next(s, Access(a));
    AccessTicketed(s, a);
    assert Standing(s.device, l);
    if InLock(l) {
      LockStepLeads(s.device, l);
    } else if l.pc != Clear {
      CriticalStepKeeps(s.device, l);
    }
    forall b | b in s'.agents && InCritical(s'.agents[b]) ensures Owns(s'.device, s'.agents[b]) {
      if b != a {
        assert Owns(s.device, s.agents[b]);
      }
    }
    hide EnterCritical, CriticalStep;
  }

  /** Mutual exclusion survives every event but a failing lock: refused accesses past the lock,
      exhausted polls and failing clears included. */
  lemma NextExclusive(s: State, e: Event)
    requires Exclusive(s) && !LockFails(s, e)
    ensures Exclusive(Next(s, e))
    ensures Owned(s) && !OwnersClearFails(s, e) ==> Owned(Next(s, e))
  {
    var s' := Next(s, e);
    NextTicketed(s, e);
    if e.Access? && e.agent in s.agents {
      AccessExclusive(s, e.agent);
    } else {
      if e.Complete? {
        CompleteKeeps(s.device);
      } else if e.Refuse? && e.agent in s.agents && s.agents[e.agent].pc != Clear {
        RefusedStepKeeps(s.agents[e.agent], e.code);
      }
      hide CompleteTransfer, RefusedStep;
      forall b | b in s'.agents && InCritical(s'.agents[b]) ensures Owns(s'.device, s'.agents[b]) {
        assert b in s.agents && Owns(s.device, s.agents[b]);
      }
    }
  }

  lemma {:induction false} RunExclusive(s: State, events: seq<Event>)
    requires Exclusive(s) && NoLockFails(s, events)
    ensures Exclusive(Run(s, events))
    decreases |events|
  {
    if events != [] {
      NextExclusive(s, events[0]);
      RunExclusive(Next(s, events[0]), events[1..]);
    }
  }

  /** Mutual exclusion: on a run in which no lock attempt fails, at most one agent is between
      its successful `lock_vsec_semaphore` and its clear, whatever the calls and whatever else
      goes wrong. */
  lemma MutualExclusion(s: State, events: seq<Event>, a: nat, b: nat)
    requires Initial(s) && NoLockFails(s, events)
    requires var r := Run(s, events);
             a in r.agents && b in r.agents && InCritical(r.agents[a]) && InCritical(r.agents[b])
    ensures a == b
  {
    InitialExclusive(s);
    RunExclusive(s, events);
    var r := Run(s, events);
    assert Owns(r.device, r.agents[a]) && Owns(r.device, r.agents[b]);
  }
}
