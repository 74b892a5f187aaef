/** What a timed-out lock attempt does: the callers clear the semaphore on their way out of a
    failed `lock_vsec_semaphore` too. */
module GatewayTimeout {
  import opened Errno
  import opened Registers
  import opened Gateway

  function Repeat(e: Event, k: nat): seq<Event> {
    if k == 0 then [] else [e] + Repeat(e, k - 1)
  }

  lemma RunCons(s: State, e: Event, rest: seq<Event>)
    ensures Run(s, [e] + rest) == Run(Next(s, e), rest)
    ensures NoLockFails(s, [e] + rest) <==> !LockFails(s, e) && NoLockFails(Next(s, e), rest)
  {
    assert ([e] + rest)[1..] == rest;
  }

  lemma {:induction false} RunAppend(s: State, first: seq<Event>, second: seq<Event>)
    ensures Run(s, first + second) == Run(Run(s, first), second)
    ensures NoLockFails(s, first + second) <==> NoLockFails(s, first) && NoLockFails(Run(s, first), second)
    decreases |first|
  {
    if first == [] {
      assert first + second == second;
    } else {
      assert (first + second)[0] == first[0];
      assert (first + second)[1..] == first[1..] + second;
      RunAppend(Next(s, first[0]), first[1..], second);
    }
  }

  lemma RunRepeat(s: State, e: Event, k: nat)
    ensures Run(s, Repeat(e, k + 1)) == Run(Next(s, e), Repeat(e, k))
    ensures NoLockFails(s, Repeat(e, k + 1)) <==> !LockFails(s, e) && NoLockFails(Next(s, e), Repeat(e, k))
  {
    RunCons(s, e, Repeat(e, k));
  }

  lemma RunNothing(s: State, e: Event)
    ensures Run(s, Repeat(e, 0)) == s && NoLockFails(s, Repeat(e, 0))
  {
  }

  lemma RunOnce(s: State, e: Event)
    ensures Run(s, [e]) == Next(s, e)
    ensures NoLockFails(s, [e]) <==> !LockFails(s, e)
  {
    assert [e][1..] == [];
    assert Run(Next(s, e), []) == Next(s, e);
    assert NoLockFails(Next(s, e), []);
  }

  // ------------------------------------------------------------------
  // Two stories of one agent

  ghost predicate AtLoop(s: State, a: nat) {
    a in s.agents && s.agents[a].pc == SemaphoreRead
  }

  /** The device once its counter has been read and offered to a free semaphore. */
  function Taken(d: Device): Device {
    d.(semaphore := d.counter, counter := d.counter + 1)
  }

  /** The four accesses that take a free semaphore, one by one. */
  lemma TakingSteps(s: State, a: nat)
    requires AtLoop(s, a) && s.device.semaphore == 0 && s.device.counter > 0
    ensures var s1 := Next(s, Access(a));
            var s2 := Next(s1, Access(a));
            var s3 := Next(s2, Access(a));
            var s4 := Next(s3, Access(a));
            var l := s.agents[a].(ticket := s.device.counter);
            && s1 == s.(agents := s.agents[a := s.agents[a].(pc := TicketRead)])
            && s2 == s.(device := s.device.(counter := s.device.counter + 1),
                        agents := s.agents[a := l.(pc := TicketWrite)])
            && a in s3.agents && s3.agents[a].pc == TicketCheck
            && s4.device == Taken(s.device) && s4.agents == s.agents[a := EnterCritical(l.(pc := TicketCheck))]
            && !LockFails(s, Access(a)) && !LockFails(s1, Access(a))
            && !LockFails(s2, Access(a)) && !LockFails(s3, Access(a))
  {
    hide EnterCritical;
    var l := s.agents[a].(ticket := s.device.counter);
    var s1 := Next(s, Access(a));
    assert s1 == s.(agents := s.agents[a := s.agents[a].(pc := TicketRead)]);
    var s2 := Next(s1, Access(a));
    assert s2.agents == s.agents[a := l.(pc := TicketWrite)];
    var s3 := Next(s2, Access(a));
    assert s3.agents == s.agents[a := l.(pc := TicketCheck)] && s3.device == Taken(s.device);
    var s4 := Next(s3, Access(a));
    assert s4.agents == s.agents[a := EnterCritical(l.(pc := TicketCheck))];
  }

  /** A free semaphore is taken in four accesses, whatever the call. */
  lemma TakesFreeSemaphore(s: State, a: nat)
    requires AtLoop(s, a) && s.device.semaphore == 0 && s.device.counter > 0
    ensures var r := Run(s, Repeat(Access(a), 4));
            && NoLockFails(s, Repeat(Access(a), 4))
            && r.device == Taken(s.device)
            && r.agents == s.agents[a := EnterCritical(s.agents[a].(ticket := s.device.counter, pc := TicketCheck))]
  {
    TakingSteps(s, a);
    var s1 := Next(s, Access(a));
    var s2 := Next(s1, Access(a));
    var s3 := Next(s2, Access(a));
    RunRepeat(s, Access(a), 3);
    RunRepeat(s1, Access(a), 2);
    RunRepeat(s2, Access(a), 1);
    RunRepeat(s3, Access(a), 0);
    RunNothing(Next(s3, Access(a)), Access(a));
    hide Run, NoLockFails, Next, Repeat, LockFails;
  }

  /** An agent that waits while the semaphore holds another agent's ticket; its own may be left
      from a race it lost. */
  ghost predicate Waits(s: State, a: nat) {
    AtLoop(s, a) && s.device.semaphore != 0 && s.agents[a].ticket != s.device.semaphore
  }

  /** While another agent holds the semaphore, reads only count up. */
  lemma {:induction false} BusyReads(s: State, a: nat, k: nat)
    requires Waits(s, a) && s.agents[a].retries + k <= 0x1000
    ensures Run(s, Repeat(Access(a), k)) ==
            s.(agents := s.agents[a := s.agents[a].(retries := s.agents[a].retries + k)])
    ensures NoLockFails(s, Repeat(Access(a), k))
    decreases k
  {
    if k == 0 {
      RunNothing(s, Access(a));
      assert s.agents == s.agents[a := s.agents[a]];
    } else {
      var s1 := Next(s, Access(a));
      assert s1 == s.(agents := s.agents[a := s.agents[a].(retries := s.agents[a].retries + 1)]);
      BusyReads(s1, a, k - 1);
      RunRepeat(s, Access(a), k - 1);
      assert s1.agents[a := s.agents[a].(retries := s.agents[a].retries + k)]
          == s.agents[a := s.agents[a].(retries := s.agents[a].retries + k)];
    }
  }

  /** The attempt is abandoned with the busy read that makes it 0x1001 of them, and the clear that
      follows frees the semaphore under its owner. */
  lemma AbandonedAttemptClears(s: State, a: nat)
    requires Waits(s, a) && s.agents[a].retries <= 0x1000
    ensures var waiting := Repeat(Access(a), 0x1000 - s.agents[a].retries);
            var r := Run(s, waiting);
            var timedOut := Next(r, Access(a));
            var cleared := Next(timedOut, Access(a));
            && NoLockFails(s, waiting) && LockFails(r, Access(a)) && !LockFails(timedOut, Access(a))
            && a in timedOut.agents && timedOut.agents[a].pc == Clear && timedOut.agents[a].error == -EINVAL
            && cleared.agents == s.agents - {a} && cleared.device == s.device.(semaphore := 0)
  {
    var waiting := Repeat(Access(a), 0x1000 - s.agents[a].retries);
    BusyReads(s, a, 0x1000 - s.agents[a].retries);
    var r := Run(s, waiting);
    hide Repeat, Run, NoLockFails, EnterCritical;
    assert Waits(r, a) && r.agents[a].retries == 0x1000;
    var timedOut := Next(r, Access(a));
    assert timedOut.agents[a].pc == Clear && timedOut.agents - {a} == s.agents - {a};
  }

  // ------------------------------------------------------------------
  // Exclusion after a timeout

  /** An agent without a call begins one and takes the free semaphore. */
  lemma BeginsAndTakes(s: State, a: nat, call: Call) returns (events: seq<Event>)
    requires a !in s.agents && s.device.semaphore == 0 && s.device.counter > 0
    ensures var r := Run(s, events);
            && NoLockFails(s, events) && r.device == Taken(s.device)
            && a in r.agents && r.agents == s.agents[a := r.agents[a]]
            && r.agents[a] == EnterCritical(Begin(call).(ticket := s.device.counter, pc := TicketCheck))
  {
    var s0 := Next(s, Start(a, call));
    TakesFreeSemaphore(s0, a);
    RunCons(s, Start(a, call), Repeat(Access(a), 4));
    events := [Start(a, call)] + Repeat(Access(a), 4);
    hide Run, NoLockFails, Repeat, EnterCritical;
  }

  /** An agent without a call begins one, waits in vain, and clears the semaphore. */
  lemma BeginsAndGivesUp(s: State, a: nat, call: Call) returns (events: seq<Event>)
    requires a !in s.agents && s.device.semaphore != 0
    ensures var r := Run(s, events);
            var timedOut := Next(r, Access(a));
            var cleared := Next(timedOut, Access(a));
            && NoLockFails(s, events) && LockFails(r, Access(a)) && !LockFails(timedOut, Access(a))
            && cleared.agents == s.agents && cleared.device == s.device.(semaphore := 0)
  {
    var s0 := Next(s, Start(a, call));
    assert Waits(s0, a) && s0.device == s.device && s0.agents - {a} == s.agents;
    AbandonedAttemptClears(s0, a);
    assert !LockFails(s, Start(a, call));
    var waiting := Repeat(Access(a), 0x1000);
    hide Run, NoLockFails, Repeat, Next, LockFails, Waits;
    RunCons(s, Start(a, call), waiting);
    events := [Start(a, call)] + waiting;
  }

  /** Past the lock, by the entry that follows a successful read-back. */
  lemma EntersCritical(l: Local)
    ensures InCritical(EnterCritical(l))
  {
    hide Registers.SetRwAddress;
  }

  /** The runs of three stories in a row, with one event between the second and the third told
      apart. */
  lemma ThreeStories(s: State, first: seq<Event>, second: seq<Event>, e: Event, third: seq<Event>)
    requires var s1 := Run(s, first);
             var s2 := Run(s1, second);
             && NoLockFails(s, first) && NoLockFails(s1, second) && !LockFails(Next(s2, e), e)
             && NoLockFails(Next(Next(s2, e), e), third)
    ensures var s2 := Run(Run(s, first), second);
            && NoLockFails(s, first + second) && Run(s, first + second) == s2
            && NoLockFails(Run(s, first + second + [e]), [e] + third)
            && Run(s, first + second + [e] + ([e] + third)) == Run(Next(Next(s2, e), e), third)
  {
    hide Run, NoLockFails, Next, LockFails;
    var s2 := Run(Run(s, first), second);
    RunAppend(s, first, second);
    RunAppend(s, first + second, [e]);
    RunOnce(s2, e);
    RunAppend(s, first + second + [e], [e] + third);
    RunCons(Next(s2, e), e, third);
  }

  /** From every initial state, for any two agents and any calls, there is a run with exactly one
      failing lock, a time-out, that ends with both agents past their locks. */
  lemma ExclusionLostAfterTimeout(s: State, a: nat, b: nat, callA: Call, gaveUp: Call, callB: Call)
    requires Initial(s) && a != b
    ensures exists before: seq<Event>, e: Event, after: seq<Event> ::
              && e.Access? && NoLockFails(s, before) && LockFails(Run(s, before), e)
              && NoLockFails(Run(s, before + [e]), after)
              && var r := Run(s, before + [e] + after);
                 a in r.agents && b in r.agents && InCritical(r.agents[a]) && InCritical(r.agents[b])
  {
    hide Run, NoLockFails, EnterCritical, Next, LockFails;
    var first := BeginsAndTakes(s, a, callA);
    var s1 := Run(s, first);
    var second := BeginsAndGivesUp(s1, b, gaveUp);
    var e := Access(b);
    var s2 := Run(s1, second);
    var cleared := Next(Next(s2, e), e);
    var third := BeginsAndTakes(cleared, b, callB);
    EntersCritical(Begin(callA).(ticket := s.device.counter, pc := TicketCheck));
    EntersCritical(Begin(callB).(ticket := cleared.device.counter, pc := TicketCheck));
    ThreeStories(s, first, second, e, third);
    var before, after := first + second, [e] + third;
    assert e.Access? && NoLockFails(s, before) && LockFails(Run(s, before), e);
  }
}
