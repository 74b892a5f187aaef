/** The PPC hot-reset driver (mst_ppc_pci_reset.c). */
module HotReset {
  import opened DeviceNames
  import opened Errno

  const UNKNOWN_DEVICE_ID := 0xffff
  const MAXIMUM_POLLING_NUMBER := 100

  /** The configuration space of one PCI function. */
  type Config = seq<nat>

  /** A kernel handle to a PCI function. */
  type Handle = nat

  datatype Step =
    | Saved(device: Handle)
    | Asserted(device: Handle)
    | Deasserted(device: Handle)
    | Polled(device: Handle, id: nat)
    | Restored(device: Handle)

  /** What the driver does not control: the ids and function numbers of the devices, which
      calls fail (by the number of the call), what enabling a device and making it bus master do
      to its configuration, what a reset asserted on one device leaves of another's
      configuration, and what the n-th read of a device id returns. */
  datatype World = World(
    deviceId: Handle -> nat,
    functionNumber: Handle -> nat,
    failure: nat -> int,
    enabled: (Handle, Config) -> Config,
    mastered: (Handle, Config) -> Config,
    wiped: (Handle, Handle, Config) -> Config,
    idRead: nat -> nat)
  {
    /** The configuration of `h` after being enabled and made bus master `k` times. */
    function Prepared(h: Handle, c: Config, k: nat): Config {
      if k == 0 then c else mastered(h, enabled(h, Prepared(h, c, k - 1)))
    }

    /** The devices among `devices` that are function 0. */
    function FunctionZero(devices: seq<Handle>): seq<Handle> {
      if devices == [] then []
      else
        var last := devices[|devices| - 1];
        FunctionZero(devices[..|devices| - 1]) + (if functionNumber(last) == 0 then [last] else [])
    }

    /** They are exactly the entries with function number 0, in list order: `places` says which. */
    lemma {:induction false} FunctionZeroInOrder(devices: seq<Handle>) returns (places: seq<nat>)
      ensures forall j, k :: 0 <= j < k < |places| ==> places[j] < places[k]
      ensures forall i :: i in places <==> 0 <= i < |devices| && functionNumber(devices[i]) == 0
      ensures |FunctionZero(devices)| == |places|
      ensures forall k :: 0 <= k < |places| ==>
                places[k] < |devices| && FunctionZero(devices)[k] == devices[places[k]]
    {
      if devices == [] {
        places := [];
      } else {
        var last := |devices| - 1;
        var before := FunctionZeroInOrder(devices[..last]);
        forall k | 0 <= k < |before|
          ensures before[k] < last && functionNumber(devices[before[k]]) == 0
        {
          assert before[k] in before && devices[..last][before[k]] == devices[before[k]];
        }
        if functionNumber(devices[last]) == 0 {
          places := before + [last];
        } else {
          places := before;
        }
        forall i | 0 <= i < |devices| && functionNumber(devices[i]) == 0 ensures i in places {
          if i < last {
            assert devices[..last][i] == devices[i] && i in before;
          }
        }
      }
    }

    /** So each is reset as often as it is listed, and no other device is. */
    lemma {:induction false} FunctionZeroCounts(devices: seq<Handle>, h: Handle)
      ensures multiset(FunctionZero(devices))[h] == if functionNumber(h) == 0 then multiset(devices)[h] else 0
    {
      if devices != [] {
        var last := |devices| - 1;
        FunctionZeroCounts(devices[..last], h);
        assert devices == devices[..last] + [devices[last]];
      }
    }
  }

  /** None of the `n` calls from call `first` on fails. */
  ghost predicate NoFailure(world: World, first: nat, n: nat) {
    forall k :: first <= k < first + n ==> world.failure(k) == 0
  }

  /** Of `n` calls from call `first` on, those before call `next` have been made: all of them if none
      failed, and otherwise up to the one that did, whose code is `error`. */
  ghost predicate Called(world: World, first: nat, n: nat, next: nat, error: int) {
    if error == 0 then next == first + n && NoFailure(world, first, n)
    else first < next <= first + n && NoFailure(world, first, next - 1 - first) && error == world.failure(next - 1)
  }

  lemma CalledThen(world: World, first: nat, n: nat, m: nat, between: nat, all: nat, next: nat, error: int)
    requires Called(world, first, n, between, 0) && Called(world, between, m, next, error) && n + m <= all
    ensures error == 0 ==> Called(world, first, n + m, next, 0)
    ensures error != 0 ==> Called(world, first, all, next, error)
  {
  }

  lemma NoCalls(world: World, first: nat)
    ensures Called(world, first, 0, first, 0)
  {
  }

  lemma OneCallMore(world: World, first: nat, n: nat, all: nat, error: int)
    requires Called(world, first, n, first + n, 0) && n < all && error == world.failure(first + n)
    ensures error == 0 ==> Called(world, first, n + 1, first + n + 1, 0)
    ensures error != 0 ==> Called(world, first, all, first + n + 1, error)
  {
  }

  /** Success means that no call fails. */
  lemma CalledExactly(world: World, first: nat, n: nat, next: nat, error: int)
    requires Called(world, first, n, next, error)
    ensures error == 0 <==> NoFailure(world, first, n)
  {
  }

  function SavedSteps(devices: seq<Handle>): seq<Step> {
    seq(|devices|, i requires 0 <= i < |devices| => Saved(devices[i]))
  }

  function RestoredSteps(devices: seq<Handle>): seq<Step> {
    seq(|devices|, i requires 0 <= i < |devices| => Restored(devices[i]))
  }

  function ResetSteps(devices: seq<Handle>, asserting: bool): seq<Step> {
    seq(|devices|, i requires 0 <= i < |devices| =>
      if asserting then Asserted(devices[i]) else Deasserted(devices[i]))
  }

  /** Every device has been prepared as often as it is listed. */
  ghost predicate PreparedAsListed(world: World, before: map<Handle, Config>, after: map<Handle, Config>,
                                   devices: seq<Handle>) {
    && after.Keys == before.Keys
    && forall h :: h in after ==> after[h] == world.Prepared(h, before[h], multiset(devices)[h])
  }

  lemma PreparedOnceMore(world: World, before: map<Handle, Config>, after: map<Handle, Config>,
                         devices: seq<Handle>, h: Handle, a: Config)
    requires PreparedAsListed(world, before, after, devices) && h in after && a == world.enabled(h, after[h])
    ensures PreparedAsListed(world, before, after[h := a][h := world.mastered(h, a)], devices + [h])
  {
  }

  /** Nothing has been restored since the log was `log`. */
  ghost predicate Unrestored(log: seq<Step>, log': seq<Step>) {
    log <= log' && forall i :: |log| <= i < |log'| ==> !log'[i].Restored?
  }

  lemma UnrestoredThen(a: seq<Step>, b: seq<Step>, c: seq<Step>)
    requires Unrestored(a, b) && Unrestored(b, c)
    ensures Unrestored(a, c)
  {
  }

  lemma UnrestoredOnce(a: seq<Step>, s: Step)
    requires !s.Restored?
    ensures Unrestored(a, a) && Unrestored(a, a + [s])
  {
  }

  predicate OnlyPolls(steps: seq<Step>) {
    forall s :: s in steps ==> s.Polled?
  }

  /** The PCI core and the devices behind it. A handle in `saved` has its state saved. */
  class PciBus {
    const world: World
    var config: map<Handle, Config>
    var saved: map<Handle, Config>
    var log: seq<Step>
    var calls: nat

    constructor (world: World, config: map<Handle, Config>)
      ensures this.world == world && this.config == config && saved == map[] && log == []
    {
      this.world, this.config, saved, log, calls := world, config, map[], [], 0;
    }

    method EnableDevice(h: Handle) returns (error: int)
      requires h in config
      modifies this`config, this`calls
      ensures error == world.failure(old(calls)) && calls == old(calls) + 1
      ensures config == if error == 0 then old(config)[h := world.enabled(h, old(config)[h])] else old(config)
    {
      error := world.failure(calls);
      calls := calls + 1;
      if error == 0 {
        config := config[h := world.enabled(h, config[h])];
      }
    }

    method SetMaster(h: Handle)
      requires h in config
      modifies this`config
      ensures config == old(config)[h := world.mastered(h, old(config)[h])]
    {
      config := config[h := world.mastered(h, config[h])];
    }

    method SaveState(h: Handle) returns (error: int)
      requires h in config
      modifies this`saved, this`log, this`calls
      ensures error == world.failure(old(calls)) && calls == old(calls) + 1
      ensures error == 0 ==> saved == old(saved)[h := config[h]] && log == old(log) + [Saved(h)]
      ensures error != 0 ==> saved == old(saved) && log == old(log)
    {
      error := world.failure(calls);
      calls := calls + 1;
      if error == 0 {
        saved := saved[h := config[h]];
        log := log + [Saved(h)];
      }
    }

    /** Restoring uses a saved state up. */
    method RestoreState(h: Handle)
      requires h in config
      modifies this`config, this`saved, this`log
      ensures config == if h in old(saved) then old(config)[h := old(saved)[h]] else old(config)
      ensures saved == old(saved) - {h} && log == old(log) + [Restored(h)]
    {
      if h in saved {
        config := config[h := saved[h]];
      }
      saved := saved - {h};
      log := log + [Restored(h)];
    }

    /** An asserted reset may wipe the configuration of any device on the link. */
    method SetResetState(h: Handle, asserting: bool) returns (error: int)
      modifies this`config, this`log, this`calls
      ensures error == world.failure(old(calls)) && calls == old(calls) + 1
      ensures config.Keys == old(config).Keys
      ensures !asserting || error != 0 ==> config == old(config)
      ensures asserting && error == 0 ==>
                forall g :: g in config ==> config[g] == world.wiped(h, g, old(config)[g])
      ensures log == if error != 0 then old(log) else old(log) + [if asserting then Asserted(h) else Deasserted(h)]
    {
      error := world.failure(calls);
      calls := calls + 1;
      if error == 0 {
        if asserting {
          config := map g | g in config :: world.wiped(h, g, config[g]);
        }
        log := log + [if asserting then Asserted(h) else Deasserted(h)];
      }
    }

    method ReadDeviceId(h: Handle) returns (id: nat)
      modifies this`log
      ensures id == world.idRead(|old(log)|) && log == old(log) + [Polled(h, id)]
    {
      id := world.idRead(|log|);
      log := log + [Polled(h, id)];
    }
  }

  // ------------------------------------------------------------------
  // The four phases

  ghost predicate AllSaved(saved: map<Handle, Config>, config: map<Handle, Config>, devices: seq<Handle>) {
    forall h :: h in devices ==> h in saved && h in config && saved[h] == config[h]
  }

  lemma SavedOneMore(saved: map<Handle, Config>, config: map<Handle, Config>, devices: seq<Handle>,
                     h: Handle, a: Config, b: Config)
    requires AllSaved(saved, config, devices)
    ensures AllSaved(saved[h := b], config[h := a][h := b], devices + [h])
  {
  }

  lemma SavedStepsOneMore(devices: seq<Handle>, i: nat)
    requires i < |devices|
    ensures devices[..i + 1] == devices[..i] + [devices[i]]
    ensures SavedSteps(devices[..i + 1]) == SavedSteps(devices[..i]) + [Saved(devices[i])]
  {
  }

  /** One turn of `save_pci_configuration_space`. */
  method SaveDevice(bus: PciBus, h: Handle) returns (error: int)
    requires h in bus.config
    modifies bus
    ensures bus.config.Keys == old(bus.config).Keys
    ensures Called(bus.world, old(bus.calls), 2, bus.calls, error) && Unrestored(old(bus.log), bus.log)
    ensures error == 0 ==>
              var a := bus.world.enabled(h, old(bus.config)[h]);
              && bus.config == old(bus.config)[h := a][h := bus.world.mastered(h, a)]
              && bus.saved == old(bus.saved)[h := bus.world.mastered(h, a)]
              && bus.log == old(bus.log) + [Saved(h)]
  {
    ghost var first := bus.calls;
    NoCalls(bus.world, first);
    error := bus.EnableDevice(h);
    OneCallMore(bus.world, first, 0, 2, error);
    if error != 0 {
      return;
    }
    bus.SetMaster(h);
    error := bus.SaveState(h);
    OneCallMore(bus.world, first, 1, 2, error);
  }

  method SavePciConfigurationSpace(bus: PciBus, devices: seq<Handle>) returns (error: int)
    requires forall h :: h in devices ==> h in bus.config
    modifies bus
    ensures bus.config.Keys == old(bus.config).Keys
    ensures Called(bus.world, old(bus.calls), 2 * |devices|, bus.calls, error) && Unrestored(old(bus.log), bus.log)
    ensures error == 0 ==>
              && AllSaved(bus.saved, bus.config, devices)
              && PreparedAsListed(bus.world, old(bus.config), bus.config, devices)
              && bus.log == old(bus.log) + SavedSteps(devices)
  {
    error := 0;
    ghost var before, first := bus.config, bus.calls;
    assert AllSaved(bus.saved, bus.config, []) && PreparedAsListed(bus.world, before, before, []);
    assert SavedSteps([]) == [];
    NoCalls(bus.world, first);
    assert Unrestored(bus.log, bus.log);
    hide AllSaved, PreparedAsListed, SavedSteps, Called, Unrestored;
    for i := 0 to |devices|
      invariant error == 0 && bus.config.Keys == before.Keys
      invariant Called(bus.world, first, 2 * i, bus.calls, 0) && Unrestored(old(bus.log), bus.log)
      invariant AllSaved(bus.saved, bus.config, devices[..i])
      invariant PreparedAsListed(bus.world, before, bus.config, devices[..i])
      invariant bus.log == old(bus.log) + SavedSteps(devices[..i])
    {
      var h := devices[i];
      ghost var a := bus.world.enabled(h, bus.config[h]);
      SavedStepsOneMore(devices, i);
      SavedOneMore(bus.saved, bus.config, devices[..i], h, a, bus.world.mastered(h, a));
      PreparedOnceMore(bus.world, before, bus.config, devices[..i], h, a);
      ghost var next, log := bus.calls, bus.log;
      error := SaveDevice(bus, h);
      UnrestoredThen(old(bus.log), log, bus.log);
      CalledThen(bus.world, first, 2 * i, 2, next, 2 * |devices|, bus.calls, error);
      if error != 0 {
        return;
      }
    }
    assert devices[..|devices|] == devices;
  }

  lemma {:induction false} FewerZeros(world: World, devices: seq<Handle>, i: nat)
    requires i < |devices| && world.functionNumber(devices[i]) == 0
    ensures |world.FunctionZero(devices[..i])| < |world.FunctionZero(devices)|
    decreases |devices|
  {
    var last := |devices| - 1;
    if i < last {
      FewerZeros(world, devices[..last], i);
      assert devices[..last][..i] == devices[..i];
    }
  }

  method SetResetState(bus: PciBus, devices: seq<Handle>, asserting: bool) returns (error: int)
    modifies bus
    ensures bus.config.Keys == old(bus.config).Keys && bus.saved == old(bus.saved)
    ensures !asserting ==> bus.config == old(bus.config)
    ensures Called(bus.world, old(bus.calls), |bus.world.FunctionZero(devices)|, bus.calls, error)
    ensures Unrestored(old(bus.log), bus.log)
    ensures error == 0 ==> bus.log == old(bus.log) + ResetSteps(bus.world.FunctionZero(devices), asserting)
  {
    error := 0;
    ghost var first, all := bus.calls, |bus.world.FunctionZero(devices)|;
    NoCalls(bus.world, first);
    assert Unrestored(bus.log, bus.log);
    hide Called, NoFailure, Unrestored;
    for i := 0 to |devices|
      invariant error == 0 && bus.config.Keys == old(bus.config).Keys && bus.saved == old(bus.saved)
      invariant bus.calls == first + |bus.world.FunctionZero(devices[..i])|
      invariant Called(bus.world, first, |bus.world.FunctionZero(devices[..i])|, bus.calls, 0)
      invariant !asserting ==> bus.config == old(bus.config)
      invariant Unrestored(old(bus.log), bus.log)
      invariant bus.log == old(bus.log) + ResetSteps(bus.world.FunctionZero(devices[..i]), asserting)
    {
      var h := devices[i];
      assert devices[..i + 1][..i] == devices[..i];
      ghost var zeros := bus.world.FunctionZero(devices[..i]);
      assert ResetSteps(zeros + [h], asserting)
          == ResetSteps(zeros, asserting) + [if asserting then Asserted(h) else Deasserted(h)];
      assert ResetSteps(zeros + [], asserting) == ResetSteps(zeros, asserting);
      if bus.world.functionNumber(h) == 0 {
        FewerZeros(bus.world, devices, i);
        ghost var log := bus.log;
        UnrestoredOnce(log, if asserting then Asserted(h) else Deasserted(h));
        error := bus.SetResetState(h, asserting);
        UnrestoredThen(old(bus.log), log, bus.log);
        OneCallMore(bus.world, first, |zeros|, all, error);
        if error != 0 {
          return;
        }
      }
    }
    assert devices[..|devices|] == devices;
  }

  /** Entry `i` is polled: its id differs from the id left over from the entry before it. */
  predicate StartsRun(world: World, devices: seq<Handle>, i: nat)
    requires i < |devices|
  {
    world.deviceId(devices[i]) != (if i == 0 then 0xffff else world.deviceId(devices[i - 1]))
  }

  /** A read of a device's id that found it. */
  predicate Answers(world: World, s: Step) {
    s.Polled? && s.id == world.deviceId(s.device)
  }

  /** Poll `k` is of entry `places[k]`, one of the first `done`, which starts a run. */
  ghost predicate PolledAt(world: World, devices: seq<Handle>, start: nat, polls: seq<Step>, places: seq<nat>,
                           done: nat)
    requires done <= |devices|
  {
    && |places| == |polls|
    && forall k :: 0 <= k < |polls| ==>
         && places[k] < done && StartsRun(world, devices, places[k])
         && polls[k] == Polled(devices[places[k]], world.idRead(start + k))
  }

  /** The entries are polled in list order, each until it answers with its id. */
  ghost predicate TakesTurns(world: World, polls: seq<Step>, places: seq<nat>)
    requires |places| == |polls|
  {
    forall k :: 0 <= k < |polls| - 1 ==>
      places[k] <= places[k + 1] && (places[k] < places[k + 1] <==> Answers(world, polls[k]))
  }

  /** The polls of the first `done` entries, the `start`-th steps of the log and those after it: `places`
      says which entry each is of, and every entry that starts a run has its turn. */
  ghost predicate Dialogue(world: World, devices: seq<Handle>, start: nat, polls: seq<Step>, places: seq<nat>,
                           done: nat) {
    && done <= |devices| && PolledAt(world, devices, start, polls, places, done)
    && TakesTurns(world, polls, places)
    && (forall i :: 0 <= i < done && StartsRun(world, devices, i) ==> i in places)
  }

  /** What polling `h` adds, when the log has `start` steps: the first answer is the last poll. */
  ghost predicate Asking(world: World, h: Handle, start: nat, asked: seq<Step>) {
    && (forall k :: 0 <= k < |asked| ==> asked[k] == Polled(h, world.idRead(start + k)))
    && (forall k :: 0 <= k < |asked| - 1 ==> !Answers(world, asked[k]))
  }

  predicate LastAnswers(world: World, polls: seq<Step>) {
    polls != [] ==> Answers(world, polls[|polls| - 1])
  }

  /** How the wait went: to the end of the list, or to the 102nd poll. */
  ghost predicate Awaited(world: World, devices: seq<Handle>, start: nat, polls: seq<Step>, error: int) {
    exists places: seq<nat> ::
      if error == 0 then
        |polls| < 102 && Dialogue(world, devices, start, polls, places, |devices|) && LastAnswers(world, polls)
      else
        && error == -EINVAL && |polls| == 102 == |places|
        && Dialogue(world, devices, start, polls, places, places[101] + 1)
  }

  lemma PolledAtGoesOn(world: World, devices: seq<Handle>, start: nat, polls: seq<Step>, places: seq<nat>, n: nat,
                       asked: seq<Step>)
    requires n < |devices| && PolledAt(world, devices, start, polls, places, n)
    requires Asking(world, devices[n], start + |polls|, asked) && (asked != [] ==> StartsRun(world, devices, n))
    ensures PolledAt(world, devices, start, polls + asked, places + seq(|asked|, _ => n), n + 1)
  {
    hide StartsRun, Answers;
    var polls', places' := polls + asked, places + seq(|asked|, _ => n);
    forall k | 0 <= k < |polls'|
      ensures places'[k] < n + 1 && StartsRun(world, devices, places'[k])
      ensures polls'[k] == Polled(devices[places'[k]], world.idRead(start + k))
    {
      if k >= |polls| {
        assert polls'[k] == asked[k - |polls|] && places'[k] == n;
      } else {
        assert polls'[k] == polls[k] && places'[k] == places[k];
      }
    }
  }

  lemma TurnsGoOn(world: World, h: Handle, start: nat, polls: seq<Step>, places: seq<nat>, n: nat, asked: seq<Step>)
    requires |places| == |polls| && TakesTurns(world, polls, places) && LastAnswers(world, polls)
    requires forall k :: 0 <= k < |places| ==> places[k] < n
    requires Asking(world, h, start, asked)
    ensures TakesTurns(world, polls + asked, places + seq(|asked|, _ => n))
    ensures LastAnswers(world, asked) ==> LastAnswers(world, polls + asked)
  {
    hide Answers;
    var polls', places' := polls + asked, places + seq(|asked|, _ => n);
    forall k | 0 <= k < |polls'| - 1
      ensures places'[k] <= places'[k + 1] && (places'[k] < places'[k + 1] <==> Answers(world, polls'[k]))
    {
      if k >= |polls| {
        assert polls'[k] == asked[k - |polls|] && places'[k] == n == places'[k + 1];
      } else {
        assert polls'[k] == polls[k] && places'[k] == places[k];
        assert k + 1 < |polls| ==> places'[k + 1] == places[k + 1];
      }
    }
  }

  /** One more entry has been polled, if it starts a run: until it answered, or until the polls ran out. */
  lemma DialogueGoesOn(world: World, devices: seq<Handle>, start: nat, polls: seq<Step>, places: seq<nat>, n: nat,
                       asked: seq<Step>)
    requires n < |devices| && Dialogue(world, devices, start, polls, places, n) && LastAnswers(world, polls)
    requires Asking(world, devices[n], start + |polls|, asked)
    requires asked != [] <==> StartsRun(world, devices, n)
    ensures Dialogue(world, devices, start, polls + asked, places + seq(|asked|, _ => n), n + 1)
    ensures LastAnswers(world, asked) ==> LastAnswers(world, polls + asked)
  {
    PolledAtGoesOn(world, devices, start, polls, places, n, asked);
    TurnsGoOn(world, devices[n], start + |polls|, polls, places, n, asked);
    hide StartsRun, TakesTurns, LastAnswers, Asking;
    var places' := places + seq(|asked|, _ => n);
    forall i | 0 <= i < n + 1 && StartsRun(world, devices, i) ensures i in places' {
      if i == n {
        assert places'[|places|] == n;
      }
    }
    hide PolledAt;
  }

  /** Every entry that starts a run has been polled and has answered. */
  ghost predicate Answered(world: World, devices: seq<Handle>, polls: seq<Step>) {
    forall i :: 0 <= i < |devices| && StartsRun(world, devices, i) ==>
      Polled(devices[i], world.deviceId(devices[i])) in polls
  }

  /** Nothing but entries that start a run has been polled. */
  ghost predicate OnlyStarts(world: World, devices: seq<Handle>, polls: seq<Step>) {
    forall s :: s in polls ==>
      s.Polled? && exists i :: 0 <= i < |devices| && StartsRun(world, devices, i) && s.device == devices[i]
  }

  /** The last poll of each such entry is its answer. */
  lemma AnswerFollows(world: World, devices: seq<Handle>, start: nat, polls: seq<Step>, places: seq<nat>, k: nat)
    requires Dialogue(world, devices, start, polls, places, |devices|) && LastAnswers(world, polls) && k < |polls|
    ensures Polled(devices[places[k]], world.deviceId(devices[places[k]])) in polls
    decreases |polls| - k
  {
    hide StartsRun;
    if k < |polls| - 1 && places[k + 1] == places[k] {
      AnswerFollows(world, devices, start, polls, places, k + 1);
    } else {
      assert Answers(world, polls[k]);
    }
  }

  lemma DialogueStarts(world: World, devices: seq<Handle>, start: nat, polls: seq<Step>, places: seq<nat>, done: nat)
    requires Dialogue(world, devices, start, polls, places, done)
    ensures OnlyPolls(polls) && OnlyStarts(world, devices, polls)
  {
    hide StartsRun, Answers;
    forall s | s in polls
      ensures s.Polled? && exists i :: 0 <= i < |devices| && StartsRun(world, devices, i) && s.device == devices[i]
    {
      var k :| 0 <= k < |polls| && polls[k] == s;
      assert StartsRun(world, devices, places[k]);
    }
  }

  lemma DialogueAnswers(world: World, devices: seq<Handle>, start: nat, polls: seq<Step>, places: seq<nat>)
    requires Dialogue(world, devices, start, polls, places, |devices|) && LastAnswers(world, polls)
    ensures Answered(world, devices, polls)
  {
    hide StartsRun, Answers, LastAnswers;
    forall i | 0 <= i < |devices| && StartsRun(world, devices, i)
      ensures Polled(devices[i], world.deviceId(devices[i])) in polls
    {
      assert i in places;
      var k :| 0 <= k < |places| && places[k] == i;
      AnswerFollows(world, devices, start, polls, places, k);
    }
  }

  lemma AwaitedMeans(world: World, devices: seq<Handle>, start: nat, polls: seq<Step>, error: int)
    requires Awaited(world, devices, start, polls, error)
    ensures OnlyPolls(polls) && OnlyStarts(world, devices, polls)
    ensures error == 0 ==> Answered(world, devices, polls)
  {
    hide Dialogue, OnlyPolls, OnlyStarts, Answered, LastAnswers;
    if error == 0 {
      var places: seq<nat> :|
        Dialogue(world, devices, start, polls, places, |devices|) && LastAnswers(world, polls);
      DialogueStarts(world, devices, start, polls, places, |devices|);
      DialogueAnswers(world, devices, start, polls, places);
    } else {
      var places: seq<nat> :| |places| == 102 && Dialogue(world, devices, start, polls, places, places[101] + 1);
      DialogueStarts(world, devices, start, polls, places, places[101] + 1);
    }
  }

  lemma AwaitedInVain(world: World, devices: seq<Handle>, start: nat, polls: seq<Step>, places: seq<nat>, i: nat)
    requires Dialogue(world, devices, start, polls, places, i + 1)
    requires |polls| == 102 && (|places| == 102 ==> places[101] == i)
    ensures Awaited(world, devices, start, polls, -EINVAL)
  {
    hide StartsRun, Answers;
  }

  /** `wait_for_response`. The polling counter is not reset between devices, so 102 reads are the
      most there can be, and the last of them fails the wait even if it is answered. On success
      exactly the entries that start a run of equal ids have been polled and have answered. */
  method WaitForResponse(bus: PciBus, devices: seq<Handle>) returns (error: int, ghost polls: seq<Step>)
    modifies bus`log
    ensures bus.log == old(bus.log) + polls && OnlyPolls(polls)
    ensures error in {0, -22} && |polls| <= 102
    ensures error != 0 <==> |polls| == 102
    ensures Awaited(bus.world, devices, |old(bus.log)|, polls, error)
    ensures OnlyStarts(bus.world, devices, polls)
    ensures error == 0 ==> Answered(bus.world, devices, polls)
  {
    var deviceId: nat := UNKNOWN_DEVICE_ID;
    var pollingCounter := 0;
    error, polls := 0, [];
    ghost var log, places: seq<nat> := bus.log, [];
    assert Waiting(bus, devices, log, polls, places, 0, deviceId, pollingCounter);
    hide Waiting, Answered, OnlyStarts, OnlyPolls, Awaited;
    for i := 0 to |devices|
      invariant error == 0
      invariant Waiting(bus, devices, log, polls, places, i, deviceId, pollingCounter)
    {
      error, deviceId, pollingCounter, polls, places :=
        AwaitEntry(bus, devices, i, deviceId, pollingCounter, log, polls, places);
      if error != 0 {
        AwaitedMeans(bus.world, devices, |log|, polls, error);
        return;
      }
    }
    AwaitedAll(bus, devices, log, polls, places, deviceId, pollingCounter);
    AwaitedMeans(bus.world, devices, |log|, polls, 0);
  }

  /** The loop of `wait_for_response` before entry `n`. */
  ghost predicate Waiting(bus: PciBus, devices: seq<Handle>, log: seq<Step>, polls: seq<Step>, places: seq<nat>, n: nat,
                          deviceId: nat, counter: nat)
    reads bus
  {
    && bus.log == log + polls && |polls| == counter <= MAXIMUM_POLLING_NUMBER + 1 && n <= |devices|
    && deviceId == (if n == 0 then UNKNOWN_DEVICE_ID else bus.world.deviceId(devices[n - 1]))
    && Dialogue(bus.world, devices, |log|, polls, places, n) && LastAnswers(bus.world, polls)
  }

  lemma AwaitedAll(bus: PciBus, devices: seq<Handle>, log: seq<Step>, polls: seq<Step>, places: seq<nat>, deviceId: nat,
                   counter: nat)
    requires Waiting(bus, devices, log, polls, places, |devices|, deviceId, counter)
    ensures Awaited(bus.world, devices, |log|, polls, 0) && |polls| < 102 && bus.log == log + polls
  {
    hide Dialogue, LastAnswers;
  }

  /** One turn of that loop. */
  method AwaitEntry(bus: PciBus, devices: seq<Handle>, n: nat, deviceId0: nat, counter0: nat, ghost log: seq<Step>,
                    ghost polls0: seq<Step>, ghost places0: seq<nat>)
    returns (error: int, deviceId: nat, counter: nat, ghost polls: seq<Step>, ghost places: seq<nat>)
    requires n < |devices| && Waiting(bus, devices, log, polls0, places0, n, deviceId0, counter0)
    modifies bus`log
    ensures bus.log == log + polls && error in {0, -EINVAL}
    ensures error == 0 ==> Waiting(bus, devices, log, polls, places, n + 1, deviceId, counter)
    ensures error != 0 ==> |polls| == 102 && Awaited(bus.world, devices, |log|, polls, error)
  {
    hide Dialogue, Asking, LastAnswers, Answers, Awaited;
    ghost var asked: seq<Step>;
    error, deviceId, counter, asked := PollDevice(bus, devices[n], deviceId0, counter0);
    DialogueGoesOn(bus.world, devices, |log|, polls0, places0, n, asked);
    polls, places := polls0 + asked, places0 + seq(|asked|, _ => n);
    if error != 0 {
      AwaitedInVain(bus.world, devices, |log|, polls, places, n);
    }
  }

  /** The inner loop of `wait_for_response`: reads the id of `h` until it is the right one. */
  method PollDevice(bus: PciBus, h: Handle, deviceId0: nat, counter0: nat)
    returns (error: int, deviceId: nat, counter: nat, ghost asked: seq<Step>)
    requires counter0 <= MAXIMUM_POLLING_NUMBER + 1
    modifies bus`log
    ensures bus.log == old(bus.log) + asked
    ensures asked == [] <==> deviceId0 == bus.world.deviceId(h)
    ensures Asking(bus.world, h, |old(bus.log)|, asked)
    ensures error in {0, -EINVAL}
    ensures error == 0 ==> counter == counter0 + |asked| <= MAXIMUM_POLLING_NUMBER + 1
    ensures error != 0 ==> counter0 + |asked| == MAXIMUM_POLLING_NUMBER + 2
    ensures error == 0 ==> deviceId == bus.world.deviceId(h) && LastAnswers(bus.world, asked)
  {
    error, deviceId, counter, asked := 0, deviceId0, counter0, [];
    while deviceId != bus.world.deviceId(h)
      invariant error == 0 && bus.log == old(bus.log) + asked
      invariant forall k :: 0 <= k < |asked| ==> asked[k] == Polled(h, bus.world.idRead(|old(bus.log)| + k))
      invariant forall k :: 0 <= k < |asked| - 1 ==> !Answers(bus.world, asked[k])
      invariant counter == counter0 + |asked| <= MAXIMUM_POLLING_NUMBER + 1
      invariant asked == [] ==> deviceId == deviceId0
      invariant asked != [] ==> deviceId0 != bus.world.deviceId(h) && asked[|asked| - 1] == Polled(h, deviceId)
      decreases MAXIMUM_POLLING_NUMBER + 2 - counter
    {
      deviceId := bus.ReadDeviceId(h);
      asked := asked + [Polled(h, deviceId)];
      if counter > MAXIMUM_POLLING_NUMBER {
        return -EINVAL, deviceId, counter, asked;
      }
      counter := counter + 1;
    }
  }

  method RestorePciConfigurationSpace(bus: PciBus, devices: seq<Handle>)
    requires forall h :: h in devices ==> h in bus.config && h in bus.saved
    modifies bus
    ensures bus.config.Keys == old(bus.config).Keys
    ensures forall h :: h in devices ==> bus.config[h] == old(bus.saved)[h]
    ensures bus.log == old(bus.log) + RestoredSteps(devices)
  {
    for i := 0 to |devices|
      invariant bus.config.Keys == old(bus.config).Keys
      invariant forall j :: 0 <= j < i ==> bus.config[devices[j]] == old(bus.saved)[devices[j]]
      invariant forall h :: h in bus.saved ==> h in old(bus.saved) && bus.saved[h] == old(bus.saved)[h]
      invariant forall j :: i <= j < |devices| && devices[j] !in devices[..i] ==> devices[j] in bus.saved
      invariant bus.log == old(bus.log) + RestoredSteps(devices[..i])
    {
      assert devices[..i + 1] == devices[..i] + [devices[i]];
      assert RestoredSteps(devices[..i + 1]) == RestoredSteps(devices[..i]) + [Restored(devices[i])];
      bus.RestoreState(devices[i]);
    }
    assert devices[..|devices|] == devices;
  }

  // ------------------------------------------------------------------
  // The driver

  datatype Entry = Entry(name: string, device: Option<Handle>)

  function Unattached(names: seq<string>): (r: seq<Entry>)
    ensures |r| == |names|
  {
    seq(|names|, i requires 0 <= i < |names| => Entry(names[i], None))
  }

  lemma UnattachedNone(list: seq<Entry>)
    ensures list + Unattached([]) == list
  {
  }

  lemma UnattachedAt(list: seq<Entry>, names: seq<string>)
    ensures |list + Unattached(names)| == |list| + |names|
    ensures forall i :: 0 <= i < |names| ==> (list + Unattached(names))[|list| + i] == Entry(names[i], None)
  {
  }

  lemma UnattachedOneMore(list: seq<Entry>, names: seq<string>, name: string)
    ensures list + Unattached(names + [name]) == list + Unattached(names) + [Entry(name, None)]
  {
    assert Unattached(names + [name]) == Unattached(names) + [Entry(name, None)];
  }

  /** The parser has taken one name more off the list. */
  lemma ParsedOneMore(all: seq<string>, parsed: seq<string>, name: string, rest: seq<string>)
    requires all == parsed + ([name] + rest)
    ensures all == parsed + [name] + rest
  {
  }

  function Attach(entries: seq<Entry>, name: string, h: Handle): (r: seq<Entry>)
    ensures |r| == |entries|
  {
    seq(|entries|, i requires 0 <= i < |entries| =>
      if entries[i].name == name then entries[i].(device := Some(h)) else entries[i])
  }

  function Matches(entries: seq<Entry>, name: string): nat {
    if entries == [] then 0
    else Matches(entries[..|entries| - 1], name) + (if entries[|entries| - 1].name == name then 1 else 0)
  }

  function Attached(entries: seq<Entry>): nat {
    if entries == [] then 0
    else Attached(entries[..|entries| - 1]) + (if entries[|entries| - 1].device.Some? then 1 else 0)
  }

  predicate AllAttached(entries: seq<Entry>) {
    forall e :: e in entries ==> e.device.Some?
  }

  function Devices(entries: seq<Entry>): (r: seq<Handle>)
    requires AllAttached(entries)
    ensures |r| == |entries| && forall i :: 0 <= i < |entries| ==> r[i] == entries[i].device.value
  {
    seq(|entries|, i requires 0 <= i < |entries| => entries[i].device.value)
  }

  lemma {:induction false} AttachedAll(entries: seq<Entry>)
    ensures Attached(entries) <= |entries|
    ensures Attached(entries) == |entries| <==> AllAttached(entries)
  {
    if entries != [] {
      var last := |entries| - 1;
      AttachedAll(entries[..last]);
      assert entries == entries[..last] + [entries[last]];
    }
  }

  /** The matching entries that have a device already. */
  function Rematches(entries: seq<Entry>, name: string): nat {
    if entries == [] then 0
    else
      var last := entries[|entries| - 1];
      Rematches(entries[..|entries| - 1], name) + (if last.name == name && last.device.Some? then 1 else 0)
  }

  lemma {:induction false} RematchesNone(entries: seq<Entry>, name: string)
    ensures Rematches(entries, name) == 0 <==> forall e :: e in entries && e.name == name ==> e.device.None?
  {
    if entries != [] {
      var last := |entries| - 1;
      RematchesNone(entries[..last], name);
      assert entries == entries[..last] + [entries[last]];
    }
  }

  /** A probe counts its matching entries, those that had a device already a second time. */
  lemma {:induction false} AttachCounts(entries: seq<Entry>, name: string, h: Handle)
    ensures Attached(Attach(entries, name, h)) + Rematches(entries, name) == Attached(entries) + Matches(entries, name)
  {
    if entries != [] {
      var last := |entries| - 1;
      AttachCounts(entries[..last], name, h);
      assert Attach(entries, name, h)[..last] == Attach(entries[..last], name, h);
    }
  }

  /** Attached devices exist. */
  ghost predicate Configured(entries: seq<Entry>, config: map<Handle, Config>) {
    forall e :: e in entries && e.device.Some? ==> e.device.value in config
  }

  lemma AttachConfigured(entries: seq<Entry>, name: string, h: Handle, config: map<Handle, Config>)
    requires Configured(entries, config) && h in config
    ensures Configured(Attach(entries, name, h), config)
  {
    var r := Attach(entries, name, h);
    forall e | e in r && e.device.Some? ensures e.device.value in config {
      var i :| 0 <= i < |r| && r[i] == e;
      assert entries[i] in entries;
    }
  }

  lemma StillConfigured(entries: seq<Entry>, config: map<Handle, Config>, config': map<Handle, Config>)
    requires Configured(entries, config) && config.Keys == config'.Keys
    ensures Configured(entries, config')
  {
  }

  lemma DevicesConfigured(entries: seq<Entry>, config: map<Handle, Config>)
    requires Configured(entries, config) && AllAttached(entries)
    ensures forall h :: h in Devices(entries) ==> h in config
  {
    var devices := Devices(entries);
    forall h | h in devices ensures h in config {
      var i :| 0 <= i < |devices| && devices[i] == h;
      assert entries[i] in entries;
    }
  }

  /** New entries are not attached. */
  lemma {:induction false} AppendUnattached(entries: seq<Entry>, names: seq<string>, config: map<Handle, Config>)
    requires Configured(entries, config)
    ensures Attached(entries + Unattached(names)) == Attached(entries)
    ensures Configured(entries + Unattached(names), config)
    decreases |names|
  {
    var all := entries + Unattached(names);
    if names == [] {
      assert all == entries;
    } else {
      var last := |names| - 1;
      AppendUnattached(entries, names[..last], config);
      assert all[..|all| - 1] == entries + Unattached(names[..last]);
    }
  }

  /** Every listed device has the configuration it was prepared with, whatever happened since. */
  ghost predicate Preserved(world: World, before: map<Handle, Config>, after: map<Handle, Config>,
                            devices: seq<Handle>) {
    forall h :: h in devices ==>
      h in before && h in after && after[h] == world.Prepared(h, before[h], multiset(devices)[h])
  }

  /** The same for the entries of the list. */
  ghost predicate AllPreserved(world: World, before: map<Handle, Config>, after: map<Handle, Config>,
                               entries: seq<Entry>)
    requires AllAttached(entries)
  {
    forall e :: e in entries ==>
      var h := e.device.value;
      h in before && h in after && after[h] == world.Prepared(h, before[h], multiset(Devices(entries))[h])
  }

  lemma PreservedEntries(world: World, before: map<Handle, Config>, after: map<Handle, Config>, entries: seq<Entry>)
    requires AllAttached(entries) && Preserved(world, before, after, Devices(entries))
    ensures AllPreserved(world, before, after, entries)
  {
    forall e | e in entries ensures e.device.value in Devices(entries) {
      var i :| 0 <= i < |entries| && entries[i] == e;
      assert Devices(entries)[i] == e.device.value;
    }
  }

  /** What a completed reset adds to the log, in order. */
  function ResetLog(world: World, log: seq<Step>, devices: seq<Handle>, polls: seq<Step>): seq<Step> {
    log + SavedSteps(devices)
    + ResetSteps(world.FunctionZero(devices), true)
    + ResetSteps(world.FunctionZero(devices), false)
    + polls + RestoredSteps(devices)
  }

  /** Entry by entry: everything is saved, then the function-0 entries are asserted, then they are
      deasserted, then comes the wait, and then everything is restored, always in list order. */
  lemma ResetLogInOrder(world: World, log: seq<Step>, devices: seq<Handle>, polls: seq<Step>)
    ensures var r, n, z := ResetLog(world, log, devices, polls), |devices|, |world.FunctionZero(devices)|;
            && |r| == |log| + n + z + z + |polls| + n && r[..|log|] == log
            && (forall i :: 0 <= i < n ==> r[|log| + i] == Saved(devices[i]))
            && (forall i :: 0 <= i < z ==> r[|log| + n + i] == Asserted(world.FunctionZero(devices)[i]))
            && (forall i :: 0 <= i < z ==> r[|log| + n + z + i] == Deasserted(world.FunctionZero(devices)[i]))
            && r[|log| + n + z + z..|r| - n] == polls
            && (forall i :: 0 <= i < n ==> r[|r| - n + i] == Restored(devices[i]))
  {
    var zeros := world.FunctionZero(devices);
    hide World.FunctionZero;
    var r, n, z := ResetLog(world, log, devices, polls), |devices|, |zeros|;
    var a := log + SavedSteps(devices);
    var b := a + ResetSteps(zeros, true);
    var c := b + ResetSteps(zeros, false);
    assert r == c + polls + RestoredSteps(devices);
  }

  /** How a reset ended: at the first kernel call that failed, with its code; or, if none did, after the
      wait, which says whether it succeeded. */
  ghost predicate Ended(world: World, devices: seq<Handle>, first: nat, log: seq<Step>, next: nat, polls: seq<Step>,
                        error: int) {
    var calls := 2 * |devices| + 2 * |world.FunctionZero(devices)|;
    if NoFailure(world, first, calls) then
      Awaited(world, devices, |log| + |devices| + 2 * |world.FunctionZero(devices)|, polls, error)
    else
      error != 0 && polls == [] && Called(world, first, calls, next, error)
  }

  /** The phases of `pci_devices_reset` up to the wait. */
  method SaveAndReset(bus: PciBus, devices: seq<Handle>) returns (error: int)
    requires forall h :: h in devices ==> h in bus.config
    modifies bus
    ensures bus.config.Keys == old(bus.config).Keys
    ensures Called(bus.world, old(bus.calls), 2 * |devices| + 2 * |bus.world.FunctionZero(devices)|, bus.calls, error)
    ensures Unrestored(old(bus.log), bus.log)
    ensures error == 0 ==>
              && Preserved(bus.world, old(bus.config), bus.saved, devices)
              && bus.log == old(bus.log) + SavedSteps(devices)
                              + ResetSteps(bus.world.FunctionZero(devices), true)
                              + ResetSteps(bus.world.FunctionZero(devices), false)
  {
    ghost var world, first, n, z := bus.world, bus.calls, |devices|, |bus.world.FunctionZero(devices)|;
    hide ResetSteps, SavedSteps, Called, NoFailure, World.FunctionZero, World.Prepared;
    NoCalls(world, first);
    error := SavePciConfigurationSpace(bus, devices);
    CalledThen(world, first, 0, 2 * n, first, 2 * n + 2 * z, bus.calls, error);
    if error != 0 {
      return;
    }
    ghost var next := bus.calls;
    error := SetResetState(bus, devices, true);
    CalledThen(world, first, 2 * n, z, next, 2 * n + 2 * z, bus.calls, error);
    if error != 0 {
      return;
    }
    next := bus.calls;
    error := SetResetState(bus, devices, false);
    CalledThen(world, first, 2 * n + z, z, next, 2 * n + 2 * z, bus.calls, error);
  }

  /** The phases of `pci_devices_reset`. */
  method RunReset(bus: PciBus, devices: seq<Handle>) returns (error: int, ghost polls: seq<Step>)
    requires forall h :: h in devices ==> h in bus.config
    modifies bus
    ensures bus.config.Keys == old(bus.config).Keys
    ensures Ended(bus.world, devices, old(bus.calls), old(bus.log), bus.calls, polls, error)
    ensures error != 0 ==> Unrestored(old(bus.log), bus.log)
    ensures error == 0 ==>
              && Preserved(bus.world, old(bus.config), bus.config, devices)
              && OnlyPolls(polls) && |polls| < 102
              && bus.log == ResetLog(bus.world, old(bus.log), devices, polls)
  {
    hide ResetSteps, SavedSteps, RestoredSteps, OnlyPolls, Awaited, Called, NoFailure, World.FunctionZero;
    polls := [];
    ghost var first := bus.calls;
    error := SaveAndReset(bus, devices);
    CalledExactly(bus.world, first, 2 * |devices| + 2 * |bus.world.FunctionZero(devices)|, bus.calls, error);
    if error != 0 {
      return;
    }
    assert |bus.log| == |old(bus.log)| + |devices| + 2 * |bus.world.FunctionZero(devices)| by {
      StepCounts(devices, bus.world.FunctionZero(devices));
    }
    error, polls := WaitForResponse(bus, devices);
    if error != 0 {
      return;
    }
    RestorePciConfigurationSpace(bus, devices);
  }

  lemma StepCounts(devices: seq<Handle>, zeros: seq<Handle>)
    ensures |SavedSteps(devices)| == |devices|
    ensures |ResetSteps(zeros, true)| == |ResetSteps(zeros, false)| == |zeros|
  {
  }

  lemma TakeOneMore(s: seq<Entry>, i: nat)
    requires i < |s|
    ensures s[..i + 1] == s[..i] + [s[i]]
  {
  }

  class PpcDriver {
    const bus: PciBus
    var entries: seq<Entry>
    var found: nat
    var requested: nat
    var resetWasDone: bool
    /** The resets that ran to the end. */
    ghost var completed: nat
    /** How often an entry has been attached that had a device already. */
    ghost var repeats: nat

    /** Found counts the attached entries, and repeated attachments once more each; requested counts
        all entries; and at most one reset has completed. */
    ghost predicate Valid()
      reads this, bus
    {
      && requested == |entries| && found == Attached(entries) + repeats
      && completed == (if resetWasDone then 1 else 0)
      && Configured(entries, bus.config)
    }

    /** `init`: clears the counters and parses the parameter. */
    constructor (bus: PciBus, parameter: string)
      ensures Valid() && this.bus == bus && !resetWasDone && found == 0
      ensures requested == Commas(parameter) + 1 && repeats == 0
      ensures entries == Unattached(Names(parameter))
      ensures |entries| == |Names(parameter)|
      ensures forall i :: 0 <= i < |entries| ==> entries[i] == Entry(Names(parameter)[i], None)
    {
      this.bus := bus;
      entries, found, requested, resetWasDone, completed, repeats := [], 0, 0, false, 0, 0;
      new;
      NamesRoundTrip(parameter);
      hide DeviceNames.Names, DeviceNames.Join, DeviceNames.Commas, Unattached;
      ParsePciDevicesString(parameter);
    }

    /** `parse_pci_devices_string`: appends one unattached entry for every name. */
    method ParsePciDevicesString(parameter: string)
      requires Valid()
      modifies this`entries, this`requested
      ensures Valid()
      ensures requested == old(requested) + Commas(parameter) + 1
      ensures entries == old(entries) + Unattached(Names(parameter))
      ensures forall i :: 0 <= i < |Names(parameter)| ==>
                |old(entries)| + i < |entries| && entries[|old(entries)| + i] == Entry(Names(parameter)[i], None)
    {
      NamesRoundTrip(parameter);
      hide DeviceNames.Names, DeviceNames.Join, DeviceNames.Commas, DeviceNames.StrSep;
      hide Attached, Configured, Unattached;
      var rest := Some(parameter);
      ghost var list: seq<Entry>, parsed: seq<string> := entries, [];
      UnattachedNone(list);
      while rest.Some?
        invariant requested == old(requested) + |parsed| && entries == list + Unattached(parsed)
        invariant Names(parameter) == parsed + (if rest.Some? then Names(rest.value) else [])
        decreases if rest.Some? then 1 + |rest.value| else 0
      {
        NextName(rest.value);
        var (name, rest') := StrSep(rest.value);
        UnattachedOneMore(list, parsed, name);
        ParsedOneMore(Names(parameter), parsed, name, if rest'.Some? then Names(rest'.value) else []);
        entries := entries + [Entry(name, None)];
        requested := requested + 1;
        parsed := parsed + [name];
        rest := rest';
      }
      assert Names(parameter) == parsed;
      AppendUnattached(list, parsed, bus.config);
      UnattachedAt(list, parsed);
    }

    /** `pci_devices_reset`. After a success every listed device has the configuration it had
        when it was saved, whatever the reset wiped; every function-0 device was asserted and
        then deasserted; and nothing happens again, ever. */
    method PciDevicesReset() returns (error: int, ghost polls: seq<Step>)
      requires Valid() && AllAttached(entries)
      modifies bus, this`resetWasDone, this`completed
      ensures Valid()
      ensures old(resetWasDone) ==> error == 0 && bus.config == old(bus.config) && bus.log == old(bus.log)
      ensures resetWasDone == (old(resetWasDone) || error == 0)
      ensures !old(resetWasDone) ==>
                Ended(bus.world, Devices(entries), old(bus.calls), old(bus.log), bus.calls, polls, error)
      ensures error != 0 ==> Unrestored(old(bus.log), bus.log)
      ensures error == 0 && !old(resetWasDone) ==>
                && AllPreserved(bus.world, old(bus.config), bus.config, entries)
                && OnlyPolls(polls) && |polls| < 102
                && bus.log == ResetLog(bus.world, old(bus.log), Devices(entries), polls)
    {
      error, polls := 0, [];
      if resetWasDone {
        return;
      }
      DevicesConfigured(entries, bus.config);
      ghost var config := bus.config;
      hide Attached, Configured, AllAttached, Devices, ResetLog, OnlyPolls, Preserved, AllPreserved, Ended;
      error, polls := RunReset(bus, Devices(entries));
      StillConfigured(entries, config, bus.config);
      if error != 0 {
        return;
      }
      PreservedEntries(bus.world, old(bus.config), bus.config, entries);
      resetWasDone := true;
      completed := completed + 1;
    }

    /** `init_pci_device`, for the first and for any later probe of a device. The reset starts when
        the counts agree. If they agree because of repeated probes, some entry has no device yet and
        the reset would follow its null pointer: that is `fault`, of which nothing more is said. As
        long as no probe has been repeated the reset starts only when every entry is attached. */
    method InitPciDevice(name: string, h: Handle) returns (error: int, fault: bool, ghost polls: seq<Step>)
      requires Valid() && h in bus.config
      modifies bus, this
      ensures Valid()
      ensures entries == Attach(old(entries), name, h) && requested == old(requested)
      ensures found == old(found) + Matches(old(entries), name)
      ensures repeats == old(repeats) + Rematches(old(entries), name)
      ensures fault <==> !old(resetWasDone) && requested == found && !AllAttached(entries)
      ensures repeats == 0 ==> !fault
      ensures !fault && (bus.log != old(bus.log) || bus.config != old(bus.config)) ==>
                AllAttached(entries) && requested == found && !old(resetWasDone)
      ensures requested != found ==> error == 0
      ensures !fault && requested == found ==> AllAttached(entries) || old(resetWasDone)
      ensures !fault && requested == found && !old(resetWasDone) ==>
                Ended(bus.world, Devices(entries), old(bus.calls), old(bus.log), bus.calls, polls, error)
      ensures !fault && requested == found && error == 0 ==> resetWasDone
      ensures !fault && requested == found && error == 0 && !old(resetWasDone) ==>
                && AllAttached(entries)
                && AllPreserved(bus.world, old(bus.config), bus.config, entries)
                && OnlyPolls(polls) && |polls| < 102
                && bus.log == ResetLog(bus.world, old(bus.log), Devices(entries), polls)
      ensures old(resetWasDone) ==> resetWasDone && error == 0
    {
      AttachCounts(entries, name, h);
      AttachedAll(Attach(entries, name, h));
      AttachConfigured(entries, name, h, bus.config);
      hide Attached, AllAttached, Configured, Attach, Matches, Rematches, ResetLog, AllPreserved, OnlyPolls, Ended;
      repeats := repeats + Rematches(entries, name);
      AttachMatching(name, h);
      error, fault, polls := 0, false, [];
      if requested == found {
        if resetWasDone {
          return;
        }
        if !AllAttached(entries) {
          return error, true, polls;
        }
        error, polls := PciDevicesReset();
      }
    }

    /** The loop of `init_pci_device`. */
    method AttachMatching(name: string, h: Handle)
      modifies this`entries, this`found
      ensures entries == Attach(old(entries), name, h)
      ensures found == old(found) + Matches(old(entries), name)
    {
      ghost var list := entries;
      for i := 0 to |entries|
        invariant |entries| == |list|
        invariant entries[..i] == Attach(list, name, h)[..i] && entries[i..] == list[i..]
        invariant found == old(found) + Matches(list[..i], name)
      {
        assert list[..i + 1][..i] == list[..i];
        assert entries[i] == list[i];
        assert entries[i + 1..] == list[i + 1..] by {
          assert entries[i..][1..] == entries[i + 1..] && list[i..][1..] == list[i + 1..];
        }
        if entries[i].name == name {
          entries := entries[i := entries[i].(device := Some(h))];
          found := found + 1;
        }
        TakeOneMore(entries, i);
        TakeOneMore(Attach(list, name, h), i);
      }
      assert list[..|list|] == list;
    }
  }

  // ------------------------------------------------------------------
  // Runs of probes

  datatype Probe = Probe(name: string, device: Handle)

  /** The list and the found counter after a run of probes. */
  function Probed(entries: seq<Entry>, found: nat, probes: seq<Probe>): (seq<Entry>, nat)
    decreases |probes|
  {
    if probes == [] then (entries, found)
    else Probed(Attach(entries, probes[0].name, probes[0].device),
                found + Matches(entries, probes[0].name), probes[1..])
  }

  /** No two of the probes are of one listed device. */
  predicate EachListedOnce(entries: seq<Entry>, probes: seq<Probe>) {
    forall i, j :: 0 <= i < j < |probes| && probes[i].name == probes[j].name ==> !Listed(entries, probes[i].name)
  }

  predicate Listed(entries: seq<Entry>, name: string) {
    exists i :: 0 <= i < |entries| && entries[i].name == name
  }

  /** None of the probes is of a device that has been attached. */
  predicate NoneAttached(entries: seq<Entry>, probes: seq<Probe>) {
    forall p :: p in probes ==> Rematches(entries, p.name) == 0
  }

  lemma {:induction false} AttachRematches(entries: seq<Entry>, name: string, h: Handle, other: string)
    ensures Rematches(Attach(entries, name, h), other)
         == if other == name then Matches(entries, name) else Rematches(entries, other)
  {
    if entries != [] {
      var last := |entries| - 1;
      AttachRematches(entries[..last], name, h, other);
      assert Attach(entries, name, h)[..last] == Attach(entries[..last], name, h);
    }
  }

  lemma {:induction false} MatchesListed(entries: seq<Entry>, name: string)
    ensures Matches(entries, name) == 0 <==> !Listed(entries, name)
    ensures Rematches(entries, name) <= Matches(entries, name)
  {
    if entries != [] {
      var last := |entries| - 1;
      MatchesListed(entries[..last], name);
      assert entries[last].name == name ==> Listed(entries, name);
      assert Listed(entries[..last], name) ==> Listed(entries, name) by {
        if Listed(entries[..last], name) {
          var i :| 0 <= i < last && entries[..last][i].name == name;
          assert entries[i].name == name;
        }
      }
    }
  }

  lemma AttachListed(entries: seq<Entry>, name: string, h: Handle, other: string)
    ensures Listed(Attach(entries, name, h), other) <==> Listed(entries, other)
  {
    var r := Attach(entries, name, h);
    assert forall i :: 0 <= i < |entries| ==> r[i].name == entries[i].name;
  }

  /** One probe and the rest: the two conditions of the counting theorem, split. */
  lemma ProbeSplits(entries: seq<Entry>, probes: seq<Probe>)
    requires probes != []
    ensures var p, rest := probes[0], probes[1..];
            var entries' := Attach(entries, p.name, p.device);
            EachListedOnce(entries, probes) && NoneAttached(entries, probes) <==>
              Rematches(entries, p.name) == 0 && EachListedOnce(entries', rest) && NoneAttached(entries', rest)
  {
    var p, rest := probes[0], probes[1..];
    var entries' := Attach(entries, p.name, p.device);
    forall name: string
      ensures Listed(entries', name) <==> Listed(entries, name)
      ensures Rematches(entries', name) ==
              if name == p.name then Matches(entries, p.name) else Rematches(entries, name)
      ensures Matches(entries, name) == 0 <==> !Listed(entries, name)
      ensures Rematches(entries, name) <= Matches(entries, name)
    {
      AttachListed(entries, p.name, p.device, name);
      AttachRematches(entries, p.name, p.device, name);
      MatchesListed(entries, name);
    }
    hide Attach, Matches, Rematches, Listed;
    assert probes == [p] + rest;
    if EachListedOnce(entries, probes) && NoneAttached(entries, probes) {
      forall q | q in rest ensures Rematches(entries', q.name) == 0 {
        var j :| 0 <= j < |rest| && rest[j] == q;
        assert probes[j + 1] == q;
      }
      forall i, j | 0 <= i < j < |rest| && rest[i].name == rest[j].name ensures !Listed(entries', rest[i].name) {
        assert probes[i + 1] == rest[i] && probes[j + 1] == rest[j];
      }
    }
    if Rematches(entries, p.name) == 0 && EachListedOnce(entries', rest) && NoneAttached(entries', rest) {
      forall q | q in probes ensures Rematches(entries, q.name) == 0 {
        assert q == p || q in rest;
      }
      forall i, j | 0 <= i < j < |probes| && probes[i].name == probes[j].name ensures !Listed(entries, probes[i].name) {
        assert rest[j - 1] == probes[j] && rest[j - 1] in rest;
        assert i > 0 ==> rest[i - 1] == probes[i];
      }
    }
  }

  lemma {:induction false} RunCounts(entries: seq<Entry>, found: nat, probes: seq<Probe>)
    ensures var (entries', found') := Probed(entries, found, probes);
            && |entries'| == |entries|
            && found' - Attached(entries') >= found - Attached(entries)
            && (found' - Attached(entries') == found - Attached(entries) <==>
                  EachListedOnce(entries, probes) && NoneAttached(entries, probes))
    decreases |probes|
  {
    if probes != [] {
      var p := probes[0];
      AttachCounts(entries, p.name, p.device);
      ProbeSplits(entries, probes);
      RunCounts(Attach(entries, p.name, p.device), found + Matches(entries, p.name), probes[1..]);
      hide EachListedOnce, NoneAttached, Attach, Attached, Matches, Rematches;
    }
  }

  /** Probe counting: over any run of probes the found counter is the number of entries with a
      device, duplicate entries included, exactly when no listed device is probed twice; and then
      it reaches the requested count exactly when every entry is attached. */
  lemma ProbeCounting(entries: seq<Entry>, probes: seq<Probe>)
    requires forall e :: e in entries ==> e.device.None?
    ensures var (entries', found) := Probed(entries, 0, probes);
            && (found == Attached(entries') <==> EachListedOnce(entries, probes))
            && (EachListedOnce(entries, probes) ==> (found == |entries| <==> AllAttached(entries')))
  {
    NothingAttached(entries);
    forall p | p in probes ensures Rematches(entries, p.name) == 0 {
      RematchesNone(entries, p.name);
    }
    RunCounts(entries, 0, probes);
    AttachedAll(Probed(entries, 0, probes).0);
    hide Probed, Attached, EachListedOnce, Rematches;
  }

  lemma {:induction false} NothingAttached(entries: seq<Entry>)
    requires forall e :: e in entries ==> e.device.None?
    ensures Attached(entries) == 0
  {
    if entries != [] {
      NothingAttached(entries[..|entries| - 1]);
    }
  }

  /** A device probed twice is counted twice, and the reset would start with an entry missing. */
  lemma ProbedTwice()
    ensures var entries := [Entry("a", None), Entry("b", None)];
            var (entries', found) := Probed(entries, 0, [Probe("a", 1), Probe("a", 1)]);
            found == |entries| && !AllAttached(entries')
  {
    var entries := [Entry("a", None), Entry("b", None)];
    var p := Probe("a", 1);
    var e1 := Attach(entries, "a", 1);
    assert entries[..1] == [Entry("a", None)];
    assert Matches(entries[..1], "a") == 1;
    assert Matches(entries, "a") == 1;
    assert e1 == [Entry("a", Some(1)), Entry("b", None)];
    assert e1[..1] == [Entry("a", Some(1))];
    assert Matches(e1[..1], "a") == 1;
    assert Matches(e1, "a") == 1;
    assert Attach(e1, "a", 1) == e1;
    assert [p, p][1..] == [p];
    assert Probed(e1, 1, [p]) == Probed(e1, 2, []);
    assert e1[1] in e1;
  }
}
