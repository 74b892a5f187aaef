/** Capability discovery and the choice of access callbacks: `get_space_support_status` to
    `init_pciconf` of nnt_pci_conf_access.c, and `check_if_vsec_supported` and `create_devices`
    of nnt_device.c. */
module Discovery {
  import opened Bits
  import opened Gateway
  import opened GatewayAtomicity
  import opened Accesses
  import opened AgentViews
  import opened VsecPort
  import opened VsecDriver
  import opened Legacy

  datatype DeviceType = Pciconf | PciconfNoVsec | PciMemory

  /** The `access` member: three function pointers. */
  datatype Routine = Unset | Vsec | NoVsec | Memory
  datatype Callbacks = Callbacks(read: Routine, write: Routine, init: Routine)

  predicate Uniform(a: Callbacks) {
    a.read == a.write == a.init
  }

  const CHECKED_SPACES: seq<U32> := [0x3, 0x2, 0xa]

  const VSEC_INITIALIZED := 0
  const ICMD_SUPPORTED := 1
  const CRSPACE_SUPPORTED := 2
  const GLOBAL_SEMAPHORE_SUPPORTED := 8

  function AddressSpaceToCapability(space: U32): nat {
    match space
    case 0x1 => 1
    case 0x2 => 2
    case 0x3 => 3
    case 0x4 => 4
    case 0x5 => 5
    case 0x6 => 6
    case 0x7 => 7
    case 0xa => 8
    case 0xf => 9
    case _ => 0
  }

  /** The space that capability bit `k` speaks of. */
  function SpaceOfCapability(k: nat): U32 {
    if 1 <= k <= 9 then INITIALIZED_SPACES[k - 1] else 0
  }

  lemma CapabilityNumbering(k: nat)
    requires 1 <= k <= 9
    ensures AddressSpaceToCapability(SpaceOfCapability(k)) == k
  {
  }

  lemma SpacesInOrder()
    ensures SpaceOfCapability(1) == 0x1 && SpaceOfCapability(2) == 0x2 && SpaceOfCapability(3) == 0x3
    ensures SpaceOfCapability(4) == 0x4 && SpaceOfCapability(5) == 0x5 && SpaceOfCapability(6) == 0x6
    ensures SpaceOfCapability(7) == 0x7 && SpaceOfCapability(8) == 0xa && SpaceOfCapability(9) == 0xf
  {
  }

  /** Every capability bit that is set beyond bit 0 belongs to a supported space. */
  ghost predicate Honest(mask: U32, status: map<nat, nat>) {
    forall k: nat :: Bit(mask, k) && k != 0 ==>
      1 <= k <= 9 && Supports(status, SelectedSpace(SpaceOfCapability(k)))
  }

  ghost predicate Grows(mask: U32, mask': U32) {
    forall k: nat :: Bit(mask, k) ==> Bit(mask', k)
  }

  /** The mask since `m`, when the spaces of capabilities 1 to `last` have been probed. */
  ghost predicate Probed(m: U32, m': U32, status: map<nat, nat>, healthy: bool, last: nat) {
    && Grows(m, m')
    && (forall k: nat :: Bit(m', k) && !Bit(m, k) ==>
          1 <= k <= last && Supports(status, SelectedSpace(SpaceOfCapability(k))))
    && (healthy ==> forall k: nat :: 1 <= k <= last && Supports(status, SelectedSpace(SpaceOfCapability(k))) ==>
          Bit(m', k))
  }

  lemma NothingProbed(m: U32, status: map<nat, nat>, healthy: bool)
    ensures Probed(m, m, status, healthy, 0)
  {
  }

  /** The mask since `m` has gained the capabilities of the spaces that were found. */
  ghost predicate Gained(m: U32, m': U32, found: seq<bool>) {
    forall k: nat :: Bit(m', k) <==> Bit(m, k) || (1 <= k <= |found| && found[k - 1])
  }

  lemma NothingGained(m: U32)
    ensures Gained(m, m, [])
  {
  }

  predicate MinimumSupport(mask: U32) {
    Bit(mask, 0) && Bit(mask, 1) && Bit(mask, 2) && Bit(mask, 8)
  }

  /** The spaces a device must support to be driven through its VSEC. */
  predicate FullSupport(status: map<nat, nat>) {
    Supports(status, 0x1) && Supports(status, 0x2) && Supports(status, 0xa)
  }

  /** The mask after an undisturbed probe of all spaces. */
  ghost predicate Exhaustive(m: U32, m': U32, status: map<nat, nat>) {
    forall k: nat :: Bit(m', k) <==>
      Bit(m, k) || k == 0
      || (1 <= k <= 9 && Supports(status, SelectedSpace(SpaceOfCapability(k))))
  }

  /** A mask that began as zero has the four bits exactly when the device supports the spaces. */
  lemma CompleteSupport(mask: U32, status: map<nat, nat>)
    requires Exhaustive(0, mask, status)
    ensures MinimumSupport(mask) <==> FullSupport(status)
  {
    NothingSet();
    BitZero(ICMD_SUPPORTED);
    BitZero(CRSPACE_SUPPORTED);
    BitZero(GLOBAL_SEMAPHORE_SUPPORTED);
    hide Bits.Bit, Gateway.Supports;
    assert SpaceOfCapability(1) == 0x1 && SpaceOfCapability(2) == 0x2 && SpaceOfCapability(8) == 0xa;
  }

  class NntDevice {
    const port: Port
    const legacy: LegacyDevice
    /** What the kernel answers for this device. */
    const foundCapability: nat
    const fileError: int
    const memoryInitError: int

    var deviceType: DeviceType
    var access: Callbacks
    var vendorSpecificCapability: nat
    var capabilityMask: U32
    var fullySupported: bool
    var icmd: bool
    var crSpace: bool
    var semaphore: bool

    /** `create_nnt_device`: everything but the device type starts as zero. */
    constructor (port: Port, legacy: LegacyDevice, deviceType: DeviceType,
                 foundCapability: nat, fileError: int, memoryInitError: int)
      ensures this.port == port && this.legacy == legacy && this.deviceType == deviceType
      ensures this.foundCapability == foundCapability && this.fileError == fileError
      ensures this.memoryInitError == memoryInitError
      ensures capabilityMask == 0 && !fullySupported && vendorSpecificCapability == 0
      ensures !icmd && !crSpace && !semaphore
      ensures port.Valid() && port.RacesEnd() ==> Ready()
      ensures deviceType != PciconfNoVsec ==> AsListed(this)
    {
      this.port, this.legacy, this.deviceType := port, legacy, deviceType;
      this.foundCapability, this.fileError, this.memoryInitError := foundCapability, fileError, memoryInitError;
      access := Callbacks(Unset, Unset, Unset);
      vendorSpecificCapability, capabilityMask, fullySupported := 0, 0, false;
      icmd, crSpace, semaphore := false, false, false;
    }

    ghost predicate Ready()
      reads this, port
    {
      port.Valid() && port.RacesEnd()
    }

    ghost function Status(): map<nat, nat>
      reads port
    {
      port.state.device.status
    }

    /** `check_address_space_support`: flags are only ever set, and only for supported spaces. The
        spaces that were `found` are those of the step machine's report, as `ReadPciconf` says. */
    method CheckAddressSpaceSupport() returns (error: int, ghost found: seq<bool>)
      requires Ready()
      modifies port, this`icmd, this`crSpace, this`semaphore
      ensures Ready() && Status() == old(Status()) && error == 0
      ensures old(icmd) ==> icmd
      ensures old(crSpace) ==> crSpace
      ensures old(semaphore) ==> semaphore
      ensures icmd && !old(icmd) ==> Supports(Status(), 0x3)
      ensures crSpace && !old(crSpace) ==> Supports(Status(), 0x2)
      ensures semaphore && !old(semaphore) ==> Supports(Status(), 0xa)
      ensures Undisturbed(port, old(port.state)) && vendorSpecificCapability != 0 ==>
                && (icmd <==> old(icmd) || Supports(Status(), 0x3))
                && (crSpace <==> old(crSpace) || Supports(Status(), 0x2))
                && (semaphore <==> old(semaphore) || Supports(Status(), 0xa))
                && Undisturbed(port, port.state)
      ensures |found| in {0, 3}
      ensures icmd <==> old(icmd) || (|found| == 3 && found[0])
      ensures crSpace <==> old(crSpace) || (|found| == 3 && found[1])
      ensures semaphore <==> old(semaphore) || (|found| == 3 && found[2])
      ensures if vendorSpecificCapability == 0 then port.Look() == old(port.Look())
              else CallSeen(old(port.Look()), Done(ProbeSpaces(CHECKED_SPACES), Report(0, [], found)), port.Look())
    {
      hide Registers.SpaceOf, Registers.SelectSpace, Gateway.ControlWord, Gateway.Supports;
      hide VsecPort.BusyReads, VsecPort.TicketMatches, VsecPort.Port.Healthy;
      hide BeginSeen, LockSeen, SelectSeen, ProbingSeen, FinishSeen, ClearSeen, CallSeen, VsecPort.Port.Look;
      found := [];
      if vendorSpecificCapability == 0 {
        return 0, [];
      }
      ghost var v, spaces := port.Look(), CHECKED_SPACES;
      port.Announce(ProbeSpaces(spaces));
      ghost var v1 := port.Look();
      error := LockVsecSemaphore(port);
      ProbesBegin(v, spaces, v1, error, port.Look());
      if error == 0 {
        v1 := port.Look();
        var selected := SetAddressSpace(port, 0x3);
        ProbeFollows(v, spaces, [], v1, selected, port.Look());
        found := found + [selected == 0];
        if selected == 0 {
          icmd := true;
        }
        v1 := port.Look();
        selected := SetAddressSpace(port, 0x2);
        ProbeFollows(v, spaces, found, v1, selected, port.Look());
        found := found + [selected == 0];
        if selected == 0 {
          crSpace := true;
        }
        v1 := port.Look();
        selected := SetAddressSpace(port, 0xa);
        ProbeFollows(v, spaces, found, v1, selected, port.Look());
        found := found + [selected == 0];
        if selected == 0 {
          semaphore := true;
        }
        ProbesEnd(v, spaces, found, port.Look());
      }
      v1 := port.Look();
      var _ := ClearVsecSemaphore(port);
      CallEnds(v, Done(ProbeSpaces(CHECKED_SPACES), Report(0, [], found)), v1, port.Look());
      error := 0;
    }

    method GetSpaceSupportStatus(space: U32) returns (status: nat, ghost error: int)
      requires Ready()
      modifies port, this`capabilityMask
      ensures Ready() && Status() == old(Status())
      ensures status < 2
      ensures status == 1 ==> Supports(Status(), SelectedSpace(space))
      ensures port.Healthy() ==> (status == 1 <==> Supports(Status(), SelectedSpace(space)))
      ensures forall i: nat {:trigger Bit(capabilityMask, i)} ::
                Bit(capabilityMask, i) <==>
                  Bit(old(capabilityMask), i) || (status == 1 && i == AddressSpaceToCapability(space))
      ensures (status == 1 <==> error == 0) && SelectSeen(old(port.Look()), space, error, port.Look())
    {
      hide SelectSeen, VsecPort.Port.Look;
      status := 0;
      var failed := SetAddressSpace(port, space);
      error := failed;
      if failed == 0 {
        status := 1;
      }
      var k := AddressSpaceToCapability(space);
      OrIsWord(capabilityMask, Shl32(status, k));
      forall i: nat
        ensures Bit(Or(capabilityMask, Shl32(status, k)), i) <==>
                Bit(capabilityMask, i) || (status == 1 && i == k)
      {
        OrShiftedFlag(capabilityMask, status, k, i);
      }
      capabilityMask := Or(capabilityMask, Shl32(status, k));
    }

    /** The mask since `m`, and the agent that follows the call, when so many spaces have been probed. */
    ghost predicate Probing(m: U32, status: map<nat, nat>, healthy: bool, v: View, found: seq<bool>)
      reads this, port
    {
      && Ready() && status == Status() && healthy == port.Healthy()
      && Probed(m, capabilityMask, status, healthy, |found|) && Gained(m, capabilityMask, found)
      && ProbingSeen(v, INITIALIZED_SPACES, found, port.Look())
    }

    /** The nine probes of `init_vsec_capability_mask`. */
    method ProbeInitializedSpaces(ghost v: View) returns (ghost found: seq<bool>)
      requires Ready() && ProbingSeen(v, INITIALIZED_SPACES, [], port.Look())
      modifies port, this`capabilityMask
      ensures Ready() && Status() == old(Status())
      ensures Probed(old(capabilityMask), capabilityMask, Status(), port.Healthy(), 9)
      ensures |found| == 9 && Gained(old(capabilityMask), capabilityMask, found)
      ensures ProbingSeen(v, INITIALIZED_SPACES, found, port.Look())
    {
      ghost var m, status := capabilityMask, Status();
      ghost var healthy := port.Healthy();
      ProbingBegins(v);
      SpacesInOrder();
      hide Probing, Probed, Gained, ProbingSeen, SpaceOfCapability, Ready, Status, VsecPort.Port.Look;
      hide VsecPort.Port.Healthy;
      found := ProbeFirstFive(m, status, healthy, v);
      found := ProbeNext(0x6, m, status, healthy, v, found);
      found := ProbeNext(0x7, m, status, healthy, v, found);
      found := ProbeNext(0xa, m, status, healthy, v, found);
      found := ProbeNext(0xf, m, status, healthy, v, found);
      ProbingEnds(m, status, healthy, v, found);
    }

    lemma ProbingBegins(v: View)
      requires Ready() && ProbingSeen(v, INITIALIZED_SPACES, [], port.Look())
      ensures Probing(capabilityMask, Status(), port.Healthy(), v, [])
    {
      NothingProbed(capabilityMask, Status(), port.Healthy());
      NothingGained(capabilityMask);
      hide Probed, Gained, ProbingSeen, VsecPort.Port.Look;
    }

    lemma ProbingEnds(m: U32, status: map<nat, nat>, healthy: bool, v: View, found: seq<bool>)
      requires Probing(m, status, healthy, v, found)
      ensures Ready() && status == Status() && healthy == port.Healthy()
      ensures Probed(m, capabilityMask, status, healthy, |found|) && Gained(m, capabilityMask, found)
      ensures ProbingSeen(v, INITIALIZED_SPACES, found, port.Look())
    {
      hide Probed, Gained, ProbingSeen, VsecPort.Port.Look;
    }

    method ProbeFirstFive(ghost m: U32, ghost status: map<nat, nat>, ghost healthy: bool, ghost v: View)
      returns (ghost found: seq<bool>)
      requires Probing(m, status, healthy, v, [])
      modifies port, this`capabilityMask
      ensures Probing(m, status, healthy, v, found) && |found| == 5
    {
      SpacesInOrder();
      hide Probing, SpaceOfCapability;
      found := [];
      found := ProbeNext(0x1, m, status, healthy, v, found);
      found := ProbeNext(0x2, m, status, healthy, v, found);
      found := ProbeNext(0x3, m, status, healthy, v, found);
      found := ProbeNext(0x4, m, status, healthy, v, found);
      found := ProbeNext(0x5, m, status, healthy, v, found);
    }

    /** One probe. */
    method ProbeNext(space: U32, ghost m: U32, ghost status: map<nat, nat>, ghost healthy: bool, ghost v: View,
                     ghost found: seq<bool>)
      returns (ghost found': seq<bool>)
      requires Probing(m, status, healthy, v, found) && |found| < 9 && SpaceOfCapability(|found| + 1) == space
      modifies port, this`capabilityMask
      ensures Probing(m, status, healthy, v, found') && |found'| == |found| + 1
    {
      CapabilityNumbering(|found| + 1);
      assert INITIALIZED_SPACES[|found|] == space;
      hide Bits.Bit, Gateway.Supports, SpaceOfCapability, AddressSpaceToCapability, GatewayAtomicity.SelectedSpace;
      hide SelectSeen, ProbingSeen, VsecPort.Port.Look;
      ghost var v1 := port.Look();
      var _, error := GetSpaceSupportStatus(space);
      ProbeFollows(v, INITIALIZED_SPACES, found, v1, error, port.Look());
      found' := found + [error == 0];
    }

    /** `init_vsec_capability_mask`: probes the nine spaces under one lock. */
    method InitVsecCapabilityMask() returns (error: int, ghost found: seq<bool>)
      requires Ready()
      modifies port, this`capabilityMask
      ensures Ready() && Status() == old(Status()) && error == 0
      ensures Grows(old(capabilityMask), capabilityMask)
      ensures Honest(old(capabilityMask), Status()) ==> Honest(capabilityMask, Status())
      ensures |found| in {0, 9}
      ensures |found| == 0 ==> capabilityMask == old(capabilityMask)
      ensures |found| == 9 ==> forall k: nat ::
                Bit(capabilityMask, k) <==>
                  Bit(old(capabilityMask), k) || k == 0 || (1 <= k <= 9 && found[k - 1])
      ensures |found| == 9 && port.Healthy() ==> Exhaustive(old(capabilityMask), capabilityMask, Status())
      ensures Undisturbed(port, old(port.state)) ==> |found| == 9 && Undisturbed(port, port.state)
      ensures CallSeen(old(port.Look()), Done(ProbeSpaces(INITIALIZED_SPACES), Report(0, [], found)), port.Look())
    {
      hide Bits.Bit, Bits.Or, Bits.Shl32, VsecPort.BusyReads, VsecPort.TicketMatches;
      hide BeginSeen, LockSeen, ProbingSeen, FinishSeen, ClearSeen, CallSeen, VsecPort.Port.Look;
      ghost var v := port.Look();
      port.Announce(ProbeSpaces(INITIALIZED_SPACES));
      ghost var v1 := port.Look();
      error := LockVsecSemaphore(port);
      ProbesBegin(v, INITIALIZED_SPACES, v1, error, port.Look());
      found := [];
      if error == 0 {
        found := ProbeInitializedSpaces(v);
        ProbesEnd(v, INITIALIZED_SPACES, found, port.Look());
        OrIsWord(capabilityMask, Shl32(1, VSEC_INITIALIZED));
        forall k: nat
          ensures Bit(Or(capabilityMask, Shl32(1, VSEC_INITIALIZED)), k) <==>
                  Bit(capabilityMask, k) || k == VSEC_INITIALIZED
        {
          OrShiftedFlag(capabilityMask, 1, VSEC_INITIALIZED, k);
        }
        capabilityMask := Or(capabilityMask, Shl32(1, VSEC_INITIALIZED));
      }
      v1 := port.Look();
      var _ := ClearVsecSemaphore(port);
      CallEnds(v, Done(ProbeSpaces(INITIALIZED_SPACES), Report(0, [], found)), v1, port.Look());
      error := 0;
    }

    /** `check_vsec_minimum_support`. */
    method CheckVsecMinimumSupport()
      modifies this`fullySupported
      ensures fullySupported <==> old(fullySupported) || MinimumSupport(capabilityMask)
    {
      AndTestsBit(capabilityMask, VSEC_INITIALIZED);
      AndTestsBit(capabilityMask, ICMD_SUPPORTED);
      AndTestsBit(capabilityMask, CRSPACE_SUPPORTED);
      AndTestsBit(capabilityMask, GLOBAL_SEMAPHORE_SUPPORTED);
      hide Bits.Bit, Bits.And, Bits.Shl32;
      if && And(capabilityMask, Shl32(1, VSEC_INITIALIZED)) != 0
         && And(capabilityMask, Shl32(1, ICMD_SUPPORTED)) != 0
         && And(capabilityMask, Shl32(1, CRSPACE_SUPPORTED)) != 0
         && And(capabilityMask, Shl32(1, GLOBAL_SEMAPHORE_SUPPORTED)) != 0
      {
        fullySupported := true;
      }
    }

    /** `init_pciconf`. */
    method InitPciconf() returns (error: int)
      requires Ready()
      modifies port, this`capabilityMask, this`fullySupported
      ensures Ready() && Status() == old(Status()) && error == 0
      ensures Grows(old(capabilityMask), capabilityMask)
      ensures Honest(old(capabilityMask), Status()) ==> Honest(capabilityMask, Status())
      ensures fullySupported <==> old(fullySupported) || MinimumSupport(capabilityMask)
      ensures Undisturbed(port, old(port.state)) ==>
                Exhaustive(old(capabilityMask), capabilityMask, Status()) && Undisturbed(port, port.state)
    {
      ghost var found: seq<bool>;
      error, found := InitVsecCapabilityMask();
      CheckVsecMinimumSupport();
    }

    /** What a probe of the gateway without the capability finds, made by its accesses `n` and `n + 1`. */
    ghost predicate FoundFrom(n: nat)
      reads legacy
    {
      legacy.woAddress != 0 <==> legacy.port.writeOnly || legacy.port.fails(n) != 0 || legacy.port.fails(n + 1) != 0
    }

    /** The driver's view of that gateway: as a probe has found it since access `m`, or, if there was
        none, as before. */
    ghost predicate GatewayKnown(probed: bool, m: nat, woAddress: int)
      reads legacy
    {
      if probed then exists n: nat :: n >= m && FoundFrom(n) else legacy.woAddress == woAddress
    }

    /** A call through `access.init`. */
    method CallInit() returns (error: int)
      requires Ready() && access.init != Unset
      modifies port, legacy, legacy.port, this`capabilityMask, this`fullySupported
      ensures Ready() && Status() == old(Status())
      ensures Grows(old(capabilityMask), capabilityMask)
      ensures Honest(old(capabilityMask), Status()) ==> Honest(capabilityMask, Status())
      ensures error == if access.init == Memory then memoryInitError else 0
      ensures legacy.port.accesses >= old(legacy.port.accesses)
      ensures access.init == NoVsec ==> FoundFrom(old(legacy.port.accesses))
      ensures access.init != NoVsec ==> legacy.woAddress == old(legacy.woAddress)
      ensures access.init == Vsec ==> (fullySupported <==> old(fullySupported) || MinimumSupport(capabilityMask))
      ensures access.init != Vsec ==> capabilityMask == old(capabilityMask) && fullySupported == old(fullySupported)
      ensures Undisturbed(port, old(port.state)) ==> Undisturbed(port, port.state)
      ensures access.init == Vsec && Undisturbed(port, old(port.state)) ==>
                Exhaustive(old(capabilityMask), capabilityMask, Status())
    {
      match access.init
      case Vsec => error := InitPciconf();
      case NoVsec => error := legacy.InitPciconfNoVsec();
      case Memory => error := memoryInitError;
    }

    /** `check_if_vsec_supported`. */
    method CheckIfVsecSupported() returns (error: int)
      requires Ready() && access == Callbacks(Vsec, Vsec, Vsec)
      modifies port, legacy, legacy.port, this`capabilityMask, this`fullySupported, this`access, this`deviceType
      ensures Ready() && Status() == old(Status()) && error == 0
      ensures Grows(old(capabilityMask), capabilityMask)
      ensures Honest(old(capabilityMask), Status()) ==> Honest(capabilityMask, Status())
      ensures fullySupported <==> old(fullySupported) || MinimumSupport(capabilityMask)
      ensures access == if fullySupported then Callbacks(Vsec, Vsec, Vsec) else Callbacks(NoVsec, NoVsec, NoVsec)
      ensures deviceType == if fullySupported then old(deviceType) else PciconfNoVsec
      ensures legacy.woAddress == old(legacy.woAddress) && legacy.port.accesses >= old(legacy.port.accesses)
      ensures Undisturbed(port, old(port.state)) ==>
                Exhaustive(old(capabilityMask), capabilityMask, Status()) && Undisturbed(port, port.state)
    {
      error := CallInit();
      if error != 0 {
        return;
      }
      if !fullySupported {
        deviceType := PciconfNoVsec;
        access := Callbacks(NoVsec, NoVsec, NoVsec);
      }
    }

    /** What `create_devices` leaves in a device it has been through. */
    ghost predicate Dispatched(created: DeviceType, status: map<nat, nat>)
      reads this
    {
      && Uniform(access) && access.read != Unset
      && vendorSpecificCapability == foundCapability
      && (access.read == Vsec <==> created == Pciconf && foundCapability != 0 && MinimumSupport(capabilityMask))
      && (access.read == Memory <==> created == PciMemory && foundCapability != 0)
      && Honest(capabilityMask, status)
    }

    /** What the initialisation of a device of this type returns: only that of memory can fail. */
    function InitError(created: DeviceType): int {
      if created == PciMemory && foundCapability != 0 then memoryInitError else 0
    }

    /** On an undisturbed device the choice depends on the device alone. */
    ghost predicate DispatchedByStatus(created: DeviceType, status: map<nat, nat>)
      reads this
    {
      access.read == Vsec <==> created == Pciconf && foundCapability != 0 && FullSupport(status)
    }

    /** All of this, for a device that was undisturbed if `calm`, and whose gateway was last accessed by
        access `m`. */
    ghost predicate Passed(isAllocChrdevRegion: bool, created: DeviceType, status: map<nat, nat>, calm: bool,
                           m: nat, woAddress: int)
      reads this, legacy
    {
      && Dispatched(created, status) && (calm ==> DispatchedByStatus(created, status))
      && GatewayKnown(isAllocChrdevRegion && access.init == NoVsec, m, woAddress)
    }

    lemma PassedSince(isAllocChrdevRegion: bool, created: DeviceType, status: map<nat, nat>, calm: bool, calm': bool,
                      m: nat, m': nat, woAddress: int)
      requires Passed(isAllocChrdevRegion, created, status, calm', m', woAddress) && (calm ==> calm') && m <= m'
      ensures Passed(isAllocChrdevRegion, created, status, calm, m, woAddress)
    {
    }

    /** One turn of the loop of `create_devices`. `stop` says that the loop is left with an error. */
    method CreateDevice(isAllocChrdevRegion: bool) returns (error: int, stop: bool)
      requires Ready() && capabilityMask == 0 && !fullySupported && deviceType != PciconfNoVsec
      modifies this, port, legacy, legacy.port
      ensures Ready() && Status() == old(Status())
      ensures stop <==> fileError != 0
      ensures error == if stop then fileError
                       else if isAllocChrdevRegion then InitError(old(deviceType)) else 0
      ensures stop ==> unchanged(this) && legacy.woAddress == old(legacy.woAddress)
      ensures legacy.port.accesses >= old(legacy.port.accesses)
      ensures Undisturbed(port, old(port.state)) ==> Undisturbed(port, port.state)
      ensures !stop ==>
                Passed(isAllocChrdevRegion, old(deviceType), Status(), Undisturbed(port, old(port.state)),
                       old(legacy.port.accesses), old(legacy.woAddress))
    {
      NothingSet();
      error := fileError;
      if error != 0 {
        return error, true;
      }
      vendorSpecificCapability := foundCapability;
      ghost var created := deviceType;
      if vendorSpecificCapability == 0 {
        deviceType := PciconfNoVsec;
      }
      match deviceType {
        case Pciconf =>
          access := Callbacks(Vsec, Vsec, Vsec);
          error := CheckIfVsecSupported();
          if error != 0 {
            return error, true;
          }
          if Undisturbed(port, old(port.state)) {
            CompleteSupport(capabilityMask, Status());
          }
        case PciconfNoVsec =>
          access := Callbacks(NoVsec, NoVsec, NoVsec);
        case PciMemory =>
          access := Callbacks(Memory, Memory, Memory);
      }
      if isAllocChrdevRegion {
        error := CallInit();
      }
      stop := false;
    }
  }

  lemma NothingSet()
    ensures Honest(0, map[]) && !MinimumSupport(0)
    ensures forall status :: Honest(0, status)
  {
    forall k: nat ensures !Bit(0, k) {
      BitZero(k);
    }
  }

  /** Devices as `create_nnt_devices` puts them into the list. */
  ghost predicate AsListed(d: NntDevice)
    reads d
  {
    d.capabilityMask == 0 && !d.fullySupported && d.deviceType != PciconfNoVsec
  }

  /** Each device has its own structure. Two of them may stand for one PCI device. */
  ghost predicate Distinct(devices: seq<NntDevice>) {
    forall i, j :: 0 <= i < j < |devices| ==> devices[i] != devices[j] && devices[i].legacy != devices[j].legacy
  }

  /** What `create_devices` found in a device. */
  datatype Before = Before(deviceType: DeviceType, state: PortState, accesses: nat, woAddress: int)

  ghost function Look(d: NntDevice): Before
    reads d, d.port, d.legacy, d.legacy.port
  {
    Before(d.deviceType, d.port.state, d.legacy.port.accesses, d.legacy.woAddress)
  }

  ghost function Looks(devices: seq<NntDevice>): (r: seq<Before>)
    reads set d | d in devices, set d | d in devices :: d.port
    reads set d | d in devices :: d.legacy, set d | d in devices :: d.legacy.port
    ensures |r| == |devices| && forall j :: 0 <= j < |devices| ==> r[j] == Look(devices[j])
  {
    if devices == [] then [] else Looks(devices[..|devices| - 1]) + [Look(devices[|devices| - 1])]
  }

  /** What holds of every device of the list at any time. */
  ghost predicate Standing(d: NntDevice, b: Before)
    reads d, d.port, d.legacy, d.legacy.port
  {
    && d.Ready() && d.Status() == b.state.device.status && d.legacy.port.accesses >= b.accesses
    && (Undisturbed(d.port, b.state) ==> Undisturbed(d.port, d.port.state))
  }

  /** It is still to come. */
  ghost predicate Pending(d: NntDevice, b: Before)
    reads d, d.legacy
  {
    AsListed(d) && d.deviceType == b.deviceType && d.legacy.woAddress == b.woAddress
  }

  /** It has been created. */
  ghost predicate Created(d: NntDevice, b: Before, isAllocChrdevRegion: bool)
    reads d, d.legacy
  {
    d.Passed(isAllocChrdevRegion, b.deviceType, b.state.device.status, Undisturbed(d.port, b.state),
             b.accesses, b.woAddress)
  }

  /** One turn, told from what was found in the device before the loop. */
  method CreateNext(d: NntDevice, isAllocChrdevRegion: bool, ghost b: Before) returns (error: int, stop: bool)
    requires Standing(d, b) && Pending(d, b)
    modifies d, d.port, d.legacy, d.legacy.port
    ensures d.Ready() && d.Status() == old(d.Status()) && d.legacy.port.accesses >= old(d.legacy.port.accesses)
    ensures Undisturbed(d.port, old(d.port.state)) ==> Undisturbed(d.port, d.port.state)
    ensures stop <==> d.fileError != 0
    ensures error == if stop then d.fileError else if isAllocChrdevRegion then d.InitError(b.deviceType) else 0
    ensures if stop then Pending(d, b) else Created(d, b, isAllocChrdevRegion)
  {
    hide Undisturbed, NntDevice.Passed, NntDevice.InitError;
    ghost var m, calm := d.legacy.port.accesses, Undisturbed(d.port, d.port.state);
    error, stop := d.CreateDevice(isAllocChrdevRegion);
    if !stop {
      d.PassedSince(isAllocChrdevRegion, b.deviceType, d.Status(), Undisturbed(d.port, b.state), calm,
                    b.accesses, m, b.woAddress);
    }
  }

  ghost predicate AllStanding(devices: seq<NntDevice>, before: seq<Before>)
    reads set d | d in devices, set d | d in devices :: d.port
    reads set d | d in devices :: d.legacy, set d | d in devices :: d.legacy.port
  {
    |before| == |devices| && forall j :: 0 <= j < |devices| ==> Standing(devices[j], before[j])
  }

  /** The first `i` devices have been created, and the others are still to come. */
  ghost predicate CreatedUpTo(devices: seq<NntDevice>, before: seq<Before>, i: nat, isAllocChrdevRegion: bool)
    requires |before| == |devices|
    reads set d | d in devices, set d | d in devices :: d.legacy
  {
    && (forall j :: 0 <= j < i && j < |devices| ==> Created(devices[j], before[j], isAllocChrdevRegion))
    && (forall j :: i <= j < |devices| ==> Pending(devices[j], before[j]))
  }

  method CreateAt(devices: seq<NntDevice>, i: nat, isAllocChrdevRegion: bool, ghost before: seq<Before>)
    returns (error: int, stop: bool)
    requires Distinct(devices) && i < |devices|
    requires AllStanding(devices, before) && CreatedUpTo(devices, before, i, isAllocChrdevRegion)
    modifies devices[i], devices[i].port, devices[i].legacy, devices[i].legacy.port
    ensures stop <==> devices[i].fileError != 0
    ensures error == if stop then devices[i].fileError
                     else if isAllocChrdevRegion then devices[i].InitError(before[i].deviceType) else 0
    ensures AllStanding(devices, before)
    ensures CreatedUpTo(devices, before, if stop then i else i + 1, isAllocChrdevRegion)
  {
    hide NntDevice.InitError, Undisturbed, Created, Pending, VsecPort.Port.Valid, VsecPort.Port.RacesEnd;
    error, stop := CreateNext(devices[i], isAllocChrdevRegion, before[i]);
  }

  lemma NoneCreated(devices: seq<NntDevice>, isAllocChrdevRegion: bool)
    requires forall d :: d in devices ==> AsListed(d) && d.Ready()
    ensures AllStanding(devices, Looks(devices)) && CreatedUpTo(devices, Looks(devices), 0, isAllocChrdevRegion)
  {
  }

  /** `create_devices`. It stops at the first device whose file cannot be created. Every device before
      that has one consistent triple of callbacks, the VSEC one exactly when it was created as a
      configuration device, has the capability, and its mask has bits 0, 1, 2 and 8; and if the
      character device is allocated here, a gateway without the capability has been probed. What the
      initialisation of a device returns is lost unless the device is the last one. */
  method CreateDevices(devices: seq<NntDevice>, isAllocChrdevRegion: bool)
    returns (error: int, ghost done: nat, ghost before: seq<Before>)
    requires Distinct(devices)
    requires forall d :: d in devices ==> AsListed(d) && d.Ready()
    modifies set d | d in devices, set d | d in devices :: d.port
    modifies set d | d in devices :: d.legacy, set d | d in devices :: d.legacy.port
    ensures before == old(Looks(devices))
    ensures done <= |devices| && forall j :: 0 <= j < done ==> devices[j].fileError == 0
    ensures done < |devices| ==> error == devices[done].fileError != 0
    ensures done == |devices| > 0 ==>
              error == if isAllocChrdevRegion then devices[done - 1].InitError(before[done - 1].deviceType) else 0
    ensures devices == [] ==> error == 0
    ensures AllStanding(devices, before) && CreatedUpTo(devices, before, done, isAllocChrdevRegion)
  {
    error, done := 0, 0;
    before := Looks(devices);
    NoneCreated(devices, isAllocChrdevRegion);
    hide NntDevice.InitError, AllStanding, CreatedUpTo, Fresh, NntDevice.Ready, Distinct;
    for i := 0 to |devices|
      invariant done == i && forall j :: 0 <= j < i ==> devices[j].fileError == 0
      invariant i == 0 ==> error == 0
      invariant i > 0 ==>
                  error == if isAllocChrdevRegion then devices[i - 1].InitError(before[i - 1].deviceType) else 0
      invariant AllStanding(devices, before) && CreatedUpTo(devices, before, i, isAllocChrdevRegion)
    {
      var stop: bool;
      error, stop := CreateAt(devices, i, isAllocChrdevRegion, before);
      if stop {
        return;
      }
      done := done + 1;
    }
  }

  /** So a device without the capability is driven in the order of its gateway, unless an access of the
      probe was refused. */
  lemma ProbedMatches(d: NntDevice, m: nat, woAddress: int)
    requires d.GatewayKnown(true, m, woAddress) && d.legacy.port.Healthy()
    ensures d.legacy.Matched()
  {
  }
}
