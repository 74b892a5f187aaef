/** Pinning and mapping user pages for DMA, and releasing them (nnt_dma.c). */
module Dma {
  import opened Errno

  const PAGE_SIZE := 4096

  /** A `struct page*`; 0 is NULL. The pages of a user's buffer are not. */
  type Page = nat
  type UserPage = p: nat | p > 0 witness 1
  type Address = nat

  datatype Mapping = Mapping(page: Page, address: Address)

  /** The kernel's answers: the page behind a user address, how many pages the k-th
      `get_user_pages_fast` pins, the address and the failure of the k-th mapping, which
      allocations fail, and whether the user may lock memory. */
  datatype World = World(
    userPage: nat -> UserPage,
    pins: nat -> int,
    dmaAddress: nat -> Address,
    mappingFails: nat -> bool,
    allocationFails: nat -> bool,
    canLock: bool)

  /** Nothing that can fail fails, and every call pins a page at least. */
  ghost predicate Willing(world: World) {
    world.canLock && forall k :: !world.allocationFails(k) && !world.mappingFails(k) && world.pins(k) >= 1
  }

  /** No call would pin more pages than call `first`. */
  ghost predicate NoneLarger(world: World, first: nat) {
    forall k :: world.pins(k) <= world.pins(first)
  }

  /** The page of slot `i` of a buffer at `start`. */
  function PageAt(world: World, start: nat, i: nat): UserPage {
    world.userPage(start + i * PAGE_SIZE)
  }

  function PagesOf(world: World, start: nat, n: nat): seq<Page> {
    seq(n, i requires 0 <= i < n => PageAt(world, start, i))
  }

  /** The addresses of `n` mappings from the `first`-th on. */
  function AddressesFrom(world: World, first: nat, n: nat): seq<Address> {
    seq<Address>(n, i requires 0 <= i < n => world.dmaAddress(first + i))
  }

  class Kernel {
    const world: World
    var pinned: multiset<Page>
    var mapped: multiset<Address>
    /** Every mapping ever made, in order. */
    var mappings: seq<Mapping>
    var pinCalls: nat
    var allocations: nat

    constructor (world: World)
      ensures this.world == world && pinned == multiset{} && mapped == multiset{} && mappings == []
    {
      this.world, pinned, mapped, mappings, pinCalls, allocations := world, multiset{}, multiset{}, [], 0, 0;
    }

    /** `kcalloc`. */
    method Allocate(n: nat) returns (a: array?<nat>)
      modifies this`allocations
      ensures allocations == old(allocations) + 1 && (a == null <==> world.allocationFails(allocations))
      ensures a != null ==> fresh(a) && a.Length == n && forall i :: 0 <= i < n ==> a[i] == 0
    {
      allocations := allocations + 1;
      if world.allocationFails(allocations) {
        return null;
      }
      a := new nat[n](_ => 0);
    }

    /** `get_user_pages_fast`: pins some of the requested pages and stores them, or fails. */
    method GetUserPagesFast(start: nat, n: nat, list: array<Page>, offset: nat) returns (count: int)
      requires n > 0 && offset + n <= list.Length
      modifies this`pinned, this`pinCalls, list
      ensures count <= n && count == (if world.pins(old(pinCalls)) > n then n else world.pins(old(pinCalls)))
      ensures pinCalls == old(pinCalls) + 1
      ensures forall j :: 0 <= j < list.Length ==>
                list[j] == if offset <= j < offset + count then PageAt(world, start, j - offset) else old(list[j])
      ensures pinned == old(pinned) + (if count > 0 then PinsOf(world, start, count) else multiset{})
    {
      count := world.pins(pinCalls);
      if count > n {
        count := n;
      }
      pinCalls := pinCalls + 1;
      if count > 0 {
        for j := 0 to count
          invariant pinned == old(pinned) && pinCalls == old(pinCalls) + 1
          invariant forall k :: 0 <= k < list.Length ==>
                      list[k] == if offset <= k < offset + j then PageAt(world, start, k - offset) else old(list[k])
        {
          list[offset + j] := PageAt(world, start, j);
        }
        pinned := pinned + PinsOf(world, start, count);
      }
    }

    method MapPage(page: Page) returns (address: Address, failed: bool)
      modifies this`mapped, this`mappings
      ensures failed == world.mappingFails(|old(mappings)|)
      ensures failed ==> mapped == old(mapped) && mappings == old(mappings)
      ensures !failed ==> address == world.dmaAddress(|old(mappings)|)
                          && mapped == More(old(mapped), address)
                          && mappings == old(mappings) + [Mapping(page, address)]
    {
      address, failed := 0, world.mappingFails(|mappings|);
      if !failed {
        address := world.dmaAddress(|mappings|);
        mapped := More(mapped, address);
        mappings := mappings + [Mapping(page, address)];
      }
    }

    method UnmapPage(address: Address)
      modifies this`mapped
      ensures mapped == Less(old(mapped), address)
    {
      mapped := mapped - multiset{address};
    }

    method PutPage(page: Page)
      modifies this`pinned
      ensures pinned == Less(old(pinned), page)
    {
      pinned := pinned - multiset{page};
    }
  }

  /** The pins of the first `n` pages of a buffer. */
  function PinsOf(world: World, start: nat, n: nat): multiset<Page> {
    multiset(PagesOf(world, start, n))
  }

  function More(m: multiset<nat>, x: nat): multiset<nat> {
    m + multiset{x}
  }

  /** The multiset with one more occurrence of each element of the sequence. */
  function With(m: multiset<nat>, s: seq<nat>): multiset<nat> {
    m + multiset(s)
  }

  lemma WithNothing(m: multiset<nat>, s: seq<nat>)
    ensures With(m, s[..0]) == m
  {
  }

  lemma WithNext(m: multiset<nat>, s: seq<nat>, x: nat)
    ensures More(With(m, s), x) == With(m, s + [x])
  {
  }

  lemma WithThenWithout(m: multiset<nat>, s: seq<nat>)
    ensures Without(With(m, s), s) == m
  {
  }

  function Less(m: multiset<nat>, x: nat): multiset<nat> {
    m - multiset{x}
  }

  /** The multiset without one occurrence of each element of the sequence. */
  function Without(m: multiset<nat>, s: seq<nat>): multiset<nat> {
    m - multiset(s)
  }

  lemma WithoutNothing(m: multiset<nat>, s: seq<nat>)
    ensures Without(m, s[..0]) == m
  {
  }

  lemma WithoutNext(m: multiset<nat>, s: seq<nat>, i: nat)
    requires i < |s|
    ensures Less(Without(m, s[..i]), s[i]) == Without(m, s[..i + 1])
  {
    assert s[..i + 1] == s[..i] + [s[i]];
  }

  lemma PinsSplit(world: World, start: nat, a: nat, b: nat, others: multiset<Page>)
    ensures PinsOf(world, start, 0) == multiset{}
    ensures others + PinsOf(world, start, a) + PinsOf(world, start + a * PAGE_SIZE, b)
         == others + PinsOf(world, start, a + b)
  {
    assert PagesOf(world, start, a + b) == PagesOf(world, start, a) + PagesOf(world, start + a * PAGE_SIZE, b);
  }

  /** The addresses that are not 0. */
  function NonZero(s: seq<Address>): multiset<Address> {
    multiset(s)[0 := 0]
  }

  /** Beside `rest`, the mappings contain one for every address in the list. */
  ghost predicate Covers(mapped: multiset<Address>, rest: multiset<Address>, addresses: seq<Address>) {
    rest + NonZero(addresses) <= mapped
  }

  lemma {:induction false} ZerosCovered(mapped: multiset<Address>, addresses: seq<Address>)
    requires forall i :: 0 <= i < |addresses| ==> addresses[i] == 0
    ensures Covers(mapped, mapped, addresses)
  {
    assert forall a :: a in addresses ==> a == 0;
    assert NonZero(addresses) == multiset{};
  }

  lemma CoversOneMore(mapped: multiset<Address>, rest: multiset<Address>, addresses: seq<Address>, i: nat, a: Address)
    requires Covers(mapped, rest, addresses) && i < |addresses| && addresses[i] == 0
    ensures Covers(More(mapped, a), rest, addresses[i := a])
  {
    assert multiset(addresses[i := a]) == multiset(addresses) - multiset{0} + multiset{a};
    assert NonZero(addresses[i := a]) <= NonZero(addresses) + multiset{a};
  }

  lemma CoversMore(mapped: multiset<Address>, mapped': multiset<Address>, rest: multiset<Address>,
                   addresses: seq<Address>)
    requires rest <= mapped && Covers(mapped', mapped, addresses)
    ensures rest <= mapped' && Covers(mapped', rest, addresses)
  {
  }

  /** Unmapping the addresses of the list leaves the rest, if no mapping has address 0. */
  lemma RestRemains(mapped: multiset<Address>, rest: multiset<Address>, addresses: seq<Address>)
    requires Covers(mapped, rest, addresses) && 0 !in rest
    ensures rest <= Without(mapped, addresses)
  {
    forall a ensures rest[a] <= Without(mapped, addresses)[a] {
      if a != 0 {
        assert NonZero(addresses)[a] == multiset(addresses)[a];
      }
    }
  }

  /** Mapping `first + i` is the one of page `i`, and its address is in slot `i` of both lists. */
  ghost predicate MappedValues(world: World, start: nat, first: nat, mappings: seq<Mapping>,
                               addresses: seq<Address>, reported: seq<Address>, n: nat) {
    && n <= |addresses| && n <= |reported| && |mappings| == first + n
    && forall i :: 0 <= i < n ==>
         && mappings[first + i] == Mapping(PageAt(world, start, i), addresses[i])
         && reported[i] == addresses[i] == world.dmaAddress(first + i)
  }

  lemma MappedOneMore(world: World, start: nat, first: nat, mappings: seq<Mapping>,
                      addresses: seq<Address>, reported: seq<Address>, n: nat, mapped: multiset<Address>)
    requires MappedValues(world, start, first, mappings, addresses, reported, n)
    requires n < |addresses| && n < |reported|
    ensures var a := world.dmaAddress(first + n);
            && MappedValues(world, start, first, mappings + [Mapping(PageAt(world, start, n), a)],
                            addresses[n := a], reported[n := a], n + 1)
            && More(With(mapped, addresses[..n]), a) == With(mapped, addresses[n := a][..n + 1])
  {
    var a := world.dmaAddress(first + n);
    WithNext(mapped, addresses[..n], a);
    assert addresses[n := a][..n + 1] == addresses[..n] + [a];
  }

  ghost predicate Extends(m: seq<Mapping>, m': seq<Mapping>) {
    m <= m'
  }

  lemma ExtendsThen(m: seq<Mapping>, m': seq<Mapping>, m'': seq<Mapping>)
    requires Extends(m, m') && Extends(m', m'')
    ensures Extends(m, m'')
  {
  }

  /** The `dma_page` member of a device. */
  class DmaPages {
    const kernel: Kernel
    var pageList: array?<Page>
    var dmaAddressList: array?<Address>

    constructor (kernel: Kernel)
      ensures this.kernel == kernel && pageList == null && dmaAddressList == null
    {
      this.kernel, pageList, dmaAddressList := kernel, null, null;
    }

    /** Slot `i` holds the page of slot `i` of the user's buffer. */
    ghost predicate Holds(start: nat, n: nat)
      reads this`pageList, pageList
    {
      pageList != null && n <= pageList.Length
      && forall i :: 0 <= i < n ==> pageList[i] == PageAt(kernel.world, start, i)
    }

    /** The first `n` pages of the buffer are pinned once more than `before`. */
    ghost predicate Pinned(before: multiset<Page>, start: nat, n: nat)
      reads kernel`pinned
    {
      kernel.pinned == With(before, PagesOf(kernel.world, start, n))
    }

    /** The first `n` slots hold the mappings made since the `first`-th, page by page, and they
        are what the user is told. */
    ghost predicate Mapped(start: nat, first: nat, n: nat, reported: array<Address>)
      reads this`dmaAddressList, dmaAddressList, kernel`mappings, reported
    {
      dmaAddressList != null
      && MappedValues(kernel.world, start, first, kernel.mappings, dmaAddressList[..], reported[..], n)
    }

    /** `dma_mapping_page`. `current` indexes both lists, but the page list is entered at
        `totalPinned`; an index past its end, or at a slot that has no page yet, is reported as
        `fault`. */
    method DmaMappingPage(totalPinned: nat, counter: nat, reported: array<Address>) returns (error: int, fault: bool)
      requires pageList != null && dmaAddressList != null && pageList.Length == dmaAddressList.Length <= reported.Length
      requires pageList != dmaAddressList && dmaAddressList != reported && pageList != reported
      modifies kernel`mapped, kernel`mappings, dmaAddressList, reported
      ensures fault <==> totalPinned + (totalPinned + counter) >= pageList.Length
                         || pageList[totalPinned + (totalPinned + counter)] == 0
      ensures fault || error != 0 ==>
                && kernel.mapped == old(kernel.mapped) && kernel.mappings == old(kernel.mappings)
                && reported[..] == old(reported[..])
      ensures fault ==> dmaAddressList[..] == old(dmaAddressList[..])
      ensures !fault && error == 0 ==>
                var current := totalPinned + counter;
                var address := kernel.world.dmaAddress(|old(kernel.mappings)|);
                && dmaAddressList[..] == old(dmaAddressList[..])[current := address]
                && reported[..] == old(reported[..])[current := address]
                && kernel.mapped == More(old(kernel.mapped), address)
                && kernel.mappings == old(kernel.mappings) + [Mapping(pageList[totalPinned + current], address)]
      ensures error == 0 || error == -EINVAL
      ensures error != 0 <==> !fault && kernel.world.mappingFails(|old(kernel.mappings)|)
    {
      var current := totalPinned + counter;
      error, fault := 0, totalPinned + current >= pageList.Length || pageList[totalPinned + current] == 0;
      if fault {
        return;
      }
      var address, failed := kernel.MapPage(pageList[totalPinned + current]);
      dmaAddressList[current] := address;
      if failed {
        return -EINVAL, false;
      }
      reported[current] := address;
    }

    /** `pin_user_pages_in_kernel_space`: pins some of the remaining pages, and allocates the list
        of addresses anew each time. */
    method PinUserPages(totalPages: nat, totalPinned: nat, start: nat, ghost pinned: multiset<Page>)
      returns (error: int, pinnedPages: int)
      requires pageList != null && pageList.Length == totalPages && totalPinned < totalPages
      requires Holds(start, totalPinned) && Pinned(pinned, start, totalPinned)
      modifies this`dmaAddressList, kernel`pinned, kernel`pinCalls, kernel`allocations, pageList
      ensures pinnedPages <= totalPages - totalPinned
      ensures var requested := totalPages - totalPinned;
              var answer := kernel.world.pins(old(kernel.pinCalls));
              pinnedPages == if answer > requested then requested else answer
      ensures kernel.pinCalls == old(kernel.pinCalls) + 1
      ensures error == if kernel.world.allocationFails(old(kernel.allocations) + 1) then -ENOMEM
                       else if pinnedPages < 1 then -EFAULT else 0
      ensures Willing(kernel.world) ==> error == 0
      ensures error == 0 ==>
                && pinnedPages >= 1
                && dmaAddressList != null && fresh(dmaAddressList) && dmaAddressList.Length == totalPages
                && (forall i :: 0 <= i < totalPages ==> dmaAddressList[i] == 0)
                && Holds(start, totalPinned + pinnedPages) && Pinned(pinned, start, totalPinned + pinnedPages)
    {
      error := 0;
      pinnedPages := kernel.GetUserPagesFast(start + totalPinned * PAGE_SIZE, totalPages - totalPinned,
                                             pageList, totalPinned);
      if pinnedPages < 1 {
        error := -EFAULT;
      } else {
        PinsSplit(kernel.world, start, totalPinned, pinnedPages, pinned);
      }
      dmaAddressList := kernel.Allocate(totalPages);
      if dmaAddressList == null {
        error := -ENOMEM;
      }
    }

    /** The list of addresses is new. */
    ghost predicate NoneMapped()
      reads this`dmaAddressList, dmaAddressList
    {
      dmaAddressList != null && forall i :: 0 <= i < dmaAddressList.Length ==> dmaAddressList[i] == 0
    }

    /** The inner loop of `pin_user_memory_in_kernel_space`: maps until the counter, which only
        ever grows, reaches the pages pinned in this round. */
    method MapRound(totalPinned: nat, counter0: nat, pinnedPages: nat, ghost start: nat, reported: array<Address>)
      returns (error: int, fault: bool, counter: nat)
      requires pageList != null && dmaAddressList != null && pageList.Length == dmaAddressList.Length <= reported.Length
      requires pageList != dmaAddressList && dmaAddressList != reported && pageList != reported
      requires Holds(start, totalPinned + pinnedPages)
      requires totalPinned == 0 ==> counter0 == 0
      requires NoneMapped()
      modifies kernel`mapped, kernel`mappings, dmaAddressList, reported
      ensures error == 0 || error == -EINVAL
      ensures error == 0 && !fault ==> counter == if counter0 < pinnedPages then pinnedPages else counter0
      ensures counter0 >= pinnedPages ==> !fault
      ensures Willing(kernel.world) ==> error == 0
      ensures Extends(old(kernel.mappings), kernel.mappings)
      ensures totalPinned > 0 && error == 0 && !fault ==>
                && dmaAddressList[0] == 0
                && Covers(kernel.mapped, old(kernel.mapped), dmaAddressList[..])
      ensures totalPinned == 0 ==> !fault
      ensures totalPinned == 0 && error == 0 ==>
                && Mapped(start, |old(kernel.mappings)|, pinnedPages, reported)
                && kernel.mapped == With(old(kernel.mapped), dmaAddressList[..pinnedPages])
    {
      RoundBegins(totalPinned, counter0, start, reported);
      hide With, Mapped, Holds, NoneMapped, Extends, InRound, InFirstRound, InLaterRound, MappedValues, Covers, Willing;
      error, fault, counter :=
        MapUpTo(totalPinned, counter0, pinnedPages, start, reported, kernel.mappings, kernel.mapped);
      if error == 0 && !fault {
        assert totalPinned == 0 ==> counter == pinnedPages;
        RoundEnds(totalPinned, counter, start, |old(kernel.mappings)|, old(kernel.mapped), reported);
      }
    }

    /** Its loop, entered with `mappings` and `mapped` in the kernel. */
    method MapUpTo(totalPinned: nat, counter0: nat, pinnedPages: nat, ghost start: nat, reported: array<Address>,
                   ghost mappings: seq<Mapping>, ghost mapped: multiset<Address>)
      returns (error: int, fault: bool, counter: nat)
      requires pageList != null && dmaAddressList != null && pageList.Length == dmaAddressList.Length <= reported.Length
      requires pageList != dmaAddressList && dmaAddressList != reported && pageList != reported
      requires Holds(start, totalPinned + pinnedPages) && mappings == kernel.mappings
      requires InRound(totalPinned, counter0, start, |mappings|, mapped, reported)
      modifies kernel`mapped, kernel`mappings, dmaAddressList, reported
      ensures error == 0 || error == -EINVAL
      ensures error == 0 && !fault ==> counter == if counter0 < pinnedPages then pinnedPages else counter0
      ensures counter0 >= pinnedPages || totalPinned == 0 ==> !fault
      ensures Willing(kernel.world) ==> error == 0
      ensures Extends(mappings, kernel.mappings)
      ensures error == 0 && !fault ==> InRound(totalPinned, counter, start, |mappings|, mapped, reported)
    {
      error, fault, counter := 0, false, counter0;
      assert Extends(mappings, mappings);
      hide Holds, Extends, InRound, Willing;
      while counter < pinnedPages
        invariant error == 0 && !fault && counter0 <= counter
        invariant counter <= pinnedPages || counter == counter0
        invariant Holds(start, totalPinned + pinnedPages)
        invariant Extends(mappings, kernel.mappings)
        invariant InRound(totalPinned, counter, start, |mappings|, mapped, reported)
      {
        ghost var m := kernel.mappings;
        error, fault := MapNext(totalPinned, counter, pinnedPages, start, |mappings|, mapped, reported);
        ExtendsThen(mappings, m, kernel.mappings);
        if error != 0 || fault {
          return;
        }
        counter := counter + 1;
      }
    }

    ghost predicate InRound(totalPinned: nat, counter: nat, start: nat, first: nat,
                            mapped: multiset<Address>, reported: array<Address>)
      reads this, kernel, dmaAddressList, reported
    {
      if totalPinned == 0 then InFirstRound(start, first, mapped, counter, reported)
      else InLaterRound(mapped, totalPinned + counter)
    }

    lemma RoundBegins(totalPinned: nat, counter: nat, start: nat, reported: array<Address>)
      requires dmaAddressList != null && NoneMapped()
      requires totalPinned == 0 ==> counter == 0
      ensures InRound(totalPinned, counter, start, |kernel.mappings|, kernel.mapped, reported)
    {
      if totalPinned == 0 {
        WithNothing(kernel.mapped, dmaAddressList[..]);
        assert dmaAddressList[..][..0] == dmaAddressList[..0];
      } else {
        ZerosCovered(kernel.mapped, dmaAddressList[..]);
      }
    }

    lemma RoundEnds(totalPinned: nat, counter: nat, start: nat, first: nat,
                    mapped: multiset<Address>, reported: array<Address>)
      requires InRound(totalPinned, counter, start, first, mapped, reported)
      ensures dmaAddressList != null
      ensures totalPinned == 0 ==>
                Mapped(start, first, counter, reported) && kernel.mapped == With(mapped, dmaAddressList[..counter])
      ensures totalPinned > 0 ==>
                && Covers(kernel.mapped, mapped, dmaAddressList[..])
                && (dmaAddressList.Length > 0 ==> dmaAddressList[0] == 0)
    {
    }

    /** One mapping of `MapRound`. */
    method MapNext(totalPinned: nat, counter: nat, ghost pinnedPages: nat, ghost start: nat, ghost first: nat,
                   ghost mapped: multiset<Address>, reported: array<Address>)
      returns (error: int, fault: bool)
      requires pageList != null && dmaAddressList != null && pageList.Length == dmaAddressList.Length <= reported.Length
      requires pageList != dmaAddressList && dmaAddressList != reported && pageList != reported
      requires counter < pinnedPages && Holds(start, totalPinned + pinnedPages)
      requires InRound(totalPinned, counter, start, first, mapped, reported)
      modifies kernel`mapped, kernel`mappings, dmaAddressList, reported
      ensures error == 0 || error == -EINVAL
      ensures Extends(old(kernel.mappings), kernel.mappings)
      ensures totalPinned == 0 ==> !fault
      ensures Willing(kernel.world) ==> error == 0
      ensures error == 0 && !fault ==> InRound(totalPinned, counter + 1, start, first, mapped, reported)
    {
      hide Holds, InFirstRound, InLaterRound, Willing;
      fault := false;
      if totalPinned == 0 {
        error := MapFirst(counter, pinnedPages, start, first, mapped, reported);
      } else {
        error, fault := MapLater(totalPinned, counter, mapped, reported);
      }
    }

    /** A later round has filled slots below `current` only, and never slot 0. */
    ghost predicate InLaterRound(mapped: multiset<Address>, current: nat)
      reads this, kernel, dmaAddressList
    {
      && dmaAddressList != null && Covers(kernel.mapped, mapped, dmaAddressList[..]) && current > 0
      && (dmaAddressList.Length > 0 ==> dmaAddressList[0] == 0)
      && forall i :: current <= i < dmaAddressList.Length ==> dmaAddressList[i] == 0
    }

    ghost predicate InFirstRound(start: nat, first: nat, mapped: multiset<Address>, counter: nat,
                                 reported: array<Address>)
      reads this, kernel, dmaAddressList, reported
    {
      Mapped(start, first, counter, reported) && kernel.mapped == With(mapped, dmaAddressList[..counter])
    }

    /** One mapping of the first round: page by page. */
    method MapFirst(counter: nat, ghost pinnedPages: nat, ghost start: nat, ghost first: nat,
                    ghost mapped: multiset<Address>, reported: array<Address>)
      returns (error: int)
      requires pageList != null && dmaAddressList != null && pageList.Length == dmaAddressList.Length <= reported.Length
      requires pageList != dmaAddressList && dmaAddressList != reported && pageList != reported
      requires counter < pinnedPages && Holds(start, pinnedPages)
      requires InFirstRound(start, first, mapped, counter, reported)
      modifies kernel`mapped, kernel`mappings, dmaAddressList, reported
      ensures error == 0 || error == -EINVAL
      ensures Extends(old(kernel.mappings), kernel.mappings)
      ensures error == 0 ==> InFirstRound(start, first, mapped, counter + 1, reported)
      ensures Willing(kernel.world) ==> error == 0
    {
      ghost var page, a := PageAt(kernel.world, start, counter), kernel.world.dmaAddress(first + counter);
      assert pageList[0 + (0 + counter)] == page > 0;
      ghost var list, told := dmaAddressList[..], reported[..];
      MappedOneMore(kernel.world, start, first, kernel.mappings, list, told, counter, mapped);
      assert dmaAddressList[..counter] == list[..counter] && |kernel.mappings| == first + counter;
      hide With, More, MappedValues, Holds, PageAt, InFirstRound;
      var fault: bool;
      error, fault := DmaMappingPage(0, counter, reported);
      if error == 0 {
        OneMoreSlot(start, first, mapped, counter, reported, list[counter := a], told[counter := a]);
      }
    }

    lemma OneMoreSlot(start: nat, first: nat, mapped: multiset<Address>, counter: nat, reported: array<Address>,
                      list: seq<Address>, told: seq<Address>)
      requires dmaAddressList != null && dmaAddressList[..] == list && reported[..] == told && counter < |list|
      requires MappedValues(kernel.world, start, first, kernel.mappings, list, told, counter + 1)
      requires kernel.mapped == With(mapped, list[..counter + 1])
      ensures InFirstRound(start, first, mapped, counter + 1, reported)
    {
      hide With, MappedValues;
      assert dmaAddressList[..counter + 1] == dmaAddressList[..][..counter + 1];
    }

    /** One mapping of a later round. */
    method MapLater(totalPinned: nat, counter: nat, ghost mapped: multiset<Address>, reported: array<Address>)
      returns (error: int, fault: bool)
      requires pageList != null && dmaAddressList != null && pageList.Length == dmaAddressList.Length <= reported.Length
      requires pageList != dmaAddressList && dmaAddressList != reported && pageList != reported
      requires InLaterRound(mapped, totalPinned + counter)
      modifies kernel`mapped, kernel`mappings, dmaAddressList, reported
      ensures error == 0 || error == -EINVAL
      ensures Extends(old(kernel.mappings), kernel.mappings)
      ensures error == 0 && !fault ==> InLaterRound(mapped, totalPinned + counter + 1)
      ensures Willing(kernel.world) ==> error == 0
    {
      ghost var current := totalPinned + counter;
      ghost var was := dmaAddressList[..];
      if current < dmaAddressList.Length {
        CoversOneMore(kernel.mapped, mapped, was, current, kernel.world.dmaAddress(|kernel.mappings|));
      }
      hide More, Covers;
      error, fault := DmaMappingPage(totalPinned, counter, reported);
      if error == 0 && !fault {
        forall i | 0 <= i < dmaAddressList.Length && (i == 0 || i > current) ensures dmaAddressList[i] == 0 {
          assert dmaAddressList[i] == dmaAddressList[..][i] && was[i] == 0;
        }
      }
    }

    /** The mapping of slot 0, when it is the `first`-th. */
    function FirstMapping(start: nat, first: nat): Mapping {
      Mapping(PageAt(kernel.world, start, 0), kernel.world.dmaAddress(first))
    }

    /** The mappings after some rounds: right after a first round that pinned everything, and with
        slot 0 lost from the second round on. `all` says whether the first call pins everything,
        `mappings` and `mapped` what was there before. */
    ghost predicate Rounds(start: nat, totalPages: nat, reported: array<Address>,
                           all: bool, mappings: seq<Mapping>, mapped: multiset<Address>,
                           round: nat, totalPinned: nat, counter: nat)
      reads this, kernel, dmaAddressList, reported
    {
      && (round == 0 <==> totalPinned == 0)
      && (round == 0 ==>
            && counter == 0 && kernel.mappings == mappings && kernel.mapped == mapped
            && (all <==> FirstPinsAll(totalPages)))
      && (round > 0 ==>
            && dmaAddressList != null && dmaAddressList.Length == totalPages > 0
            && mappings + [FirstMapping(start, |mappings|)] <= kernel.mappings)
      && (round == 1 && all ==>
            && Mapped(start, |mappings|, totalPages, reported)
            && kernel.mapped == With(mapped, dmaAddressList[..]))
      && (round > 1 ==> dmaAddressList[0] == 0)
    }

    /** How many pages the first call to `get_user_pages_fast` will pin. */
    function FirstPins(totalPages: nat): nat
      reads kernel
    {
      var pins := kernel.world.pins(kernel.pinCalls);
      if pins > totalPages then totalPages else if pins < 0 then 0 else pins
    }

    /** The mappings of the kernel, with those of the first round, whatever happens later. */
    ghost function WithFirstRound(mapped: multiset<Address>, first: nat, pins: nat): multiset<Address> {
      With(mapped, AddressesFrom(kernel.world, first, pins))
    }

    /** `base` is mapped, and besides it, from the second round on, every address of the list. */
    ghost predicate Beside(base: multiset<Address>, round: nat)
      reads this`dmaAddressList, dmaAddressList, kernel`mapped
    {
      && (round > 0 ==> base <= kernel.mapped)
      && (round > 1 ==> dmaAddressList != null && Covers(kernel.mapped, base, dmaAddressList[..]))
    }

    /** One round of `pin_user_memory_in_kernel_space`. */
    method PinRound(totalPages: nat, totalPinned: nat, counter0: nat, start: nat, reported: array<Address>,
                    ghost all: bool, ghost mappings: seq<Mapping>, ghost mapped: multiset<Address>,
                    ghost pinned: multiset<Page>, ghost base: multiset<Address>, ghost round: nat)
      returns (error: int, fault: bool, totalPinned': nat, counter: nat)
      requires pageList != null && pageList.Length == totalPages <= reported.Length && pageList != reported
      requires totalPinned < totalPages && Holds(start, totalPinned) && Pinned(pinned, start, totalPinned)
      requires Rounds(start, totalPages, reported, all, mappings, mapped, round, totalPinned, counter0)
      requires Beside(base, round)
      requires round == 0 ==> base == WithFirstRound(mapped, |mappings|, FirstPins(totalPages))
      modifies this`dmaAddressList, kernel, pageList, reported
      ensures error in {0, -ENOMEM, -EFAULT, -EINVAL}
      ensures pageList == old(pageList)
      ensures round == 0 ==> !fault
      ensures Willing(kernel.world) ==> error == 0
      ensures kernel.world.pins(old(kernel.pinCalls)) <= counter0 || totalPages <= counter0 ==> !fault
      ensures error == 0 && !fault ==> counter >= counter0 && (round == 0 ==> counter == old(FirstPins(totalPages)))
      ensures error == 0 && !fault ==>
                && totalPinned < totalPinned' <= totalPages
                && Holds(start, totalPinned')
                && Pinned(pinned, start, totalPinned')
                && dmaAddressList != null && fresh(dmaAddressList)
                && Rounds(start, totalPages, reported, all, mappings, mapped, round + 1, totalPinned', counter)
                && (round == 0 ==> (all <==> totalPinned' == totalPages) && old(FirstPins(totalPages)) > 0)
                && Beside(base, round + 1)
    {
      hide Pinned, With, Covers, PageAt, Willing;
      ghost var before := kernel.mapped;
      var pinnedPages: int;
      fault, totalPinned', counter := false, totalPinned, counter0;
      error, pinnedPages := PinUserPages(totalPages, totalPinned, start, pinned);
      if error != 0 {
        return;
      }
      error, fault, counter := MapRound(totalPinned, counter, pinnedPages, start, reported);
      if error == 0 && !fault {
        if totalPinned == 0 {
          assert kernel.mappings[|mappings|] == FirstMapping(start, |mappings|);
          assert pinnedPages == totalPages ==> dmaAddressList[..pinnedPages] == dmaAddressList[..];
          assert dmaAddressList[..pinnedPages] == AddressesFrom(kernel.world, |mappings|, pinnedPages);
        } else {
          CoversMore(before, kernel.mapped, base, dmaAddressList[..]);
        }
      }
      totalPinned' := totalPinned + pinnedPages;
    }

    /** The first call to `get_user_pages_fast` will pin every page. */
    predicate FirstPinsAll(totalPages: nat)
      reads kernel
    {
      kernel.world.pins(kernel.pinCalls) >= totalPages
    }

    /** `pin_user_memory_in_kernel_space`. Whatever part of the pages each call pins, a return of
        0 means that slot `i` holds page `i`, pinned once. The mappings are right exactly when the
        first call pins everything: `page_mapped_counter` is never reset and every round
        allocates a new list of addresses, so after a second round slot 0 has lost its address. */
    method PinUserMemory(totalPages: nat, start: nat, reported: array<Address>)
      returns (error: int, fault: bool)
      requires pageList != null && pageList.Length == totalPages <= reported.Length && pageList != reported
      modifies this`dmaAddressList, kernel, pageList, reported
      ensures error in {0, -ENOMEM, -EFAULT, -EINVAL}
      ensures error == 0 && !fault ==>
                && Holds(start, totalPages)
                && Pinned(old(kernel.pinned), start, totalPages)
      ensures old(FirstPinsAll(totalPages)) ==> !fault
      ensures Willing(kernel.world) ==> error == 0
      ensures Willing(kernel.world) && NoneLarger(kernel.world, old(kernel.pinCalls)) ==> !fault
      ensures error == 0 && old(FirstPinsAll(totalPages)) && totalPages > 0 ==>
                && dmaAddressList != null && fresh(dmaAddressList) && dmaAddressList.Length == totalPages
                && Mapped(start, |old(kernel.mappings)|, totalPages, reported)
                && kernel.mapped == With(old(kernel.mapped), dmaAddressList[..])
      ensures error == 0 && !fault && totalPages > 0 ==>
                && dmaAddressList != null && fresh(dmaAddressList) && dmaAddressList.Length == totalPages
                && |kernel.mappings| > |old(kernel.mappings)|
                && kernel.mappings[|old(kernel.mappings)|] == FirstMapping(start, |old(kernel.mappings)|)
                && (!old(FirstPinsAll(totalPages)) ==> dmaAddressList[0] == 0)
      ensures error == 0 && !fault && totalPages > 0 && !old(FirstPinsAll(totalPages)) ==>
                && old(FirstPins(totalPages)) > 0
                && Covers(kernel.mapped,
                          WithFirstRound(old(kernel.mapped), |old(kernel.mappings)|, old(FirstPins(totalPages))),
                          dmaAddressList[..])
      ensures totalPages == 0 ==> error == 0 && !fault && kernel.mapped == old(kernel.mapped)
    {
      error, fault := 0, false;
      ghost var pins := FirstPins(totalPages);
      ghost var base := WithFirstRound(kernel.mapped, |kernel.mappings|, pins);
      var counter: nat, totalPinned: nat := 0, 0;
      ghost var all, mappings := FirstPinsAll(totalPages), kernel.mappings;
      ghost var mapped, pinned := kernel.mapped, kernel.pinned;
      ghost var round := 0;
      NothingYet(start, totalPages, reported);
      assert Beside(base, 0);
      hide Pinned, Holds, Rounds, Mapped, Covers, WithFirstRound, Willing;
      while totalPinned < totalPages
        invariant error == 0 && !fault && totalPinned <= totalPages && pageList == old(pageList)
        invariant Holds(start, totalPinned)
        invariant Pinned(pinned, start, totalPinned)
        invariant Rounds(start, totalPages, reported, all, mappings, mapped, round, totalPinned, counter)
        invariant totalPinned > 0 ==> dmaAddressList != null && fresh(dmaAddressList)
        invariant round == 0 ==> totalPinned == 0
        invariant round == 1 ==> (all <==> totalPinned == totalPages)
        invariant round > 1 ==> !all
        invariant Beside(base, round)
        invariant round == 0 ==> base == WithFirstRound(kernel.mapped, |kernel.mappings|, FirstPins(totalPages))
        invariant round == 0 ==> pins == FirstPins(totalPages)
        invariant round > 0 ==> 0 < pins <= counter
        invariant round == 0 ==> mapped == kernel.mapped && mappings == kernel.mappings
        decreases totalPages - totalPinned
      {
        error, fault, totalPinned, counter :=
          PinRound(totalPages, totalPinned, counter, start, reported, all, mappings, mapped, pinned, base, round);
        if error != 0 || fault {
          return;
        }
        round := round + 1;
      }
      Done(start, totalPages, reported, all, mappings, mapped, round, totalPinned, counter);
    }

    lemma NothingYet(start: nat, totalPages: nat, reported: array<Address>)
      requires pageList != null
      ensures Holds(start, 0) && Pinned(kernel.pinned, start, 0)
      ensures Rounds(start, totalPages, reported, FirstPinsAll(totalPages), kernel.mappings, kernel.mapped, 0, 0, 0)
    {
    }

    lemma Done(start: nat, totalPages: nat, reported: array<Address>,
               all: bool, mappings: seq<Mapping>, mapped: multiset<Address>,
               round: nat, totalPinned: nat, counter: nat)
      requires Rounds(start, totalPages, reported, all, mappings, mapped, round, totalPinned, counter)
      requires totalPinned == totalPages && (round == 1 ==> all) && (round > 1 ==> !all)
      ensures totalPages > 0 ==> dmaAddressList != null && dmaAddressList.Length == totalPages
      ensures totalPages > 0 && all ==>
                && Mapped(start, |mappings|, totalPages, reported)
                && kernel.mapped == With(mapped, dmaAddressList[..])
      ensures totalPages > 0 ==>
                && (!all ==> dmaAddressList[0] == 0) && |kernel.mappings| > |mappings|
                && kernel.mappings[|mappings|] == FirstMapping(start, |mappings|)
      ensures totalPages == 0 ==> kernel.mapped == mapped
    {
    }

    /** `map_dma_pages`. Without the right to lock memory, or without memory for the page list, it does
        nothing; otherwise it does what `PinUserMemory` does. */
    method MapDmaPages(totalPages: nat, start: nat, reported: array<Address>) returns (error: int, fault: bool)
      requires totalPages <= reported.Length
      modifies this, kernel, reported
      ensures !kernel.world.canLock ==> error == -EPERM && unchanged(this) && unchanged(kernel) && unchanged(reported)
      ensures kernel.world.canLock && kernel.world.allocationFails(old(kernel.allocations) + 1) ==>
                && error == -ENOMEM && pageList == null && kernel.pinned == old(kernel.pinned)
                && kernel.mapped == old(kernel.mapped) && unchanged(reported)
      ensures error in {0, -1, -12, -14, -22}
      ensures error == 0 && !fault ==> pageList != null && fresh(pageList) && pageList.Length == totalPages
      ensures error == 0 && !fault ==> Holds(start, totalPages) && Pinned(old(kernel.pinned), start, totalPages)
      ensures error == 0 && !fault ==>
                forall i :: 0 <= i < totalPages ==> pageList[i] == kernel.world.userPage(start + 4096 * i)
      ensures old(FirstPinsAll(totalPages)) ==> !fault
      ensures Willing(kernel.world) ==> error == 0
      ensures Willing(kernel.world) && NoneLarger(kernel.world, old(kernel.pinCalls)) ==> !fault
      ensures error == 0 && old(FirstPinsAll(totalPages)) && totalPages > 0 ==>
                && dmaAddressList != null && fresh(dmaAddressList) && dmaAddressList.Length == totalPages
                && dmaAddressList as object != pageList
                && Mapped(start, |old(kernel.mappings)|, totalPages, reported)
                && kernel.mapped == With(old(kernel.mapped), dmaAddressList[..])
      ensures error == 0 && !fault && totalPages > 0 ==>
                && dmaAddressList != null && fresh(dmaAddressList) && dmaAddressList.Length == totalPages
                && |kernel.mappings| > |old(kernel.mappings)|
                && kernel.mappings[|old(kernel.mappings)|] == FirstMapping(start, |old(kernel.mappings)|)
                && (!old(FirstPinsAll(totalPages)) ==> dmaAddressList[0] == 0)
      ensures error == 0 && !fault && totalPages > 0 ==> dmaAddressList as object != pageList
      ensures error == 0 && !fault && totalPages > 0 && !old(FirstPinsAll(totalPages)) ==>
                && old(FirstPins(totalPages)) > 0
                && Covers(kernel.mapped,
                          WithFirstRound(old(kernel.mapped), |old(kernel.mappings)|, old(FirstPins(totalPages))),
                          dmaAddressList[..])
      ensures totalPages == 0 && error == 0 ==> kernel.mapped == old(kernel.mapped)
    {
      error, fault := 0, false;
      if !kernel.world.canLock {
        return -EPERM, false;
      }
      pageList := kernel.Allocate(totalPages);
      if pageList == null {
        return -ENOMEM, false;
      }
      error, fault := PinUserMemory(totalPages, start, reported);
    }

    /** `release_dma_pages`: unmaps and unpins slot by slot, clearing both lists. */
    method ReleaseDmaPages(totalPages: nat)
      requires pageList != null && totalPages <= pageList.Length
      requires totalPages > 0 ==>
                 && dmaAddressList != null && totalPages <= dmaAddressList.Length && dmaAddressList != pageList
      modifies this`pageList, kernel`pinned, kernel`mapped, pageList
      modifies if totalPages > 0 then {dmaAddressList} else {}
      ensures pageList == null
      ensures kernel.pinned == if totalPages > 0 then Without(old(kernel.pinned), old(pageList[..])[..totalPages])
                               else old(kernel.pinned)
      ensures kernel.mapped == if totalPages > 0 then Without(old(kernel.mapped), old(dmaAddressList[..])[..totalPages])
                               else old(kernel.mapped)
      ensures totalPages > 0 ==>
                && old(pageList)[..] == Cleared(old(pageList[..]), totalPages)
                && dmaAddressList == old(dmaAddressList)
                && dmaAddressList[..] == Cleared(old(dmaAddressList[..]), totalPages)
    {
      if totalPages > 0 {
        ReleaseSlots(kernel, pageList, dmaAddressList, totalPages);
      }
      pageList := null;
    }
  }

  /** The first `i` slots cleared. */
  function Cleared(s: seq<nat>, i: nat): (r: seq<nat>)
    requires i <= |s|
    ensures |r| == |s| && r[i..] == s[i..]
    ensures forall j :: 0 <= j < i ==> r[j] == 0
  {
    seq(i, _ => 0) + s[i..]
  }

  lemma ClearedNext(s: seq<nat>, i: nat)
    requires i < |s|
    ensures Cleared(s, 0) == s
    ensures Cleared(s, i)[i] == s[i] && Cleared(s, i)[i := 0] == Cleared(s, i + 1)
  {
    assert Cleared(s, i)[i] == s[i..][0];
  }

  method ReleaseSlot(kernel: Kernel, pages: array<Page>, addresses: array<Address>, i: nat)
    requires i < pages.Length && i < addresses.Length && pages != addresses
    modifies kernel`pinned, kernel`mapped, pages, addresses
    ensures kernel.mapped == Less(old(kernel.mapped), old(addresses[..])[i])
    ensures kernel.pinned == Less(old(kernel.pinned), old(pages[..])[i])
    ensures pages[..] == old(pages[..])[i := 0] && addresses[..] == old(addresses[..])[i := 0]
  {
    kernel.UnmapPage(addresses[i]);
    kernel.PutPage(pages[i]);
    pages[i] := 0;
    addresses[i] := 0;
  }

  /** The loop of `release_dma_pages`. */
  method ReleaseSlots(kernel: Kernel, pages: array<Page>, addresses: array<Address>, n: nat)
    requires n <= pages.Length && n <= addresses.Length && pages != addresses
    modifies kernel`pinned, kernel`mapped, pages, addresses
    ensures kernel.pinned == Without(old(kernel.pinned), old(pages[..])[..n])
    ensures kernel.mapped == Without(old(kernel.mapped), old(addresses[..])[..n])
    ensures pages[..] == Cleared(old(pages[..]), n) && addresses[..] == Cleared(old(addresses[..]), n)
  {
    ghost var ps, ads := pages[..], addresses[..];
    ghost var pinned, mapped := kernel.pinned, kernel.mapped;
    WithoutNothing(pinned, ps);
    WithoutNothing(mapped, ads);
    hide Without, Less;
    for i := 0 to n
      invariant pages[..] == Cleared(ps, i) && addresses[..] == Cleared(ads, i)
      invariant kernel.pinned == Without(pinned, ps[..i])
      invariant kernel.mapped == Without(mapped, ads[..i])
    {
      WithoutNext(pinned, ps, i);
      WithoutNext(mapped, ads, i);
      ClearedNext(ps, i);
      ClearedNext(ads, i);
      ReleaseSlot(kernel, pages, addresses, i);
    }
  }

  /** What unmapping the list of a partial pin leaves: the mappings of the first round, which were made
      beside it. */
  lemma AfterPartialPin(before: multiset<Address>, mapped: multiset<Address>, addresses: seq<Address>,
                        first: seq<Address>)
    requires Covers(mapped, With(before, first), addresses) && first != []
    requires 0 !in before && 0 !in first
    ensures With(before, first) <= Without(mapped, addresses) != before
  {
    RestRemains(mapped, With(before, first), addresses);
    assert With(before, first)[first[0]] > before[first[0]];
  }

  lemma PagesOfList(dma: DmaPages, start: nat, totalPages: nat)
    requires dma.pageList != null && dma.pageList.Length == totalPages && dma.Holds(start, totalPages)
    ensures dma.pageList[..][..totalPages] == PagesOf(dma.kernel.world, start, totalPages)
  {
  }

  /** No mapping, made or still to be made, has address 0, which the driver cannot tell from an empty
      slot. */
  ghost predicate NonZeroMappings(kernel: Kernel)
    reads kernel
  {
    0 !in kernel.mapped && forall k :: kernel.world.dmaAddress(k) != 0
  }

  /** Conservation: getting pages and releasing them with the same count leaves every pin of the
      kernel as it was, under any pattern of partial pins, and every mapping too when the first pin
      takes all pages, whatever the addresses. Otherwise, and as long as no mapping has address 0,
      all mappings of the first round leak. */
  method GetThenRelease(dma: DmaPages, totalPages: nat, start: nat, reported: array<Address>)
    returns (error: int, fault: bool)
    requires totalPages <= reported.Length
    modifies dma, dma.kernel, reported
    ensures old(dma.FirstPinsAll(totalPages)) ==> !fault
    ensures error == 0 && !fault ==> dma.kernel.pinned == old(dma.kernel.pinned)
    ensures error == 0 && !fault && (totalPages == 0 || old(dma.FirstPinsAll(totalPages))) ==>
              dma.kernel.mapped == old(dma.kernel.mapped)
    ensures error == 0 && !fault && old(NonZeroMappings(dma.kernel)) ==>
              && (dma.kernel.mapped == old(dma.kernel.mapped) <==>
                    totalPages == 0 || old(dma.FirstPinsAll(totalPages)))
              && (totalPages > 0 && !old(dma.FirstPinsAll(totalPages)) ==>
                    old(dma.FirstPins(totalPages)) > 0
                    && With(old(dma.kernel.mapped), AddressesFrom(dma.kernel.world, |old(dma.kernel.mappings)|,
                                                                  old(dma.FirstPins(totalPages))))
                       <= dma.kernel.mapped)
  {
    ghost var pinned, mapped, m := dma.kernel.pinned, dma.kernel.mapped, |dma.kernel.mappings|;
    ghost var all, pins := dma.FirstPinsAll(totalPages), dma.FirstPins(totalPages);
    ghost var nonZero := NonZeroMappings(dma.kernel);
    if nonZero {
      NonZeroAddresses(dma.kernel.world, m, pins);
    }
    hide AddressesFrom, DmaPages.Mapped, MappedValues, DmaPages.FirstPinsAll, DmaPages.FirstPins;
    error, fault := dma.MapDmaPages(totalPages, start, reported);
    if error == 0 && !fault {
      PagesOfList(dma, start, totalPages);
      hide DmaPages.Holds;
      ghost var pages := PagesOf(dma.kernel.world, start, totalPages);
      WithThenWithout(pinned, pages);
      if totalPages == 0 {
        WithNothing(pinned, pages);
        assert pages[..0] == pages;
      } else {
        assert dma.dmaAddressList[..][..totalPages] == dma.dmaAddressList[..];
        if all {
          WithThenWithout(mapped, dma.dmaAddressList[..]);
        } else if nonZero {
          AfterPartialPin(mapped, dma.kernel.mapped, dma.dmaAddressList[..],
                          AddressesFrom(dma.kernel.world, m, pins));
        }
      }
      hide With, Without, Covers, PagesOf, NonZeroMappings;
      dma.ReleaseDmaPages(totalPages);
    }
  }

  lemma NonZeroAddresses(world: World, first: nat, n: nat)
    requires forall k :: world.dmaAddress(k) != 0
    ensures 0 !in AddressesFrom(world, first, n)
    ensures AddressesFrom(world, first, n) != [] <==> n > 0
  {
  }

  /** The list of addresses is right, slot by slot, when the first pin takes all pages, whatever the
      addresses. Otherwise slot 0 is empty, so it is wrong unless page 0 was mapped at address 0. */
  method MappingsSurviveExactlyOneRound(dma: DmaPages, totalPages: nat, start: nat, reported: array<Address>)
    returns (error: int, fault: bool)
    requires 0 < totalPages <= reported.Length
    modifies dma, dma.kernel, reported
    ensures error == 0 && !fault ==>
              && dma.dmaAddressList != null && dma.dmaAddressList.Length == totalPages
              && var first := |old(dma.kernel.mappings)|;
                 var right := forall i :: 0 <= i < totalPages ==>
                                dma.dmaAddressList[i] == dma.kernel.world.dmaAddress(first + i);
                 && (old(dma.FirstPinsAll(totalPages)) ==> right)
                 && (!old(dma.FirstPinsAll(totalPages)) ==> dma.dmaAddressList[0] == 0)
                 && (dma.kernel.world.dmaAddress(first) != 0 ==> (old(dma.FirstPinsAll(totalPages)) <==> right))
  {
    error, fault := dma.MapDmaPages(totalPages, start, reported);
  }

  /** Partial pins do get through: two pages pinned one at a time are reported as a success, with no
      address in slot 0. */
  method PartialPinSucceeds(reported: array<Address>) returns (dma: DmaPages, error: int, fault: bool)
    requires reported.Length >= 2
    modifies reported
    ensures error == 0 && !fault && dma.kernel.world.pins(0) == 1
    ensures dma.Holds(0, 2) && dma.dmaAddressList != null && dma.dmaAddressList.Length == 2
    ensures dma.dmaAddressList[0] == 0 && dma.kernel.world.dmaAddress(0) != 0
  {
    var world := World(address => 1 + address, k => 1, k => 1 + k, k => false, k => false, true);
    var kernel := new Kernel(world);
    dma := new DmaPages(kernel);
    error, fault := dma.MapDmaPages(2, 0, reported);
  }
}
