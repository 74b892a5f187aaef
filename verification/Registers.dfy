/** The VSEC registers' fields and the driver functions that pack and unpack them
    (nnt_pci_conf_access_defs.h, nnt_pci_conf_access.c). */
module Registers {
  import opened Bits

  const SPACE_BIT_OFFSET := 0
  const SPACE_BIT_LENGTH := 16
  const STATUS_BIT_OFFSET := 29
  const STATUS_BIT_LEN := 3
  const FLAG_BIT_OFFSET := 31

  const READ_OPERATION := 0
  const WRITE_OPERATION := 1

  const IFC_MAX_RETRIES := 0x10000
  const SEMAPHORE_MAX_RETRIES := 0x1000

  /** Addresses below this one fit in the 30 bits that the address register carries. */
  const ADDRESS_LIMIT := 0x4000_0000

  const FLAG := 0x8000_0000

  /** The driver's `set_rw_address`: -1 when the address needs more than 30 bits. */
  datatype RwAddress = Refused | Packed(word: U32)

  function SetRwAddress(address: U32, rw: U32): RwAddress {
    if Extract(address, 30, 2) != 0 then Refused
    else
      MergeIsWord(address, rw, FLAG_BIT_OFFSET, 1);
      Packed(Merge(address, rw, FLAG_BIT_OFFSET, 1))
  }

  /** The flag that `wait_on_flag` extracts. */
  function FlagOf(word: U32): nat {
    Extract(word, FLAG_BIT_OFFSET, 1)
  }

  /** The address below the flag. */
  function AddressOf(word: U32): nat {
    Extract(word, 0, 30)
  }

  /** The value `set_address_space` writes back to the control register. */
  function SelectSpace(control: U32, space: U32): U32 {
    MergeIsWord(control, space, SPACE_BIT_OFFSET, SPACE_BIT_LENGTH);
    Merge(control, space, SPACE_BIT_OFFSET, SPACE_BIT_LENGTH)
  }

  function SpaceOf(control: U32): nat {
    Extract(control, SPACE_BIT_OFFSET, SPACE_BIT_LENGTH)
  }

  function StatusOf(control: U32): nat {
    Extract(control, STATUS_BIT_OFFSET, STATUS_BIT_LEN)
  }

  lemma Powers()
    ensures Pow2(0) == 1 && Pow2(1) == 2 && Pow2(2) == 4 && Pow2(3) == 8
    ensures Pow2(16) == 0x1_0000 && Pow2(29) == 0x2000_0000
    ensures Pow2(30) == ADDRESS_LIMIT && Pow2(31) == FLAG
  {
    assert Pow2(8) == 0x100;
    assert Pow2(12) == 0x1000;
    assert Pow2(20) == 0x10_0000;
    assert Pow2(24) == 0x100_0000;
    assert Pow2(28) == 0x1000_0000;
  }

  lemma FieldsInArithmetic(word: U32)
    ensures FlagOf(word) == (if word >= FLAG then 1 else 0)
    ensures AddressOf(word) == word % ADDRESS_LIMIT
    ensures SpaceOf(word) == word % 0x1_0000
    ensures StatusOf(word) == word / 0x2000_0000
  {
    Powers();
    hide Extract;
    ExtractArithmetic(word, FLAG_BIT_OFFSET, 1);
    ExtractArithmetic(word, 0, 30);
    ExtractArithmetic(word, SPACE_BIT_OFFSET, SPACE_BIT_LENGTH);
    ExtractArithmetic(word, STATUS_BIT_OFFSET, STATUS_BIT_LEN);
  }

  lemma FlagAndAddress(word: U32)
    ensures FlagOf(word) == (if word >= FLAG then 1 else 0)
    ensures AddressOf(word) == word % ADDRESS_LIMIT
  {
    FieldsInArithmetic(word);
  }

  /** Exactly the 30-bit addresses are accepted, and packing sets the operation in bit 31 above
      the address. */
  lemma PackedAddress(address: U32, rw: U32)
    requires rw < 2
    ensures SetRwAddress(address, rw).Packed? <==> address < ADDRESS_LIMIT
    ensures SetRwAddress(address, rw).Packed? ==> SetRwAddress(address, rw).word == address + rw * FLAG
  {
    Powers();
    hide Merge, Extract;
    ExtractArithmetic(address, 30, 2);
    TopMergeArithmetic(address, rw, FLAG_BIT_OFFSET, 1);
  }

  /** Both arguments of an accepted `set_rw_address` can be recovered from the word it built. */
  lemma PackedAddressRecovers(address: U32, rw: U32)
    requires rw < 2 && SetRwAddress(address, rw).Packed?
    ensures AddressOf(SetRwAddress(address, rw).word) == address
    ensures FlagOf(SetRwAddress(address, rw).word) == rw
  {
    hide SetRwAddress, AddressOf, FlagOf;
    PackedAddress(address, rw);
    FieldsInArithmetic(SetRwAddress(address, rw).word);
  }

  /** So `set_rw_address` is injective on 30-bit addresses and operations. */
  lemma PackedAddressInjective(a: U32, rw: U32, b: U32, rw': U32)
    requires rw < 2 && rw' < 2
    requires SetRwAddress(a, rw).Packed?
    requires SetRwAddress(a, rw) == SetRwAddress(b, rw')
    ensures a == b && rw == rw'
  {
    PackedAddressRecovers(a, rw);
    PackedAddressRecovers(b, rw');
  }

  /** `set_address_space` selects the low 16 bits of the space and keeps bits 16 to 31 of the
      control value it read. */
  lemma SelectSpaceFields(control: U32, space: U32)
    ensures SpaceOf(SelectSpace(control, space)) == space % 0x1_0000
    ensures SelectSpace(control, space) / 0x1_0000 == control / 0x1_0000
  {
    Powers();
    hide Extract, Merge;
    ExtractOfMerge(control, space, SPACE_BIT_OFFSET, SPACE_BIT_LENGTH);
    ExtractOutsideMerge(control, space, SPACE_BIT_OFFSET, SPACE_BIT_LENGTH, 16, 16);
    ExtractArithmetic(control, 16, 16);
    ExtractArithmetic(SelectSpace(control, space), 16, 16);
  }
}
