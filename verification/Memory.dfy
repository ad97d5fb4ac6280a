/** Address ranges and the injected memory that both journals write through. */
module Memory {
  import opened Words

  /** What the process memory holds, by address. */
  type Contents = map<int, byte>

  datatype MemoryRegion = MemoryRegion(base: Word, size: Word, readable: bool, writable: bool, executable: bool)

  type RegionMap = (Word, nat) -> Option<MemoryRegion>

  // ---- Ranges ----

  predicate Contains(base: Word, extent: Word, address: Word, size: nat) {
    if base == 0 || extent == 0 || size == 0 || address < base then false
    else
      var offset: Word := address - base;
      offset < extent && size <= extent - offset
  }

  predicate RegionContains(region: MemoryRegion, address: Word, size: nat) {
    Contains(region.base, region.size, address, size)
  }

  predicate RangesOverlap(leftAddress: Word, leftSize: nat, rightAddress: Word, rightSize: nat) {
    if leftAddress <= rightAddress then rightAddress - leftAddress < leftSize
    else leftAddress - rightAddress < rightSize
  }

  predicate InRange(k: int, address: int, size: nat) {
    address <= k < address + size
  }

  /** The subtraction-only test is containment of a non-empty range in a non-null one. */
  lemma ContainsIsInclusion(base: Word, extent: Word, address: Word, size: nat)
    ensures Contains(base, extent, address, size) <==>
            base != 0 && size != 0 && base <= address && address + size <= base + extent
  {
  }

  /** On non-empty ranges, the overlap test is existence of a shared address. */
  lemma OverlapIsSharedAddress(leftAddress: Word, leftSize: nat, rightAddress: Word, rightSize: nat)
    requires leftSize > 0 && rightSize > 0
    ensures RangesOverlap(leftAddress, leftSize, rightAddress, rightSize) <==>
            exists k :: InRange(k, leftAddress, leftSize) && InRange(k, rightAddress, rightSize)
  {
    if RangesOverlap(leftAddress, leftSize, rightAddress, rightSize) {
      var k := if leftAddress <= rightAddress then rightAddress else leftAddress;
      assert InRange(k, leftAddress, leftSize) && InRange(k, rightAddress, rightSize);
    }
  }

  // ---- Contents ----

  predicate Mapped(bytes: Contents, address: int, size: nat) {
    forall k | address <= k < address + size :: k in bytes
  }

  /** `bytes` holds exactly `data` at `address`. */
  predicate Present(bytes: Contents, address: int, data: seq<byte>) {
    forall k | address <= k < address + |data| :: k in bytes && bytes[k] == data[k - address]
  }

  /** The bytes a reader of a mapped range collects. */
  function Collect(bytes: Contents, address: int, size: nat): (data: seq<byte>)
    requires Mapped(bytes, address, size)
    ensures |data| == size && Present(bytes, address, data)
  {
    seq(size, i requires 0 <= i < size => bytes[address + i])
  }

  lemma CollectIsPresent(bytes: Contents, address: int, data: seq<byte>)
    requires Present(bytes, address, data)
    ensures Mapped(bytes, address, |data|) && Collect(bytes, address, |data|) == data
  {
    forall i | 0 <= i < |data| ensures bytes[address + i] == data[i] {
      assert data[address + i - address] == data[i];
    }
  }

  /** A range that shows what it showed before, in memory unchanged elsewhere, is memory unchanged. */
  lemma RangeRestored(before: Contents, after: Contents, address: int, data: seq<byte>)
    requires UnchangedOutsideRange(before, after, address, |data|)
    requires Present(before, address, data) && Present(after, address, data)
    ensures after == before
  {
    forall k | k in before ensures after[k] == before[k] {
      if InRange(k, address, |data|) {
        assert after[k] == data[k - address] == before[k];
      }
    }
  }

  /** `bytes` with `data` stored at `address`. */
  function Overlay(bytes: Contents, address: int, data: seq<byte>): Contents {
    map k | k in bytes :: if InRange(k, address, |data|) then data[k - address] else bytes[k]
  }

  ghost predicate UnchangedOutsideRange(before: Contents, after: Contents, address: int, size: nat) {
    && after.Keys == before.Keys
    && forall k | k in before && !InRange(k, address, size) :: after[k] == before[k]
  }

  // ---- The injected view ----

  /** One call of the writer and what it reported. */
  datatype WriteCall = WriteCall(address: int, data: seq<byte>, accepted: bool)

  /** How an adapter behaves: as it likes; without ever failing; refusing every read; or reading well but
      spoiling every write it accepts. */
  datatype Temper = Erratic | Faithful | Deaf | Spoiling

  /** Bytes of which none is what was asked for. */
  function Spoil(data: seq<byte>): (spoiled: seq<byte>)
    ensures |spoiled| == |data| && forall i | 0 <= i < |data| :: spoiled[i] != data[i]
  {
    seq(|data|, i requires 0 <= i < |data| => ((data[i] as int) + 1) % 256)
  }

  /** The memory adapter behind `PatchJournal`. Its writer is all-or-nothing in one direction only:
      a refused write changes nothing, an accepted one may have stored anything, but only inside
      its own range. A read of mapped memory may be refused at any time and is honest when it is not. The
      other tempers are special cases of `Erratic`, which may do whatever any of them does. */
  class MemoryView {
    var bytes: Contents
    var regions: RegionMap
    var temper: Temper
    ghost var writes: seq<WriteCall>

    constructor (bytes: Contents, regions: RegionMap, temper: Temper)
      ensures this.bytes == bytes && this.regions == regions && this.temper == temper && writes == []
    {
      this.bytes, this.regions, this.temper, this.writes := bytes, regions, temper, [];
    }

    function QueryRegion(address: Word, size: nat): Option<MemoryRegion>
      reads this`regions
    {
      regions(address, size)
    }

    method Read(address: Word, size: nat) returns (result: Option<seq<byte>>, ghost refused: bool)
      ensures result == None <==> !Mapped(bytes, address, size) || refused
      ensures result.Some? ==> |result.value| == size && Present(bytes, address, result.value)
      ensures refused ==> Mapped(bytes, address, size)
      ensures temper.Faithful? || temper.Spoiling? ==> !refused
      ensures temper.Deaf? && Mapped(bytes, address, size) ==> refused
    {
      var refuse: bool := *;
      refuse := temper.Deaf? || (temper.Erratic? && refuse);
      refused := refuse && Mapped(bytes, address, size);
      if Mapped(bytes, address, size) && !refuse {
        var held := bytes;
        result := Some(seq(size, i requires 0 <= i < size => held[address + i]));
      } else {
        result := None;
      }
    }

    method Write(address: Word, source: seq<byte>) returns (accepted: bool)
      modifies this`bytes, this`writes
      ensures writes == old(writes) + [WriteCall(address, source, accepted)]
      ensures !accepted ==> bytes == old(bytes)
      ensures UnchangedOutsideRange(old(bytes), bytes, address, |source|)
      ensures temper.Faithful? && Mapped(old(bytes), address, |source|) ==> accepted && Present(bytes, address, source)
      ensures temper.Spoiling? && Mapped(old(bytes), address, |source|) && source != [] ==> accepted && !Present(bytes, address, source)
    {
      var stored: seq<byte> := *;
      accepted := *;
      if !temper.Erratic? && Mapped(bytes, address, |source|) {
        stored, accepted := if temper.Spoiling? then Spoil(source) else source, true;
      }
      if accepted {
        bytes := Overlay(bytes, address, if |stored| == |source| then stored else source);
      }
      if temper.Spoiling? && Mapped(old(bytes), address, |source|) && source != [] {
        assert bytes[address] == Spoil(source)[address - address];
      }
      writes := writes + [WriteCall(address, source, accepted)];
    }
  }

  /** Read back `expected` at `address`, through a scratch buffer of `capacity` bytes. */
  method ReadEquals(memory: MemoryView, address: Word, expected: seq<byte>, capacity: nat) returns (equal: bool, ghost refused: bool)
    ensures equal <==> |expected| <= capacity && Present(memory.bytes, address, expected) && !refused
    ensures refused ==> Mapped(memory.bytes, address, |expected|)
    ensures memory.temper.Faithful? || memory.temper.Spoiling? ==> !refused
    ensures memory.temper.Deaf? && |expected| <= capacity && Mapped(memory.bytes, address, |expected|) ==> refused
  {
    if capacity < |expected| {
      return false, false;
    }
    var observed;
    observed, refused := memory.Read(address, |expected|);
    if Present(memory.bytes, address, expected) {
      CollectIsPresent(memory.bytes, address, expected);
    }
    if observed == None {
      return false, refused;
    }
    if Present(memory.bytes, address, expected) {
      CollectIsPresent(memory.bytes, address, observed.value);
    }
    equal := observed.value == expected;
  }
}
