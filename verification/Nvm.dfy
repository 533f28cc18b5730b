// The read-modify-write algorithms of firmware/.../xmega/drivers/nvm/nvm.c over the page
// buffers of the NVM controller.

/** What a write of a buffer should do to a memory. */
module Overlays {

  function And(x: bv8, y: bv8): bv8 {
    x & y
  }

  lemma AndLaws(x: bv8, y: bv8)
    ensures And(x, 0xFF) == x && And(0xFF, x) == x && And(x, x) == x
    ensures And(x, y) == And(y, x)
  {
  }

  lemma AndSwap(x: bv8, y: bv8, z: bv8)
    ensures And(x, And(y, z)) == And(y, And(x, z))
  {
  }

  /** mem with the bytes from address on replaced by data. */
  function Overlay(mem: seq<bv8>, address: nat, data: seq<bv8>): (r: seq<bv8>)
    requires address + |data| <= |mem|
    ensures |r| == |mem|
  {
    mem[..address] + data + mem[address + |data|..]
  }

  /** mem with the bits that are 0 in data cleared: all that programming without erasing can do. */
  function AndOverlay(mem: seq<bv8>, address: nat, data: seq<bv8>): (r: seq<bv8>)
    requires address + |data| <= |mem|
    ensures |r| == |mem|
  {
    seq(|mem|, i requires 0 <= i < |mem| =>
      if address <= i < address + |data| then And(mem[i], data[i - address]) else mem[i])
  }

  lemma AndBit(x: bv8, y: bv8, bit: bv8)
    requires bit < 8
    ensures (And(x, y) >> bit) & 1 == if (y >> bit) & 1 == 0 then 0 else (x >> bit) & 1
  {
    match bit {
      case 0 => { } case 1 => { } case 2 => { } case 3 => { } case 4 => { } case 5 => { } case 6 => { } case _ => { }
    }
  }

  /** Bit by bit: a bit that is 0 in the data is cleared, and no other bit changes. */
  lemma AndOverlayBit(mem: seq<bv8>, address: nat, data: seq<bv8>, k: nat, bit: bv8)
    requires address + |data| <= |mem| && k < |mem| && bit < 8
    ensures (AndOverlay(mem, address, data)[k] >> bit) & 1
         == if address <= k < address + |data| && (data[k - address] >> bit) & 1 == 0 then 0 else (mem[k] >> bit) & 1
  {
    hide And;
    if address <= k < address + |data| {
      AndBit(mem[k], data[k - address], bit);
    }
  }

  /** A write without blank checking is right exactly where no bit has to become 1. */
  lemma AndOverlayIsOverlay(mem: seq<bv8>, address: nat, data: seq<bv8>)
    requires address + |data| <= |mem|
    ensures AndOverlay(mem, address, data) == Overlay(mem, address, data)
       <==> forall i :: 0 <= i < |data| ==> And(mem[address + i], data[i]) == data[i]
  {
    var a, o := AndOverlay(mem, address, data), Overlay(mem, address, data);
    if a == o {
      forall i | 0 <= i < |data|
        ensures And(mem[address + i], data[i]) == data[i]
      {
        assert a[address + i] == o[address + i];
      }
    }
    if forall i :: 0 <= i < |data| ==> And(mem[address + i], data[i]) == data[i] {
      forall k | 0 <= k < |mem|
        ensures a[k] == o[k]
      {
        if address <= k < address + |data| {
          assert And(mem[address + (k - address)], data[k - address]) == data[k - address];
        }
      }
    }
  }

  /** On erased memory it is always right. */
  lemma AndOverlayOnErased(mem: seq<bv8>, address: nat, data: seq<bv8>)
    requires address + |data| <= |mem|
    requires forall i :: address <= i < address + |data| ==> mem[i] == 0xFF
    ensures AndOverlay(mem, address, data) == Overlay(mem, address, data)
  {
  }

  /** Clearing bits changes nothing exactly where they are clear already. */
  lemma AndOverlayKeepsExactlyWhen(mem: seq<bv8>, address: nat, mask: seq<bv8>)
    requires address + |mask| <= |mem|
    ensures AndOverlay(mem, address, mask) == mem
       <==> forall i :: 0 <= i < |mask| ==> And(mask[i], mem[address + i]) == mem[address + i]
  {
    hide And;
    var a := AndOverlay(mem, address, mask);
    if i :| 0 <= i < |mask| && And(mask[i], mem[address + i]) != mem[address + i] {
      AndLaws(mask[i], mem[address + i]);
      assert a[address + i] != mem[address + i];
    } else {
      forall k | 0 <= k < |mem|
        ensures a[k] == mem[k]
      {
        if address <= k < address + |mask| {
          AndLaws(mask[k - address], mem[k]);
          assert And(mask[k - address], mem[address + (k - address)]) == mem[address + (k - address)];
        }
      }
    }
  }

  /** A page buffer that is empty when a write begins does no harm. */
  lemma EmptyBufferHarmless(mem: seq<bv8>, address: nat, mask: seq<bv8>)
    requires address + |mask| <= |mem| && forall j :: 0 <= j < |mask| ==> mask[j] == 0xFF
    ensures AndOverlay(mem, address, mask) == mem
  {
    hide And;
    forall j | 0 <= j < |mask|
      ensures And(mask[j], mem[address + j]) == mem[address + j]
    {
      AndLaws(mem[address + j], 0);
    }
    AndOverlayKeepsExactlyWhen(mem, address, mask);
  }

  /** What a write leaves at each address. */
  function Written(mem: seq<bv8>, address: nat, data: seq<bv8>, erasing: bool): (r: seq<bv8>)
    requires address + |data| <= |mem|
    ensures |r| == |mem|
  {
    if erasing then Overlay(mem, address, data) else AndOverlay(mem, address, data)
  }

  /** The byte of Written at i, without the whole. */
  function WrittenAt(mem: seq<bv8>, address: nat, data: seq<bv8>, erasing: bool, i: nat): bv8
    requires address + |data| <= |mem| && i < |mem|
  {
    if i < address || address + |data| <= i then mem[i]
    else if erasing then data[i - address] else And(mem[i], data[i - address])
  }
}

module NvmFlash {
  import opened Multiples
  import opened Overlays

  /** How many of the n bytes for address lie below x. */
  function Consumed(address: nat, n: nat, x: nat): (r: nat)
    ensures r <= n
  {
    if x <= address then 0 else if x - address <= n then x - address else n
  }

  /** What belongs into the page buffer for address i: new data, or what must survive. */
  function Merged(from: seq<bv8>, address: nat, data: seq<bv8>, blankCheck: bool, i: nat): bv8
    requires i < |from|
  {
    if address <= i < address + |data| then data[i - address]
    else if blankCheck then from[i] else 0xFF
  }

  lemma PagePosition(base: nat, pos: nat, pageSize: nat)
    requires pageSize > 0 && base % pageSize == 0 && pos < pageSize
    ensures (base + pos) % pageSize == pos
  {
    SameRemainder(pos, base, pageSize);
    RemainderUnique(pos, 0, pos, pageSize);
  }

  lemma NextPage(base: nat, pageSize: nat, n: nat)
    requires pageSize > 0 && base % pageSize == 0 && n % pageSize == 0 && base < n
    ensures (base + pageSize) % pageSize == 0 && base + pageSize <= n
  {
    MulMod(1, pageSize);
    AddMultiples(base, pageSize, pageSize);
    AddMultiples(n, base, pageSize);
    SmallMultiple(n - base, pageSize);
  }

  lemma FirstPage(address: nat, n: nat, pageSize: nat)
    requires pageSize > 0
    ensures address - address % pageSize >= 0
    ensures (address - address % pageSize) % pageSize == 0 && Consumed(address, n, address - address % pageSize) == 0
    ensures address - address % pageSize <= address < address - address % pageSize + pageSize
  {
    CutRemainder(address, pageSize);
    DivMod(address, pageSize);
    MulAtLeast(address / pageSize, pageSize);
  }

  /** The page in which data is still to be written takes at least one byte of it. */
  lemma ConsumedGrows(address: nat, n: nat, page: nat, pageSize: nat)
    requires page <= address ==> page + pageSize > address
    requires Consumed(address, n, page) < n && pageSize > 0
    ensures Consumed(address, n, page) < Consumed(address, n, page + pageSize) <= n
    ensures Consumed(address, n, page + pageSize) < n ==> page + pageSize < address + n
  {
  }

  lemma EmptyPage(address: nat, n: nat, pageSize: nat)
    ensures Consumed(address, n, 0) == 0 && (pageSize > 0 ==> 0 % pageSize == 0)
  {
  }

  lemma WholePage(address: nat, n: nat, pageSize: nat)
    requires address + n <= pageSize
    ensures Consumed(address, n, pageSize) == n
  {
  }

  /** What programming the page buffer, which held left before, leaves at address i. */
  lemma PageByte(from: seq<bv8>, address: nat, data: seq<bv8>, blankCheck: bool, erase: bool, left: bv8, i: nat)
    requires i < |from| && address + |data| <= |from| && (erase ==> blankCheck)
    requires blankCheck && !erase ==> from[i] == 0xFF
    ensures var loaded := And(left, Merged(from, address, data, blankCheck, i));
      (if erase then loaded else And(from[i], loaded)) == And(WrittenAt(from, address, data, blankCheck, i), left)
  {
    hide And;
    var merged := Merged(from, address, data, blankCheck, i);
    AndLaws(left, merged);
    AndLaws(And(left, merged), 0);
    AndSwap(from[i], left, merged);
    AndLaws(left, And(from[i], merged));
    AndLaws(from[i], merged);
  }

  /** The byte at i when the page buffer held left before the page at page was written. */
  function LeftAt(mem: seq<bv8>, address: nat, data: seq<bv8>, erasing: bool, page: nat, left: seq<bv8>, i: nat): bv8
    requires address + |data| <= |mem| && i < |mem|
  {
    var w := WrittenAt(mem, address, data, erasing, i);
    if page <= i < page + |left| then And(w, left[i - page]) else w
  }

  lemma LeftPointwise(mem: seq<bv8>, address: nat, data: seq<bv8>, erasing: bool, page: nat, left: seq<bv8>,
                      r: seq<bv8>)
    requires address + |data| <= |mem| == |r| && page + |left| <= |mem|
    requires forall i :: 0 <= i < |mem| ==> r[i] == LeftAt(mem, address, data, erasing, page, left, i)
    ensures r == AndOverlay(Written(mem, address, data, erasing), page, left)
  {
    hide And;
    var w := Written(mem, address, data, erasing);
    forall i | 0 <= i < |mem|
      ensures w[i] == WrittenAt(mem, address, data, erasing, i)
    {
    }
  }

  lemma SameByte(mem: seq<bv8>, was: seq<bv8>, address: nat, data: seq<bv8>, erasing: bool, i: nat)
    requires |mem| == |was| && i < |was| && mem[i] == was[i] && address + |data| <= |was|
    ensures WrittenAt(mem, address, data, erasing, i) == WrittenAt(was, address, data, erasing, i)
  {
  }

  lemma OutsideData(mem: seq<bv8>, address: nat, data: seq<bv8>, erasing: bool, i: nat)
    requires i < |mem| && address + |data| <= |mem| && (i < address || address + |data| <= i)
    ensures WrittenAt(mem, address, data, erasing, i) == mem[i]
  {
  }

  lemma PageByteLeft(mem: seq<bv8>, address: nat, data: seq<bv8>, erasing: bool, page: nat, left: seq<bv8>, i: nat)
    requires address + |data| <= |mem| && i < |mem|
    ensures LeftAt(mem, address, data, erasing, page, left, i) ==
      if page <= i < page + |left| then And(WrittenAt(mem, address, data, erasing, i), left[i - page])
      else WrittenAt(mem, address, data, erasing, i)
  {
  }

  /** The page at page, written from a page buffer that held loaded before. */
  lemma PageDone(was: seq<bv8>, before: seq<bv8>, mem: seq<bv8>, address: nat, data: seq<bv8>, erasing: bool,
                 first: nat, left: seq<bv8>, page: nat, loaded: seq<bv8>)
    requires address + |data| <= |was| == |before| == |mem| && page + |loaded| <= |was| && |loaded| == |left|
    requires forall i :: page <= i < |was| ==> before[i] == was[i]
    requires forall i :: page <= i < page + |loaded| ==>
      mem[i] == And(WrittenAt(before, address, data, erasing, i), loaded[i - page])
    requires if page == first then loaded == left
             else first + |left| <= page && forall j :: 0 <= j < |loaded| ==> loaded[j] == 0xFF
    ensures forall i :: page <= i < page + |loaded| ==> mem[i] == LeftAt(was, address, data, erasing, first, left, i)
  {
    hide And, WrittenAt, LeftAt;
    forall i | page <= i < page + |loaded|
      ensures mem[i] == LeftAt(was, address, data, erasing, first, left, i)
    {
      SameByte(before, was, address, data, erasing, i);
      AndLaws(WrittenAt(was, address, data, erasing, i), 0);
      PageByteLeft(was, address, data, erasing, first, left, i);
    }
  }

  lemma BelowData(was: seq<bv8>, address: nat, data: seq<bv8>, erasing: bool, page: nat, left: seq<bv8>)
    requires address + |data| <= |was| && page <= address
    ensures forall i :: 0 <= i < page ==> was[i] == LeftAt(was, address, data, erasing, page, left, i)
  {
  }

  /** When every byte of data is used, the rest of the memory is as it should be. */
  lemma NothingLeft(was: seq<bv8>, address: nat, data: seq<bv8>, erasing: bool, page: nat, mem: seq<bv8>, first: nat,
                    left: seq<bv8>)
    requires address + |data| <= |was| == |mem| && page <= |was| && Consumed(address, |data|, page) >= |data|
    requires forall i :: 0 <= i < page ==> mem[i] == LeftAt(was, address, data, erasing, first, left, i)
    requires forall i :: page <= i < |was| ==> mem[i] == was[i]
    requires page <= first || first + |left| <= page
    ensures data == [] && page <= first ==> mem == was
    ensures data != [] && page > first ==>
      forall i :: 0 <= i < |was| ==> mem[i] == LeftAt(was, address, data, erasing, first, left, i)
  {
  }

  class Flash {
    const pageSize: nat
    /** The application section and the user signature row. */
    var mem: seq<bv8>
    var signature: seq<bv8>
    /** The page buffer of the controller. */
    var buffer: seq<bv8>

    constructor (pageSize: nat, mem: seq<bv8>, signature: seq<bv8>)
      requires pageSize > 0 && pageSize % 2 == 0 && |signature| == pageSize
      ensures Valid() && Flushed() && this.pageSize == pageSize && this.mem == mem && this.signature == signature
    {
      this.pageSize, this.mem, this.signature := pageSize, mem, signature;
      buffer := seq(pageSize, _ => 0xFF);
    }

    ghost predicate Valid()
      reads this
    {
      pageSize > 0 && pageSize % 2 == 0 && |buffer| == pageSize && |signature| == pageSize
    }

    /** The page buffer is empty. */
    ghost predicate Flushed()
      reads this
    {
      forall i :: 0 <= i < |buffer| ==> buffer[i] == 0xFF
    }

    // ----- the controller -----

    /** Loads a word into the page buffer; bits already loaded as 0 stay 0. */
    method LoadWord(wordAddress: nat, low: bv8, high: bv8)
      requires Valid() && wordAddress % pageSize + 1 < pageSize
      modifies this`buffer
      ensures Valid()
      ensures var at := wordAddress % pageSize;
        buffer == old(buffer)[at := And(old(buffer)[at], low)][at + 1 := And(old(buffer)[at + 1], high)]
    {
      var at := wordAddress % pageSize;
      buffer := buffer[at := And(buffer[at], low)][at + 1 := And(buffer[at + 1], high)];
    }

    /** Erases a page and writes the page buffer to it; the page buffer is flushed. */
    method AtomicWritePage(page: nat)
      requires Valid() && page + pageSize <= |mem|
      modifies this`mem, this`buffer
      ensures Valid() && Flushed()
      ensures mem == old(mem[..page] + buffer + mem[page + pageSize..])
    {
      mem := mem[..page] + buffer + mem[page + pageSize..];
      buffer := seq(pageSize, _ => 0xFF);
    }

    /** Writes the page buffer to a page without erasing it; the page buffer is flushed. */
    method SplitWritePage(page: nat)
      requires Valid() && page + pageSize <= |mem|
      modifies this`mem, this`buffer
      ensures Valid() && Flushed()
      ensures mem == AndOverlay(old(mem), page, old(buffer))
    {
      mem := AndOverlay(mem, page, buffer);
      buffer := seq(pageSize, _ => 0xFF);
    }

    // ----- the driver -----

    /** The word at address at: what is there or, without blank checking, 0xFFFF, with new data put in. */
    method MergeWord(from: seq<bv8>, at: nat, address: nat, data: seq<bv8>, done: nat, blankCheck: bool)
      returns (low: bv8, high: bv8, consumed: nat, dirty: bool)
      requires at + 1 < |from| && done == Consumed(address, |data|, at)
      ensures low == Merged(from, address, data, blankCheck, at)
        && high == Merged(from, address, data, blankCheck, at + 1)
      ensures consumed == Consumed(address, |data|, at + 2)
      ensures dirty <==> blankCheck && !(from[at] == 0xFF && from[at + 1] == 0xFF)
    {
      low, high, consumed, dirty := 0xFF, 0xFF, done, false;
      if blankCheck {
        low, high := from[at], from[at + 1];
        if low != 0xFF || high != 0xFF {
          dirty := true;
        }
      }
      if consumed < |data| {
        if address + consumed == at {
          low := data[consumed];
          consumed := consumed + 1;
        }
      }
      if consumed < |data| {
        if address + consumed == at + 1 {
          high := data[consumed];
          consumed := consumed + 1;
        }
      }
    }

    /**
     * Loads the page at base into the page buffer, word by word, with the bytes of data in
     * place of the old ones; done and consumed count the bytes of data used before and after,
     * and erase says that the page was not blank.
     */
    method FillPage(from: seq<bv8>, base: nat, address: nat, data: seq<bv8>, done: nat, blankCheck: bool)
      returns (consumed: nat, erase: bool)
      requires Valid() && base % pageSize == 0 && base + pageSize <= |from|
      requires done == Consumed(address, |data|, base)
      modifies this`buffer
      ensures Valid() && consumed == Consumed(address, |data|, base + pageSize)
      ensures forall j :: 0 <= j < pageSize ==>
        buffer[j] == And(old(buffer)[j], Merged(from, address, data, blankCheck, base + j))
      ensures erase ==> blankCheck
      ensures blankCheck && !erase ==> forall j :: base <= j < base + pageSize ==> from[j] == 0xFF
    {
      hide And, Consumed, Merged;
      consumed, erase := done, false;
      var pos := 0;
      while pos < pageSize
        invariant 0 <= pos <= pageSize && pos % 2 == 0 && Valid()
        invariant consumed == Consumed(address, |data|, base + pos)
        invariant forall j :: 0 <= j < pos ==>
          buffer[j] == And(old(buffer)[j], Merged(from, address, data, blankCheck, base + j))
        invariant forall j :: pos <= j < pageSize ==> buffer[j] == old(buffer)[j]
        invariant erase ==> blankCheck
        invariant blankCheck && !erase ==> forall j :: base <= j < base + pos ==> from[j] == 0xFF
      {
        var low, high, dirty;
        low, high, consumed, dirty := MergeWord(from, base + pos, address, data, consumed, blankCheck);
        erase := erase || dirty;
        PagePosition(base, pos, pageSize);
        AndLaws(low, 0xFF);
        AndLaws(high, 0xFF);
        LoadWord(base + pos, low, high);
        pos := pos + 2;
      }
    }

    /** One turn of the page loop: the page at page becomes what it should be, but for what the page buffer held. */
    method PutPage(page: nat, address: nat, data: seq<bv8>, done: nat, blankCheck: bool) returns (consumed: nat)
      requires Valid() && page % pageSize == 0 && page + pageSize <= |mem|
      requires address + |data| <= |mem| && done == Consumed(address, |data|, page)
      modifies this`mem, this`buffer
      ensures Valid() && Flushed() && consumed == Consumed(address, |data|, page + pageSize)
      ensures |mem| == old(|mem|)
      ensures forall i :: page <= i < page + pageSize ==>
        mem[i] == And(WrittenAt(old(mem), address, data, blankCheck, i), old(buffer)[i - page])
      ensures forall i :: 0 <= i < page || page + pageSize <= i < |mem| ==> mem[i] == old(mem[i])
    {
      hide And, Consumed, Merged, WrittenAt;
      ghost var left := buffer;
      var erase;
      consumed, erase := FillPage(mem, page, address, data, done, blankCheck);
      forall i | page <= i < page + pageSize
        ensures (if erase then buffer[i - page] else And(mem[i], buffer[i - page]))
             == And(WrittenAt(mem, address, data, blankCheck, i), left[i - page])
      {
        assert buffer[i - page] == And(left[i - page], Merged(mem, address, data, blankCheck, page + (i - page)));
        PageByte(mem, address, data, blankCheck, erase, left[i - page], i);
      }
      if erase {
        AtomicWritePage(page);
      } else {
        SplitWritePage(page);
      }
    }

    /**
     * Replaces the bytes from address on by data, page by page. A page that is not blank is
     * erased with the write; without blank checking no page is erased. Bits that were 0 in the
     * page buffer are cleared in the first page.
     */
    method EraseAndWriteBuffer(address: nat, data: seq<bv8>, blankCheck: bool)
      requires Valid() && |mem| % pageSize == 0 && address + |data| <= |mem|
      modifies this`mem, this`buffer
      ensures Valid() && (data == [] ==> mem == old(mem) && buffer == old(buffer))
      ensures data != [] ==>
        var page := address - address % pageSize;
        && Flushed() && 0 <= page && page + pageSize <= |old(mem)|
        && mem == AndOverlay(Written(old(mem), address, data, blankCheck), page, old(buffer))
    {
      hide And, Consumed, Merged, WrittenAt, Written, LeftAt, AndOverlay;
      ghost var was, left := mem, buffer;
      FirstPage(address, |data|, pageSize);
      var page: nat, consumed := address - address % pageSize, 0;
      ghost var first := page;
      BelowData(was, address, data, blankCheck, first, left);
      while consumed < |data|
        invariant Valid() && |mem| == |was| && page % pageSize == 0 && first <= page <= |was|
        invariant if page == first then buffer == left else Flushed() && first + pageSize <= page
        invariant consumed == Consumed(address, |data|, page)
        invariant consumed < |data| ==> page < address + |data|
        invariant data == [] ==> page == first
        invariant page <= address ==> page + pageSize > address
        invariant forall i :: 0 <= i < page && i < |was| ==>
          mem[i] == LeftAt(was, address, data, blankCheck, first, left, i)
        invariant forall i :: page <= i < |was| ==> mem[i] == was[i]
        decreases |data| - consumed
      {
        NextPage(page, pageSize, |was|);
        ConsumedGrows(address, |data|, page, pageSize);
        ghost var before, loaded := mem, buffer;
        consumed := PutPage(page, address, data, consumed, blankCheck);
        PageDone(was, before, mem, address, data, blankCheck, first, left, page, loaded);
        page := page + pageSize;
      }
      NothingLeft(was, address, data, blankCheck, page, mem, first, left);
      if data != [] {
        LeftPointwise(was, address, data, blankCheck, first, left, mem);
      }
    }

    /**
     * Replaces the bytes from address on of the user signature row, which is one page, erased
     * beforehand when blank checking finds it in use. Bits that were 0 in the page buffer are cleared.
     */
    method UserSigWriteBuffer(address: nat, data: seq<bv8>, blankCheck: bool)
      requires Valid() && address + |data| <= pageSize
      modifies this`signature, this`buffer
      ensures Valid() && Flushed()
      ensures signature == AndOverlay(Written(old(signature), address, data, blankCheck), 0, old(buffer))
    {
      hide And, Consumed, Merged, WrittenAt, Written, AndOverlay, LeftAt;
      ghost var was, left := signature, buffer;
      var consumed, erase := 0, false;
      EmptyPage(address, |data|, pageSize);
      while consumed < |data|
        invariant Valid() && signature == was && consumed <= |data| && (erase ==> blankCheck)
        invariant consumed == 0 ==> buffer == left && !erase
        invariant consumed > 0 ==> consumed == |data| && forall i :: 0 <= i < pageSize ==>
          (if erase then buffer[i] else And(signature[i], buffer[i]))
            == LeftAt(was, address, data, blankCheck, 0, left, i)
      {
        consumed, erase := FillPage(signature, 0, address, data, consumed, blankCheck);
        forall i | 0 <= i < pageSize
          ensures (if erase then buffer[i] else And(signature[i], buffer[i]))
            == LeftAt(was, address, data, blankCheck, 0, left, i)
        {
          assert buffer[i] == And(left[i], Merged(signature, address, data, blankCheck, 0 + i));
          PageByte(signature, address, data, blankCheck, erase, left[i], i);
          PageByteLeft(was, address, data, blankCheck, 0, left, i);
        }
        WholePage(address, |data|, pageSize);
      }
      if |data| == 0 {
        forall i | 0 <= i < pageSize
          ensures And(signature[i], buffer[i]) == LeftAt(was, address, data, blankCheck, 0, left, i)
        {
          OutsideData(was, address, data, blankCheck, i);
          PageByteLeft(was, address, data, blankCheck, 0, left, i);
        }
      }
      WriteSignature(erase);
      LeftPointwise(was, address, data, blankCheck, 0, left, signature);
    }

    /** Erases the row if it must be, and writes the page buffer to it; the page buffer is flushed. */
    method WriteSignature(erase: bool)
      requires Valid()
      modifies this`signature, this`buffer
      ensures Valid() && Flushed()
      ensures forall i :: 0 <= i < pageSize ==>
        signature[i] == if erase then old(buffer)[i] else And(old(signature)[i], old(buffer)[i])
    {
      hide And;
      if erase {
        signature := seq(pageSize, _ => 0xFF);
      }
      forall i | 0 <= i < pageSize
        ensures And(0xFF, buffer[i]) == buffer[i]
      {
        AndLaws(buffer[i], 0);
      }
      signature := AndOverlay(signature, 0, buffer);
      buffer := seq(pageSize, _ => 0xFF);
    }
  }
}

module NvmEeprom {
  import opened Overlays

  const PAGE: nat := 32

  /** A location of the EEPROM page buffer. */
  datatype Location = Unloaded | Loaded(value: bv8)

  /** A location after loading value: what was already there is ANDed. */
  function Reload(was: Location, value: bv8): bv8 {
    if was.Loaded? then And(was.value, value) else value
  }

  /** What is programmed over was from a location of the page buffer. */
  function Programmed(was: bv8, location: Location): bv8 {
    if location.Loaded? then location.value else was
  }

  /** The first step of a write loads a full page. */
  predicate PageFirst(address: nat, data: seq<bv8>) {
    address % PAGE == 0 && |data| >= PAGE
  }

  /** The bytes a write really programs when it starts on the page buffer loaded. */
  function Effective(loaded: seq<Location>, address: nat, data: seq<bv8>): (r: seq<bv8>)
    requires |loaded| == PAGE
    ensures |r| == |data|
  {
    seq(|data|, i requires 0 <= i < |data| =>
      if PageFirst(address, data) && i < PAGE then Reload(loaded[i], data[i]) else data[i])
  }

  /**
   * The write does what it says exactly when it does not start with a full page, or what was
   * left in the page buffer has no 0 bit where the first page has a 1.
   */
  lemma WritesDataExactlyWhen(mem: seq<bv8>, loaded: seq<Location>, address: nat, data: seq<bv8>)
    requires |loaded| == PAGE && address + |data| <= |mem|
    ensures Overlay(mem, address, Effective(loaded, address, data)) == Overlay(mem, address, data)
       <==> (PageFirst(address, data) ==>
               forall i :: 0 <= i < PAGE && loaded[i].Loaded? ==> And(loaded[i].value, data[i]) == data[i])
  {
    hide And;
    var e := Effective(loaded, address, data);
    var r, o := Overlay(mem, address, e), Overlay(mem, address, data);
    if r == o {
      forall i | 0 <= i < |data|
        ensures e[i] == data[i]
      {
        assert r[address + i] == e[i] && o[address + i] == data[i];
      }
      if PageFirst(address, data) {
        forall i | 0 <= i < PAGE && loaded[i].Loaded?
          ensures And(loaded[i].value, data[i]) == data[i]
        {
          assert e[i] == data[i];
        }
      }
    }
    if PageFirst(address, data)
      ==> forall i :: 0 <= i < PAGE && loaded[i].Loaded? ==> And(loaded[i].value, data[i]) == data[i] {
      assert e == data;
    }
  }

  lemma PageOf(address: nat)
    ensures (address % 256) % PAGE == address % PAGE
    ensures address - address % PAGE <= address < address - address % PAGE + PAGE
  {
  }

  class Eeprom {
    var mem: seq<bv8>
    var loaded: seq<Location>

    constructor (mem: seq<bv8>, loaded: seq<Location>)
      requires |mem| % PAGE == 0 && |mem| <= 256 * PAGE && |loaded| == PAGE
      ensures Valid() && this.mem == mem && this.loaded == loaded
    {
      this.mem, this.loaded := mem, loaded;
    }

    /** The page index is a byte, which bounds the memory. */
    ghost predicate Valid()
      reads this
    {
      |loaded| == PAGE && |mem| % PAGE == 0 && |mem| <= 256 * PAGE
    }

    ghost predicate Flushed()
      reads this
    {
      forall i :: 0 <= i < |loaded| ==> loaded[i] == Unloaded
    }

    method FlushBuffer()
      requires Valid()
      modifies this`loaded
      ensures Valid() && Flushed()
    {
      if exists i :: 0 <= i < |loaded| && loaded[i].Loaded? {
        loaded := seq(PAGE, _ => Unloaded);
      }
    }

    /** The address is cut to a byte, and the controller uses its place in the page. */
    method LoadByte(byteAddress: nat, value: bv8)
      requires Valid() && byteAddress < 256
      modifies this`loaded
      ensures Valid()
      ensures loaded == old(loaded)[byteAddress % PAGE := Loaded(Reload(old(loaded)[byteAddress % PAGE], value))]
    {
      var at := byteAddress % PAGE;
      loaded := loaded[at := Loaded(Reload(loaded[at], value))];
    }

    method LoadPage(values: seq<bv8>)
      requires Valid() && |values| >= PAGE
      modifies this`loaded
      ensures Valid()
      ensures forall i :: 0 <= i < PAGE ==> loaded[i] == Loaded(Reload(old(loaded)[i], values[i]))
    {
      hide Reload;
      for i := 0 to PAGE
        invariant Valid()
        invariant forall j :: 0 <= j < i ==> loaded[j] == Loaded(Reload(old(loaded)[j], values[j]))
        invariant forall j :: i <= j < PAGE ==> loaded[j] == old(loaded)[j]
      {
        LoadByte(i, values[i]);
      }
    }

    /** Erases and writes the loaded locations of the page that holds address; flushes the buffer. */
    method ProgramPage(address: nat)
      requires Valid() && address < |mem|
      modifies this`mem, this`loaded
      ensures Valid() && Flushed() && |mem| == |old(mem)|
      ensures var page := address - address % PAGE; forall k :: 0 <= k < |mem| ==>
        mem[k] == if page <= k < page + PAGE then Programmed(old(mem)[k], old(loaded)[k - page]) else old(mem)[k]
    {
      var page := address - address % PAGE;
      var was, locations := mem, loaded;
      mem := seq(|was|, k requires 0 <= k < |was| =>
        if page <= k < page + PAGE then Programmed(was[k], locations[k - page]) else was[k]);
      loaded := seq(PAGE, _ => Unloaded);
    }

    method AtomicWritePage(page: nat)
      requires Valid() && page < 256 && page * PAGE < |mem|
      modifies this`mem, this`loaded
      ensures Valid() && Flushed() && |mem| == |old(mem)|
      ensures forall k :: 0 <= k < |mem| ==>
        mem[k] == if page * 32 <= k < page * 32 + 32 then Programmed(old(mem)[k], old(loaded)[k - page * 32])
                  else old(mem)[k]
    {
      ProgramPage(page * PAGE % 0x10000);
    }

    /** Writes one byte, whatever the page buffer held. */
    method WriteByte(address: nat, value: bv8)
      requires Valid() && address < |mem|
      modifies this`mem, this`loaded
      ensures Valid() && Flushed()
      ensures mem == old(mem)[address := value]
    {
      FlushBuffer();
      PageOf(address);
      LoadByte(address % 256, value);
      ProgramPage(address);
    }

    /** Writes data from address on, by full pages where it can and byte by byte elsewhere. */
    method EraseAndWriteBuffer(address: nat, data: seq<bv8>)
      requires Valid() && address + |data| <= |mem|
      modifies this`mem, this`loaded
      ensures Valid() && mem == Overlay(old(mem), address, Effective(old(loaded), address, data))
      ensures if data == [] then loaded == old(loaded) else Flushed()
    {
      ghost var was, effective := mem, Effective(loaded, address, data);
      var n := 0;
      while n < |data|
        invariant 0 <= n <= |data| && Valid() && |mem| == |was|
        invariant if n == 0 then loaded == old(loaded) else Flushed()
        invariant PageFirst(address, data) && n > 0 ==> n >= PAGE
        invariant forall k :: 0 <= k < |was| ==>
          mem[k] == if address <= k < address + n then effective[k - address] else was[k]
      {
        if (address + n) % PAGE == 0 && |data| - n >= PAGE {
          LoadPage(data[n..]);
          AtomicWritePage((address + n) / PAGE);
          n := n + PAGE;
        } else {
          WriteByte(address + n, data[n]);
          n := n + 1;
        }
      }
    }
  }
}
