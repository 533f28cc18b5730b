// Firmware images as hex files: whichever way an image is cut into records, the loader of
// pc/hid_bootloader/intel_hex.c puts it together again, and the host program flashes it.

module HexImages {
  import opened Commands
  import opened IntelHex
  import opened Loader
  import FlashingHost
  import Programmer

  /** The paragraph from which record k counts its offset: that of the last segment record before it. */
  function Paragraph(records: seq<Record>, k: nat): nat
    requires k <= |records|
  {
    if k == 0 then 0
    else if records[k - 1].Segment? then records[k - 1].value
    else Paragraph(records, k - 1)
  }

  /** Where byte i of data record k belongs: offsets wrap around inside 64 KB behind the paragraph. */
  function Place(records: seq<Record>, k: nat, i: nat): nat
    requires k < |records| && records[k].Data?
  {
    16 * Paragraph(records, k) + (records[k].offset + i) % 0x10000
  }

  predicate HasByte(records: seq<Record>, k: nat, i: nat) {
    k < |records| && records[k].Data? && i < |records[k].bytes|
  }

  /** The records are a cut of the image: they agree with it, and leave out nothing but bytes that are 0xFF. */
  ghost predicate CutOf(records: seq<Record>, mem: seq<Byte>) {
    && (forall k: nat, i: nat :: HasByte(records, k, i) ==>
          Place(records, k, i) < |mem| && mem[Place(records, k, i)] == records[k].bytes[i])
    && (forall a :: 0 <= a < |mem| && mem[a] != 0xFF ==>
          exists k: nat, i: nat :: HasByte(records, k, i) && Place(records, k, i) == a)
  }

  predicate AllWellFormed(records: seq<Record>) {
    forall k :: 0 <= k < |records| ==> WellFormed(records[k])
  }

  /** The loader's base address is sixteen times the paragraph. */
  lemma {:induction false} BaseIsParagraph(records: seq<Record>, k: nat)
    requires AllWellFormed(records) && k <= |records|
    ensures Paragraph(records, k) < 0x10000 && BaseAfter(records[..k], 0) == 16 * Paragraph(records, k)
  {
    if k > 0 {
      BaseIsParagraph(records, k - 1);
      var r := records[k - 1];
      assert WellFormed(r);
      assert records[..k] == records[..k - 1] + [r];
      Appended(records[..k - 1], [r], 0);
      OneRecord(r, BaseAfter(records[..k - 1], 0));
    }
  }

  /** What record k writes. */
  lemma RecordPlaces(records: seq<Record>, k: nat)
    requires AllWellFormed(records) && k < |records|
    ensures var base := BaseAfter(records[..k], 0);
      && Writes(records[..k + 1], 0) == Writes(records[..k], 0) + RecordWrites(base, records[k])
      && (!records[k].Data? ==> RecordWrites(base, records[k]) == [])
      && (records[k].Data? ==>
            && |RecordWrites(base, records[k])| == |records[k].bytes|
            && forall i :: 0 <= i < |records[k].bytes| ==>
                 RecordWrites(base, records[k])[i] == Write(Place(records, k, i), records[k].bytes[i]))
  {
    assert records[..k + 1] == records[..k] + [records[k]];
    Appended(records[..k], [records[k]], 0);
    OneRecord(records[k], BaseAfter(records[..k], 0));
    BaseIsParagraph(records, k);
  }

  /** The image has the byte that a write writes. */
  predicate Agrees(mem: seq<Byte>, w: Write) {
    w.address < |mem| && mem[w.address] == w.byte
  }

  predicate AllAgree(mem: seq<Byte>, writes: seq<Write>) {
    forall j :: 0 <= j < |writes| ==> Agrees(mem, writes[j])
  }

  predicate Written(writes: seq<Write>, address: nat) {
    exists j :: 0 <= j < |writes| && writes[j].address == address
  }

  /** The first k records write what the image has, and every place that they have a byte for. */
  lemma {:induction false} WritesOfCut(records: seq<Record>, mem: seq<Byte>, k: nat)
    requires AllWellFormed(records) && CutOf(records, mem) && k <= |records|
    ensures AllAgree(mem, Writes(records[..k], 0))
    ensures forall m: nat, i: nat :: m < k && HasByte(records, m, i) ==>
      Written(Writes(records[..k], 0), Place(records, m, i))
  {
    if k > 0 {
      WritesOfCut(records, mem, k - 1);
      RecordPlaces(records, k - 1);
      hide Writes, RecordWrites, Place;
      var before, now := Writes(records[..k - 1], 0), RecordWrites(BaseAfter(records[..k - 1], 0), records[k - 1]);
      forall j | 0 <= j < |now|
        ensures Agrees(mem, now[j])
      {
        assert HasByte(records, k - 1, j);
      }
      forall m: nat, i: nat | m < k && HasByte(records, m, i)
        ensures Written(before + now, Place(records, m, i))
      {
        if m < k - 1 {
          var j :| 0 <= j < |before| && before[j].address == Place(records, m, i);
          assert (before + now)[j].address == Place(records, m, i);
        } else {
          assert (before + now)[|before| + i] == now[i];
        }
      }
    }
  }

  lemma {:induction false} LastOfAgreeing(mem: seq<Byte>, writes: seq<Write>, address: nat)
    requires AllAgree(mem, writes)
    ensures if Written(writes, address) then address < |mem| && LastAt(writes, address) == mem[address]
            else LastAt(writes, address) == 0xFF
  {
    if writes != [] {
      var n := |writes| - 1;
      LastOfAgreeing(mem, writes[..n], address);
      assert Agrees(mem, writes[n]);
      if Written(writes[..n], address) {
        var j :| 0 <= j < n && writes[..n][j].address == address;
        assert writes[j].address == address;
      }
    }
  }

  /** Whichever way an image is cut, its records put it together again. */
  lemma ImageOfCut(records: seq<Record>, mem: seq<Byte>)
    requires AllWellFormed(records) && CutOf(records, mem) && |mem| == FIRMWARE_BUFFER_SIZE
    ensures Inside(Writes(records, 0)) && Image(Writes(records, 0)) == mem
  {
    hide Writes, LastAt, Place;
    var writes := Writes(records, 0);
    assert records[..|records|] == records;
    WritesOfCut(records, mem, |records|);
    forall j | 0 <= j < |writes|
      ensures writes[j].address < FIRMWARE_BUFFER_SIZE
    {
      assert Agrees(mem, writes[j]);
    }
    forall a | 0 <= a < FIRMWARE_BUFFER_SIZE
      ensures LastAt(writes, a) == mem[a]
    {
      LastOfAgreeing(mem, writes, a);
      if mem[a] != 0xFF {
        var k: nat, i: nat :| HasByte(records, k, i) && Place(records, k, i) == a;
      }
    }
  }

  // ----- files that write a place more than once -----

  /** Byte l of record m comes after byte i of record k. */
  predicate Later(m: nat, l: nat, k: nat, i: nat) {
    m > k || (m == k && l > i)
  }

  /** No later byte has the place of byte i of record k. */
  ghost predicate IsLast(records: seq<Record>, k: nat, i: nat)
    requires HasByte(records, k, i)
  {
    forall m: nat, l: nat :: HasByte(records, m, l) && Later(m, l, k, i) ==>
      Place(records, m, l) != Place(records, k, i)
  }

  lemma {:induction false} LaterPlaces(records: seq<Record>, k: nat, i: nat, n: nat)
    requires AllWellFormed(records) && HasByte(records, k, i) && IsLast(records, k, i) && k < n <= |records|
    ensures var writes, j := Writes(records[..n], 0), |Writes(records[..k], 0)| + i;
      && j < |writes| && writes[j] == Write(Place(records, k, i), records[k].bytes[i])
      && forall x :: j < x < |writes| ==> writes[x].address != Place(records, k, i)
    decreases n
  {
    hide Writes, RecordWrites, Place, IsLast, HasByte;
    var before, now := Writes(records[..n - 1], 0), RecordWrites(BaseAfter(records[..n - 1], 0), records[n - 1]);
    RecordPlaces(records, n - 1);
    OtherPlaces(records, k, i, n - 1);
    if n - 1 > k {
      LaterPlaces(records, k, i, n - 1);
    }
  }

  /** What a record writes behind byte i of record k goes to other places. */
  lemma OtherPlaces(records: seq<Record>, k: nat, i: nat, n: nat)
    requires AllWellFormed(records) && HasByte(records, k, i) && IsLast(records, k, i) && k <= n < |records|
    ensures var now := RecordWrites(BaseAfter(records[..n], 0), records[n]);
      && (n == k ==> i < |now| && now[i] == Write(Place(records, k, i), records[k].bytes[i]))
      && forall l: nat :: l < |now| && (n == k ==> l > i) ==> now[l].address != Place(records, k, i)
  {
    hide Writes, RecordWrites, Place;
    RecordPlaces(records, n);
    var now := RecordWrites(BaseAfter(records[..n], 0), records[n]);
    forall l: nat | l < |now| && (n == k ==> l > i)
      ensures now[l].address != Place(records, k, i)
    {
      assert HasByte(records, n, l) && Later(n, l, k, i);
    }
  }

  lemma {:induction false} LastAtPlace(writes: seq<Write>, j: nat)
    requires j < |writes| && forall x :: j < x < |writes| ==> writes[x].address != writes[j].address
    ensures LastAt(writes, writes[j].address) == writes[j].byte
  {
    var n := |writes| - 1;
    if j < n {
      LastAtPlace(writes[..n], j);
    }
  }

  /** Of the bytes that a file has for a place, in whichever records, the last one stays. */
  lemma LastByteStays(records: seq<Record>, k: nat, i: nat)
    requires AllWellFormed(records) && HasByte(records, k, i) && IsLast(records, k, i)
    ensures LastAt(Writes(records, 0), Place(records, k, i)) == records[k].bytes[i]
  {
    hide Writes, LastAt, Place, IsLast;
    assert records[..|records|] == records;
    LaterPlaces(records, k, i, |records|);
    LastAtPlace(Writes(records, 0), |Writes(records[..k], 0)| + i);
  }

  /** A data record behind a segment record: each byte is in its place, and none covers another. */
  lemma SegmentAndData(v: nat, offset: nat, bytes: seq<Byte>, i: nat)
    requires v < 0x10000 && offset < 0x10000 && i < |bytes| < 256
    ensures LastAt(Writes([Segment(v), Data(offset, bytes)], 0), 16 * v + (offset + i) % 0x10000) == bytes[i]
  {
    hide Writes, LastAt;
    var records := [Segment(v), Data(offset, bytes)];
    assert Paragraph(records, 1) == v;
    LastByteStays(records, 1, i);
  }

  // ----- the embedded info, as the firmware lays it out -----

  /** FW_INFO_t behind its signature string. */
  datatype FwInfo = FwInfo(versionMajor: Byte, versionMinor: Byte, signature: seq<Byte>,
                           flashSize: nat, pageSize: nat, eepromSize: nat, eepromPageSize: nat)
  {
    predicate Fits() {
      && |signature| == 3 && flashSize < 0x1_0000_0000 && pageSize < 0x10000
      && eepromSize < 0x1_0000_0000 && eepromPageSize < 0x10000
    }
  }

  /** The n bytes of a number, the least significant first. */
  function BytesOf(x: nat, n: nat): (bytes: seq<Byte>)
    ensures |bytes| == n
  {
    if n == 0 then [] else [x % 256] + BytesOf(x / 256, n - 1)
  }

  function Text(s: string): (bytes: seq<Byte>)
    requires forall i :: 0 <= i < |s| ==> s[i] as int < 256
    ensures |bytes| == |s|
  {
    seq(|s|, i requires 0 <= i < |s| => s[i] as int)
  }

  function Signature(): (bytes: seq<Byte>)
    ensures |bytes| == 8
  {
    Text("YamaNeko")
  }

  function InfoBytes(info: FwInfo): (bytes: seq<Byte>)
    requires info.Fits()
    ensures |bytes| == 25
  {
    Signature() + [info.versionMajor, info.versionMinor] + info.signature
    + BytesOf(info.flashSize, 4) + BytesOf(info.pageSize, 2) + BytesOf(info.eepromSize, 4)
    + BytesOf(info.eepromPageSize, 2)
  }

  /** The image has its first embedded info at p. */
  ghost predicate HasInfo(mem: seq<Byte>, p: nat, info: FwInfo) {
    && info.Fits() && p + 25 <= |mem| && mem[p..p + 25] == InfoBytes(info)
    && forall i :: 0 <= i < p ==> !SignatureAt(mem, i)
  }

  predicate SignatureAt(mem: seq<Byte>, i: nat)
    requires i + 8 <= |mem|
  {
    mem[i..i + 8] == Signature()
  }

  lemma FourBytes(x: nat)
    requires x < 0x1_0000_0000
    ensures var b := BytesOf(x, 4);
      b[0] as int + 256 * (b[1] as int + 256 * (b[2] as int + 256 * b[3] as int)) == x
    ensures x < 0x10000 ==> var b := BytesOf(x, 2); b[0] as int + 256 * b[1] as int == x
  {
    var x1, x2, x3 := x / 256, x / 256 / 256, x / 256 / 256 / 256;
    assert BytesOf(x3, 1) == [x3 % 256];
    assert BytesOf(x2, 2) == [x2 % 256] + BytesOf(x3, 1);
    assert BytesOf(x1, 3) == [x1 % 256] + BytesOf(x2, 2);
    assert BytesOf(x, 4) == [x % 256] + BytesOf(x1, 3);
    assert BytesOf(x, 2) == [x % 256] + BytesOf(x1, 1);
    assert BytesOf(x1, 1) == [x1 % 256];
  }

  lemma SignatureIsMagic()
    ensures Signature() == MAGIC
  {
  }

  /** The loader finds it, and reads its sizes right. */
  lemma InfoIsRead(mem: seq<Byte>, p: nat, info: FwInfo)
    requires |mem| == FIRMWARE_BUFFER_SIZE && HasInfo(mem, p, info)
    ensures InfoFrom(mem, 0) == p && p + INFO_SIZE <= |mem| && mem[p + 10..p + 13] == info.signature
    ensures FlashSize(mem, p) == info.flashSize && PageSize(mem, p) == info.pageSize
  {
    hide Signature, BytesOf, InfoFrom;
    var bytes := InfoBytes(info);
    forall i | 0 <= i < 25
      ensures mem[p + i] == bytes[i]
    {
      assert mem[p..p + 25][i] == mem[p + i];
    }
    SignatureIsMagic();
    assert mem[p + 10..p + 13] == info.signature by {
      assert bytes[10..13] == info.signature;
      assert mem[p + 10..p + 13] == mem[p..p + 25][10..13];
    }
    FourBytes(info.flashSize);
    FourBytes(info.pageSize);
    assert bytes[..8] == Signature() && mem[p..p + 8] == bytes[..8];
    InfoIsFirst(mem, 0);
    assert MagicAt(mem, p);
    assert forall i :: 0 <= i < p ==> SignatureAt(mem, i) == MagicAt(mem, i);
  }

  // ----- the whole program -----

  /** The lines of a file are the records, in upper case and with any checksums. */
  predicate FileOf(lines: seq<string>, records: seq<Record>, sums: seq<Byte>) {
    && |lines| == |records| == |sums|
    && forall k :: 0 <= k < |lines| ==> WellFormed(records[k]) && lines[k] == Encode(records[k], sums[k])
  }

  lemma FileIsRead(lines: seq<string>, records: seq<Record>, sums: seq<Byte>, mem: seq<Byte>)
    requires FileOf(lines, records, sums) && CutOf(records, mem) && |mem| == FIRMWARE_BUFFER_SIZE
    ensures AllComplete(lines) && Parse(lines, 0) == Parsed(records, EndOfFile)
    ensures Inside(Writes(records, 0)) && Image(Writes(records, 0)) == mem
  {
    hide Encode, Writes, Parse, CutOf, Inside;
    ImageOfCut(records, mem);
    ParseEncoded(lines, records, sums, 0);
  }

  /** Whichever way an image inside the buffer is cut into records, loading their file leaves exactly the image. */
  method LoadImage(loader: HexLoader, lines: seq<string>, ghost records: seq<Record>, ghost sums: seq<Byte>,
                   ghost mem: seq<Byte>)
    returns (ok: bool)
    requires loader.buffer.Length == FIRMWARE_BUFFER_SIZE && loader.firmwareSize == 0 && loader.info == NOT_FOUND
    requires FileOf(lines, records, sums) && CutOf(records, mem)
    requires |mem| == FIRMWARE_BUFFER_SIZE && Usable(mem)
    modifies loader, loader.buffer
    ensures loader.buffer[..] == mem
  {
    hide FileOf, CutOf, Writes, Parse, Inside, AllComplete, Usable;
    FileIsRead(lines, records, sums, mem);
    ghost var read;
    ok, read := loader.ReadHexFile(lines);
  }

  /**
   * The file of a firmware image whose embedded info describes the device: every run that ends
   * well has put exactly the image into its application section, and with a transport that
   * delivers reports in time a run ends well exactly when the image is for the microcontroller.
   */
  method ProgramImage(lines: seq<string>, targetId: seq<Byte>, host: FlashingHost.Host, verify: bool,
                      ghost records: seq<Record>, ghost sums: seq<Byte>, ghost mem: seq<Byte>, ghost p: nat,
                      ghost info: FwInfo)
    returns (ok: bool)
    requires host.Valid() && |targetId| >= 3 && |host.device.app| <= FIRMWARE_BUFFER_SIZE
    requires FileOf(lines, records, sums) && CutOf(records, mem)
    requires |mem| == FIRMWARE_BUFFER_SIZE && HasInfo(mem, p, info)
    requires info.flashSize == |host.device.app| && info.pageSize == host.device.pageSize
    modifies host`queue, host.device, host.device.pageBuffer
    ensures host.Valid() && |host.device.app| == old(|host.device.app|)
    ensures ok ==> info.signature == targetId[..3] && host.statusLength == 5
    ensures host.prompt ==> (ok <==> info.signature == targetId[..3] && host.statusLength == 5)
    ensures ok ==> forall a :: 0 <= a < |host.device.app| ==> host.device.app[a] == mem[a] as bv8
  {
    hide FileOf, CutOf, Writes, Parse, Inside, AllComplete, InfoFrom, FlashSize, PageSize, HasInfo, LastAt;
    FileIsRead(lines, records, sums, mem);
    InfoIsRead(mem, p, info);
    assert info.Fits() && |info.signature| == 3 by { InfoFits(mem, p, info); }
    ok := Programmer.Program(lines, targetId, host, verify);
    if ok {
      forall a | 0 <= a < |host.device.app|
        ensures host.device.app[a] == mem[a] as bv8
      {
        assert Image(Writes(records, 0))[a] == mem[a];
      }
    }
  }

  lemma InfoFits(mem: seq<Byte>, p: nat, info: FwInfo)
    requires HasInfo(mem, p, info)
    ensures info.Fits()
  {
  }
}
