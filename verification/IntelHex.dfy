// The Intel HEX loader of pc/hid_bootloader/intel_hex.c.

module Hex {
  import opened Multiples

  const WORD: nat := 0x1_0000_0000

  /** Characters are bytes, and bytes are signed. */
  function Signed(c: char): int {
    if c as int % 256 < 128 then c as int % 256 else c as int % 256 - 256
  }

  /** The value the loader gives a character: right for the digits and the upper-case letters. */
  function Digit(c: char): int {
    if Signed(c) <= '9' as int then Signed(c) - '0' as int else Signed(c) - 'A' as int + 10
  }

  /** The character of a nibble, as the device writes serial numbers. */
  function HexToChar(hex: nat): char
    requires hex < 16
  {
    if hex < 10 then '0' + hex as char else ('A' as int - 10 + hex) as char
  }

  function Pow16(n: nat): nat {
    if n == 0 then 1 else 16 * Pow16(n - 1)
  }

  /** A number read digit by digit. */
  function Value(s: string): int {
    if s == "" then 0 else 16 * Value(s[..|s| - 1]) + Digit(s[|s| - 1])
  }

  /** ReadBase16 as a function of its characters; negative sums wrap around. */
  function Base16(s: string): nat {
    Value(s) % WORD
  }

  lemma TimesSixteen(d: int, p: int)
    ensures 16 * (d * p) == d * (16 * p)
  {
  }

  /** The first digit counts most. */
  lemma {:induction false} ValueFront(s: string)
    requires s != ""
    ensures Value(s) == Digit(s[0]) * Pow16(|s| - 1) + Value(s[1..])
  {
    if |s| == 1 {
      assert s[..0] == "" && s[1..] == "";
    } else {
      var init := s[..|s| - 1];
      ValueFront(init);
      assert init[1..] == s[1..][..|s| - 2];
      var d, p := Digit(s[0]), Pow16(|s| - 2);
      TimesSixteen(d, p);
    }
  }

  lemma WrapStep(sum: int, term: int)
    ensures (sum % WORD + term) % WORD == (sum + term) % WORD
  {
  }

  /** Adds up shifted digits in 32 bits, the most significant first. */
  method ReadBase16(c: string, numChars: nat) returns (val: nat)
    requires numChars <= |c|
    ensures val == Base16(c[..numChars])
  {
    val := 0;
    var left, at := numChars, 0;
    ghost var sum: int := 0;
    while left > 0
      invariant 0 <= left <= numChars && at == numChars - left
      invariant sum + Value(c[at..numChars]) == Value(c[..numChars])
      invariant val == sum % WORD
    {
      left := left - 1;
      ValueFront(c[at..numChars]);
      assert c[at..numChars][1..] == c[at + 1..numChars];
      WrapStep(sum, Digit(c[at]) * Pow16(left));
      val := (val + Digit(c[at]) * Pow16(left)) % WORD;
      sum := sum + Digit(c[at]) * Pow16(left);
      at := at + 1;
    }
    assert c[numChars..numChars] == "";
  }

  predicate UpperDigit(c: char) {
    '0' <= c <= '9' || 'A' <= c <= 'F'
  }

  predicate LowerDigit(c: char) {
    'a' <= c <= 'f'
  }

  predicate HexDigits(s: string) {
    forall i :: 0 <= i < |s| ==> UpperDigit(s[i]) || LowerDigit(s[i])
  }

  /** What the characters mean as hexadecimal digits of either case. */
  function Meaning(s: string): nat
    requires HexDigits(s)
  {
    if s == "" then 0
    else
      var c := s[|s| - 1];
      assert UpperDigit(c) || LowerDigit(c);
      16 * Meaning(s[..|s| - 1]) + if LowerDigit(c) then c as int - 'a' as int + 10 else Digit(c)
  }

  lemma {:induction false} ValueAgainstMeaning(s: string)
    requires HexDigits(s)
    ensures Value(s) >= Meaning(s)
    ensures Value(s) == Meaning(s) <==> forall i :: 0 <= i < |s| ==> UpperDigit(s[i])
  {
    if s != "" {
      var init := s[..|s| - 1];
      ValueAgainstMeaning(init);
      if forall i :: 0 <= i < |init| ==> UpperDigit(init[i]) {
        assert Value(s) == Meaning(s) <==> UpperDigit(s[|s| - 1]);
        assert forall i :: 0 <= i < |s| - 1 ==> s[i] == init[i];
      } else {
        var i :| 0 <= i < |init| && !UpperDigit(init[i]);
        assert !UpperDigit(s[i]);
      }
    }
  }

  lemma DigitBounded(c: char)
    requires UpperDigit(c) || LowerDigit(c)
    ensures 0 <= Digit(c) <= 47
  {
  }

  /** A lower-case digit counts 32 too much, so that the greatest digit is 47. */
  lemma {:induction false} ValueBounded(s: string)
    requires HexDigits(s)
    ensures 0 <= 15 * Value(s) <= 47 * (Pow16(|s|) - 1)
  {
    hide Digit, UpperDigit, LowerDigit;
    if s != "" {
      ValueBounded(s[..|s| - 1]);
      DigitBounded(s[|s| - 1]);
    }
  }

  lemma SevenDigitsFit(n: nat)
    requires n <= 7
    ensures Pow16(n) <= 0x10000000
  {
    assert n == 0 || n == 1 || n == 2 || n == 3 || n == 4 || n == 5 || n == 6 || n == 7;
  }

  /**
   * Up to seven digits of either case, of which the loader reads four at most at a time, are
   * read right exactly when none is lower-case.
   */
  lemma ReadRightExactlyWhen(s: string)
    requires HexDigits(s) && |s| <= 7
    ensures Base16(s) == Meaning(s) <==> forall i :: 0 <= i < |s| ==> UpperDigit(s[i])
  {
    ValueAgainstMeaning(s);
    ValueBounded(s);
    SevenDigitsFit(|s|);
    RemainderUnique(Value(s), 0, Value(s), WORD);
  }

  function Hex2(v: nat): (s: string)
    requires v < 256
    ensures |s| == 2
  {
    [HexToChar(v / 16), HexToChar(v % 16)]
  }

  function Hex4(v: nat): (s: string)
    requires v < 0x10000
    ensures |s| == 4
  {
    Hex2(v / 256) + Hex2(v % 256)
  }

  lemma DigitOfChar(hex: nat)
    requires hex < 16
    ensures Digit(HexToChar(hex)) == hex && UpperDigit(HexToChar(hex))
  {
  }

  lemma ValueOfTwo(a: char, b: char)
    ensures Value([a, b]) == 16 * Digit(a) + Digit(b)
  {
    assert [a, b][..1] == [a] && [a][..0] == "";
    assert Value([a]) == Digit(a);
  }

  /** ReadBase16 undoes hex_to_char, byte by byte. */
  lemma ByteRoundTrip(v: nat)
    requires v < 256
    ensures Base16(Hex2(v)) == v
  {
    hide HexToChar, Digit;
    DigitOfChar(v / 16);
    DigitOfChar(v % 16);
    ValueOfTwo(HexToChar(v / 16), HexToChar(v % 16));
  }

  lemma WordRoundTrip(v: nat)
    requires v < 0x10000
    ensures Base16(Hex4(v)) == v
  {
    hide HexToChar, Digit;
    var s, a, b := Hex4(v), Hex2(v / 256), Hex2(v % 256);
    DigitOfChar(v / 256 / 16);
    DigitOfChar(v / 256 % 16);
    DigitOfChar(v % 256 / 16);
    DigitOfChar(v % 256 % 16);
    ValueOfTwo(a[0], a[1]);
    assert s[..3][..2] == a && s[..2] == [a[0], a[1]] && s[..3] == a + [b[0]] && s == a + [b[0], b[1]];
    assert Value(s[..3]) == 16 * Value(s[..2]) + Digit(b[0]) by { assert s[..3][..2] == s[..2]; }
    assert Value(s) == 16 * Value(s[..3]) + Digit(b[1]);
  }
}

module IntelHex {
  import opened Commands
  import opened Hex

  const FIRMWARE_BUFFER_SIZE: nat := (512 + 8) * 512

  /** A record as the loader uses it; types other than 0 and 2 have no effect, 1 included. */
  datatype Record = Data(offset: nat, bytes: seq<Byte>) | Segment(value: nat) | Other(kind: nat)

  datatype Stop = EndOfFile | MissingColon | BadSegment | TooLarge

  datatype Write = Write(address: nat, byte: Byte)

  // ----- what records mean -----

  /** Byte i of a data record: the offset wraps around at 64 KB. */
  function Address(base: nat, offset: nat, i: nat): nat {
    (base + (offset + i) % 0x10000) % WORD
  }

  function NextBase(base: nat, r: Record): nat {
    if r.Segment? then r.value * 16 % WORD else base
  }

  function BaseAfter(records: seq<Record>, base: nat): nat {
    if records == [] then base else BaseAfter(records[1..], NextBase(base, records[0]))
  }

  function RecordWrites(base: nat, r: Record): seq<Write> {
    if r.Data? then seq(|r.bytes|, i requires 0 <= i < |r.bytes| => Write(Address(base, r.offset, i), r.bytes[i]))
    else []
  }

  /** All bytes of a list of records, in order. */
  function Writes(records: seq<Record>, base: nat): seq<Write> {
    if records == [] then []
    else RecordWrites(base, records[0]) + Writes(records[1..], NextBase(base, records[0]))
  }

  lemma {:induction false} Appended(first: seq<Record>, more: seq<Record>, base: nat)
    ensures BaseAfter(first + more, base) == BaseAfter(more, BaseAfter(first, base))
    ensures Writes(first + more, base) == Writes(first, base) + Writes(more, BaseAfter(first, base))
  {
    hide RecordWrites, NextBase;
    if first == [] {
      assert first + more == more;
    } else {
      assert (first + more)[1..] == first[1..] + more;
      Appended(first[1..], more, NextBase(base, first[0]));
    }
  }

  lemma OneRecord(r: Record, base: nat)
    ensures BaseAfter([r], base) == NextBase(base, r) && Writes([r], base) == RecordWrites(base, r)
  {
  }

  /** The last byte written to an address; memory starts as 0xFF. */
  function LastAt(writes: seq<Write>, address: nat): Byte {
    if writes == [] then 0xFF
    else
      var last := writes[|writes| - 1];
      if last.address == address then last.byte else LastAt(writes[..|writes| - 1], address)
  }

  function Highest(writes: seq<Write>): nat {
    if writes == [] then 0
    else
      var before, last := Highest(writes[..|writes| - 1]), writes[|writes| - 1].address;
      if last > before then last else before
  }

  lemma {:induction false} HighestIsMaximum(writes: seq<Write>)
    ensures forall k :: 0 <= k < |writes| ==> writes[k].address <= Highest(writes)
    ensures writes != [] ==> exists k :: 0 <= k < |writes| && writes[k].address == Highest(writes)
  {
    if writes != [] {
      var n := |writes| - 1;
      HighestIsMaximum(writes[..n]);
      if Highest(writes) == Highest(writes[..n]) && n > 0 {
        var k :| 0 <= k < n && writes[..n][k].address == Highest(writes[..n]);
        assert writes[k].address == Highest(writes);
      }
    }
  }

  predicate Inside(writes: seq<Write>) {
    forall k :: 0 <= k < |writes| ==> writes[k].address < FIRMWARE_BUFFER_SIZE
  }

  // ----- lines -----

  function Number(line: string, at: nat, n: nat): nat
    requires at + n <= |line|
  {
    Base16(line[at..at + n])
  }

  function Length(line: string): Byte
    requires |line| >= 9
  {
    Number(line, 1, 2) % 256
  }

  function Kind(line: string): Byte
    requires |line| >= 9
  {
    Number(line, 7, 2) % 256
  }

  /** The line is as long as what the loader reads of it. */
  predicate Complete(line: string) {
    && line != ""
    && (line[0] == ':' ==>
          && |line| >= 11
          && (Kind(line) == 0 ==> |line| >= 11 + 2 * Length(line))
          && (Kind(line) == 2 ==> |line| >= 15))
  }

  function DataBytes(line: string, n: nat): (r: seq<Byte>)
    requires |line| >= 9 + 2 * n
    ensures |r| == n
  {
    seq(n, i requires 0 <= i < n => Number(line, 9 + 2 * i, 2) % 256)
  }

  function Decode(line: string): Record
    requires Complete(line) && line[0] == ':'
  {
    if Kind(line) == 0 then Data(Number(line, 3, 4) % 0x10000, DataBytes(line, Length(line)))
    else if Kind(line) == 2 then Segment(Number(line, 9, 4))
    else Other(Kind(line))
  }

  /** How many bytes of a data record from i on are stored before one is too far. */
  function Stored(base: nat, offset: nat, i: nat, n: nat): (r: nat)
    requires i <= n
    ensures i <= r <= n
    decreases n - i
  {
    if i == n || Address(base, offset, i) > FIRMWARE_BUFFER_SIZE then i else Stored(base, offset, i + 1, n)
  }

  predicate Behind(base: nat, offset: nat, i: nat) {
    (base + (offset + i) % 0x10000) % 0x1_0000_0000 > 266240
  }

  /** Storing ends early exactly when some byte belongs behind the buffer, and before the first such byte. */
  lemma {:induction false} StoredUpTo(base: nat, offset: nat, i: nat, n: nat)
    requires i <= n
    ensures var r := Stored(base, offset, i, n);
      && (r < n ==> Behind(base, offset, r))
      && forall j :: i <= j < r ==> !Behind(base, offset, j)
    decreases n - i
  {
    if i < n && Address(base, offset, i) <= FIRMWARE_BUFFER_SIZE {
      StoredUpTo(base, offset, i + 1, n);
    }
  }

  /** What of a line takes effect: a record, cut where a byte is too far, or nothing. */
  function LineRecords(line: string, base: nat): seq<Record>
    requires Complete(line)
  {
    if line[0] != ':' || (Kind(line) == 2 && Length(line) != 2) then []
    else
      var r := Decode(line);
      if r.Data? then [r.(bytes := r.bytes[..Stored(base, r.offset, 0, |r.bytes|)])] else [r]
  }

  /** Why reading stops at a line; EndOfFile when it goes on. */
  function LineStop(line: string, base: nat): Stop
    requires Complete(line)
  {
    if line[0] != ':' then MissingColon
    else if Kind(line) == 2 && Length(line) != 2 then BadSegment
    else
      var r := Decode(line);
      if r.Data? && Stored(base, r.offset, 0, |r.bytes|) < |r.bytes| then TooLarge else EndOfFile
  }

  /**
   * A line stops the reading exactly when it has no colon, is a segment record of a wrong
   * length, or holds a byte that belongs behind the buffer.
   */
  lemma LineStopsExactlyWhen(line: string, base: nat)
    requires Complete(line)
    ensures LineStop(line, base) == MissingColon <==> line[0] != ':'
    ensures LineStop(line, base) == BadSegment <==> line[0] == ':' && Kind(line) == 2 && Length(line) != 2
    ensures LineStop(line, base) == TooLarge <==>
      line[0] == ':' && Kind(line) == 0
      && exists j: nat :: j < Length(line) && Behind(base, Number(line, 3, 4) % 0x10000, j)
  {
    hide Number, Length, Kind, DataBytes, Behind;
    if line[0] == ':' && Decode(line).Data? {
      var r := Decode(line);
      StoredUpTo(base, r.offset, 0, |r.bytes|);
    }
  }

  /** The records of a file that take effect, and why reading stops. */
  datatype Parsed = Parsed(records: seq<Record>, stop: Stop)

  predicate AllComplete(lines: seq<string>) {
    forall k :: 0 <= k < |lines| ==> Complete(lines[k])
  }

  function Parse(lines: seq<string>, base: nat): Parsed
    requires AllComplete(lines)
  {
    if lines == [] then Parsed([], EndOfFile)
    else
      assert Complete(lines[0]);
      var now, stop := LineRecords(lines[0], base), LineStop(lines[0], base);
      if stop != EndOfFile then Parsed(now, stop)
      else
        var rest := Parse(lines[1..], BaseAfter(now, base));
        Parsed(now + rest.records, rest.stop)
  }

  /** The next line of a file of which records has been read. */
  lemma ParseStep(lines: seq<string>, k: nat, records: seq<Record>, base: nat)
    requires AllComplete(lines) && k < |lines|
    ensures Complete(lines[k]) && AllComplete(lines[k..]) && AllComplete(lines[k + 1..])
    ensures var now, stop, rest := LineRecords(lines[k], base), LineStop(lines[k], base), Parse(lines[k..], base);
      if stop != EndOfFile then records + rest.records == records + now && rest.stop == stop
      else
        var later := Parse(lines[k + 1..], BaseAfter(now, base));
        records + rest.records == (records + now) + later.records && rest.stop == later.stop
  {
  }

  // ----- encoding -----

  predicate WellFormed(r: Record) {
    match r
    case Data(offset, bytes) => offset < 0x10000 && |bytes| < 256
    case Segment(value) => value < 0x10000
    case Other(kind) => kind < 256 && kind != 0 && kind != 2
  }

  function HexBytes(bytes: seq<Byte>): (s: string)
    ensures |s| == 2 * |bytes|
  {
    if bytes == [] then "" else HexBytes(bytes[..|bytes| - 1]) + Hex2(bytes[|bytes| - 1])
  }

  function Header(length: nat, offset: nat, kind: nat): (s: string)
    requires length < 256 && offset < 0x10000 && kind < 256
    ensures |s| == 9
  {
    ":" + Hex2(length) + Hex4(offset) + Hex2(kind)
  }

  /** A record as a line of a file, in upper case, with any checksum. */
  function Encode(r: Record, checksum: Byte): string
    requires WellFormed(r)
  {
    match r
    case Data(offset, bytes) => Header(|bytes|, offset, 0) + HexBytes(bytes) + Hex2(checksum) + "\n"
    case Segment(value) => Header(2, 0, 2) + Hex4(value) + Hex2(checksum) + "\n"
    case Other(kind) => Header(0, 0, kind) + Hex2(checksum) + "\n"
  }

  lemma HeaderReads(length: nat, offset: nat, kind: nat, tail: string)
    requires length < 256 && offset < 0x10000 && kind < 256
    ensures var line := Header(length, offset, kind) + tail;
      line[0] == ':' && Length(line) == length && Number(line, 3, 4) == offset && Kind(line) == kind
  {
    hide Hex2, Hex4, Base16;
    var line := Header(length, offset, kind) + tail;
    assert line[1..1 + 2] == Hex2(length);
    assert line[3..3 + 4] == Hex4(offset);
    assert line[7..7 + 2] == Hex2(kind);
    ByteRoundTrip(length);
    WordRoundTrip(offset);
    ByteRoundTrip(kind);
  }

  lemma {:induction false} BytesRead(bytes: seq<Byte>, i: nat)
    requires i < |bytes|
    ensures HexBytes(bytes)[2 * i..2 * i + 2] == Hex2(bytes[i])
  {
    hide Hex2;
    var init := bytes[..|bytes| - 1];
    if i < |init| {
      BytesRead(init, i);
      assert HexBytes(bytes)[2 * i..2 * i + 2] == HexBytes(init)[2 * i..2 * i + 2];
    }
  }

  /** What is encoded is decoded. */
  lemma DecodeEncode(r: Record, checksum: Byte)
    requires WellFormed(r)
    ensures var line := Encode(r, checksum);
      Complete(line) && line[0] == ':' && Decode(line) == r && (Kind(line) == 2 ==> Length(line) == 2)
  {
    hide Hex2, Hex4, Base16, Header, HexBytes;
    var line := Encode(r, checksum);
    match r
    case Data(offset, bytes) => {
      var tail := HexBytes(bytes) + Hex2(checksum) + "\n";
      assert line == Header(|bytes|, offset, 0) + tail;
      HeaderReads(|bytes|, offset, 0, tail);
      forall i | 0 <= i < |bytes|
        ensures Number(line, 9 + 2 * i, 2) == bytes[i]
      {
        BytesRead(bytes, i);
        ByteRoundTrip(bytes[i]);
        assert line[9 + 2 * i..9 + 2 * i + 2] == HexBytes(bytes)[2 * i..2 * i + 2];
      }
      assert DataBytes(line, |bytes|) == bytes;
    }
    case Segment(value) => {
      var tail := Hex4(value) + Hex2(checksum) + "\n";
      assert line == Header(2, 0, 2) + tail;
      HeaderReads(2, 0, 2, tail);
      WordRoundTrip(value);
      assert line[9..9 + 4] == Hex4(value);
    }
    case Other(kind) => {
      var tail := Hex2(checksum) + "\n";
      assert line == Header(0, 0, kind) + tail;
      HeaderReads(0, 0, kind, tail);
    }
  }

  // ----- files of well-formed records -----

  lemma {:induction false} AllStored(base: nat, offset: nat, i: nat, n: nat)
    requires i <= n && forall j :: i <= j < n ==> Address(base, offset, j) <= FIRMWARE_BUFFER_SIZE
    ensures Stored(base, offset, i, n) == n
    decreases n - i
  {
    if i < n {
      assert Address(base, offset, i) <= FIRMWARE_BUFFER_SIZE;
      AllStored(base, offset, i + 1, n);
    }
  }

  lemma InsideParts(a: seq<Write>, b: seq<Write>)
    requires Inside(a + b)
    ensures Inside(a) && Inside(b)
  {
    forall k | 0 <= k < |a|
      ensures a[k].address < FIRMWARE_BUFFER_SIZE
    {
      assert (a + b)[k] == a[k];
    }
    forall k | 0 <= k < |b|
      ensures b[k].address < FIRMWARE_BUFFER_SIZE
    {
      assert (a + b)[|a| + k] == b[k];
    }
  }

  /** A well-formed record inside the buffer takes effect as it is. */
  lemma LineEncoded(r: Record, sum: Byte, base: nat)
    requires WellFormed(r) && Inside(RecordWrites(base, r))
    ensures Complete(Encode(r, sum))
    ensures LineRecords(Encode(r, sum), base) == [r] && LineStop(Encode(r, sum), base) == EndOfFile
  {
    hide Encode, Length, Kind, Address, Complete, Decode;
    DecodeEncode(r, sum);
    if r.Data? {
      forall j | 0 <= j < |r.bytes|
        ensures Address(base, r.offset, j) <= FIRMWARE_BUFFER_SIZE
      {
        assert RecordWrites(base, r)[j].address == Address(base, r.offset, j);
      }
      AllStored(base, r.offset, 0, |r.bytes|);
      assert r.bytes[..|r.bytes|] == r.bytes;
    }
    DecodedLength(Encode(r, sum));
  }

  lemma DecodedLength(line: string)
    requires Complete(line) && line[0] == ':'
    ensures Decode(line).Segment? <==> Kind(line) == 2
  {
  }

  /** A file of well-formed records inside the buffer is read to its end, and nothing is lost. */
  lemma {:induction false} ParseEncoded(lines: seq<string>, records: seq<Record>, sums: seq<Byte>, base: nat)
    requires |lines| == |records| == |sums|
    requires forall k :: 0 <= k < |lines| ==> WellFormed(records[k]) && lines[k] == Encode(records[k], sums[k])
    requires Inside(Writes(records, base))
    ensures AllComplete(lines) && Parse(lines, base) == Parsed(records, EndOfFile)
  {
    hide Encode, Complete, LineRecords, LineStop, RecordWrites, NextBase;
    if lines != [] {
      var r := records[0];
      InsideParts(RecordWrites(base, r), Writes(records[1..], NextBase(base, r)));
      LineEncoded(r, sums[0], base);
      OneRecord(r, base);
      ParseEncoded(lines[1..], records[1..], sums[1..], NextBase(base, r));
      forall k | 0 <= k < |lines|
        ensures Complete(lines[k])
      {
        if k > 0 {
          assert lines[k] == lines[1..][k - 1];
        }
      }
    }
  }
}

module Loader {
  import opened Commands
  import opened Hex
  import opened IntelHex
  import opened XmegaCrc

  const MAGIC: seq<Byte> := [0x59, 0x61, 0x6D, 0x61, 0x4E, 0x65, 0x6B, 0x6F]
  const NOT_FOUND: nat := 0xFFFFFFFF
  /** The size of FW_INFO_t, whose sizes of flash and page lie at 13 and 17. */
  const INFO_SIZE: nat := 25

  /** The memory image of a list of writes. */
  function Image(writes: seq<Write>): (mem: seq<Byte>)
    ensures |mem| == FIRMWARE_BUFFER_SIZE
  {
    seq(FIRMWARE_BUFFER_SIZE, a requires 0 <= a < FIRMWARE_BUFFER_SIZE => LastAt(writes, a))
  }

  predicate MagicAt(mem: seq<Byte>, a: nat)
    requires a + 8 <= |mem|
  {
    mem[a..a + 8] == MAGIC
  }

  /** Where the first embedded info from a on is. */
  function InfoFrom(mem: seq<Byte>, a: nat): nat
    requires |mem| == FIRMWARE_BUFFER_SIZE && a <= FIRMWARE_BUFFER_SIZE - 8
    decreases FIRMWARE_BUFFER_SIZE - a
  {
    if a == FIRMWARE_BUFFER_SIZE - 8 then NOT_FOUND
    else if MagicAt(mem, a) then a
    else InfoFrom(mem, a + 1)
  }

  /** It is the first, or there is none; the last possible place is not looked at. */
  lemma {:induction false} InfoIsFirst(mem: seq<Byte>, a: nat)
    requires |mem| == FIRMWARE_BUFFER_SIZE && a <= FIRMWARE_BUFFER_SIZE - 8
    ensures var p := InfoFrom(mem, a);
      if p == NOT_FOUND then forall i :: a <= i < FIRMWARE_BUFFER_SIZE - 8 ==> !MagicAt(mem, i)
      else a <= p < FIRMWARE_BUFFER_SIZE - 8 && MagicAt(mem, p) && forall i :: a <= i < p ==> !MagicAt(mem, i)
    decreases FIRMWARE_BUFFER_SIZE - a
  {
    hide MagicAt;
    if a < FIRMWARE_BUFFER_SIZE - 8 && !MagicAt(mem, a) {
      InfoIsFirst(mem, a + 1);
    }
  }

  function FlashSize(mem: seq<Byte>, info: nat): nat
    requires info + INFO_SIZE <= |mem|
  {
    mem[info + 13] as int + 256 * (mem[info + 14] as int + 256 * (mem[info + 15] as int + 256 * mem[info + 16] as int))
  }

  function PageSize(mem: seq<Byte>, info: nat): nat
    requires info + INFO_SIZE <= |mem|
  {
    mem[info + 17] as int + 256 * mem[info + 18] as int
  }

  /** An embedded info whose fields lie in the buffer. */
  predicate Usable(mem: seq<Byte>)
    requires |mem| == FIRMWARE_BUFFER_SIZE
  {
    var p := InfoFrom(mem, 0);
    p == NOT_FOUND || p + INFO_SIZE <= FIRMWARE_BUFFER_SIZE
  }

  function AsBits(bytes: seq<Byte>): (r: seq<bv8>)
    ensures |r| == |bytes|
  {
    seq(|bytes|, i requires 0 <= i < |bytes| => bytes[i] as bv8)
  }

  lemma AsBitsPrefix(bytes: seq<Byte>, n: nat)
    requires n <= |bytes|
    ensures AsBits(bytes)[..n] == AsBits(bytes[..n])
  {
  }

  lemma WholeWordsFit(n: nat)
    requires n <= FIRMWARE_BUFFER_SIZE
    ensures WholeWords(n) <= FIRMWARE_BUFFER_SIZE
  {
  }

  /** The checksum of the flash in an image; of a flash of odd size the last word counts whole. */
  function ImageCrc(mem: seq<Byte>, flashSize: nat): bv32
    requires flashSize <= FIRMWARE_BUFFER_SIZE == |mem|
  {
    WholeWordsFit(flashSize);
    Crc(Words(AsBits(mem[..WholeWords(flashSize)])))
  }

  lemma LastWins(writes: seq<Write>, w: Write, address: nat)
    ensures LastAt(writes + [w], address) == if w.address == address then w.byte else LastAt(writes, address)
    ensures Highest(writes + [w]) == if w.address > Highest(writes) then w.address else Highest(writes)
  {
  }

  lemma NothingRead(lines: seq<string>)
    requires AllComplete(lines)
    ensures lines[0..] == lines && BaseAfter([], 0) == 0 && Writes([], 0) == []
    ensures [] + Parse(lines, 0).records == Parse(lines, 0).records
  {
  }

  lemma NothingLeft(lines: seq<string>, base: nat)
    ensures AllComplete(lines[|lines|..]) && Parse(lines[|lines|..], base) == Parsed([], EndOfFile)
  {
  }

  /** The records of the next line are among those of the file. */
  lemma NextInside(records: seq<Record>, now: seq<Record>, all: seq<Record>)
    requires records + now <= all && Inside(Writes(all, 0))
    ensures Inside(Writes(now, BaseAfter(records, 0)))
  {
    hide Inside, Writes, BaseAfter;
    var later := all[|records + now|..];
    assert all == (records + now) + later;
    Appended(records + now, later, 0);
    Appended(records, now, 0);
    InsideParts(Writes(records + now, 0), Writes(later, BaseAfter(records + now, 0)));
    InsideParts(Writes(records, 0), Writes(now, BaseAfter(records, 0)));
  }

  /** Cutting the decoded bytes is decoding fewer. */
  lemma CutBytes(line: string, base: nat)
    requires Complete(line) && line[0] == ':' && Kind(line) == 0
    ensures var offset := Number(line, 3, 4) % 0x10000;
      var n := Stored(base, offset, 0, Length(line));
      LineRecords(line, base) == [Data(offset, DataBytes(line, n))]
      && LineStop(line, base) == if n < Length(line) then TooLarge else EndOfFile
  {
    hide Stored, Base16;
    var offset := Number(line, 3, 4) % 0x10000;
    var n := Stored(base, offset, 0, Length(line));
    assert DataBytes(line, Length(line))[..n] == DataBytes(line, n);
  }

  lemma NoBytes(line: string, base: nat, offset: nat, writes: seq<Write>)
    requires |line| >= 9
    ensures writes + RecordWrites(base, Data(offset, DataBytes(line, 0))) == writes
  {
  }

  /** One more byte of a data record is one more write. */
  lemma OneByteMore(line: string, base: nat, offset: nat, i: nat, writes: seq<Write>)
    requires |line| >= 9 + 2 * (i + 1)
    ensures writes + RecordWrites(base, Data(offset, DataBytes(line, i + 1))) ==
      writes + RecordWrites(base, Data(offset, DataBytes(line, i)))
      + [Write(Address(base, offset, i), Number(line, 9 + 2 * i, 2) % 256)]
  {
    hide Address, Number;
    var before := RecordWrites(base, Data(offset, DataBytes(line, i)));
    var after := RecordWrites(base, Data(offset, DataBytes(line, i + 1)));
    assert after == before + [Write(Address(base, offset, i), Number(line, 9 + 2 * i, 2) % 256)];
  }

  lemma ByteInside(line: string, base: nat, offset: nat, i: nat, n: nat)
    requires |line| >= 9 + 2 * n && i < n && Inside(RecordWrites(base, Data(offset, DataBytes(line, n))))
    ensures Address(base, offset, i) < FIRMWARE_BUFFER_SIZE
  {
    hide Address, Number;
    assert RecordWrites(base, Data(offset, DataBytes(line, n)))[i].address == Address(base, offset, i);
  }

  /** The number at a place in a line. */
  method ReadAt(line: string, at: nat, n: nat) returns (val: nat)
    requires at + n <= |line|
    ensures val == Number(line, at, n)
  {
    val := ReadBase16(line[at..], n);
    assert line[at..][..n] == line[at..at + n];
  }

  class HexLoader {
    const buffer: array<Byte>
    var firmwareSize: nat
    var firmwareCrc: bv32
    /** Where the embedded info is; NOT_FOUND stands for a null pointer. */
    var info: nat

    constructor ()
      ensures fresh(buffer) && buffer.Length == FIRMWARE_BUFFER_SIZE && firmwareSize == 0 && info == NOT_FOUND
    {
      buffer := new Byte[FIRMWARE_BUFFER_SIZE](_ => 0);
      firmwareSize, firmwareCrc, info := 0, 0, NOT_FOUND;
    }

    /** The buffer holds what has been written so far. */
    ghost predicate Holds(writes: seq<Write>)
      reads this, buffer
    {
      && buffer.Length == FIRMWARE_BUFFER_SIZE && firmwareSize == Highest(writes)
      && forall a :: 0 <= a < FIRMWARE_BUFFER_SIZE ==> buffer[a] == LastAt(writes, a)
    }

    method Store(address: nat, byte: Byte, ghost writes: seq<Write>)
      requires Holds(writes) && address < FIRMWARE_BUFFER_SIZE
      modifies this`firmwareSize, buffer
      ensures Holds(writes + [Write(address, byte)])
    {
      hide LastAt, Highest;
      forall a
        ensures LastAt(writes + [Write(address, byte)], a) == if address == a then byte else LastAt(writes, a)
      {
        LastWins(writes, Write(address, byte), a);
      }
      LastWins(writes, Write(address, byte), address);
      buffer[address] := byte;
      if address > firmwareSize {
        firmwareSize := address;
      }
    }

    /** A data record; false when a byte lies beyond the buffer. The buffer's end itself is not guarded. */
    method DataRecord(line: string, base: nat, ghost writes: seq<Write>) returns (ok: bool, ghost n: nat)
      requires Holds(writes) && Complete(line) && line[0] == ':' && Kind(line) == 0
      requires Inside(RecordWrites(base, Data(Number(line, 3, 4) % 0x10000,
        DataBytes(line, Stored(base, Number(line, 3, 4) % 0x10000, 0, Length(line))))))
      modifies this`firmwareSize, buffer
      ensures n == Stored(base, Number(line, 3, 4) % 0x10000, 0, Length(line)) && (ok <==> n == Length(line))
      ensures Holds(writes + RecordWrites(base, Data(Number(line, 3, 4) % 0x10000, DataBytes(line, n))))
    {
      hide LastAt, Highest, HexLoader.Holds, Number, Address, DataBytes, RecordWrites, Inside;
      var len, offset;
      len := ReadAt(line, 1, 2);
      len := len % 256;
      offset := ReadAt(line, 3, 4);
      offset := offset % 0x10000;
      ghost var total := Stored(base, offset, 0, len);
      var i := 0;
      NoBytes(line, base, offset, writes);
      while i < len
        invariant 0 <= i <= len && Stored(base, offset, i, len) == total
        invariant Holds(writes + RecordWrites(base, Data(offset, DataBytes(line, i))))
      {
        var address := Address(base, offset, i);
        if address > FIRMWARE_BUFFER_SIZE {
          return false, i;
        }
        var byte := ReadAt(line, 9 + 2 * i, 2);
        byte := byte % 256;
        ghost var done := writes + RecordWrites(base, Data(offset, DataBytes(line, i)));
        ByteInside(line, base, offset, i, total);
        Store(address, byte, done);
        OneByteMore(line, base, offset, i, writes);
        i := i + 1;
      }
      return true, i;
    }

    /** Where the first embedded info is. */
    method FindEmbeddedInfo() returns (address: nat)
      requires buffer.Length == FIRMWARE_BUFFER_SIZE
      ensures address == InfoFrom(buffer[..], 0)
    {
      hide MagicAt;
      address := 0;
      while address < FIRMWARE_BUFFER_SIZE - 8
        invariant address <= FIRMWARE_BUFFER_SIZE - 8
        invariant InfoFrom(buffer[..], address) == InfoFrom(buffer[..], 0)
      {
        if MagicAt(buffer[..], address) {
          return;
        }
        address := address + 1;
      }
      address := NOT_FOUND;
    }

    /** One line: its record takes effect, or reading stops. */
    method ReadLine(line: string, base: nat, ghost writes: seq<Write>) returns (next: nat, stop: Stop)
      requires Holds(writes) && Complete(line) && Inside(Writes(LineRecords(line, base), base))
      modifies this`firmwareSize, buffer
      ensures Holds(writes + Writes(LineRecords(line, base), base))
      ensures stop == LineStop(line, base)
      ensures stop == EndOfFile ==> next == BaseAfter(LineRecords(line, base), base)
    {
      hide LastAt, Highest, HexLoader.Holds, Base16, Address, Stored, DataBytes;
      next, stop := base, EndOfFile;
      assert writes + [] == writes;
      if line[0] != ':' {
        return base, MissingColon;
      }
      var kind := ReadAt(line, 7, 2);
      kind := kind % 256;
      if kind == 0 {
        CutBytes(line, base);
        OneRecord(LineRecords(line, base)[0], base);
        ghost var n;
        var ok;
        ok, n := DataRecord(line, base, writes);
        if !ok {
          return base, TooLarge;
        }
      } else if kind == 2 {
        var len := ReadAt(line, 1, 2);
        len := len % 256;
        if len != 2 {
          return base, BadSegment;
        }
        OneRecord(Decode(line), base);
        var segment := ReadAt(line, 9, 4);
        next := segment * 16 % WORD;
      } else {
        OneRecord(Decode(line), base);
      }
    }

    /** The line loop. */
    method ReadLines(lines: seq<string>) returns (stop: Stop, ghost records: seq<Record>)
      requires AllComplete(lines) && Inside(Writes(Parse(lines, 0).records, 0)) && Holds([])
      modifies this`firmwareSize, buffer
      ensures Parse(lines, 0) == Parsed(records, stop) && Holds(Writes(records, 0))
    {
      hide LastAt, Highest, HexLoader.Holds, Complete, LineRecords, LineStop, Parse, Writes, BaseAfter, Inside;
      var k, base := 0, 0;
      records := [];
      ghost var all := Parse(lines, 0);
      stop := EndOfFile;
      NothingRead(lines);
      while k < |lines|
        invariant 0 <= k <= |lines| && base == BaseAfter(records, 0) && AllComplete(lines[k..]) && stop == EndOfFile
        invariant all.records == records + Parse(lines[k..], base).records && all.stop == Parse(lines[k..], base).stop
        invariant Holds(Writes(records, 0))
      {
        ParseStep(lines, k, records, base);
        ghost var now := LineRecords(lines[k], base);
        NextInside(records, now, all.records);
        Appended(records, now, 0);
        base, stop := ReadLine(lines[k], base, Writes(records, 0));
        records := records + now;
        if stop != EndOfFile {
          return;
        }
        k := k + 1;
      }
      NothingLeft(lines, base);
      assert records + [] == records;
    }

    /**
     * Loads a file. The buffer becomes the image of the records that take effect; the result is
     * true exactly when the file is read to its end and holds an embedded info whose flash fits.
     */
    method ReadHexFile(lines: seq<string>) returns (ok: bool, ghost records: seq<Record>)
      requires AllComplete(lines) && Inside(Writes(Parse(lines, 0).records, 0))
      requires buffer.Length == FIRMWARE_BUFFER_SIZE && firmwareSize == 0 && info == NOT_FOUND
      requires Usable(Image(Writes(Parse(lines, 0).records, 0)))
      modifies this, buffer
      ensures records == Parse(lines, 0).records && buffer[..] == Image(Writes(records, 0))
      ensures firmwareSize == Highest(Writes(records, 0))
      ensures info == if Parse(lines, 0).stop == TooLarge then NOT_FOUND else InfoFrom(buffer[..], 0)
      ensures ok <==>
        Parse(lines, 0).stop == EndOfFile && info != NOT_FOUND && FlashSize(buffer[..], info) <= FIRMWARE_BUFFER_SIZE
      ensures info != NOT_FOUND && FlashSize(buffer[..], info) <= FIRMWARE_BUFFER_SIZE ==>
        firmwareCrc == ImageCrc(buffer[..], FlashSize(buffer[..], info))
    {
      hide Parse, Writes, LastAt, Highest, MagicAt, Crc, Words, AsBits, Inside;
      ClearBuffer();
      var stop;
      stop, records := ReadLines(lines);
      assert buffer[..] == Image(Writes(records, 0));
      if stop == TooLarge {
        return false, records;
      }
      ok := stop == EndOfFile;
      var address := FindEmbeddedInfo();
      InfoIsFirst(buffer[..], 0);
      if address == NOT_FOUND {
        info := NOT_FOUND;
        return false, records;
      }
      info := address;
      var flashSize := FlashSize(buffer[..], info);
      if flashSize > FIRMWARE_BUFFER_SIZE {
        return false, records;
      }
      WholeWordsFit(flashSize);
      firmwareCrc := XmegaNvmCrc32(AsBits(buffer[..]), flashSize);
      AsBitsPrefix(buffer[..], WholeWords(flashSize));
    }

    method ClearBuffer()
      requires buffer.Length == FIRMWARE_BUFFER_SIZE && firmwareSize == 0
      modifies buffer
      ensures Holds([])
    {
      forall a | 0 <= a < FIRMWARE_BUFFER_SIZE {
        buffer[a] := 0xFF;
      }
    }
  }
}

/** The host program as a whole. */
module Programmer {
  import opened Commands
  import opened IntelHex
  import opened Loader
  import opened XmegaCrc
  import FlashingHost

  /** The embedded info of an image describes the device. */
  predicate Describes(mem: seq<Byte>, flashSize: nat, pageSize: nat)
    requires |mem| == FIRMWARE_BUFFER_SIZE
  {
    var p := InfoFrom(mem, 0);
    p == NOT_FOUND
      || (p + INFO_SIZE <= FIRMWARE_BUFFER_SIZE && FlashSize(mem, p) == flashSize && PageSize(mem, p) == pageSize)
  }

  /** The image has an embedded info, for the given microcontroller. */
  predicate Suits(mem: seq<Byte>, targetId: seq<Byte>)
    requires |mem| == FIRMWARE_BUFFER_SIZE && |targetId| >= 3
  {
    var p := InfoFrom(mem, 0);
    p != NOT_FOUND && p + INFO_SIZE <= FIRMWARE_BUFFER_SIZE && mem[p + 10..p + 13] == targetId[..3]
  }

  /**
   * Loads a file and flashes it. Every program that ends well leaves each byte of the
   * application section as the last record that wrote its address, or 0xFF.
   */
  method Program(lines: seq<string>, targetId: seq<Byte>, host: FlashingHost.Host, verify: bool)
    returns (ok: bool)
    requires host.Valid() && |targetId| >= 3 && |host.device.app| <= FIRMWARE_BUFFER_SIZE
    requires AllComplete(lines) && Inside(Writes(Parse(lines, 0).records, 0))
    requires Usable(Image(Writes(Parse(lines, 0).records, 0)))
    requires Describes(Image(Writes(Parse(lines, 0).records, 0)), |host.device.app|, host.device.pageSize)
    modifies host`queue, host.device, host.device.pageBuffer
    ensures host.Valid() && |host.device.app| == old(|host.device.app|)
    ensures var succeeds :=
              && Parse(lines, 0).stop == EndOfFile && Suits(Image(Writes(Parse(lines, 0).records, 0)), targetId)
              && host.statusLength == 5;
      (ok ==> succeeds) && (host.prompt ==> (ok <==> succeeds))
    ensures ok ==> forall a :: 0 <= a < |host.device.app| ==>
      host.device.app[a] == LastAt(Writes(Parse(lines, 0).records, 0), a) as bv8
  {
    hide Parse, Writes, LastAt, Highest, Crc, Words, Inside, AllComplete, InfoFrom, FlashSize, PageSize, MagicAt;
    var loader := new HexLoader();
    ghost var records;
    ok, records := loader.ReadHexFile(lines);
    if !ok {
      return;
    }
    var mem := loader.buffer[..];
    InfoIsFirst(mem, 0);
    if mem[loader.info + 10..loader.info + 13] != targetId[..3] {
      return false;
    }
    var flashSize, pageSize := FlashSize(mem, loader.info), PageSize(mem, loader.info);
    var image := AsBits(mem);
    assert AsBits(mem[..flashSize]) == image[..flashSize];
    ok := host.Flash(image, flashSize, pageSize, loader.firmwareCrc, verify);
  }
}
