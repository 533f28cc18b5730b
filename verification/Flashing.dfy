// The flashing protocol: the bootloader of firmware/hid_bootloader/hid_bootloader.c behind the
// report channel of udi_hid_generic.c, and the host program of pc/hid_bootloader/hid_bootloader.c.

module Masks {
  import opened Multiples

  /** The & of two unsigned numbers. */
  function BitAnd(x: nat, y: nat): nat {
    if x == 0 || y == 0 then 0 else 2 * BitAnd(x / 2, y / 2) + (if x % 2 == 1 && y % 2 == 1 then 1 else 0)
  }

  predicate PowerOfTwo(m: nat) {
    m == 1 || (m > 1 && m % 2 == 0 && PowerOfTwo(m / 2))
  }

  lemma HalfRemainder(x: nat, h: nat)
    requires h > 0
    ensures x % (2 * h) == 2 * (x / 2 % h) + x % 2
  {
    var q, r := x / 2 / h, x / 2 % h;
    DivMod(x / 2, h);
    assert q * (2 * h) == 2 * (q * h);
    RemainderUnique(x, q, 2 * r + x % 2, 2 * h);
  }

  /** Masking with m - 1 is a remainder when m is a power of two. */
  lemma {:induction false} MaskIsRemainder(x: nat, m: nat)
    requires PowerOfTwo(m)
    ensures BitAnd(x, m - 1) == x % m
    decreases m
  {
    if m > 1 {
      MaskIsRemainder(x / 2, m / 2);
      HalfRemainder(x, m / 2);
      assert (m - 1) / 2 == m / 2 - 1 && (m - 1) % 2 == 1;
    }
  }

  lemma {:induction false} BitAndSelf(x: nat)
    ensures BitAnd(x, x) == x
  {
    if x > 0 {
      BitAndSelf(x / 2);
    }
  }

  /** When m is not a power of two, masking with m - 1 goes wrong for some number. */
  lemma {:induction false} MaskGoesWrong(m: nat) returns (x: nat)
    requires m > 0 && !PowerOfTwo(m)
    ensures BitAnd(x, m - 1) != x % m
    decreases m
  {
    if m % 2 == 1 {
      x := m;
      BitAndSelf(m / 2);
      assert (m - 1) / 2 == m / 2;
      RemainderUnique(m, 1, 0, m);
    } else {
      var half := MaskGoesWrong(m / 2);
      x := 2 * half;
      HalfRemainder(x, m / 2);
      assert (m - 1) / 2 == m / 2 - 1;
    }
  }

  /** Masking with m - 1 is a remainder exactly for the powers of two. */
  lemma MaskIsRemainderExactlyWhen(m: nat)
    requires m > 0
    ensures PowerOfTwo(m) <==> forall x: nat :: BitAnd(x, m - 1) == x % m
  {
    if PowerOfTwo(m) {
      forall x: nat
        ensures BitAnd(x, m - 1) == x % m
      {
        MaskIsRemainder(x, m);
      }
    } else {
      var x := MaskGoesWrong(m);
    }
  }
}

/** Commands of five bytes, and the numbers in reports. */
module Commands {
  import opened Multiples

  type Byte = x: int | 0 <= x < 256

  const CMD_NOP: Byte := 0x00
  const CMD_SET_POINTER: Byte := 0x01
  const CMD_READ_FLASH: Byte := 0x02
  const CMD_ERASE_APP_SECTION: Byte := 0x03
  const CMD_READ_FLASH_CRCS: Byte := 0x04
  const CMD_WRITE_PAGE: Byte := 0x07

  /** The command and the four bytes of its parameter union. */
  datatype Command = Command(code: Byte, p0: Byte, p1: Byte, p2: Byte, p3: Byte)

  function U16(c: Command): nat {
    c.p0 + 256 * c.p1
  }

  function U32(c: Command): nat {
    c.p0 + 256 * (c.p1 + 256 * (c.p2 + 256 * c.p3))
  }

  /** Storing the 16-bit member leaves the upper half of the union alone. */
  function WithU16(c: Command, v: nat): Command {
    c.(p0 := v % 256, p1 := v / 256 % 256)
  }

  function WithU32(c: Command, v: nat): Command {
    c.(p0 := v % 256, p1 := v / 256 % 256, p2 := v / 0x10000 % 256, p3 := v / 0x1000000 % 256)
  }

  /** What the device reads from the union is what the host stored in it, cut to the width. */
  lemma ParametersArrive(c: Command, v: nat)
    ensures U16(WithU16(c, v)) == v % 0x10000
    ensures U32(WithU32(c, v)) == v % 0x1_0000_0000
    ensures WithU16(c, v).code == WithU32(c, v).code == c.code
  {
    var v1, v2, v3, v4 := v / 256, v / 256 / 256, v / 256 / 256 / 256, v / 256 / 256 / 256 / 256;
    var a, b, d, e := v % 256, v1 % 256, v2 % 256, v3 % 256;
    RemainderUnique(v, v2, 256 * b + a, 0x10000);
    RemainderUnique(v, v3, 0x10000 * d + 256 * b + a, 0x1000000);
    RemainderUnique(v, v4, 0x1000000 * e + 0x10000 * d + 256 * b + a, 0x1_0000_0000);
  }

  /** The commands that are part of this model; every unknown code is. */
  predicate Modelled(c: Command) {
    c.code <= 0x04 || c.code == 0x07 || c.code == 0x08 || c.code == 0x0D || c.code > 0x11
  }

  /** The least significant byte goes first, in commands and in reports. */
  lemma LeastSignificantFirst(code: Byte)
    ensures WithU16(Command(code, 0, 0, 0, 0), 0x1234) == Command(code, 0x34, 0x12, 0, 0)
    ensures WithU32(Command(code, 0, 0, 0, 0), 0x12345678) == Command(code, 0x78, 0x56, 0x34, 0x12)
    ensures LittleEndian(0x12345678) == [0x78, 0x56, 0x34, 0x12]
  {
  }

  /** Storing a 32-bit number into a report. */
  function LittleEndian(x: bv32): (r: seq<bv8>)
    ensures |r| == 4
  {
    [(x & 0xFF) as bv8, ((x >> 8) & 0xFF) as bv8, ((x >> 16) & 0xFF) as bv8, ((x >> 24) & 0xFF) as bv8]
  }

  /** How the host puts a number together. */
  function Assembled(b: seq<bv8>): bv32
    requires |b| >= 4
  {
    (b[0] as bv32) | (b[1] as bv32 << 8) | (b[2] as bv32 << 16) | (b[3] as bv32 << 24)
  }

  lemma NumbersArrive(x: bv32, rest: seq<bv8>)
    ensures Assembled(LittleEndian(x) + rest) == x
  {
  }
}

module Bootloader {
  import opened Multiples
  import opened Masks
  import opened Commands
  import opened Overlays
  import opened XmegaCrc

  const REPORT: nat := 64

  /** A self-programming operation goes on while the processor runs. */
  datatype Spm = Ready | Erasing | Writing(at: nat, data: seq<bv8>)

  function Erased(n: nat): (r: seq<bv8>)
    ensures |r| == n
  {
    seq(n, _ => 0xFF)
  }

  /** image up to n, and nothing written after it. */
  function Partly(image: seq<bv8>, n: nat): (r: seq<bv8>)
    requires n <= |image|
    ensures |r| == |image|
  {
    image[..n] + Erased(|image| - n)
  }

  /** Writing the next page without erasing adds it to what is there. */
  lemma WriteNextPage(image: seq<bv8>, n: nat, size: nat)
    requires n + size <= |image|
    ensures AndOverlay(Partly(image, n), n, image[n..n + size]) == Partly(image, n + size)
  {
  }

  lemma PartlyEnds(image: seq<bv8>)
    ensures Partly(image, 0) == Erased(|image|) && Partly(image, |image|) == image
  {
  }

  /** What the memory is when the operation has come to its end. */
  function Outcome(app: seq<bv8>, spm: Spm): (r: seq<bv8>)
    requires spm.Writing? ==> spm.at + |spm.data| <= |app|
    ensures |r| == |app|
  {
    match spm
    case Ready => app
    case Erasing => Erased(|app|)
    case Writing(at, data) => AndOverlay(app, at, data)
  }

  /** The device refuses a command that it does not know or whose address is out of range. */
  predicate Refused(c: Command, size: nat, pageSize: nat)
    requires pageSize > 0
  {
    || (c.code == CMD_READ_FLASH && U32(c) > size)
    || (c.code == CMD_WRITE_PAGE && U16(c) > size / pageSize)
    || c.code > CMD_WRITE_PAGE
  }

  /** Commands that are answered by a report. */
  predicate Answered(c: Command) {
    c.code == CMD_READ_FLASH || c.code == CMD_READ_FLASH_CRCS || c.code == CMD_WRITE_PAGE
  }

  /** Where the page of a page number lies. */
  lemma PageInside(page: nat, size: nat, pageSize: nat)
    requires pageSize > 0 && size % pageSize == 0 && page < size / pageSize
    ensures page * pageSize + pageSize <= size
  {
    DivMod(size, pageSize);
    Distribute(size / pageSize, page, pageSize);
    MulAtLeast(size / pageSize - page, pageSize);
  }

  /** The device as its commands see it; app is the memory once the controller is done. */
  datatype View = View(app: seq<bv8>, ram: seq<bv8>, pointer: nat, result: Byte, produced: seq<seq<bv8>>)

  /** What the source leaves to its callers: see Device.SetFeature. */
  predicate Allowed(v: View, c: Command, pageSize: nat) {
    && pageSize > 0 && |v.app| % pageSize == 0 && |v.ram| >= pageSize && Modelled(c)
    && (c.code == CMD_WRITE_PAGE ==> U16(c) != |v.app| / pageSize)
    && (c.code == CMD_SET_POINTER ==> U16(c) <= pageSize)
  }

  /** The device after a command that it answers, if at all, with response. */
  function After(v: View, c: Command, pageSize: nat, response: seq<bv8>): View
    requires Allowed(v, c, pageSize)
  {
    if Refused(c, |v.app|, pageSize) then v.(result := 0xFF)
    else if c.code == CMD_SET_POINTER then v.(result := 0, pointer := U16(c))
    else if c.code == CMD_ERASE_APP_SECTION then v.(result := 0, app := Erased(|v.app|))
    else if c.code == CMD_WRITE_PAGE then
      PageInside(U16(c), |v.app|, pageSize);
      v.(result := 0, pointer := 0, produced := v.produced + [response],
         app := AndOverlay(v.app, U16(c) * pageSize, v.ram[..pageSize]))
    else if Answered(c) then v.(result := 0, produced := v.produced + [response])
    else v.(result := 0)
  }

  /** By their codes: 1 sets the pointer, 3 erases, 7 writes a page; 2 and 4 only read, and 0 does nothing. */
  lemma CommandsByCode(v: View, c: Command, pageSize: nat, response: seq<bv8>)
    requires Allowed(v, c, pageSize)
    ensures var r, short := After(v, c, pageSize, response), c.p0 + 0x100 * c.p1;
      && (c.code == 0 ==> r == v.(result := 0))
      && (c.code == 1 ==> r == v.(result := 0, pointer := short))
      && (c.code == 2 ==>
            if short + 0x10000 * c.p2 + 0x1000000 * c.p3 <= |v.app|
            then r == v.(result := 0, produced := v.produced + [response]) else r == v.(result := 0xFF))
      && (c.code == 3 ==> r == v.(result := 0, app := seq(|v.app|, _ => 0xFF)))
      && (c.code == 4 ==> r == v.(result := 0, produced := v.produced + [response]))
      && (c.code == 7 && short >= |v.app| / pageSize ==> r == v.(result := 0xFF))
      && (c.code == 7 && short < |v.app| / pageSize ==>
            && short * pageSize + pageSize <= |v.app|
            && r == v.(result := 0, pointer := 0, produced := v.produced + [response],
                       app := AndOverlay(v.app, short * pageSize, v.ram[..pageSize])))
      && (c.code > 7 ==> r == v.(result := 0xFF))
  {
    hide AndOverlay;
    if c.code == 7 && U16(c) < |v.app| / pageSize {
      PageInside(U16(c), |v.app|, pageSize);
    }
  }

  /** The command is answered, not refused. */
  predicate Replies(c: Command, size: nat, pageSize: nat) {
    pageSize > 0 && Answered(c) && !Refused(c, size, pageSize)
  }

  lemma Produces(v: View, c: Command, pageSize: nat, response: seq<bv8>)
    requires Allowed(v, c, pageSize)
    ensures After(v, c, pageSize, response).produced ==
      v.produced + if Replies(c, |v.app|, pageSize) then [response] else []
  {
  }

  lemma ResultTells(v: View, c: Command, pageSize: nat, response: seq<bv8>)
    requires Allowed(v, c, pageSize)
    ensures After(v, c, pageSize, response).result == 0 <==> !Refused(c, |v.app|, pageSize)
  {
  }

  lemma AfterErase(v: View, c: Command, pageSize: nat, response: seq<bv8>)
    requires Allowed(v, c, pageSize) && c.code == CMD_ERASE_APP_SECTION
    ensures After(v, c, pageSize, response) == v.(result := 0, app := Erased(|v.app|))
    ensures !Refused(c, |v.app|, pageSize)
  {
  }

  lemma AfterSetPointer(v: View, c: Command, pageSize: nat, response: seq<bv8>)
    requires Allowed(v, c, pageSize) && c.code == CMD_SET_POINTER
    ensures After(v, c, pageSize, response) == v.(result := 0, pointer := U16(c))
    ensures !Refused(c, |v.app|, pageSize)
  {
  }

  lemma AfterWrite(v: View, c: Command, pageSize: nat, response: seq<bv8>)
    requires Allowed(v, c, pageSize) && c.code == CMD_WRITE_PAGE && U16(c) < |v.app| / pageSize
    ensures U16(c) * pageSize + pageSize <= |v.app| && !Refused(c, |v.app|, pageSize)
    ensures After(v, c, pageSize, response).app == AndOverlay(v.app, U16(c) * pageSize, v.ram[..pageSize])
    ensures After(v, c, pageSize, response).pointer == 0
  {
    hide AndOverlay, Erased;
    PageInside(U16(c), |v.app|, pageSize);
  }

  lemma AfterRead(v: View, c: Command, pageSize: nat, response: seq<bv8>)
    requires Allowed(v, c, pageSize) && (c.code == CMD_READ_FLASH || c.code == CMD_READ_FLASH_CRCS)
    ensures After(v, c, pageSize, response).app == v.app && After(v, c, pageSize, response).pointer == v.pointer
    ensures Replies(c, |v.app|, pageSize) <==> (c.code == CMD_READ_FLASH ==> U32(c) <= |v.app|)
  {
  }

  /** The answer of a command that reads. */
  predicate Answers(v: View, c: Command, boot: seq<bv8>, response: seq<bv8>) {
    && |response| == REPORT
    && (c.code == CMD_READ_FLASH && U32(c) <= |v.app| && |boot| >= REPORT ==>
          response == (v.app + boot)[U32(c)..U32(c) + REPORT])
    && (c.code == CMD_READ_FLASH_CRCS && |v.app| % 2 == 0 && |boot| % 2 == 0 ==>
          response[..8] == LittleEndian(Crc(Words(v.app))) + LittleEndian(Crc(Words(boot))))
  }

  class Device {
    const pageSize: nat
    const boot: seq<bv8>
    /** The application section, and the operation going on. */
    var app: seq<bv8>
    var spm: Spm
    /** The page buffer of the controller. */
    var latch: seq<bv8>
    /** The page buffer in memory, with room for one more report. */
    const pageBuffer: array<bv8>
    var pagePtr: nat
    var result: Byte
    /** The report channel to the host: one report. */
    var inFree: bool
    var inReport: seq<bv8>
    /** The IN endpoint below it. */
    var inBusy: bool
    var halted: bool
    /** Every report that was to be sent, in order. */
    ghost var produced: seq<seq<bv8>>

    constructor (pageSize: nat, app: seq<bv8>, boot: seq<bv8>)
      requires PowerOfTwo(pageSize) && pageSize % REPORT == 0 && pageSize <= 0x8000
      requires |app| % pageSize == 0 && |boot| >= REPORT && |boot| % 2 == 0
      ensures Valid() && fresh(pageBuffer) && this.pageSize == pageSize && this.boot == boot && this.app == app
      ensures spm == Ready && pagePtr == 0 && !inBusy && !halted
    {
      this.pageSize, this.app, this.boot := pageSize, app, boot;
      spm, latch, pagePtr, result := Ready, Erased(pageSize), 0, 0;
      pageBuffer := new bv8[pageSize + REPORT](_ => 0);
      inFree, inBusy, halted, inReport, produced := true, false, false, Erased(REPORT), [];
    }

    ghost predicate Valid()
      reads this
    {
      && pageSize > 0 && PowerOfTwo(pageSize) && pageSize % REPORT == 0 && pageSize <= 0x8000
      && |app| % pageSize == 0 && |boot| >= REPORT && |boot| % 2 == 0
      && pageBuffer.Length == pageSize + REPORT && pagePtr <= pageSize
      && latch == Erased(pageSize)
      && (spm.Writing? ==> spm.at + |spm.data| <= |app|)
      && (inFree <==> !inBusy) && |inReport| == REPORT
    }

    /** The application section once the controller is done. */
    ghost function Settled(): (r: seq<bv8>)
      reads this
      requires Valid()
      ensures |r| == |app|
    {
      Outcome(app, spm)
    }

    ghost function Current(): View
      reads this, pageBuffer
      requires Valid()
    {
      View(Settled(), pageBuffer[..], pagePtr, result, produced)
    }

    // ----- the controller -----

    method WaitForSPM()
      requires Valid()
      modifies this`app, this`spm
      ensures Valid() && spm == Ready && app == Settled() == old(Settled())
    {
      app := match spm
        case Ready => app
        case Erasing => Erased(|app|)
        case Writing(at, data) => AndOverlay(app, at, data);
      spm := Ready;
    }

    /** Loads the page buffer of the controller; bits already 0 in it stay 0. */
    method LoadFlashPage()
      requires Valid() && spm == Ready
      modifies this`latch
      ensures latch == pageBuffer[..pageSize]
    {
      hide And;
      var loaded := pageBuffer[..pageSize];
      latch := AndOverlay(latch, 0, loaded);
      forall i | 0 <= i < pageSize
        ensures latch[i] == loaded[i]
      {
        AndLaws(loaded[i], 0);
      }
    }

    // ----- the report channel -----

    method SendReportIn(data: seq<bv8>) returns (sent: bool)
      requires Valid() && |data| == REPORT
      modifies this`inFree, this`inBusy, this`inReport, this`produced
      ensures Valid() && produced == old(produced) + [data]
      ensures sent <==> old(!inBusy) && !halted
      ensures inBusy <==> old(inBusy) || sent
      ensures sent ==> inReport == data
      ensures old(inBusy) ==> inReport == old(inReport)
    {
      produced := produced + [data];
      if !inFree {
        return false;
      }
      inReport := data;
      var run := !inBusy && !halted;
      inBusy := inBusy || run;
      inFree := !run;
      sent := !inFree;
    }

    /** The report has been sent, or its transfer is given up. */
    method ReportInSent()
      requires Valid()
      modifies this`inFree, this`inBusy
      ensures Valid() && !inBusy
    {
      inBusy := false;
      inFree := true;
    }

    // ----- requests from the host -----

    /** HID_report_out: the next part of a page. */
    method ReportOut(report: seq<bv8>)
      requires Valid() && |report| == REPORT
      modifies this`pagePtr, pageBuffer
      ensures Valid() && pagePtr == (old(pagePtr) + 64) % pageSize
      ensures pageBuffer[..] == Overlay(old(pageBuffer[..]), old(pagePtr), report)
    {
      hide PowerOfTwo, BitAnd, Outcome, Erased;
      forall i | 0 <= i < REPORT {
        pageBuffer[pagePtr + i] := report[i];
      }
      pagePtr := (pagePtr + REPORT) % 0x10000;
      MaskIsRemainder(pagePtr, pageSize);
      pagePtr := BitAnd(pagePtr, pageSize - 1);
    }

    /** A report from the OUT endpoint is used only when it was received in full. */
    method ReportOutReceived(completed: bool, received: seq<bv8>)
      requires Valid()
      modifies this`pagePtr, pageBuffer
      ensures Valid()
      ensures pagePtr == if completed && |received| == REPORT then (old(pagePtr) + REPORT) % pageSize else old(pagePtr)
      ensures pageBuffer[..] ==
        if completed && |received| == REPORT then Overlay(old(pageBuffer[..]), old(pagePtr), received)
        else old(pageBuffer[..])
    {
      if !completed {
        return;
      }
      if |received| == REPORT {
        ReportOut(received);
      }
    }

    method ReadFlash(address: nat) returns (response: seq<bv8>)
      requires Valid() && spm == Ready && address <= |app|
      ensures response == (app + boot)[address..address + REPORT]
    {
      response := (app + boot)[address..address + REPORT];
    }

    method ReadCrcs(stack: seq<bv8>) returns (response: seq<bv8>)
      requires Valid() && |stack| == REPORT
      modifies this`app, this`spm
      ensures Valid() && spm == Ready && Settled() == app == old(Settled()) && |app| % 2 == 0
      ensures response == LittleEndian(Crc(Words(app))) + LittleEndian(Crc(Words(boot))) + [0xA5] + stack[9..]
    {
      hide Crc, Words, LittleEndian, Outcome;
      WaitForSPM();
      EvenSize();
      response := LittleEndian(Crc(Words(app))) + LittleEndian(Crc(Words(boot))) + [0xA5] + stack[9..];
    }

    lemma EvenSize()
      requires Valid()
      ensures |app| % 2 == 0 && |app| % REPORT == 0
    {
      DivMod(|app|, pageSize);
      DivMod(pageSize, REPORT);
      var q, r := |app| / pageSize, pageSize / REPORT;
      assert q * (r * REPORT) == (q * r) * REPORT;
      MulMod(q * r, REPORT);
    }

    method WritePage(page: nat)
      requires Valid() && page < |app| / pageSize
      modifies this`app, this`spm, this`latch, this`pagePtr
      ensures Valid() && pagePtr == 0
      ensures page * pageSize + pageSize <= |app| == |old(app)|
      ensures Settled() == AndOverlay(old(Settled()), page * pageSize, pageBuffer[..pageSize])
    {
      hide AndOverlay, PowerOfTwo;
      PageInside(page, |app|, pageSize);
      WaitForSPM();
      LoadFlashPage();
      spm, latch := Writing(page * pageSize, latch), Erased(pageSize);
      pagePtr := 0;
    }

    /** The channel holds the answer, unless it was busy. */
    twostate predicate Offered()
      reads this
    {
      if |produced| > |old(produced)| && old(!inBusy) && !halted then
        inBusy && inReport == produced[|produced| - 1]
      else
        inBusy == old(inBusy) && (inBusy ==> inReport == old(inReport))
    }

    /**
     * HID_set_feature_report_out. The page number must not be that of the page after the last,
     * which the range check lets pass; the pointer must stay in the page; flash is read without
     * waiting for the controller.
     */
    method SetFeature(c: Command, stack: seq<bv8>) returns (ghost response: seq<bv8>)
      requires Valid() && Allowed(Current(), c, pageSize) && |stack| == REPORT
      requires c.code == CMD_READ_FLASH ==> spm == Ready
      modifies this`app, this`spm, this`latch, this`pagePtr, this`result
      modifies this`inFree, this`inBusy, this`inReport, this`produced
      ensures Valid() && Current() == After(old(Current()), c, pageSize, response)
      ensures Answers(old(Current()), c, boot, response) && Offered()
      ensures c.code == CMD_READ_FLASH_CRCS ==> spm == Ready
      ensures c.code == CMD_READ_FLASH ==> spm == Ready
    {
      hide AndOverlay, Crc, Words, LittleEndian, PowerOfTwo, Erased;
      result, response := 0, stack;
      var report := stack;
      if c.code == CMD_NOP {
        return;
      } else if c.code == CMD_SET_POINTER {
        pagePtr := U16(c);
        return;
      } else if c.code == CMD_READ_FLASH {
        if U32(c) > |app| {
          result := 0xFF;
          return;
        }
        report := ReadFlash(U32(c));
      } else if c.code == CMD_ERASE_APP_SECTION {
        WaitForSPM();
        spm := Erasing;
        return;
      } else if c.code == CMD_READ_FLASH_CRCS {
        report := ReadCrcs(stack);
      } else if c.code == CMD_WRITE_PAGE {
        if U16(c) > |app| / pageSize {
          result := 0xFF;
          return;
        }
        WritePage(U16(c));
      } else {
        result := 0xFF;
        return;
      }
      response := report;
      var sent := SendReportIn(report);
    }
  }
}

module FlashingHost {
  import opened Multiples
  import opened Masks
  import opened Commands
  import opened Overlays
  import opened XmegaCrc
  import opened Bootloader
  import IntelHex

  const DATA: nat := 64
  const STATUS_LENGTH: nat := 6

  /** What the host reads back as status. */
  datatype Status = Status(busy: bool, pointer: nat, result: Byte)

  /** Putting the next part into the page in memory. */
  lemma PartLoaded(ram: seq<bv8>, image: seq<bv8>, base: nat, at: nat)
    requires at + DATA <= |ram| && base + at + DATA <= |image|
    requires ram[..at] == image[base..base + at]
    ensures Overlay(ram, at, image[base + at..base + at + DATA])[..at + DATA] == image[base..base + at + DATA]
  {
  }

  /** The pointer after a report, which is back at the start after the last one of a page. */
  lemma PointerMoves(at: nat, pageSize: nat)
    requires at % DATA == 0 && pageSize % DATA == 0 && at < pageSize
    ensures at + DATA <= pageSize && (at + DATA) % DATA == 0
    ensures (at + DATA) % pageSize == if at + DATA < pageSize then at + DATA else 0
  {
  }

  lemma ChecksumArrives(buffer: seq<bv8>, app: bv32, boot: bv32)
    requires |buffer| == REPORT && buffer[..8] == LittleEndian(app) + LittleEndian(boot)
    ensures Assembled(buffer) == app
  {
  }

  /** The pages of an image that fits the buffer can be counted in 16 bits. */
  lemma PageCount(size: nat, pageSize: nat)
    requires pageSize >= DATA && size % pageSize == 0 && size <= IntelHex.FIRMWARE_BUFFER_SIZE
    ensures size / pageSize <= 0xFFFF && size == size / pageSize * pageSize
  {
  }

  lemma NextReport(address: nat, size: nat)
    requires address % DATA == 0 && size % DATA == 0 && address < size
    ensures address + DATA <= size && (address + DATA) % DATA == 0
  {
  }

  /** Flash and image agree up to the next report exactly when they agree in it. */
  lemma PrefixGrows(app: seq<bv8>, image: seq<bv8>, size: nat, at: nat)
    requires at + DATA <= size == |app| <= |image| && app[..at] == image[..at]
    ensures app[at..at + DATA] == image[at..at + DATA] ==> app[..at + DATA] == image[..at + DATA]
    ensures app[at..at + DATA] != image[at..at + DATA] ==> app != image[..size]
  {
  }

  /** The reports that remain when the oldest of all have been read. */
  predicate Remains<T(==)>(left: seq<T>, all: seq<T>) {
    |left| <= |all| && left == all[|all| - |left|..]
  }

  lemma StillRemains<T>(before: seq<T>, n: nat, first: T, after: seq<T>, all: seq<T>)
    requires Remains(before, all) && (if n == 0 then after == before else [first] + after == before)
    ensures Remains(after, all)
  {
    if n > 0 {
      assert after == before[1..];
    }
  }

  /** The host program, its device, and the transport between them. */
  class Host {
    const device: Device
    /** How many bytes the transport reports for a status, whose report id is not sent. */
    const statusLength: nat
    /** A read gives up only when no report is on its way; otherwise it may give up at any time. */
    const prompt: bool
    /** Reports received and not yet read. */
    var queue: seq<seq<bv8>>

    constructor (device: Device, statusLength: nat, prompt: bool)
      requires device.Valid() && !device.halted
      ensures Valid() && this.device == device && this.statusLength == statusLength && this.prompt == prompt
        && queue == []
    {
      this.device, this.statusLength, this.prompt, queue := device, statusLength, prompt, [];
    }

    ghost predicate Valid()
      reads this, device
    {
      device.Valid() && !device.halted && forall k :: 0 <= k < |queue| ==> |queue[k]| == DATA
    }

    /** The reports on their way to the program. */
    ghost function InFlight(): seq<seq<bv8>>
      reads this, device
    {
      queue + if device.inBusy then [device.inReport] else []
    }

    // ----- transport -----

    /** Time passes: the IN report may travel, and the controller of the device may get ready. */
    method Tick()
      requires Valid()
      modifies this`queue, device`inBusy, device`inFree, device`app, device`spm
      ensures Valid() && InFlight() == old(InFlight()) && device.Current() == old(device.Current())
      ensures old(device.spm == Ready) ==> device.spm == Ready
    {
      if * {
        device.WaitForSPM();
      }
      if device.inBusy {
        if * {
          queue := queue + [device.inReport];
          device.ReportInSent();
        }
      }
    }

    /** A report written by the program: a report id, which is not sent, and the data. */
    method Write(buffer: seq<bv8>)
      requires Valid() && |buffer| == DATA + 1
      modifies this`queue, device`inBusy, device`inFree, device`app, device`spm, device`pagePtr, device.pageBuffer
      ensures Valid() && InFlight() == old(InFlight())
      ensures old(device.spm == Ready) ==> device.spm == Ready
      ensures device.Current() == old(device.Current()).(
        ram := Overlay(old(device.Current()).ram, old(device.pagePtr), buffer[1..]),
        pointer := (old(device.pagePtr) + DATA) % device.pageSize)
    {
      Tick();
      device.ReportOutReceived(true, buffer[1..]);
    }

    /** hid_read_timeout: the next report, or none. */
    method Read() returns (n: nat, buffer: seq<bv8>)
      requires Valid()
      modifies this`queue, device`inBusy, device`inFree, device`app, device`spm
      ensures Valid() && device.Current() == old(device.Current())
      ensures old(device.spm == Ready) ==> device.spm == Ready
      ensures prompt && n == 0 ==> InFlight() == []
      ensures if n == 0 then InFlight() == old(InFlight())
        else |buffer| == DATA && [buffer] + InFlight() == old(InFlight())
    {
      Tick();
      if * {
        if !prompt {
          return 0, [];
        }
      }
      if queue == [] {
        if device.inBusy {
          queue := [device.inReport];
          device.ReportInSent();
        }
      }
      if queue == [] {
        n, buffer := 0, [];
      } else {
        buffer := queue[0];
        n, queue := DATA, queue[1..];
      }
    }

    method SendFeature(c: Command) returns (ghost response: seq<bv8>)
      requires Valid() && Allowed(device.Current(), c, device.pageSize)
      requires c.code == CMD_READ_FLASH ==> device.spm == Ready
      modifies this`queue, device
      ensures Valid() && device.Current() == After(old(device.Current()), c, device.pageSize, response)
      ensures Answers(old(device.Current()), c, device.boot, response)
      ensures c.code == CMD_READ_FLASH_CRCS || c.code == CMD_READ_FLASH ==> device.spm == Ready
      ensures old(InFlight()) <= InFlight()
      ensures old(InFlight()) == [] ==>
        InFlight() == if Replies(c, |old(device.Current()).app|, device.pageSize) then [response] else []
    {
      hide After, Answers, Allowed, Replies;
      Tick();
      response := Request(c);
    }

    /** The control transfer itself. What the device's stack held is unknown. */
    method Request(c: Command) returns (ghost response: seq<bv8>)
      requires Valid() && Allowed(device.Current(), c, device.pageSize)
      requires c.code == CMD_READ_FLASH ==> device.spm == Ready
      modifies device
      ensures Valid() && device.Current() == After(old(device.Current()), c, device.pageSize, response)
      ensures Answers(old(device.Current()), c, device.boot, response)
      ensures c.code == CMD_READ_FLASH_CRCS || c.code == CMD_READ_FLASH ==> device.spm == Ready
      ensures old(!device.inBusy) ==>
        device.inBusy == Replies(c, |old(device.Current()).app|, device.pageSize)
        && (device.inBusy ==> device.inReport == response)
      ensures old(device.inBusy) ==> device.inBusy && device.inReport == old(device.inReport)
    {
      hide After, Answers, Allowed, Replies;
      assert |Erased(REPORT)| == REPORT;
      var stack: seq<bv8> :| |stack| == REPORT;
      response := device.SetFeature(c, stack);
      Produces(old(device.Current()), c, device.pageSize, response);
    }

    method GetFeature() returns (n: nat, status: Status)
      requires Valid()
      ensures n == statusLength && status.result == device.result && status.pointer == device.pagePtr
    {
      var busy: bool := *;
      n, status := statusLength, Status(busy, device.pagePtr, device.result);
    }

    // ----- program -----

    /** True when a status of six bytes comes back and the device is not busy. */
    method CheckBusy() returns (busy: bool)
      requires Valid()
      ensures busy ==> statusLength == 6
    {
      var n, status := GetFeature();
      busy := n == 6 && !status.busy;
    }

    /** Asks until CheckBusy denies, at most 100 times; waited counts the times it did not. */
    method WaitNotBusy() returns (ok: bool, ghost waited: nat)
      requires Valid()
      ensures ok <==> waited < 100
      ensures waited > 0 ==> statusLength == 6
      ensures statusLength != 6 ==> ok
    {
      var timeout: Byte := 100;
      waited := 0;
      var busy := CheckBusy();
      while busy
        invariant 0 < timeout <= 100 && waited == 100 - timeout
        invariant waited > 0 || busy ==> statusLength == 6
        decreases timeout
      {
        timeout := timeout - 1;
        waited := waited + 1;
        if timeout == 0 {
          return false, waited;
        }
        busy := CheckBusy();
      }
      ok := true;
    }

    /** Sends a command and accepts it when the status has five bytes and says success. */
    method ExecuteHIDCommand(c: Command) returns (ok: bool, ghost response: seq<bv8>)
      requires Valid() && Allowed(device.Current(), c, device.pageSize)
      requires c.code == CMD_READ_FLASH ==> device.spm == Ready
      modifies this`queue, device
      ensures Valid() && device.Current() == After(old(device.Current()), c, device.pageSize, response)
      ensures Answers(old(device.Current()), c, device.boot, response)
      ensures c.code == CMD_READ_FLASH_CRCS || c.code == CMD_READ_FLASH ==> device.spm == Ready
      ensures old(InFlight()) <= InFlight()
      ensures old(InFlight()) == [] ==>
        InFlight() == if Replies(c, |old(device.Current()).app|, device.pageSize) then [response] else []
      ensures ok <==> statusLength == 5 && !Refused(c, |old(device.Current()).app|, device.pageSize)
    {
      hide After, Answers, Allowed, Replies, Refused;
      response := SendFeature(c);
      assert device.Current().result == device.result;
      ResultTells(old(device.Current()), c, device.pageSize, response);
      var n, status := GetFeature();
      ok := n == STATUS_LENGTH - 1 && status.result == 0;
    }

    /**
     * A command whose answer is wanted. The report read is the one that this command produced
     * exactly when the drain left none on its way; otherwise it is the oldest of those.
     */
    method ExecuteHIDCommandWithResponse(c: Command)
      returns (ok: bool, buffer: seq<bv8>, ghost response: seq<bv8>, ghost left: seq<seq<bv8>>)
      requires Valid() && Allowed(device.Current(), c, device.pageSize)
      requires c.code == CMD_READ_FLASH ==> device.spm == Ready
      modifies this`queue, device
      ensures Valid() && device.Current() == After(old(device.Current()), c, device.pageSize, response)
      ensures Answers(old(device.Current()), c, device.boot, response)
      ensures Remains(left, old(InFlight())) && (prompt ==> left == [])
      ensures ok ==> |buffer| == DATA && buffer == if left == [] then response else left[0]
      ensures ok ==> statusLength == 5 && !Refused(c, |old(device.Current()).app|, device.pageSize)
      ensures ok && left == [] ==> Replies(c, |old(device.Current()).app|, device.pageSize)
      ensures prompt ==>
        (ok <==> statusLength == 5 && Replies(c, |old(device.Current()).app|, device.pageSize))
      ensures c.code == CMD_READ_FLASH_CRCS || c.code == CMD_READ_FLASH ==> device.spm == Ready
    {
      hide After, Answers, Allowed, Refused, Answered, Device.Current;
      Drain();
      left := InFlight();
      ok, response := ExecuteHIDCommand(c);
      if !ok {
        return false, [], response, left;
      }
      var n;
      ghost var waiting := InFlight();
      n, buffer := Read();
      ok := n != 0;
      if ok {
        assert waiting[0] == ([buffer] + InFlight())[0] == buffer;
      }
    }

    /** Clears out any unread reports, until a read gives up. */
    method Drain()
      requires Valid()
      modifies this`queue, device`inBusy, device`inFree, device`app, device`spm
      ensures Valid() && device.Current() == old(device.Current())
      ensures Remains(InFlight(), old(InFlight())) && (prompt ==> InFlight() == [])
      ensures old(device.spm == Ready) ==> device.spm == Ready
    {
      var n, buffer := Read();
      StillRemains(old(InFlight()), n, buffer, InFlight(), old(InFlight()));
      while n > 0
        invariant Valid() && device.Current() == old(device.Current())
        invariant old(device.spm == Ready) ==> device.spm == Ready
        invariant prompt && n == 0 ==> InFlight() == []
        invariant Remains(InFlight(), old(InFlight()))
        decreases n > 0, |InFlight()|
      {
        ghost var before := InFlight();
        n, buffer := Read();
        StillRemains(before, n, buffer, InFlight(), old(InFlight()));
      }
    }

    /** Sends a page of the image, in reports; the pointer of the device ends where it began. */
    method LoadPage(image: seq<bv8>, base: nat)
      requires Valid() && device.pagePtr == 0 && base + device.pageSize <= |image|
      modifies this`queue, device`inBusy, device`inFree, device`app, device`spm, device`pagePtr, device.pageBuffer
      ensures Valid() && device.pagePtr == 0 && device.Settled() == old(device.Settled())
      ensures device.pageBuffer[..device.pageSize] == image[base..base + device.pageSize]
    {
      hide PowerOfTwo, Outcome, Overlay, Host.InFlight;
      var byte := 0;
      while byte < device.pageSize
        invariant 0 <= byte <= device.pageSize && byte % DATA == 0
        invariant Valid() && device.Settled() == old(device.Settled())
        invariant device.pagePtr == if byte < device.pageSize then byte else 0
        invariant device.pageBuffer[..byte] == image[base..base + byte]
        decreases device.pageSize - byte
      {
        PointerMoves(byte, device.pageSize);
        PartLoaded(device.pageBuffer[..], image, base, byte);
        var data := image[base + byte..base + byte + DATA];
        var buffer := [0] + data;
        assert buffer[1..] == data;
        Write(buffer);
        assert device.Current().ram[..byte + DATA] == device.pageBuffer[..byte + DATA];
        byte := byte + DATA;
      }
    }

    /** One turn of the page loop. */
    method SendPage(image: seq<bv8>, page: nat, cmd: Command) returns (ok: bool, c: Command)
      requires Valid() && device.pagePtr == 0 && page < |device.app| / device.pageSize <= 0xFFFF
      requires |device.app| <= |image| && page * device.pageSize <= |device.app|
      requires device.Settled() == Partly(image[..|device.app|], page * device.pageSize)
      modifies this`queue, device, device.pageBuffer
      ensures Valid() && |device.app| == |old(device.app)| && device.pagePtr == 0
      ensures (page + 1) * device.pageSize <= |device.app|
      ensures device.Settled() == Partly(image[..|device.app|], (page + 1) * device.pageSize)
      ensures ok <==> statusLength == 5
    {
      hide PowerOfTwo, Outcome, Overlay, AndOverlay, Partly, Host.InFlight;
      ghost var size := |device.app|;
      PageInside(page, size, device.pageSize);
      Distribute(page, 1, device.pageSize);
      var at := page * device.pageSize;
      assert (page + 1) * device.pageSize == at + device.pageSize;
      LoadPage(image, at);
      assert image[at..at + device.pageSize] == image[..size][at..at + device.pageSize];
      WriteNextPage(image[..size], at, device.pageSize);
      ok, c := WriteLoadedPage(page, cmd);
    }

    /** Has the device write the page in its memory, and waits for it. */
    method WriteLoadedPage(page: nat, cmd: Command) returns (ok: bool, c: Command)
      requires Valid() && page < |device.app| / device.pageSize <= 0xFFFF
      modifies this`queue, device
      ensures Valid() && |device.app| == |old(device.app)| && device.pagePtr == 0
      ensures page * device.pageSize + device.pageSize <= |device.app|
      ensures device.Settled() ==
        AndOverlay(old(device.Settled()), page * device.pageSize, old(device.pageBuffer[..device.pageSize]))
      ensures ok <==> statusLength == 5
    {
      hide PowerOfTwo, Outcome, Overlay, AndOverlay, Host.InFlight, U16, WithU16, After, Refused, Replies, Answers;
      c := WithU16(cmd.(code := CMD_WRITE_PAGE), page);
      ParametersArrive(cmd.(code := CMD_WRITE_PAGE), page);
      assert device.Current().ram[..device.pageSize] == device.pageBuffer[..device.pageSize];
      ghost var v, response := device.Current(), [];
      ok, response := ExecuteHIDCommand(c);
      AfterWrite(v, c, device.pageSize, response);
      if ok {
        ghost var waited;
        ok, waited := WaitNotBusy();
      }
    }

    /** Erases the application section and waits for it. */
    method EraseTarget(cmd: Command) returns (ok: bool)
      requires Valid() && cmd.code == CMD_ERASE_APP_SECTION
      modifies this`queue, device
      ensures Valid() && |device.app| == |old(device.app)| && device.Settled() == Erased(|device.app|)
      ensures ok <==> statusLength == 5
    {
      hide PowerOfTwo, Outcome, AndOverlay, Host.InFlight, U16, After, Refused, Replies, Answers, Erased;
      ghost var response, waited;
      ghost var v := device.Current();
      ok, response := ExecuteHIDCommand(cmd);
      AfterErase(v, cmd, device.pageSize, response);
      if ok {
        ok, waited := WaitNotBusy();
      }
    }

    /** Lets the next report go to the start of the page. */
    method ResetPointer(cmd: Command) returns (ok: bool)
      requires Valid() && cmd.code == CMD_SET_POINTER && U16(cmd) == 0
      modifies this`queue, device
      ensures Valid() && |device.app| == |old(device.app)| && device.Settled() == old(device.Settled())
      ensures device.pagePtr == 0
      ensures ok <==> statusLength == 5
    {
      hide PowerOfTwo, Outcome, AndOverlay, Host.InFlight, U16, After, Refused, Replies, Answers, Erased;
      ghost var response;
      ghost var v := device.Current();
      ok, response := ExecuteHIDCommand(cmd);
      AfterSetPointer(v, cmd, device.pageSize, response);
    }

    /** Asks for the checksum of the application section and compares it. */
    method CompareCrc(cmd: Command, firmwareCrc: bv32) returns (ok: bool)
      requires Valid()
      modifies this`queue, device
      ensures Valid() && device.Settled() == old(device.Settled()) && device.pagePtr == old(device.pagePtr)
      ensures |device.app| % 2 == 0
      ensures prompt ==> (ok <==> statusLength == 5 && Crc(Words(device.Settled())) == firmwareCrc)
      ensures ok ==> statusLength == 5 && device.spm == Ready && device.app == device.Settled()
    {
      hide PowerOfTwo, AndOverlay, Host.InFlight, U16, U32, Crc, Words, LittleEndian, Assembled, After, Refused,
        Replies, Erased;
      device.EvenSize();
      var c := cmd.(code := CMD_READ_FLASH_CRCS);
      ghost var v := device.Current();
      var buffer;
      ghost var response, left;
      ok, buffer, response, left := ExecuteHIDCommandWithResponse(c);
      AfterRead(v, c, device.pageSize, response);
      if !ok {
        return;
      }
      ChecksumArrives(response, Crc(Words(v.app)), Crc(Words(device.boot)));
      var appCrc := Assembled(buffer);
      ok := appCrc == firmwareCrc;
    }

    /** The page loop. */
    method SendPages(image: seq<bv8>, flashSize: nat, pageSize: nat, cmd: Command) returns (ok: bool, c: Command)
      requires Valid() && flashSize == |device.app| <= |image| && pageSize == device.pageSize
      requires flashSize <= IntelHex.FIRMWARE_BUFFER_SIZE && device.pagePtr == 0
      requires device.Settled() == Erased(flashSize) && statusLength == 5
      modifies this`queue, device, device.pageBuffer
      ensures ok && Valid() && |device.app| == flashSize && device.pagePtr == 0
      ensures device.Settled() == image[..flashSize]
    {
      hide PowerOfTwo, Outcome, AndOverlay, Host.InFlight, Erased, Partly;
      var numPages := flashSize / pageSize;
      SmallMultiple(pageSize, DATA);
      PageCount(flashSize, pageSize);
      PartlyEnds(image[..flashSize]);
      ok, c := true, cmd;
      for page := 0 to numPages
        invariant ok && Valid() && |device.app| == flashSize && device.pagePtr == 0
        invariant page * pageSize <= flashSize
        invariant device.Settled() == Partly(image[..flashSize], page * pageSize)
      {
        ok, c := SendPage(image, page, c);
        if !ok {
          return;
        }
      }
    }

    /**
     * Writes an image to the device. Whenever the transport reports the five bytes of a status
     * the application section is the image afterwards, and otherwise nothing succeeds. With a
     * prompt transport it succeeds exactly when, besides, the checksum is the expected one.
     */
    method UpdateFirmware(image: seq<bv8>, flashSize: nat, pageSize: nat, firmwareCrc: bv32) returns (ok: bool)
      requires Valid() && flashSize == |device.app| && pageSize == device.pageSize
      requires flashSize <= IntelHex.FIRMWARE_BUFFER_SIZE == |image|
      modifies this`queue, device, device.pageBuffer
      ensures Valid() && flashSize % 2 == 0 && |device.app| == flashSize
      ensures ok ==> statusLength == 5
      ensures prompt ==> (ok <==> statusLength == 5 && Crc(Words(image[..flashSize])) == firmwareCrc)
      ensures device.Settled() == if statusLength == 5 then image[..flashSize] else Erased(flashSize)
      ensures ok ==> device.spm == Ready && device.app == image[..flashSize] && device.pagePtr == 0
    {
      hide PowerOfTwo, Outcome, AndOverlay, Host.InFlight, Crc, Words, Erased, U16, WithU16, Device.Valid,
        Device.Settled;
      device.EvenSize();
      var cmd := Command(CMD_ERASE_APP_SECTION, 0, 0, 0, 0);
      ok := EraseTarget(cmd);
      if !ok {
        return;
      }
      ParametersArrive(cmd.(code := CMD_SET_POINTER), 0);
      cmd := WithU16(cmd.(code := CMD_SET_POINTER), 0);
      ok := ResetPointer(cmd);
      if !ok {
        return;
      }
      ok, cmd := SendPages(image, flashSize, pageSize, cmd);
      if !ok {
        return;
      }
      ok := CompareCrc(cmd, firmwareCrc);
    }

    /** Reads one report of flash; nothing else of the device changes. */
    method ReadBack(cmd: Command, address: nat) returns (ok: bool, buffer: seq<bv8>, c: Command)
      requires Valid() && device.spm == Ready && address + DATA <= |device.app| < 0x1_0000_0000
      requires cmd.code == CMD_READ_FLASH
      modifies this`queue, device
      ensures Valid() && device.spm == Ready && device.app == old(device.app) && c.code == cmd.code
      ensures ok ==> statusLength == 5 && |buffer| == DATA
      ensures prompt ==> (ok <==> statusLength == 5)
      ensures prompt && ok ==> buffer == device.app[address..address + DATA]
    {
      hide PowerOfTwo, AndOverlay, Host.InFlight, U16, U32, WithU32, After, Refused, Replies;
      ParametersArrive(cmd, address);
      RemainderUnique(address, 0, address, 0x1_0000_0000);
      c := WithU32(cmd, address);
      ghost var v, response, left := device.Current(), [], [];
      ok, buffer, response, left := ExecuteHIDCommandWithResponse(c);
      AfterRead(v, c, device.pageSize, response);
      assert (device.app + device.boot)[address..address + DATA] == device.app[address..address + DATA];
    }

    /** Compares one report with the image. */
    method CompareReport(buffer: seq<bv8>, image: seq<bv8>, address: nat) returns (ok: bool)
      requires |buffer| == DATA && address + DATA <= |image|
      ensures ok <==> buffer == image[address..address + DATA]
    {
      for i := 0 to DATA
        invariant buffer[..i] == image[address..address + i]
      {
        if buffer[i] != image[address + i] {
          assert buffer[i] != image[address..address + DATA][i];
          return false;
        }
      }
      ok := true;
    }

    /** Reads the application section back and compares it with the image, byte by byte. */
    method VerifyFirmware(image: seq<bv8>, flashSize: nat) returns (ok: bool)
      requires Valid() && flashSize == |device.app| <= |image| && flashSize < 0x1_0000_0000
      requires device.spm == Ready
      modifies this`queue, device
      ensures Valid() && device.app == old(device.app)
      ensures prompt ==>
        (ok <==> flashSize == 0 || (statusLength == 5 && device.app == image[..flashSize]))
    {
      hide PowerOfTwo, Outcome, AndOverlay, Host.InFlight, Device.Current;
      var cmd := Command(CMD_READ_FLASH, 0, 0, 0, 0);
      var address := 0;
      device.EvenSize();
      while address < flashSize
        invariant Valid() && device.app == old(device.app) && device.spm == Ready
        invariant 0 <= address <= flashSize && address % DATA == 0 && cmd.code == CMD_READ_FLASH
        invariant prompt ==> device.app[..address] == image[..address]
        invariant address > 0 ==> statusLength == 5
      {
        NextReport(address, flashSize);
        var buffer;
        ok, buffer, cmd := ReadBack(cmd, address);
        if !ok {
          return;
        }
        ok := CompareReport(buffer, image, address);
        if prompt {
          PrefixGrows(device.app, image, flashSize, address);
        }
        if !ok {
          return;
        }
        address := address + DATA;
      }
      ok := true;
    }

    /** The whole program: after a successful update, verification never fails. */
    method Flash(image: seq<bv8>, flashSize: nat, pageSize: nat, firmwareCrc: bv32, verify: bool) returns (ok: bool)
      requires Valid() && flashSize == |device.app| && pageSize == device.pageSize
      requires flashSize <= IntelHex.FIRMWARE_BUFFER_SIZE == |image|
      modifies this`queue, device, device.pageBuffer
      ensures Valid() && flashSize % 2 == 0 && |device.app| == flashSize
      ensures prompt ==> (ok <==> statusLength == 5 && Crc(Words(image[..flashSize])) == firmwareCrc)
      ensures ok ==> statusLength == 5 && device.app == image[..flashSize]
    {
      hide PowerOfTwo, AndOverlay, Host.InFlight, Crc, Words;
      ok := UpdateFirmware(image, flashSize, pageSize, firmwareCrc);
      if ok && verify {
        ok := VerifyFirmware(image, flashSize);
      }
    }
  }
}
