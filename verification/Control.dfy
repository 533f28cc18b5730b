// The control endpoint: the SETUP/DATA/STATUS machine of firmware/.../xmega/drivers/usb/
// usb_device.c with the requests of udc.c that decide what it does.

/** The data stage of a control read (section 8.5.3.2 of USB 2.0). */
module ControlReads {
  import opened Multiples
  import opened Packets

  /**
   * The data stage as the driver keeps it: the payload, how much of it is on the wire, the
   * counter of earlier bytes, and the short-packet flag that survives from one stage to the next.
   */
  datatype InStage = InStage(payload: seq<bv8>, wLength: nat, size: nat,
                             nbTrans: nat, prev: nat, short: bool, wire: seq<seq<bv8>>, done: bool)
  {
    predicate Sane() {
      size > 0 && nbTrans <= |payload|
    }
  }

  /** What udd_ctrl_in_sent does in the data stage. */
  function InSent(s: InStage): (r: InStage)
    requires s.Sane() && !s.done
    ensures r.Sane() && r.payload == s.payload && r.wLength == s.wLength && r.size == s.size
  {
    var left := |s.payload| - s.nbTrans;
    var prev := if left == 0 then (s.prev + s.nbTrans) % 0x10000 else s.prev;
    if left == 0 && (s.wLength == prev || s.short) then
      s.(prev := prev, done := true)
    else
      var n := if left >= s.size then s.size else left;
      s.(prev := prev, nbTrans := s.nbTrans + n, short := left < s.size,
         wire := s.wire + [s.payload[s.nbTrans..s.nbTrans + n]])
  }

  /** The stage run to its end: it always ends. */
  function Finish(s: InStage): (r: InStage)
    requires s.Sane()
    ensures r.done
    decreases |s.payload| - s.nbTrans, !s.short, !s.done
  {
    if s.done then s else Finish(InSent(s))
  }

  /** The start of a stage: stale is the flag that the last stage of an earlier request left behind. */
  function Start(payload: seq<bv8>, wLength: nat, size: nat, stale: bool): InStage {
    InStage(payload, wLength, size, 0, 0, stale, [], false)
  }

  /**
   * What section 8.5.3.2 asks for: the payload cut at wLength, in full packets but for the
   * last, closed by a zero-length packet when it is shorter than asked for and ends on a full one.
   */
  function Expected(payload: seq<bv8>, wLength: nat, size: nat): seq<seq<bv8>>
    requires size > 0
  {
    var data := if |payload| <= wLength then payload else payload[..wLength];
    Wire(data, size, |data| < wLength)
  }

  lemma {:induction false} FinishMid(s: InStage)
    requires s.Sane() && !s.done && 0 < s.nbTrans && |s.payload| <= 0xFFFF && s.prev == 0
    requires s.wire == Cut(s.payload[..s.nbTrans], s.size)
    requires s.short == (s.nbTrans % s.size != 0)
    requires s.nbTrans < |s.payload| ==> s.nbTrans % s.size == 0
    ensures Finish(s).wire == Wire(s.payload, s.size, |s.payload| != s.wLength)
    decreases |s.payload| - s.nbTrans
  {
    if s.nbTrans == |s.payload| {
      assert s.payload[..s.nbTrans] == s.payload;
      var t := InSent(s);
      if t.done {
        assert Finish(s) == t;
        assert Cut(s.payload, s.size) + [] == Cut(s.payload, s.size);
      } else {
        assert s.payload[s.nbTrans..s.nbTrans] == [];
        assert Finish(s) == Finish(t) == InSent(t);
      }
    } else {
      var n := if |s.payload| - s.nbTrans >= s.size then s.size else |s.payload| - s.nbTrans;
      NextFull(s.payload, s.nbTrans, n, s.size);
      FinishMid(InSent(s));
    }
  }

  /** One more packet behind full ones. */
  lemma NextFull(data: seq<bv8>, at: nat, n: nat, size: nat)
    requires size > 0 && at % size == 0 && 0 < n <= size && at + n <= |data|
    ensures Cut(data[..at + n], size) == Cut(data[..at], size) + [data[at..at + n]]
    ensures (n < size) == ((at + n) % size != 0)
  {
    CutAppend(data[..at], data[at..at + n], size);
    assert data[..at] + data[at..at + n] == data[..at + n];
    SameRemainder(n, at, size);
    MulMod(1, size);
    if n < size {
      RemainderUnique(n, 0, n, size);
    }
  }

  /** What a nonempty payload puts on the wire, whatever flag was left behind. */
  lemma FinishFromStart(payload: seq<bv8>, wLength: nat, size: nat, stale: bool)
    requires size > 0 && 0 < |payload| <= 0xFFFF
    ensures Finish(Start(payload, wLength, size, stale)).wire == Wire(payload, size, |payload| != wLength)
  {
    var s := Start(payload, wLength, size, stale);
    var n := if |payload| >= size then size else |payload|;
    MulMod(0, size);
    NextFull(payload, 0, n, size);
    assert payload[..0] == [];
    FinishMid(InSent(s));
  }

  /**
   * The stage is what section 8.5.3.2 asks for exactly when the payload is not empty and not
   * longer than wLength, or is empty and the flag was not left set by an earlier request.
   */
  lemma ConformsExactlyWhen(payload: seq<bv8>, wLength: nat, size: nat, stale: bool)
    requires size > 0 && |payload| <= 0xFFFF && 0 < wLength
    ensures Finish(Start(payload, wLength, size, stale)).wire == Expected(payload, wLength, size)
       <==> 0 < |payload| <= wLength || (payload == [] && !stale)
  {
    var s := Start(payload, wLength, size, stale);
    MulMod(0, size);
    if payload == [] {
      var t := InSent(s);
      if !stale {
        assert payload[0..0] == [];
        assert Finish(s) == Finish(t) == InSent(t);
      }
    } else {
      FinishFromStart(payload, wLength, size, stale);
      if |payload| > wLength {
        ConcatWire(payload, size, true);
        ConcatWire(payload[..wLength], size, false);
        assert |payload[..wLength]| != |payload|;
      }
    }
  }

  lemma ConcatWire(data: seq<bv8>, size: nat, want: bool)
    requires size > 0
    ensures Concat(Wire(data, size, want)) == data
  {
    CutIsFaithful(data, size);
    ConcatAppend(Cut(data, size), []);
    assert Cut(data, size) + [] == Cut(data, size);
  }

  /** The reply to GET_DESCRIPTOR is cut at wLength, which is what the stage needs. */
  function ClipToRequest(descriptor: seq<bv8>, wLength: nat): seq<bv8> {
    if wLength < |descriptor| then descriptor[..wLength] else descriptor
  }

  /** A descriptor read therefore always sends the first wLength bytes of the descriptor, properly closed. */
  lemma DescriptorRead(descriptor: seq<bv8>, wLength: nat, size: nat, stale: bool)
    requires size > 0 && 0 < |descriptor| <= 0xFFFF && 0 < wLength
    ensures var wire := Finish(Start(ClipToRequest(descriptor, wLength), wLength, size, stale)).wire;
      && wire == Expected(descriptor, wLength, size)
      && Concat(wire) == ClipToRequest(descriptor, wLength)
  {
    var payload := ClipToRequest(descriptor, wLength);
    ConformsExactlyWhen(payload, wLength, size, stale);
    ConcatWire(payload, size, |payload| < wLength);
  }
}

/** The data stage of a control write. */
module ControlWrites {
  import opened Multiples
  import opened Packets

  /** The packet sizes that section 5.5.3 of USB 2.0 allows for a control endpoint. */
  predicate IsCtrlSize(size: nat) {
    size in {8, 16, 32, 64}
  }

  /** The stage goes on, enters its status stage, or is refused. */
  datatype Outcome = More | Acknowledge | Refuse

  /** No stage for a buffer of this size and a request of this length runs out of the buffer. */
  predicate Contained(size: nat, wLength: nat, ctrl: nat) {
    size <= 0x10000 - ctrl || wLength <= 0x10000 - ctrl
  }

  lemma NothingToContain(wLength: nat, ctrl: nat)
    requires IsCtrlSize(ctrl)
    ensures Contained(0, wLength, ctrl)
  {
  }

  /**
   * The data stage as the driver keeps it: the memory from the payload buffer on, the size of
   * the buffer, and the 16-bit count of bytes in it.
   */
  datatype OutStage = OutStage(mem: seq<bv8>, size: nat, wLength: nat, ctrl: nat, at: nat, outcome: Outcome)
  {
    /** The memory reaches as far as the stage can write. */
    predicate Sane() {
      && IsCtrlSize(ctrl) && size <= 0xFFFF && size <= |mem|
      && (!Contained(size, wLength, ctrl) ==> |mem| >= 0x10000)
      && (outcome == More ==> at <= size && at % ctrl == 0 && at < wLength && (at == size ==> at == 0))
    }
  }

  /** How many bytes of a packet of n are copied: the sum that is compared has 16 bits. */
  function Copied(s: OutStage, n: nat): nat
    requires s.at <= s.size
  {
    if s.size < (s.at + n) % 0x10000 then s.size - s.at else n
  }

  lemma CopiedFits(s: OutStage, n: nat)
    requires s.Sane() && s.outcome == More && n <= s.ctrl
    ensures s.at + Copied(s, n) <= |s.mem|
    ensures s.at + n < 0x10000 ==> s.at + Copied(s, n) == Min(s.at + n, s.size)
    ensures s.at + n >= 0x10000 ==>
      !Contained(s.size, s.wLength, s.ctrl) && s.at + n == 0x10000 && n == s.ctrl && Copied(s, n) == n
    ensures Copied(s, n) == s.ctrl ==> (s.at + s.ctrl) % s.ctrl == 0 && (s.at + s.ctrl) % 0x10000 % s.ctrl == 0
  {
    MulMod(1, s.ctrl);
    AddMultiples(s.at, s.ctrl, s.ctrl);
    NextMultiple(s.at, s.ctrl);
  }

  /** The largest multiple of a packet size below 65536. */
  lemma NextMultiple(at: nat, ctrl: nat)
    requires IsCtrlSize(ctrl) && at % ctrl == 0 && at <= 0xFFFF
    ensures at <= 0x10000 - ctrl && (at + ctrl == 0x10000 || (at + ctrl) % 0x10000 == at + ctrl)
    ensures 0 % ctrl == 0
  {
    match ctrl
    case 8 => assert at <= 0x10000 - 8;
    case 16 => assert at <= 0x10000 - 16;
    case 32 => assert at <= 0x10000 - 32;
    case _ => assert at <= 0x10000 - 64;
  }

  /** What udd_ctrl_out_received does in the data stage. */
  function OutReceived(s: OutStage, packet: seq<bv8>): (r: OutStage)
    requires s.Sane() && s.outcome == More && |packet| <= s.ctrl
    ensures r.Sane() && r.size == s.size && r.wLength == s.wLength && r.ctrl == s.ctrl && |r.mem| == |s.mem|
  {
    CopiedFits(s, |packet|);
    var n := Copied(s, |packet|);
    var at := (s.at + n) % 0x10000;
    s.(mem := s.mem[..s.at] + packet[..n] + s.mem[s.at + n..], at := at,
       outcome := if s.ctrl != n || s.wLength <= at then Acknowledge else if s.size == at then Refuse else More)
  }

  lemma OutcomeOfPacket(s: OutStage, packet: seq<bv8>)
    requires s.Sane() && s.outcome == More && |packet| <= s.ctrl
    ensures var r := OutReceived(s, packet);
      && r.at <= 0xFFFF && r.at <= |r.mem|
      && r.outcome == if s.ctrl != Copied(s, |packet|) || s.wLength <= r.at then Acknowledge
                      else if s.size == r.at then Refuse else More
  {
    CopiedFits(s, |packet|);
  }

  function StartOut(mem: seq<bv8>, size: nat, wLength: nat, ctrl: nat): OutStage {
    OutStage(mem, size, wLength, ctrl, 0, More)
  }

  predicate PacketsFit(packets: seq<seq<bv8>>, ctrl: nat) {
    forall i :: 0 <= i < |packets| ==> |packets[i]| <= ctrl
  }

  /** The stage fed with packets until it ends, and how many it uses. */
  function Feed(s: OutStage, packets: seq<seq<bv8>>): (r: OutStage)
    requires s.Sane() && PacketsFit(packets, s.ctrl)
    ensures r.Sane() && r.size == s.size && |r.mem| == |s.mem|
    decreases |packets|
  {
    if s.outcome != More || packets == [] then s else Feed(OutReceived(s, packets[0]), packets[1..])
  }

  function Used(s: OutStage, packets: seq<seq<bv8>>): (n: nat)
    requires s.Sane() && PacketsFit(packets, s.ctrl)
    ensures n <= |packets|
    decreases |packets|
  {
    if s.outcome != More || packets == [] then 0 else 1 + Used(OutReceived(s, packets[0]), packets[1..])
  }

  /** How a stage should stand after total bytes, the last n of them in the last packet. */
  function OutcomeAt(total: nat, n: nat, size: nat, wLength: nat, ctrl: nat): Outcome {
    if n < ctrl || total > size || total >= wLength then Acknowledge
    else if total == size then Refuse
    else More
  }

  /** The buffer holds bytes, as far as they fit, and what lies behind it is untouched. */
  predicate Holds(s: OutStage, mem: seq<bv8>, bytes: seq<bv8>) {
    && s.size <= |s.mem| == |mem| && s.at == Min(|bytes|, s.size) && s.mem[..s.at] == bytes[..s.at]
    && s.mem[s.size..] == mem[s.size..]
  }

  /** One packet of a contained stage. */
  lemma PacketStored(s: OutStage, mem: seq<bv8>, bytes: seq<bv8>, packet: seq<bv8>)
    requires s.Sane() && s.outcome == More && Contained(s.size, s.wLength, s.ctrl) && |packet| <= s.ctrl
    requires Holds(s, mem, bytes) && |bytes| <= s.size
    ensures var r := OutReceived(s, packet);
      && Holds(r, mem, bytes + packet)
      && r.outcome == OutcomeAt(|bytes + packet|, |packet|, s.size, s.wLength, s.ctrl)
      && (r.outcome == More ==> |bytes + packet| <= s.size)
  {
    CopiedFits(s, |packet|);
    var r, n := OutReceived(s, packet), Copied(s, |packet|);
    assert s.at + |packet| < 0x10000 && s.at == |bytes|;
    assert r.mem[..r.at] == s.mem[..s.at] + packet[..n];
    assert (bytes + packet)[..r.at] == bytes + packet[..n];
    assert bytes[..s.at] == bytes;
  }

  /**
   * A contained stage, fed with any packets: it uses them up to the first that ends it, the
   * buffer holds what they carry, cut at its size, and what lies behind it is untouched.
   */
  lemma {:induction false} StageConforms(s: OutStage, mem: seq<bv8>, bytes: seq<bv8>, packets: seq<seq<bv8>>)
    requires s.Sane() && s.outcome == More && Contained(s.size, s.wLength, s.ctrl) && PacketsFit(packets, s.ctrl)
    requires Holds(s, mem, bytes) && |bytes| <= s.size
    ensures var used, r := Used(s, packets), Feed(s, packets);
      && Holds(r, mem, bytes + Concat(packets[..used]))
      && (r.outcome == More ==> used == |packets|)
      && (used > 0 ==>
            r.outcome == OutcomeAt(|bytes + Concat(packets[..used])|, |packets[used - 1]|, s.size, s.wLength, s.ctrl))
      && forall k :: 0 < k < used ==>
           OutcomeAt(|bytes + Concat(packets[..k])|, |packets[k - 1]|, s.size, s.wLength, s.ctrl) == More
    decreases |packets|
  {
    hide Contained, OutcomeAt, Copied;
    if packets == [] {
      assert bytes + Concat(packets[..0]) == bytes;
    } else {
      PacketStored(s, mem, bytes, packets[0]);
      FromFront(bytes, packets);
      hide OutReceived, Holds;
      var t, rest, done := OutReceived(s, packets[0]), packets[1..], bytes + packets[0];
      if t.outcome == More {
        StageConforms(t, mem, done, rest);
      } else {
        assert Used(t, rest) == 0;
        assert done + Concat(rest[..0]) == done;
      }
    }
  }

  lemma StageFromStart(s: OutStage, packets: seq<seq<bv8>>)
    requires s.Sane() && s.outcome == More && Contained(s.size, s.wLength, s.ctrl) && PacketsFit(packets, s.ctrl)
    requires s.at == 0
    ensures var used, r := Used(s, packets), Feed(s, packets);
      var bytes := Concat(packets[..used]);
      && Holds(r, s.mem, bytes)
      && (r.outcome == More ==> used == |packets|)
      && (used > 0 ==> r.outcome == OutcomeAt(|bytes|, |packets[used - 1]|, s.size, s.wLength, s.ctrl))
  {
    StageConforms(s, s.mem, [], packets);
    var bytes := Concat(packets[..Used(s, packets)]);
    assert [] + bytes == bytes;
  }

  lemma FromFront(bytes: seq<bv8>, packets: seq<seq<bv8>>)
    requires packets != []
    ensures forall k :: 0 < k <= |packets| ==>
      bytes + Concat(packets[..k]) == (bytes + packets[0]) + Concat(packets[1..][..k - 1])
  {
    var rest := packets[1..];
    forall k | 0 < k <= |packets|
      ensures bytes + Concat(packets[..k]) == (bytes + packets[0]) + Concat(rest[..k - 1])
    {
      assert packets[..k][1..] == rest[..k - 1];
      assert bytes + (packets[0] + Concat(rest[..k - 1])) == (bytes + packets[0]) + Concat(rest[..k - 1]);
    }
  }

  /** No sequence of packets makes the stage write behind its buffer. */
  ghost predicate KeepsToBuffer(mem: seq<bv8>, size: nat, wLength: nat, ctrl: nat)
    requires StartOut(mem, size, wLength, ctrl).Sane()
  {
    forall packets: seq<seq<bv8>> | PacketsFit(packets, ctrl) ::
      Feed(StartOut(mem, size, wLength, ctrl), packets).mem[size..] == mem[size..]
  }

  /** n packets of ctrl bytes b. */
  function Copies(b: bv8, ctrl: nat, n: nat): (packets: seq<seq<bv8>>)
    ensures |packets| == n && PacketsFit(packets, ctrl)
  {
    if n == 0 then [] else [seq(ctrl, _ => b)] + Copies(b, ctrl, n - 1)
  }

  /**
   * When the buffer is larger and the request longer than 65536 minus a packet, full packets
   * bring the count around to 0: the last of them runs past the buffer, and the stage starts over.
   */
  lemma {:induction false} StageRunsOver(s: OutStage, b: bv8, n: nat)
    requires s.Sane() && s.outcome == More && !Contained(s.size, s.wLength, s.ctrl)
    requires n > 0 && s.at + n * s.ctrl == 0x10000
    ensures var r := Feed(s, Copies(b, s.ctrl, n));
      && r.at == 0 && r.outcome == More
      && r.mem[s.size..0x10000] == seq(0x10000 - s.size, _ => b) && r.mem[0x10000..] == s.mem[0x10000..]
    decreases n
  {
    hide OutReceived, Copied;
    var packets := Copies(b, s.ctrl, n);
    var full: seq<bv8> := seq(s.ctrl, _ => b);
    assert packets[0] == full && packets[1..] == Copies(b, s.ctrl, n - 1);
    var t := OutReceived(s, full);
    Distribute(n, 1, s.ctrl);
    if n > 1 {
      MulAtLeast(n - 1, s.ctrl);
    }
    FullPacket(s, b);
    if n == 1 {
      assert Feed(t, packets[1..]) == t;
    } else {
      StageRunsOver(t, b, n - 1);
    }
  }

  /** Memory with n bytes b at a place before size, as seen behind size and behind end. */
  lemma MemoryFilled(mem: seq<bv8>, at: nat, n: nat, size: nat, end: nat, b: bv8)
    requires at <= size <= end && at + n <= end <= |mem|
    ensures var r := mem[..at] + seq(n, _ => b) + mem[at + n..];
      && r[end..] == mem[end..]
      && (at + n == end ==> r[size..end] == seq(end - size, _ => b))
  {
  }

  /** One full packet of a stage that is not contained. */
  lemma FullPacket(s: OutStage, b: bv8)
    requires s.Sane() && s.outcome == More && !Contained(s.size, s.wLength, s.ctrl)
    ensures var full: seq<bv8> := seq(s.ctrl, _ => b);
      var r := OutReceived(s, full);
      && r.outcome == More && r.at == (s.at + s.ctrl) % 0x10000 && r.mem[0x10000..] == s.mem[0x10000..]
      && (r.at == 0 ==> r.mem[s.size..0x10000] == seq(0x10000 - s.size, _ => b))
  {
    hide OutReceived, Contained;
    FullPacketLands(s, seq(s.ctrl, _ => b));
    MemoryFilled(s.mem, s.at, s.ctrl, s.size, 0x10000, b);
  }

  /** All of the packet is stored, in memory that reaches up to the end of the 16-bit range. */
  lemma FullPacketLands(s: OutStage, full: seq<bv8>)
    requires s.Sane() && s.outcome == More && !Contained(s.size, s.wLength, s.ctrl) && |full| == s.ctrl
    ensures s.ctrl > 0 && s.at <= s.size <= 0x10000 && s.at + s.ctrl <= 0x10000 <= |s.mem|
    ensures var r := OutReceived(s, full);
      && r.outcome == More && r.at == (s.at + s.ctrl) % 0x10000
      && r.mem == s.mem[..s.at] + full + s.mem[s.at + s.ctrl..]
  {
    hide Copied, Contained, IsCtrlSize;
    FullPacketFits(s);
    assert full[..s.ctrl] == full;
  }

  lemma FullPacketFits(s: OutStage)
    requires s.Sane() && s.outcome == More && !Contained(s.size, s.wLength, s.ctrl)
    ensures s.ctrl > 0 && s.at <= s.size <= 0x10000 && s.at + s.ctrl <= 0x10000 <= |s.mem|
    ensures Copied(s, s.ctrl) == s.ctrl
    ensures var at := (s.at + s.ctrl) % 0x10000; at < s.wLength && at != s.size
  {
    NextMultiple(s.at, s.ctrl);
    if s.at + s.ctrl < 0x10000 {
      AddMultiples(s.at, s.ctrl, s.ctrl);
      MulMod(1, s.ctrl);
      NextMultiple(s.at + s.ctrl, s.ctrl);
    }
  }

  /** A control write keeps to its buffer exactly when its stage is contained. */
  lemma KeepsToBufferExactlyWhen(mem: seq<bv8>, size: nat, wLength: nat, ctrl: nat)
    requires wLength > 0 && StartOut(mem, size, wLength, ctrl).Sane()
    ensures KeepsToBuffer(mem, size, wLength, ctrl) <==> Contained(size, wLength, ctrl)
  {
    var s := StartOut(mem, size, wLength, ctrl);
    if Contained(size, wLength, ctrl) {
      forall packets: seq<seq<bv8>> | PacketsFit(packets, ctrl)
        ensures Feed(s, packets).mem[size..] == mem[size..]
      {
        StageConforms(s, mem, [], packets);
      }
    } else {
      var b: bv8 := if mem[size] == 0 then 1 else 0;
      var n := 0x10000 / ctrl;
      assert n * ctrl == 0x10000;
      StageRunsOver(s, b, n);
      var r := Feed(s, Copies(b, ctrl, n));
      assert r.mem[size] == r.mem[size..0x10000][0] == b;
      assert r.mem[size..][0] != mem[size..][0];
    }
  }

  /** For example: 1024 packets of 64 bytes for a buffer of 65500 write 36 bytes behind it. */
  lemma LargeWriteRunsOver(mem: seq<bv8>, b: bv8)
    requires |mem| >= 0x10000
    ensures var r := Feed(StartOut(mem, 65500, 65535, 64), Copies(b, 64, 1024));
      r.at == 0 && r.outcome == More && r.mem[65500..65536] == seq(36, _ => b)
  {
    StageRunsOver(StartOut(mem, 65500, 65535, 64), b, 1024);
  }
}

/** The control endpoint itself. */
module ControlEndpoint {
  import opened ControlReads
  import opened ControlWrites
  import opened Multiples
  import Packets

  datatype CtrlState = Setup | DataOut | DataIn | WaitInZlp | WaitOutZlp | StallReq

  /** What is called at the end of a request. */
  datatype Callback = NoCallback | ValidAddress | Custom(id: nat)

  /** A decoded SETUP packet. */
  datatype SetupReq = SetupReq(dirIn: bool, standard: bool, toDevice: bool, bRequest: nat, wValue: nat, wLength: nat)

  const USB_REQ_SET_ADDRESS := 5

  predicate IsSetAddress(req: SetupReq) {
    !req.dirIn && req.standard && req.toDevice && req.bRequest == USB_REQ_SET_ADDRESS && req.wLength == 0
  }

  /** What the rest of the device answers to a request other than SET_ADDRESS. */
  datatype Reply = Reply(accepted: bool, data: array<bv8>, size: nat, callback: Callback)

  /**
   * The replies a request can be given. The array of a reply stands for the memory from the
   * payload buffer on, which must go on as far as an OUT stage that is not contained can write.
   */
  predicate Givable(reply: Reply, req: SetupReq, ctrlSize: nat) {
    && reply.size <= reply.data.Length && reply.size <= 0xFFFF && reply.callback != ValidAddress
    && (!req.dirIn && !Contained(reply.size, req.wLength, ctrlSize) ==> reply.data.Length >= 0x10000)
  }

  /** What has happened on the bus, as far as requests and addresses are concerned. */
  datatype LogItem = Requested(req: SetupReq) | Called(callback: Callback, req: SetupReq) | BusReset

  /** Every callback comes right after the SETUP of its own request: at most one for each. */
  ghost predicate Disciplined(log: seq<LogItem>) {
    forall i :: 0 <= i < |log| && log[i].Called? ==> i > 0 && log[i - 1] == Requested(log[i].req)
  }

  /** The address that the log leaves the device with. */
  ghost function AddressAfter(log: seq<LogItem>): nat {
    if log == [] then 0
    else
      var last := log[|log| - 1];
      if last.BusReset? then 0
      else if last.Called? && last.callback == ValidAddress then last.req.wValue % 0x80
      else AddressAfter(log[..|log| - 1])
  }

  class Endpoint0 {
    const ctrlSize: nat
    var state: CtrlState
    var req: SetupReq
    var payload: array<bv8>
    var payloadSize: nat
    var callback: Callback
    var payloadNbTrans: nat
    var prevPayloadNbTrans: nat
    /** Static in the source: it survives from one request to the next. */
    var shortPacket: bool
    var address: nat
    /** Both directions answer with STALL until the next SETUP. */
    var stalled: bool
    ghost var wire: seq<seq<bv8>>
    ghost var bufferSize: nat
    ghost var log: seq<LogItem>

    constructor (ctrlSize: nat)
      requires IsCtrlSize(ctrlSize)
      ensures Valid() && this.ctrlSize == ctrlSize && state == Setup && address == 0 && log == []
      ensures fresh(payload) && !shortPacket && !stalled
    {
      this.ctrlSize := ctrlSize;
      state, req := Setup, SetupReq(false, false, false, 0, 0, 0);
      payload := new bv8[0];
      payloadSize, callback, payloadNbTrans, prevPayloadNbTrans := 0, NoCallback, 0, 0;
      shortPacket, address, stalled := false, 0, false;
      wire, bufferSize, log := [], 0, [];
    }

    ghost predicate Valid()
      reads this, payload
    {
      && Counted()
      && (callback != NoCallback ==> Pending() && state != Setup)
      && (callback == ValidAddress ==> IsSetAddress(req) && state == WaitInZlp)
      && (state == DataIn || state == WaitOutZlp ==> req.dirIn)
      && (state == DataOut || state == WaitInZlp ==> !req.dirIn)
      && (state == DataIn ==> payloadNbTrans <= payloadSize)
      && (state == DataOut ==> Filling())
    }

    ghost predicate Counted()
      reads this
    {
      && IsCtrlSize(ctrlSize) && payloadSize <= payload.Length && payloadSize <= 0xFFFF
      && Disciplined(log) && address == AddressAfter(log)
    }

    /** The request under way is the last thing in the log: its callback has not been called. */
    ghost predicate Pending()
      reads this
    {
      log != [] && log[|log| - 1] == Requested(req)
    }

    /** An OUT data stage under way. */
    ghost predicate Filling()
      reads this, payload
    {
      OutView().Sane() && OutView().outcome == More && bufferSize == payloadSize && prevPayloadNbTrans == 0
    }

    /** The data stage of a control write, as a value. */
    ghost function OutView(): OutStage
      reads this, payload
    {
      OutStage(payload[..], bufferSize, req.wLength, ctrlSize, payloadNbTrans,
               if state == WaitInZlp then Acknowledge else if state == StallReq then Refuse else More)
    }

    /** The data stage of a control read, as a value. */
    ghost function InView(): InStage
      requires payloadSize <= payload.Length
      reads this, payload
    {
      InStage(payload[..payloadSize], req.wLength, ctrlSize, payloadNbTrans, prevPayloadNbTrans, shortPacket, wire,
              state == WaitOutZlp)
    }

    /** Back to waiting for a SETUP. */
    method CtrlInit()
      requires Counted()
      modifies this`callback, this`payloadSize, this`state
      ensures Valid() && state == Setup && callback == NoCallback && payloadSize == 0
    {
      callback := NoCallback;
      payloadSize := 0;
      state := Setup;
    }

    /** Calls the callback of the request, if there is one. */
    method EndOfRequest()
      requires Counted() && (callback != NoCallback ==> Pending())
      modifies this`log, this`address
      ensures Counted()
      ensures log == old(log) + if callback != NoCallback then [Called(callback, req)] else []
      ensures address == if callback == ValidAddress then req.wValue % 0x80 else old(address)
    {
      if callback != NoCallback {
        if callback == ValidAddress {
          address := req.wValue % 0x80;
        }
        AppendToLog(log, Called(callback, req));
        log := log + [Called(callback, req)];
      }
    }

    /** The status stage is over: the callback, and then back to waiting for a SETUP. */
    method EndStatus()
      requires Valid() && (state == WaitInZlp || state == WaitOutZlp)
      modifies this`callback, this`payloadSize, this`state, this`log, this`address
      ensures Valid() && state == Setup
      ensures log == old(log) + if old(callback) != NoCallback then [Called(old(callback), req)] else []
      ensures address == if old(callback) == ValidAddress then req.wValue % 0x80 else old(address)
    {
      hide Disciplined, AddressAfter;
      EndOfRequest();
      CtrlInit();
    }

    method SendZlpIn()
      modifies this`state
      ensures state == WaitInZlp
    {
      state := WaitInZlp;
    }

    method SendZlpOut()
      modifies this`state
      ensures state == WaitOutZlp
    {
      state := WaitOutZlp;
    }

    method StallData()
      modifies this`state, this`stalled
      ensures state == StallReq && stalled
    {
      state := StallReq;
      stalled := true;
    }

    /** Decides a request: SET_ADDRESS here, everything else by the rest of the device. */
    method ProcessSetup(reply: Reply) returns (ok: bool)
      requires Counted() && reply.size <= reply.data.Length && reply.size <= 0xFFFF && reply.callback != ValidAddress
      modifies this`payload, this`payloadSize, this`callback
      ensures Counted()
      ensures callback == ValidAddress <==> IsSetAddress(req)
      ensures req.dirIn ==> (ok <==> reply.accepted && req.wLength > 0)
      ensures !req.dirIn && !(req.standard && req.toDevice && req.bRequest == USB_REQ_SET_ADDRESS) ==>
        (ok <==> reply.accepted)
      ensures !req.dirIn && req.standard && req.toDevice && req.bRequest == USB_REQ_SET_ADDRESS ==>
        (ok <==> req.wLength == 0)
      ensures payload == old(payload) || payload == reply.data
      ensures ok && IsSetAddress(req) ==> payloadSize == 0
      ensures ok && !IsSetAddress(req) ==>
        payload == reply.data && payloadSize == reply.size && callback == reply.callback
    {
      payloadSize := 0;
      callback := NoCallback;
      if req.dirIn && req.wLength == 0 {
        return false;
      }
      if req.standard && !req.dirIn && req.toDevice && req.bRequest == USB_REQ_SET_ADDRESS {
        if req.wLength != 0 {
          return false;
        }
        callback := ValidAddress;
        return true;
      }
      payload, payloadSize, callback := reply.data, reply.size, reply.callback;
      return reply.accepted;
    }

    /** A SETUP packet of n bytes arrives. A status stage that was still open counts as done. */
    method SetupReceived(n: nat, newReq: SetupReq, reply: Reply)
      requires Valid() && Givable(reply, newReq, ctrlSize)
      modifies this`state, this`req, this`payload, this`payloadSize, this`callback, this`payloadNbTrans,
               this`prevPayloadNbTrans, this`shortPacket, this`address, this`stalled, this`wire, this`bufferSize,
               this`log
      ensures Valid()
      ensures var ended := old(callback != NoCallback && (state == WaitInZlp || state == WaitOutZlp));
        && log == old(log) + (if ended then [Called(old(callback), old(req))] else [])
                           + (if n == 8 then [Requested(newReq)] else [])
        && address == if ended && old(callback) == ValidAddress then old(req).wValue % 0x80 else old(address)
      ensures n != 8 ==> state == Setup
      ensures payload == old(payload) || payload == reply.data
      ensures n == 8 ==> req == newReq
      ensures n == 8 && newReq.dirIn ==> (state == StallReq <==> newReq.wLength == 0 || !reply.accepted)
      ensures n == 8 && !newReq.dirIn && !(newReq.standard && newReq.toDevice && newReq.bRequest == 5) ==>
        (state == StallReq <==> !reply.accepted)
      ensures n == 8 && !newReq.dirIn && newReq.standard && newReq.toDevice && newReq.bRequest == 5 ==>
        if newReq.wLength == 0 then state == WaitInZlp && callback == ValidAddress else state == StallReq
      ensures n == 8 && state != StallReq
              && (newReq.dirIn || !newReq.standard || !newReq.toDevice || newReq.bRequest != 5) ==>
        && payload == reply.data && payloadSize == reply.size && callback == reply.callback
        && if newReq.dirIn then
             && (state == DataIn || state == WaitOutZlp)
             && InView() == InSent(Start(payload[..payloadSize], newReq.wLength, ctrlSize, old(shortPacket)))
           else if newReq.wLength > 0 then
             state == DataOut && OutView() == StartOut(payload[..], payloadSize, newReq.wLength, ctrlSize)
           else state == WaitInZlp
    {
      hide Disciplined, AddressAfter, InSent, Start, StartOut, Contained, Endpoint0.Filling;
      ClosePrevious();
      if n != 8 {
        return;
      }
      Accept(newReq);
      Dispatch(reply);
    }

    /** Has the request decided, and starts what follows. */
    method Dispatch(reply: Reply)
      requires Counted() && Pending() && Givable(reply, req, ctrlSize)
      modifies this`state, this`payload, this`payloadSize, this`callback, this`payloadNbTrans, this`prevPayloadNbTrans,
               this`shortPacket, this`address, this`stalled, this`wire, this`bufferSize, this`log
      ensures Valid() && log == old(log) && address == old(address)
      ensures payload == old(payload) || payload == reply.data
      ensures req.dirIn ==> (state == StallReq <==> req.wLength == 0 || !reply.accepted)
      ensures !req.dirIn && !(req.standard && req.toDevice && req.bRequest == USB_REQ_SET_ADDRESS) ==>
        (state == StallReq <==> !reply.accepted)
      ensures !req.dirIn && req.standard && req.toDevice && req.bRequest == USB_REQ_SET_ADDRESS ==>
        if req.wLength == 0 then state == WaitInZlp && callback == ValidAddress else state == StallReq
      ensures state != StallReq && !IsSetAddress(req) ==>
        && payload == reply.data && payloadSize == reply.size && callback == reply.callback
        && if req.dirIn then
             && (state == DataIn || state == WaitOutZlp)
             && InView() == InSent(Start(payload[..payloadSize], req.wLength, ctrlSize, old(shortPacket)))
           else if req.wLength > 0 then
             state == DataOut && OutView() == StartOut(payload[..], payloadSize, req.wLength, ctrlSize)
           else state == WaitInZlp
    {
      hide Disciplined, AddressAfter, InSent, Start, StartOut, Contained, Endpoint0.Filling;
      NothingToContain(req.wLength, ctrlSize);
      var ok := ProcessSetup(reply);
      if !ok {
        StallData();
        return;
      }
      if req.dirIn {
        BeginRead();
      } else {
        BeginWrite();
      }
    }

    /** Ends a status stage whose packet the new SETUP has hidden, and forgets any other request. */
    method ClosePrevious()
      requires Valid()
      modifies this`state, this`payloadSize, this`callback, this`address, this`stalled, this`log
      ensures Valid() && state == Setup && callback == NoCallback
      ensures var ended := old(callback != NoCallback && (state == WaitInZlp || state == WaitOutZlp));
        && log == old(log) + (if ended then [Called(old(callback), req)] else [])
        && address == if ended && old(callback) == ValidAddress then req.wValue % 0x80 else old(address)
    {
      hide Disciplined, AddressAfter;
      stalled := false;
      if state != Setup {
        if state == WaitInZlp || state == WaitOutZlp {
          EndOfRequest();
        }
        CtrlInit();
      }
    }

    /** Takes over the request. */
    method Accept(newReq: SetupReq)
      requires Counted()
      modifies this`req, this`log
      ensures Counted() && Pending() && req == newReq && log == old(log) + [Requested(newReq)]
    {
      hide Disciplined, AddressAfter;
      req := newReq;
      AppendToLog(log, Requested(req));
      log := log + [Requested(req)];
    }

    /** Starts the data stage of a control read with its first packet. */
    method BeginRead()
      requires Counted() && Pending() && req.dirIn && callback != ValidAddress
      modifies this`state, this`payloadSize, this`callback, this`payloadNbTrans, this`prevPayloadNbTrans,
               this`shortPacket, this`address, this`wire, this`log
      ensures Valid() && (state == DataIn || state == WaitOutZlp) && payloadSize == old(payloadSize)
      ensures InView() == InSent(Start(payload[..payloadSize], req.wLength, ctrlSize, old(shortPacket)))
      ensures log == old(log) && address == old(address) && callback == old(callback)
    {
      hide Disciplined, AddressAfter, InSent;
      prevPayloadNbTrans := 0;
      payloadNbTrans := 0;
      wire := [];
      state := DataIn;
      InPacketSent();
    }

    /** Starts the data stage of a control write, or its status stage if there is no data. */
    method BeginWrite()
      requires Counted() && Pending() && !req.dirIn && (callback == ValidAddress <==> IsSetAddress(req))
      requires !Contained(payloadSize, req.wLength, ctrlSize) ==> payload.Length >= 0x10000
      modifies this`state, this`payloadNbTrans, this`prevPayloadNbTrans, this`bufferSize
      ensures Valid()
      ensures if req.wLength == 0 then state == WaitInZlp
              else state == DataOut && OutView() == StartOut(payload[..], payloadSize, req.wLength, ctrlSize)
    {
      hide Disciplined, AddressAfter;
      if req.wLength == 0 {
        SendZlpIn();
        return;
      }
      prevPayloadNbTrans := 0;
      payloadNbTrans := 0;
      bufferSize := payloadSize;
      MulMod(0, ctrlSize);
      state := DataOut;
    }

    /** The host has taken an IN packet: the next one, or the status stage, or the end. */
    method InPacketSent()
      requires Valid() && (state == DataIn || state == WaitInZlp)
      modifies this`state, this`payloadSize, this`callback, this`payloadNbTrans, this`prevPayloadNbTrans,
               this`shortPacket, this`address, this`wire, this`log
      ensures Valid()
      ensures old(state) == DataIn ==>
        && (state == DataIn || state == WaitOutZlp) && payloadSize == old(payloadSize)
        && InView() == InSent(old(InView()))
        && log == old(log) && address == old(address) && callback == old(callback)
      ensures old(state) == WaitInZlp ==>
        && state == Setup
        && log == old(log) + (if old(callback) != NoCallback then [Called(old(callback), req)] else [])
        && address == if old(callback) == ValidAddress then req.wValue % 0x80 else old(address)
    {
      hide Disciplined, AddressAfter;
      if state == WaitInZlp {
        EndStatus();
        return;
      }
      var nbRemain := payloadSize - payloadNbTrans;
      if nbRemain == 0 {
        prevPayloadNbTrans := (prevPayloadNbTrans + payloadNbTrans) % 0x10000;
        if req.wLength == prevPayloadNbTrans || shortPacket {
          SendZlpOut();
          return;
        }
      }
      if nbRemain >= ctrlSize {
        nbRemain := ctrlSize;
        shortPacket := false;
      } else {
        shortPacket := true;
      }
      QueuePacket(nbRemain);
    }

    /** Hands the next n bytes of the payload to the hardware. */
    method QueuePacket(n: nat)
      requires payloadNbTrans + n <= payloadSize <= payload.Length
      modifies this`wire, this`payloadNbTrans
      ensures payloadNbTrans == old(payloadNbTrans) + n
      ensures wire == old(wire) + [payload[..payloadSize][old(payloadNbTrans)..payloadNbTrans]]
    {
      assert payload[payloadNbTrans..payloadNbTrans + n] == payload[..payloadSize][payloadNbTrans..payloadNbTrans + n];
      wire := wire + [payload[payloadNbTrans..payloadNbTrans + n]];
      payloadNbTrans := payloadNbTrans + n;
    }

    /** The host has sent an OUT packet: data for the payload buffer, or the end of the status stage. */
    method OutPacketReceived(packet: seq<bv8>)
      requires Valid() && (state == DataOut || state == WaitOutZlp) && |packet| <= ctrlSize
      modifies this`state, this`payloadSize, this`callback, this`payloadNbTrans, this`address, this`stalled, this`log,
               payload
      ensures Valid()
      ensures old(state) == WaitOutZlp ==>
        && state == Setup && payload[..] == old(payload[..])
        && log == old(log) + (if old(callback) != NoCallback then [Called(old(callback), req)] else [])
        && address == old(address)
      ensures old(state) == DataOut ==>
        && (state == DataOut || state == WaitInZlp || state == StallReq)
        && OutView() == OutReceived(old(OutView()), packet)
        && log == old(log) && address == old(address) && callback == old(callback)
        && payloadSize == if state == WaitInZlp then payloadNbTrans else old(payloadSize)
    {
      hide Disciplined, AddressAfter, OutReceived;
      if state == WaitOutZlp {
        EndStatus();
      } else {
        DataReceived(packet);
      }
    }

    /** A packet of the data stage. */
    method DataReceived(packet: seq<bv8>)
      requires Valid() && state == DataOut && |packet| <= ctrlSize
      modifies this`state, this`payloadSize, this`payloadNbTrans, this`stalled, payload
      ensures Valid() && (state == DataOut || state == WaitInZlp || state == StallReq)
      ensures OutView() == OutReceived(old(OutView()), packet)
      ensures payloadSize == if state == WaitInZlp then payloadNbTrans else old(payloadSize)
    {
      hide Disciplined, AddressAfter, Copied, Contained, OutReceived;
      OutcomeOfPacket(OutView(), packet);
      var nbData := StoreOut(packet);
      if ctrlSize != nbData || req.wLength <= (prevPayloadNbTrans + payloadNbTrans) % 0x10000 {
        payloadSize := payloadNbTrans;
        SendZlpIn();
        return;
      }
      if payloadSize == payloadNbTrans {
        StallData();
        return;
      }
    }

    /** Copies as much of an OUT packet as fits into the payload buffer; the sums have 16 bits. */
    method StoreOut(packet: seq<bv8>) returns (nbData: nat)
      requires Filling() && |packet| <= ctrlSize
      modifies this`payloadNbTrans, payload
      ensures nbData == Copied(old(OutView()), |packet|) && old(payloadNbTrans) + nbData <= payload.Length
      ensures payloadNbTrans == OutReceived(old(OutView()), packet).at
      ensures payload[..] == OutReceived(old(OutView()), packet).mem
    {
      hide Contained;
      CopiedFits(OutView(), |packet|);
      nbData := |packet|;
      if payloadSize < (payloadNbTrans + nbData) % 0x10000 {
        nbData := payloadSize - payloadNbTrans;
      }
      CopyPacket(packet[..nbData]);
      payloadNbTrans := (payloadNbTrans + nbData) % 0x10000;
    }

    method CopyPacket(data: seq<bv8>)
      requires payloadNbTrans + |data| <= payload.Length
      modifies payload
      ensures payload[..] == old(payload[..][..payloadNbTrans] + data + payload[..][payloadNbTrans + |data|..])
    {
      forall i | 0 <= i < |data| {
        payload[payloadNbTrans + i] := data[i];
      }
    }

    /** The host asks for IN data when none is due. */
    method Underflow()
      requires Valid()
      modifies this`state, this`stalled
      ensures Valid()
      ensures state == if old(state) == DataOut then WaitInZlp else old(state)
      ensures stalled <==> old(stalled) || old(state) == WaitOutZlp
    {
      if state == DataOut {
        SendZlpIn();
      } else if state == WaitOutZlp {
        stalled := true;
      }
    }

    /** The host sends OUT data when none is due. */
    method Overflow()
      requires Valid()
      modifies this`state, this`stalled
      ensures Valid()
      ensures state == if old(state) == DataIn then WaitOutZlp else old(state)
      ensures stalled <==> old(stalled) || old(state) == WaitInZlp
    {
      if state == DataIn {
        SendZlpOut();
      } else if state == WaitInZlp {
        stalled := true;
      }
    }

    /** The bus is reset: the endpoint is set up anew, which also ends a stall. */
    method Reset()
      requires Valid()
      modifies this`state, this`callback, this`payloadSize, this`address, this`stalled, this`log
      ensures Valid() && state == Setup && address == 0 && !stalled && log == old(log) + [BusReset]
    {
      AppendToLog(log, BusReset);
      log := log + [BusReset];
      address := 0;
      stalled := false;
      CtrlInit();
    }
  }

  lemma AppendToLog(log: seq<LogItem>, item: LogItem)
    requires Disciplined(log)
    requires item.Called? ==> log != [] && log[|log| - 1] == Requested(item.req)
    ensures Disciplined(log + [item])
    ensures AddressAfter(log + [item])
         == if item.BusReset? then 0
            else if item.Called? && item.callback == ValidAddress then item.req.wValue % 0x80
            else AddressAfter(log)
  {
  }

  /** What can happen on the control endpoint. */
  datatype Event =
    | EvSetup(n: nat, req: SetupReq, reply: Reply)
    | EvInSent
    | EvOutReceived(packet: seq<bv8>)
    | EvUnderflow
    | EvOverflow
    | EvReset

  /** Replies use buffers from a given set, and only SET_ADDRESS changes the address. */
  predicate Admissible(ctrlSize: nat, buffers: set<array<bv8>>, e: Event) {
    match e
    case EvSetup(_, req, reply) => reply.data in buffers && Givable(reply, req, ctrlSize)
    case EvOutReceived(packet) => |packet| <= ctrlSize
    case _ => true
  }

  /** One event; packets only move in the states that have cleared the way for them. */
  method Apply(ep: Endpoint0, e: Event, buffers: set<array<bv8>>)
    requires ep.Valid() && ep.payload in buffers && Admissible(ep.ctrlSize, buffers, e)
    modifies ep, buffers
    ensures ep.Valid() && ep.payload in buffers && old(ep.log) <= ep.log
    ensures ep.address != old(ep.address) ==>
      e.EvReset? || (old(ep.state) == WaitInZlp && IsSetAddress(old(ep.req)) && ep.address == old(ep.req).wValue % 0x80)
  {
    hide Disciplined, AddressAfter, InSent, Endpoint0.InView;
    match e
    case EvSetup(n, req, reply) =>
      ep.SetupReceived(n, req, reply);
    case EvInSent =>
      if ep.state == DataIn || ep.state == WaitInZlp {
        ep.InPacketSent();
      }
    case EvOutReceived(packet) =>
      if ep.state == DataOut || ep.state == WaitOutZlp {
        ep.OutPacketReceived(packet);
      }
    case EvUnderflow => ep.Underflow();
    case EvOverflow => ep.Overflow();
    case EvReset => ep.Reset();
  }

  /**
   * Any sequence of events: every callback belongs to the SETUP right before it, so each
   * SETUP leads to at most one, and the address is that of the last SET_ADDRESS whose status
   * stage was entered and closed, or 0 after a reset.
   */
  method Replay(ep: Endpoint0, events: seq<Event>, buffers: set<array<bv8>>)
    requires ep.Valid() && ep.payload in buffers
    requires forall i :: 0 <= i < |events| ==> Admissible(ep.ctrlSize, buffers, events[i])
    modifies ep, buffers
    ensures Disciplined(ep.log) && ep.address == AddressAfter(ep.log)
  {
    for k := 0 to |events|
      invariant ep.Valid() && ep.payload in buffers
    {
      Apply(ep, events[k], buffers);
    }
  }

  /**
   * Entering the status stage is enough: when the host sends data instead of asking for the
   * handshake, that is answered with STALL, and the next SETUP puts the new address in force all the same.
   */
  method AddressWithoutHandshake(ep: Endpoint0, value: nat, next: SetupReq, reply: Reply)
    requires ep.Valid() && Givable(reply, next, ep.ctrlSize)
    modifies ep
    ensures ep.Valid() && ep.address == value % 0x80
  {
    hide InSent, Disciplined, AddressAfter, Start;
    ep.SetupReceived(8, SetupReq(false, true, true, 5, value, 0), reply);
    ep.Overflow();
    assert ep.stalled;
    ep.SetupReceived(8, next, reply);
  }

  /** A control read from its SETUP to its status stage: what is on the wire is the finished stage. */
  method ControlRead(ep: Endpoint0, newReq: SetupReq, reply: Reply)
    requires ep.Valid() && Givable(reply, newReq, ep.ctrlSize)
    requires newReq.dirIn && newReq.wLength > 0 && reply.accepted
    modifies ep
    ensures ep.Valid() && ep.state == WaitOutZlp
    ensures ep.wire == Finish(Start(reply.data[..reply.size], newReq.wLength, ep.ctrlSize, old(ep.shortPacket))).wire
    ensures 0 < reply.size <= newReq.wLength ==>
      ep.wire == Expected(old(reply.data[..reply.size]), newReq.wLength, ep.ctrlSize)
  {
    ConformsExactlyWhen(reply.data[..reply.size], newReq.wLength, ep.ctrlSize, ep.shortPacket);
    hide InSent, Disciplined, AddressAfter;
    ghost var stage := Start(reply.data[..reply.size], newReq.wLength, ep.ctrlSize, ep.shortPacket);
    ep.SetupReceived(8, newReq, reply);
    assert Finish(stage) == Finish(InSent(stage));
    while ep.state == DataIn
      invariant ep.Valid() && (ep.state == DataIn || ep.state == WaitOutZlp)
      invariant ep.InView().Sane() && Finish(ep.InView()) == Finish(stage)
      decreases |ep.InView().payload| - ep.InView().nbTrans, !ep.InView().short, ep.state == DataIn
    {
      ghost var before := ep.InView();
      Progress(before);
      ep.InPacketSent();
    }
  }

  lemma Progress(s: InStage)
    requires s.Sane() && !s.done
    ensures Finish(s) == Finish(InSent(s))
    ensures InSent(s).nbTrans >= s.nbTrans && |InSent(s).payload| == |s.payload|
    ensures InSent(s).nbTrans > s.nbTrans || (InSent(s).short && !s.short)
      || (InSent(s).done && InSent(s).short == s.short)
  {
  }

  /**
   * A control write from its SETUP: its data stage fed with packets until it ends. A contained
   * stage ends where it should, stores what the packets carry, cut at the size of the buffer,
   * and keeps to the buffer.
   */
  method ControlWrite(ep: Endpoint0, newReq: SetupReq, reply: Reply, packets: seq<seq<bv8>>) returns (used: nat)
    requires ep.Valid() && Givable(reply, newReq, ep.ctrlSize)
    requires !newReq.dirIn && newReq.wLength > 0 && reply.accepted
    requires !(newReq.standard && newReq.toDevice && newReq.bRequest == 5)
    requires PacketsFit(packets, ep.ctrlSize)
    modifies ep, reply.data
    ensures ep.Valid()
    ensures var stage := StartOut(old(reply.data[..]), reply.size, newReq.wLength, ep.ctrlSize);
      && stage.Sane() && used == Used(stage, packets)
      && ep.OutView() == Feed(stage, packets) && ep.payload == reply.data
    ensures ep.state == WaitInZlp ==> ep.payloadSize == ep.payloadNbTrans
    ensures Contained(reply.size, newReq.wLength, ep.ctrlSize) ==>
      var bytes := Packets.Concat(packets[..used]);
      && Holds(ep.OutView(), old(reply.data[..]), bytes)
      && (used < |packets| ==> ep.state == WaitInZlp || ep.state == StallReq)
      && (used > 0 ==>
            ep.OutView().outcome == OutcomeAt(|bytes|, |packets[used - 1]|, reply.size, newReq.wLength, ep.ctrlSize))
  {
    hide Disciplined, AddressAfter, OutReceived, Holds, Contained, OutcomeAt, Endpoint0.InView, InSent;
    ghost var stage := StartOut(reply.data[..], reply.size, newReq.wLength, ep.ctrlSize);
    ep.SetupReceived(8, newReq, reply);
    used := 0;
    assert packets[0..] == packets;
    while used < |packets| && ep.state == DataOut
      invariant 0 <= used <= |packets| && ep.Valid() && ep.payload == reply.data
      invariant ep.state == DataOut || ep.state == WaitInZlp || ep.state == StallReq
      invariant ep.OutView().Sane() && PacketsFit(packets[used..], ep.ctrlSize)
      invariant Feed(ep.OutView(), packets[used..]) == Feed(stage, packets)
      invariant used + Used(ep.OutView(), packets[used..]) == Used(stage, packets)
      invariant ep.state == WaitInZlp ==> ep.payloadSize == ep.payloadNbTrans
    {
      assert packets[used..][0] == packets[used] && packets[used..][1..] == packets[used + 1..];
      ep.OutPacketReceived(packets[used]);
      used := used + 1;
    }
    if Contained(reply.size, newReq.wLength, ep.ctrlSize) {
      StageFromStart(stage, packets);
    }
  }
}
