// Jobs on bulk and interrupt endpoints: udd_ep_run, udd_ep_trans_complet, udd_ep_abort and
// their neighbours in firmware/.../xmega/drivers/usb/usb_device.c, with the USB module of
// the chip as a machine that moves one packet at a time.

/** What an endpoint job means: its counters against the packets on the wire. */
module JobStates {
  import opened Multiples
  import opened Packets

  /** The largest transfer the hardware does in one go. */
  const MAX_TRANS := 1023
  const CACHE_SIZE := 64

  /** Where the DMA pointer points: into the user buffer, or at the cache buffer. */
  datatype Target = User(offset: nat) | Cache

  predicate IsEpSize(size: nat) {
    size in {8, 16, 32, 64, 128, 256, 512, 1023}
  }

  // ----- IN jobs -----

  /** An IN job: the user's data, what is wanted at the end, the packets so far, the counters. */
  datatype InJob = InJob(data: seq<bv8>, size: nat, want: bool, wire: seq<seq<bv8>>,
                         nbTrans: nat, cnt: nat, aux: nat, target: Target, short: bool)
  {
    /** A transfer is under way, or the closing zero-length packet is. */
    ghost predicate Sending() {
      && IsEpSize(size) && |data| <= 0xFFFF && nbTrans + cnt <= |data|
      && if cnt == 0 then
           && aux == 0 && nbTrans == |data| && !short && want && |data| % size == 0
           && wire == Cut(data, size)
         else
           && aux < cnt && aux % size == 0 && nbTrans % size == 0 && target == User(nbTrans)
           && wire == Cut(data[..nbTrans + aux], size)
           && short == (want && cnt % size == 0)
           && (nbTrans + cnt < |data| ==> cnt % size == 0)
    }

    /** The transfer has been completed; zlp says that the zero-length packet was it. */
    ghost predicate TransferDone(zlp: bool) {
      && IsEpSize(size) && |data| <= 0xFFFF && nbTrans + aux <= |data|
      && if nbTrans + aux < |data| then
           !zlp && (nbTrans + aux) % size == 0 && short == want && wire == Cut(data[..nbTrans + aux], size)
         else if zlp then
           !short && wire == Cut(data, size) + [[]] && want && |data| % size == 0
         else
           short == (want && |data| % size == 0) && wire == Cut(data, size)
    }

    /** Everything that belongs on the wire has been sent. */
    ghost predicate AllSent() {
      size > 0 && wire == Wire(data, size, want)
    }
  }

  /** The size of the next IN transfer. */
  function NextIn(left: nat, size: nat): nat
    requires size > 0
  {
    if MAX_TRANS < left then MAX_TRANS - MAX_TRANS % size else left
  }

  lemma InJobBegins(j: InJob)
    requires IsEpSize(j.size) && |j.data| <= 0xFFFF && j.nbTrans == j.aux == 0 && j.wire == []
    requires j.short == j.want && (j.data == [] ==> j.want)
    ensures j.TransferDone(false)
  {
  }

  lemma NotAllSent(j: InJob)
    requires IsEpSize(j.size) && j.wire == [] && (j.data == [] ==> j.want)
    ensures !j.AllSent()
  {
  }

  lemma InBounds(j: InJob, zlp: bool)
    requires j.TransferDone(zlp)
    ensures 0 < j.size && j.nbTrans + j.aux <= |j.data| <= 0xFFFF
    ensures zlp ==> j.nbTrans + j.aux == |j.data| && !j.short
  {
  }

  /** The next chunk of an IN job: never a short packet before the last chunk. */
  lemma NextChunk(j: InJob, zlp: bool)
    requires j.TransferDone(zlp) && j.nbTrans + j.aux != |j.data|
    ensures var at := j.nbTrans + j.aux;
      var next := NextIn(|j.data| - at, j.size);
      var j' := j.(nbTrans := at, cnt := next, aux := 0, target := User(at), short := j.short && next % j.size == 0);
      j'.Sending() && !j'.AllSent()
  {
    var at := j.nbTrans + j.aux;
    CutRemainder(MAX_TRANS, j.size);
    MulMod(0, j.size);
    PartIsNotAll(j.data, at, j.size, j.want);
  }

  lemma ClosingPacket(j: InJob, zlp: bool)
    requires j.TransferDone(zlp) && j.nbTrans + j.aux == |j.data| && j.short
    ensures var j' := j.(nbTrans := |j.data|, cnt := 0, aux := 0, short := false); j'.Sending() && !j'.AllSent()
  {
  }

  lemma InJobEnds(j: InJob, zlp: bool)
    requires j.TransferDone(zlp) && j.nbTrans + j.aux == |j.data| && !j.short
    ensures j.(nbTrans := |j.data|).AllSent()
  {
  }

  /** The packet the hardware sends next. */
  function NextPacket(j: InJob): (p: seq<bv8>)
    requires j.Sending()
    ensures |p| <= j.size
  {
    var n := Min(j.size, j.cnt - j.aux);
    if j.cnt == 0 then [] else j.data[j.nbTrans + j.aux..j.nbTrans + j.aux + n]
  }

  /** One packet goes out: the transfer continues, or it has been done. */
  lemma PacketSent(j: InJob)
    requires j.Sending()
    ensures var p := NextPacket(j);
      var j' := j.(wire := j.wire + [p], aux := j.aux + |p|);
      if j.aux + |p| < j.cnt then j'.Sending() && !j'.AllSent() else j'.TransferDone(j.cnt == 0)
  {
    hide Cut, IsEpSize, InJob.Sending, InJob.TransferDone, InJob.AllSent, NextPacket;
    PacketFromBuffer(j);
    if j.cnt == 0 {
      ClosingPacketSent(j);
    } else {
      PacketOnWire(j);
      if j.aux + |NextPacket(j)| < j.cnt {
        TransferGoesOn(j);
      } else {
        TransferEnds(j);
      }
    }
  }

  lemma ClosingPacketSent(j: InJob)
    requires j.Sending() && j.cnt == 0
    ensures NextPacket(j) == [] && j.(wire := j.wire + [[]]).TransferDone(true)
  {
    hide Cut;
  }

  lemma TransferGoesOn(j: InJob)
    requires j.Sending() && j.cnt > 0 && j.aux + |NextPacket(j)| < j.cnt
    requires j.wire + [NextPacket(j)] == Cut(j.data[..j.nbTrans + j.aux + |NextPacket(j)|], j.size)
    ensures var p := NextPacket(j);
      var j' := j.(wire := j.wire + [p], aux := j.aux + |p|);
      j'.Sending() && !j'.AllSent()
  {
    hide Cut;
    MulMod(1, j.size);
    AddMultiples(j.aux, j.size, j.size);
    PartIsNotAll(j.data, j.nbTrans + j.aux + |NextPacket(j)|, j.size, j.want);
  }

  lemma TransferEnds(j: InJob)
    requires j.Sending() && j.cnt > 0 && j.aux + |NextPacket(j)| == j.cnt
    requires j.wire + [NextPacket(j)] == Cut(j.data[..j.nbTrans + j.aux + |NextPacket(j)|], j.size)
    ensures j.(wire := j.wire + [NextPacket(j)], aux := j.cnt).TransferDone(false)
  {
    hide Cut;
    if j.nbTrans + j.cnt == |j.data| {
      assert j.data[..j.nbTrans + j.cnt] == j.data;
      SameRemainder(j.cnt, j.nbTrans, j.size);
    } else {
      AddMultiples(j.nbTrans, j.cnt, j.size);
    }
  }

  lemma PacketFromBuffer(j: InJob)
    requires j.Sending()
    ensures var n := Min(j.size, j.cnt - j.aux);
      && j.nbTrans + j.cnt <= |j.data| && j.aux <= j.cnt && (n == 0 <==> j.cnt == 0)
      && |NextPacket(j)| == n
      && (n > 0 ==> j.target == User(j.nbTrans) && j.nbTrans + j.aux + n <= |j.data|
                    && NextPacket(j) == j.data[j.nbTrans + j.aux..j.nbTrans + j.aux + n])
  {
  }

  lemma SliceOfPrefix(s: seq<bv8>, n: nat, from: nat, to: nat)
    requires from <= to <= n <= |s|
    ensures s[..n][from..to] == s[from..to]
  {
  }

  lemma PacketOnWire(j: InJob)
    requires j.Sending() && j.cnt > 0
    ensures var p := NextPacket(j); j.wire + [p] == Cut(j.data[..j.nbTrans + j.aux + |p|], j.size)
  {
    hide Cut, Wire, NextIn;
    var p := NextPacket(j);
    var sent := j.nbTrans + j.aux;
    AddMultiples(j.nbTrans, j.aux, j.size);
    CutAppend(j.data[..sent], p, j.size);
    assert j.data[..sent] + p == j.data[..sent + |p|];
  }

  // ----- OUT jobs -----

  /** n rounded up to whole packets. */
  function RoundUp(n: nat, size: nat): nat
    requires size > 0
  {
    if n % size == 0 then n else n - n % size + size
  }

  /** The buffer sizes for which the 16-bit byte count of an OUT job overflows. */
  predicate Wraps(n: nat, size: nat)
    requires size > 0
  {
    RoundUp(n, size) > 0xFFFF
  }

  /** An OUT job: the user buffer, the cache buffer, every byte received for the job, the counters. */
  datatype OutJob = OutJob(mem: seq<bv8>, bufSize: nat, size: nat, cache: seq<bv8>, received: seq<bv8>,
                           nbTrans: nat, cnt: nat, aux: nat, target: Target, useCache: bool)
  {
    ghost predicate Sane() {
      && IsEpSize(size) && size <= CACHE_SIZE && |cache| == CACHE_SIZE
      && bufSize <= 0xFFFF && bufSize <= |mem|
      && nbTrans <= bufSize && nbTrans % size == 0 && cnt <= aux
    }

    /** Where the bytes of the current transfer go, and where the earlier ones are. */
    ghost predicate Landing()
      requires Sane()
    {
      && match target {
           case Cache => useCache && aux == size && 0 < bufSize - nbTrans < size
           case User(offset) => offset == nbTrans && nbTrans + aux <= bufSize && aux % size == 0
                                && (useCache ==> |received| >= 0x10000)
         }
      && (!Wraps(bufSize, size) ==> |received| < 0x10000)
      && (|received| < 0x10000 ==>
            && |received| == nbTrans + cnt
            && mem[..nbTrans] == received[..nbTrans]
            && if target.User? then mem[..nbTrans + cnt] == received else cache[..cnt] == received[nbTrans..])
    }

    /** A transfer is under way. */
    ghost predicate Receiving() {
      Sane() && Landing() && cnt < aux && cnt % size == 0
    }

    /** The transfer has ended: with a short packet, or with all the bytes asked for. */
    ghost predicate TransferDone(short: bool) {
      Sane() && Landing() && (short <==> cnt < aux)
    }

    /** What the completion of the transfer makes of the user buffer. */
    function Copied(): (m: seq<bv8>)
      requires size > 0 && nbTrans + bufSize % size <= |mem| && bufSize % size <= |cache|
      ensures |m| == |mem|
    {
      if useCache then mem[..nbTrans] + cache[..bufSize % size] + mem[nbTrans + bufSize % size..] else mem
    }

    /** The byte count after the transfer: a 16-bit sum, cut at the size of the buffer. */
    function Counted(): nat {
      Min((nbTrans + cnt) % 0x10000, bufSize)
    }

    /** The job once the next transfer has been requested. */
    function Requested(): OutJob
      requires size > 0 && nbTrans + bufSize % size <= |mem| && bufSize % size <= |cache|
      requires Counted() <= bufSize
    {
      var next := NextOut(bufSize - Counted(), size);
      var j := this.(mem := Copied(), nbTrans := Counted(), cnt := 0);
      if next < size then j.(useCache := true, target := Cache, aux := size)
      else j.(target := User(Counted()), aux := next)
    }

    /** The packet p arrives. */
    function Received(p: seq<bv8>): OutJob
      requires cnt + |p| <= |cache| || target.User?
      requires target.User? ==> target.offset + cnt + |p| <= |mem|
    {
      var j := this.(received := received + p, cnt := cnt + |p|);
      match target
      case Cache => j.(cache := cache[..cnt] + p + cache[cnt + |p|..])
      case User(offset) => j.(mem := mem[..offset + cnt] + p + mem[offset + cnt + |p|..])
    }
  }

  /** The size of the next OUT transfer: whole packets, or the cache buffer when it is below one. */
  function NextOut(left: nat, size: nat): nat
    requires size > 0
  {
    if MAX_TRANS < left then MAX_TRANS - MAX_TRANS % size else left - left % size
  }

  lemma NextOutIs(left: nat, size: nat)
    requires 0 < size <= CACHE_SIZE
    ensures NextOut(left, size) < size <==> left < size
    ensures left >= size ==> NextOut(left, size) == if left > 1023 then 1023 - 1023 % size else left - left % size
  {
    RemainderBelow(left, size);
    RemainderBelow(MAX_TRANS, size);
  }

  /** A position that is a multiple of the packet size, against the end of the buffer. */
  lemma Positions(n: nat, at: nat, size: nat)
    requires size > 0 && at % size == 0 && at <= n
    ensures at + n % size <= n
    ensures n - at < size ==> n - at == n % size
    ensures n - at < size && at < n ==> RoundUp(n, size) == at + size
  {
    DivMod(n, size);
    DivMod(at, size);
    Distribute(n / size, at / size, size);
    MulAtLeast(n / size - at / size, size);
    if n - at < size {
      RemainderUnique(n, at / size, n - at, size);
    }
  }

  /** The packet sizes of OUT endpoints divide 65536, and a full chunk holds a packet. */
  lemma PowerOfTwoSizes(size: nat)
    requires IsEpSize(size) && size <= CACHE_SIZE
    ensures 0x10000 % size == 0 && MAX_TRANS - MAX_TRANS % size >= size && (MAX_TRANS - MAX_TRANS % size) % size == 0
  {
  }

  /** The overflow is confined to the last few buffer sizes of the 16-bit range. */
  lemma WrapFamily(n: nat, size: nat)
    requires IsEpSize(size) && size <= CACHE_SIZE && n <= 0xFFFF
    ensures Wraps(n, size) <==> n > 0x10000 - size
  {
  }

  /** Bytes received partly into memory and partly into the cache, put together. */
  lemma PutTogether(mem: seq<bv8>, cache: seq<bv8>, received: seq<bv8>, at: nat, k: nat, n: nat)
    requires at <= n <= |received| && n - at <= k <= |cache| && at + k <= |mem|
    requires mem[..at] == received[..at] && |received| - at <= |cache| && cache[..|received| - at] == received[at..]
    ensures (mem[..at] + cache[..k] + mem[at + k..])[..n] == received[..n]
  {
    forall i | 0 <= i < n
      ensures (mem[..at] + cache[..k] + mem[at + k..])[i] == received[i]
    {
      if i < at {
        assert mem[..at][i] == received[..at][i];
      } else {
        assert cache[..|received| - at][i - at] == received[at..][i - at];
      }
    }
  }

  /** What the completed transfer has put into the user buffer. */
  lemma Landed(j: OutJob, short: bool)
    requires j.TransferDone(short)
    ensures j.nbTrans + j.bufSize % j.size <= j.bufSize
    ensures j.Copied()[j.bufSize..] == j.mem[j.bufSize..]
    ensures |j.received| < 0x10000 ==>
      && Min(|j.received|, j.bufSize) == Min(j.nbTrans + j.cnt, j.bufSize)
      && j.Copied()[..Min(|j.received|, j.bufSize)] == j.received[..Min(|j.received|, j.bufSize)]
  {
    Positions(j.bufSize, j.nbTrans, j.size);
    if |j.received| < 0x10000 && j.target.Cache? {
      PutTogether(j.mem, j.cache, j.received, j.nbTrans, j.bufSize % j.size, Min(|j.received|, j.bufSize));
    }
  }

  lemma OutJobBegins(j: OutJob)
    requires IsEpSize(j.size) && j.size <= CACHE_SIZE == |j.cache| && j.bufSize <= 0xFFFF && j.bufSize <= |j.mem|
    requires j.nbTrans == j.cnt == j.aux == 0 && j.target == User(0) && !j.useCache && j.received == []
    ensures j.TransferDone(false) && j.Counted() == 0 && (j.bufSize == 0 ==> !Wraps(j.bufSize, j.size))
  {
  }

  /** While the byte count has not wrapped it is the number of bytes received. */
  lemma Unwrapped(j: OutJob)
    requires j.Receiving()
    ensures !Wraps(j.bufSize, j.size) ==> |j.received| == j.nbTrans + j.cnt
    ensures Wraps(j.bufSize, j.size) ==> j.bufSize % j.size != 0 && j.bufSize > 0
  {
  }

  lemma DoneUnwrapped(j: OutJob, short: bool)
    requires j.TransferDone(short) || j.Receiving()
    ensures !Wraps(j.bufSize, j.size) ==> |j.received| < 0x10000
  {
  }

  /** A transfer that is partly filled goes to the user buffer, and has not filled it. */
  lemma StillFilling(j: OutJob)
    requires j.Receiving() && j.cnt > 0
    ensures !Wraps(j.bufSize, j.size) ==> |j.received| < j.bufSize
  {
  }

  /** All that a packet does to an OUT job. */
  lemma ReceiveStep(j: OutJob, p: seq<bv8>)
    requires j.Receiving() && |p| <= j.size
    requires j.cnt + |p| <= |j.cache| || j.target.User?
    requires j.target.User? ==> j.target.offset + j.cnt + |p| <= |j.mem|
    ensures var j' := j.Received(p);
      && j'.mem[j.bufSize..] == j.mem[j.bufSize..]
      && (j'.bufSize, j'.size, j'.received, j'.cnt, j'.aux, j'.nbTrans)
         == (j.bufSize, j.size, j.received + p, j.cnt + |p|, j.aux, j.nbTrans)
      && (if |p| < j.size || j'.cnt == j.aux then j'.TransferDone(|p| < j.size) else j'.Receiving())
      && (!Wraps(j.bufSize, j.size) ==>
            && |j'.received| == j.nbTrans + j'.cnt && |j'.received| < 0x10000
            && (|p| == j.size && j'.cnt < j.aux ==> |j'.received| < j.bufSize))
  {
    PacketReceived(j, p);
    Unwrapped(j);
    var j' := j.Received(p);
    if |p| == j.size && j'.cnt < j.aux {
      StillFilling(j');
    }
    if !Wraps(j.bufSize, j.size) {
      DoneUnwrapped(j', |p| < j.size);
    }
  }

  lemma NothingCopied(j: OutJob)
    requires j.size > 0 && j.nbTrans + j.bufSize % j.size <= |j.mem| && j.bufSize % j.size <= |j.cache|
    ensures !j.useCache ==> j.Copied() == j.mem
  {
  }

  lemma OutBounds(j: OutJob, short: bool)
    requires j.TransferDone(short)
    ensures 0 < j.size <= CACHE_SIZE == |j.cache| && j.nbTrans + j.bufSize % j.size <= j.bufSize <= |j.mem|
    ensures short <==> j.cnt < j.aux
    ensures j.cnt <= j.aux && j.bufSize <= 0xFFFF
  {
    Positions(j.bufSize, j.nbTrans, j.size);
  }

  /** The transfer ends the job: the buffer holds what was received, cut at its size. */
  lemma OutJobEnds(j: OutJob, short: bool)
    requires j.TransferDone(short) && (short || j.Counted() == j.bufSize)
    ensures short || (j.nbTrans + j.cnt >= j.bufSize && !Wraps(j.bufSize, j.size))
    ensures j.nbTrans + j.bufSize % j.size <= j.bufSize
    ensures j.Copied()[j.bufSize..] == j.mem[j.bufSize..]
    ensures |j.received| < 0x10000 ==>
      j.Counted() == Min(|j.received|, j.bufSize) && j.Copied()[..j.Counted()] == j.received[..j.Counted()]
  {
    hide Wraps, OutJob.Copied;
    Landed(j, short);
    if !short {
      FullBuffer(j);
    }
    if |j.received| < 0x10000 {
      SmallCount(j, short);
    }
  }

  lemma SmallCount(j: OutJob, short: bool)
    requires j.TransferDone(short) && |j.received| < 0x10000
    ensures j.Counted() == Min(j.nbTrans + j.cnt, j.bufSize)
  {
  }

  lemma FullBuffer(j: OutJob)
    requires j.TransferDone(false) && j.Counted() == j.bufSize
    ensures j.nbTrans + j.cnt >= j.bufSize && !Wraps(j.bufSize, j.size)
  {
    Positions(j.bufSize, j.nbTrans, j.size);
    PowerOfTwoSizes(j.size);
    if j.target.User? {
      AddMultiples(j.nbTrans, j.aux, j.size);
    }
  }

  /** The transfer does not end the job: another one is requested, inside the buffer or in the cache. */
  lemma OutJobContinues(j: OutJob)
    requires j.TransferDone(false) && j.Counted() != j.bufSize
    ensures j.nbTrans + j.bufSize % j.size <= j.bufSize
    ensures j.Requested().Receiving()
    ensures !(j.nbTrans + j.cnt >= j.bufSize && !Wraps(j.bufSize, j.size))
    ensures j.Requested().mem[j.bufSize..] == j.mem[j.bufSize..]
  {
    hide Wraps;
    Landed(j, false);
    CountedMultiple(j);
    RequestFits(j.bufSize, j.Counted(), j.size);
    KeptInMemory(j);
    var j' := j.Requested();
    assert j'.Sane();
    assert j'.Landing();
  }

  /**
   * A full transfer that has brought as many bytes as the buffer holds ends the job exactly when
   * the buffer is not larger than 65536 minus a packet; otherwise the count has wrapped to 0.
   */
  lemma FullBufferEndsExactlyWhen(j: OutJob)
    requires j.TransferDone(false) && j.nbTrans + j.cnt >= j.bufSize
    ensures j.Counted() == j.bufSize <==> j.bufSize <= 0x10000 - j.size
    ensures j.Counted() == j.bufSize || (j.Counted() == 0 && |j.received| >= 0x10000)
  {
    hide Wraps;
    WrapFamily(j.bufSize, j.size);
    if j.Counted() == j.bufSize {
      OutJobEnds(j, false);
    } else {
      CountedMultiple(j);
    }
  }

  /** The bytes counted so far are in the user buffer. */
  lemma KeptInMemory(j: OutJob)
    requires j.TransferDone(false) && j.Counted() != j.bufSize
    ensures j.nbTrans + j.bufSize % j.size <= j.bufSize
    ensures |j.received| < 0x10000 ==> |j.received| == j.Counted() && j.Copied()[..j.Counted()] == j.received
    ensures j.useCache ==> |j.received| >= 0x10000
  {
    Landed(j, false);
    CountedMultiple(j);
    Positions(j.bufSize, j.nbTrans, j.size);
  }

  lemma RequestFits(n: nat, at: nat, size: nat)
    requires IsEpSize(size) && size <= CACHE_SIZE && at < n && at % size == 0
    ensures var next := NextOut(n - at, size);
      if next < size then 0 < n - at < size else next % size == 0 && at + next <= n
    ensures 0 % size == 0
  {
    PowerOfTwoSizes(size);
    CutRemainder(n - at, size);
    RemainderBelow(n - at, size);
  }

  lemma RemainderBelow(left: nat, size: nat)
    requires size > 0
    ensures left - left % size < size <==> left < size
  {
  }

  /** The 16-bit count at from + aux, cut at n, when that is not n. */
  lemma CountCut(n: nat, size: nat, from: nat, aux: nat, cached: bool)
    requires IsEpSize(size) && size <= CACHE_SIZE && from <= n <= 0xFFFF && from % size == 0
    requires if cached then aux == size && 0 < n - from < size else from + aux <= n && aux % size == 0
    requires Min((from + aux) % 0x10000, n) != n
    ensures (from + aux) % size == 0
    ensures if from + aux < n then (from + aux) % 0x10000 == from + aux
            else from + aux == 0x10000 && (from + aux) % 0x10000 == 0 && Wraps(n, size)
  {
    PowerOfTwoSizes(size);
    Positions(n, from, size);
    MulMod(1, size);
    AddMultiples(from, aux, size);
  }

  /** After a full transfer that does not end the job the count is where the bytes are, or wrapped to 0. */
  lemma CountedMultiple(j: OutJob)
    requires j.TransferDone(false) && j.Counted() != j.bufSize
    ensures j.Counted() % j.size == 0 && j.Counted() < j.bufSize
    ensures j.nbTrans + j.cnt < j.bufSize ==> j.Counted() == j.nbTrans + j.cnt
    ensures j.nbTrans + j.cnt >= j.bufSize ==> j.Counted() == 0 && |j.received| >= 0x10000 && Wraps(j.bufSize, j.size)
  {
    hide Wraps, RoundUp;
    CountCut(j.bufSize, j.size, j.nbTrans, j.aux, j.target.Cache?);
    MulMod(0, j.size);
  }

  /** A packet of an OUT transfer stays inside the user buffer or the cache buffer. */
  lemma PacketFits(j: OutJob, p: seq<bv8>)
    requires j.Receiving() && |p| <= j.size
    ensures j.cnt + j.size <= j.aux
    ensures match j.target case Cache => j.cnt + |p| <= |j.cache| case User(offset) => offset + j.cnt + |p| <= j.bufSize
    ensures |p| == j.size ==> (j.cnt + |p|) % j.size == 0
  {
    MulMod(1, j.size);
    AddMultiples(j.aux, j.cnt, j.size);
    SmallMultiple(j.aux - j.cnt, j.size);
    AddMultiples(j.cnt, j.size, j.size);
  }

  /** Its bytes join the ones received before. */
  lemma PacketStored(j: OutJob, p: seq<bv8>)
    requires j.Receiving() && |p| <= j.size
    ensures j.cnt + |p| <= |j.cache| || j.target.User?
    ensures j.target.User? ==> j.target.offset + j.cnt + |p| <= |j.mem|
    ensures var j' := j.Received(p);
      && j'.mem[j.bufSize..] == j.mem[j.bufSize..]
      && |j'.mem| == |j.mem| && |j'.cache| == |j.cache|
      && (|j.received| < 0x10000 ==>
            && |j'.received| == j.nbTrans + j'.cnt
            && j'.mem[..j.nbTrans] == j'.received[..j.nbTrans]
            && if j.target.User? then j'.mem[..j.nbTrans + j'.cnt] == j'.received
               else j'.cache[..j'.cnt] == j'.received[j.nbTrans..])
  {
    PacketFits(j, p);
    var j' := j.Received(p);
    match j.target
    case Cache =>
      if |j.received| < 0x10000 {
        assert j'.cache[..j'.cnt] == j.cache[..j.cnt] + p;
      }
    case User(offset) =>
      if |j.received| < 0x10000 {
        assert j'.mem[..j.nbTrans + j'.cnt] == j.mem[..j.nbTrans + j.cnt] + p;
        assert j'.mem[..j.nbTrans] == j'.mem[..j.nbTrans + j'.cnt][..j.nbTrans];
      }
  }

  /** A packet arrives: the transfer continues, or it has been done. */
  lemma PacketReceived(j: OutJob, p: seq<bv8>)
    requires j.Receiving() && |p| <= j.size
    requires j.cnt + |p| <= |j.cache| || j.target.User?
    requires j.target.User? ==> j.target.offset + j.cnt + |p| <= |j.mem|
    ensures var j' := j.Received(p);
      && j'.mem[j.bufSize..] == j.mem[j.bufSize..]
      && if |p| < j.size || j'.cnt == j.aux then j'.TransferDone(|p| < j.size) else j'.Receiving()
  {
    PacketFits(j, p);
    PacketStored(j, p);
    if !Wraps(j.bufSize, j.size) {
      StillUnwrapped(j, p);
    }
    var j' := j.Received(p);
    assert j'.Sane();
    assert j'.Landing();
  }

  lemma StillUnwrapped(j: OutJob, p: seq<bv8>)
    requires j.Receiving() && |p| <= j.size && !Wraps(j.bufSize, j.size)
    ensures |j.received| + |p| < 0x10000
  {
    PacketFits(j, p);
    Positions(j.bufSize, j.nbTrans, j.size);
  }
}

/** One bulk or interrupt endpoint: its registers, its job and the calls of the job's callback. */
module EndpointJobs {
  import opened JobStates
  import opened Multiples
  import opened Packets

  datatype Status = Ok | Abort

  /** A call of the callback of the job-th accepted run that had one. */
  datatype Completion = Completion(job: nat, status: Status, count: nat)

  class Endpoint {
    const isIn: bool
    // the endpoint registers
    var epSize: nat
    var enabled: bool
    var stalled: bool
    var nack: bool
    var cnt: nat
    var aux: nat
    var target: Target
    // the job
    var busy: bool
    var shortPacket: bool
    var useCache: bool
    var buf: array<bv8>
    var bufSize: nat
    var nbTrans: nat
    var hasCallback: bool
    /** The cache buffer of an OUT endpoint. */
    const cache: array<bv8>
    // what an observer has seen since the job began, and the calls of callbacks since ever
    ghost var wire: seq<seq<bv8>>
    ghost var received: seq<bv8>
    ghost var want: bool
    ghost var started: nat
    /** The number that the run under way was given when it was accepted. */
    ghost var run: nat
    ghost var log: seq<Completion>

    constructor (isIn: bool)
      ensures Valid() && !enabled && !stalled && !busy && started == 0 && this.isIn == isIn
      ensures fresh(cache) && fresh(buf) && cache.Length == 64
    {
      this.isIn := isIn;
      epSize, enabled, stalled, nack, cnt, aux, target := 8, false, false, true, 0, 0, User(0);
      busy, shortPacket, useCache, bufSize, nbTrans, hasCallback := false, false, false, 0, 0, false;
      buf := new bv8[0];
      cache := new bv8[CACHE_SIZE];
      wire, received, want, started, run, log := [], [], false, 0, 0, [];
    }

    /** Every accepted run with a callback has been answered exactly once, in order, but for the busy one. */
    ghost predicate Accounted()
      reads this
    {
      && |log| + (if busy && hasCallback then 1 else 0) == started
      && (busy && hasCallback ==> run + 1 == started)
      && forall i :: 0 <= i < |log| ==> log[i].job == i
    }

    ghost predicate Wellformed()
      reads this
    {
      IsEpSize(epSize) && cache.Length == CACHE_SIZE && cache != buf && bufSize <= buf.Length
    }

    /** What the driver keeps whatever the hardware reports: a halted or freed endpoint has no job. */
    ghost predicate Booked()
      reads this
    {
      Accounted() && Wellformed() && (stalled || !enabled ==> !busy)
    }

    /** The registers belong to the job under way, and what has been moved is what they say. */
    ghost predicate Valid()
      reads this, buf, cache
    {
      && Booked()
      && (busy ==> !nack && if isIn then InView().Sending() && !InView().AllSent() else OutView().Receiving())
    }

    /** The job as an IN job. */
    ghost function InView(): InJob
      requires Wellformed()
      reads this, buf
    {
      InJob(buf[..bufSize], epSize, want, wire, nbTrans, cnt, aux, target, shortPacket)
    }

    /** The job as an OUT job. */
    ghost function OutView(): OutJob
      reads this, buf, cache
    {
      OutJob(buf[..], bufSize, epSize, cache[..], received, nbTrans, cnt, aux, target, useCache)
    }

    /** Ends the job and calls the callback, if there is a job and if it has one. */
    method JobComplete(status: Status, count: nat)
      requires Accounted()
      modifies this`busy, this`log
      ensures !busy && Accounted()
      ensures log == if old(busy) && hasCallback then old(log) + [Completion(run, status, count)] else old(log)
    {
      if busy {
        busy := false;
        if hasCallback {
          log := log + [Completion(run, status, count)];
        }
      }
    }

    /** Requests the next IN transfer: a chunk of whole packets, or all that is left. */
    method RequestIn(ghost j: InJob, ghost zlp: bool)
      requires isIn && busy && Wellformed() && nbTrans != bufSize
      requires j.TransferDone(zlp) && InView() == j.(nbTrans := j.nbTrans + j.aux)
      modifies this`shortPacket, this`aux, this`cnt, this`target, this`nack
      ensures !nack && aux == 0 && InView().Sending() && !InView().AllSent()
      ensures cnt == if bufSize - nbTrans > 1023 then 1023 - 1023 % epSize else bufSize - nbTrans
    {
      hide InJob.Sending, InJob.TransferDone, InJob.AllSent, IsEpSize;
      InBounds(j, zlp);
      var nextTrans := bufSize - nbTrans;
      if MAX_TRANS < nextTrans {
        nextTrans := MAX_TRANS - MAX_TRANS % epSize;
      }
      shortPacket := shortPacket && nextTrans % epSize == 0;
      aux := 0;
      cnt := nextTrans;
      target := User(nbTrans);
      nack := false;
      NextChunk(j, zlp);
    }

    /** An IN transfer is complete: the next chunk, the closing zero-length packet, or the callback. */
    method InTransComplet(ghost zlp: bool)
      requires isIn && busy && enabled && !stalled && Accounted() && Wellformed() && InView().TransferDone(zlp)
      modifies this`nbTrans, this`shortPacket, this`aux, this`cnt, this`target, this`nack, this`busy, this`log
      ensures Valid()
      ensures busy ==> log == old(log) && nbTrans + aux == old(nbTrans + aux) && !zlp
      ensures !busy ==> InView().AllSent()
      ensures !busy ==> log == if hasCallback then old(log) + [Completion(run, Ok, bufSize)] else old(log)
    {
      hide InJob.Sending, InJob.TransferDone, InJob.AllSent, IsEpSize;
      ghost var j := InView();
      InBounds(j, zlp);
      nbTrans := (nbTrans + aux) % 0x10000;
      if nbTrans != bufSize {
        RequestIn(j, zlp);
        return;
      }
      if shortPacket {
        shortPacket := false;
        aux := 0;
        cnt := 0;
        nack := false;
        ClosingPacket(j, zlp);
        return;
      }
      InJobEnds(j, zlp);
      JobComplete(Ok, nbTrans);
    }

    /** Requests the next OUT transfer: whole packets into the user buffer, or one into the cache. */
    method RequestOut(ghost j: OutJob)
      requires !isIn && busy && Wellformed() && nbTrans != bufSize
      requires j.TransferDone(false) && j.nbTrans + j.bufSize % j.size <= |j.mem| && j.bufSize % j.size <= |j.cache|
      requires OutView() == j.(mem := j.Copied(), nbTrans := j.Counted())
      modifies this`useCache, this`aux, this`cnt, this`target, this`nack
      ensures !nack && OutView().Receiving()
      ensures !(j.nbTrans + j.cnt >= bufSize && !Wraps(bufSize, epSize))
    {
      hide OutJob.Receiving, OutJob.TransferDone, IsEpSize, Wraps, OutJob.Copied;
      OutBounds(j, false);
      OutJobContinues(j);
      NextOutIs(bufSize - nbTrans, epSize);
      AimOut();
      nack := false;
      assert OutView() == j.Requested();
    }

    /** Aims the hardware at the rest of the user buffer, in whole packets, or at the cache for less than one. */
    method AimOut()
      requires 0 < epSize <= CACHE_SIZE && nbTrans <= bufSize
      modifies this`useCache, this`aux, this`cnt, this`target
      ensures var left := bufSize - nbTrans;
        && cnt == 0 && useCache == (old(useCache) || left < epSize)
        && if left < epSize then target == Cache && aux == epSize
           else target == User(nbTrans) && aux == if left > 1023 then 1023 - 1023 % epSize else left - left % epSize
    {
      var nextTrans := bufSize - nbTrans;
      RemainderBelow(nextTrans, epSize);
      RemainderBelow(MAX_TRANS, epSize);
      if MAX_TRANS < nextTrans {
        nextTrans := MAX_TRANS - MAX_TRANS % epSize;
      } else {
        nextTrans := nextTrans - nextTrans % epSize;
      }
      cnt := 0;
      if nextTrans < epSize {
        useCache := true;
        target := Cache;
        aux := epSize;
      } else {
        target := User(nbTrans);
        aux := nextTrans;
      }
    }

    /** Copies the last bytes from the cache buffer to the user buffer, if they are there. */
    method CopyFromCache()
      requires Wellformed() && 0 < epSize <= CACHE_SIZE && nbTrans + bufSize % epSize <= bufSize
      modifies buf
      ensures buf[..] == old(OutView().Copied())
    {
      ghost var j := OutView();
      if useCache {
        CopyBytes(bufSize % epSize);
        assert buf[..] == j.mem[..j.nbTrans] + j.cache[..j.bufSize % j.size] + j.mem[j.nbTrans + j.bufSize % j.size..];
      }
    }

    method CopyBytes(n: nat)
      requires nbTrans + n <= buf.Length && n <= cache.Length && cache != buf
      modifies buf
      ensures buf[..] == old(buf[..][..nbTrans] + cache[..][..n] + buf[..][nbTrans + n..])
    {
      forall i | 0 <= i < n {
        buf[nbTrans + i] := cache[i];
      }
    }

    /** Brings the user buffer and the byte count up to date. */
    method CountReceived()
      requires Wellformed() && 0 < epSize <= CACHE_SIZE && nbTrans + bufSize % epSize <= bufSize
      modifies buf, this`nbTrans
      ensures OutView() == old(OutView().(mem := OutView().Copied(), nbTrans := OutView().Counted()))
    {
      hide OutJob.Copied;
      CopyFromCache();
      nbTrans := (nbTrans + cnt) % 0x10000;
      if nbTrans > bufSize {
        nbTrans := bufSize;
      }
    }

    /** An OUT transfer is complete: the next one, or the callback. */
    method OutTransComplet(ghost short: bool)
      requires !isIn && busy && enabled && !stalled && Accounted() && Wellformed() && OutView().TransferDone(short)
      modifies this`nbTrans, this`useCache, this`aux, this`cnt, this`target, this`nack, this`busy, this`log, buf
      ensures Valid()
      ensures busy ==> log == old(log)
      ensures !busy <==> short || (old(nbTrans + cnt) >= bufSize && !Wraps(bufSize, epSize))
      ensures !busy ==> nbTrans == old(OutView().Counted())
      ensures !busy ==> log == if hasCallback then old(log) + [Completion(run, Ok, nbTrans)] else old(log)
      ensures !busy && |received| < 0x10000 ==>
        nbTrans == Min(|received|, bufSize) && buf[..nbTrans] == received[..nbTrans]
      ensures buf[bufSize..] == old(buf[bufSize..])
      ensures !old(useCache) ==> buf[..] == old(buf[..])
    {
      hide OutJob.Receiving, OutJob.TransferDone, IsEpSize, Wraps, OutJob.Copied;
      ghost var j := OutView();
      OutBounds(j, short);
      NothingCopied(j);
      CountReceived();
      assert buf[bufSize..] == j.Copied()[bufSize..];
      if cnt == aux && nbTrans != bufSize {
        OutJobContinues(j);
        RequestOut(j);
        return;
      }
      OutJobEnds(j, short);
      JobComplete(Ok, nbTrans);
    }

    /** Accepts a job unless the endpoint is not allocated, is halted or has one already. */
    method Run(short: bool, data: array<bv8>, size: nat, callback: bool) returns (ok: bool)
      requires Booked() && data != cache && size <= data.Length && size <= 0xFFFF
      requires !isIn ==> epSize <= CACHE_SIZE
      modifies this`busy, this`buf, this`bufSize, this`nbTrans, this`hasCallback, this`shortPacket, this`useCache
      modifies this`wire, this`received, this`want, this`started, this`run, this`log
      modifies this`cnt, this`aux, this`target, this`nack, data
      ensures Booked() && (ok || old(Valid()) ==> Valid()) && data[..] == old(data[..])
      ensures ok <==> old(enabled && !stalled && !busy)
      ensures !ok ==> busy == old(busy) && started == old(started) && log == old(log)
                      && wire == old(wire) && received == old(received) && buf == old(buf)
      ensures ok ==>
        && buf == data && bufSize == size && want == (short || size == 0) && wire == [] && received == []
        && hasCallback == callback
        && started == old(started) + (if callback then 1 else 0) && run == old(started)
        && (busy <==> isIn || size > 0) && (!busy ==> nbTrans == 0)
        && log == if !busy && callback then old(log) + [Completion(old(started), Ok, 0)] else old(log)
    {
      hide InJob.Sending, InJob.AllSent, OutJob.Receiving, IsEpSize;
      if !enabled {
        return false;
      }
      if stalled {
        return false;
      }
      if busy {
        return false;
      }
      Register(short, data, size, callback);
      OpenTrace();
      if isIn {
        StartIn();
      } else {
        StartOut();
      }
      return true;
    }

    /** Writes down the job. */
    method Register(short: bool, data: array<bv8>, size: nat, callback: bool)
      requires Wellformed() && !busy && data != cache && size <= data.Length
      modifies this`busy, this`buf, this`bufSize, this`nbTrans, this`hasCallback, this`shortPacket, this`useCache
      ensures Wellformed() && busy && !useCache
      ensures buf == data && bufSize == size && nbTrans == 0 && hasCallback == callback
      ensures shortPacket == (short || size == 0)
    {
      busy := true;
      buf, bufSize, nbTrans, hasCallback := data, size, 0, callback;
      shortPacket := short || size == 0;
      useCache := false;
    }

    /** A new job: nothing has been seen of it, and it will have to be answered. */
    ghost method OpenTrace()
      modifies this`wire, this`received, this`want, this`started, this`run
      ensures run == old(started)
      ensures wire == [] && received == [] && want == shortPacket
      ensures started == old(started) + (if hasCallback then 1 else 0)
    {
      wire, received, want, run := [], [], shortPacket, started;
      started := started + if hasCallback then 1 else 0;
    }

    /** Simulates an empty IN transfer to get the first one going. */
    method StartIn()
      requires isIn && busy && enabled && !stalled && Accounted() && Wellformed() && bufSize <= 0xFFFF
      requires wire == [] && nbTrans == 0 && shortPacket == want && (bufSize == 0 ==> want)
      modifies this`nbTrans, this`shortPacket, this`aux, this`cnt, this`target, this`nack, this`busy, this`log
      ensures Valid() && busy && log == old(log)
    {
      hide InJob.Sending, InJob.TransferDone;
      aux := 0;
      InJobBegins(InView());
      NotAllSent(InView());
      InTransComplet(false);
    }

    /** Simulates an empty OUT transfer to get the first one going. */
    method StartOut()
      requires !isIn && busy && enabled && !stalled && Accounted() && Wellformed() && bufSize <= 0xFFFF
      requires epSize <= CACHE_SIZE && received == [] && nbTrans == 0 && !useCache
      modifies this`nbTrans, this`useCache, this`aux, this`cnt, this`target, this`nack, this`busy, this`log, buf
      ensures Valid() && buf[..] == old(buf[..])
      ensures (busy <==> bufSize > 0) && (!busy ==> nbTrans == 0)
      ensures log == if busy || !hasCallback then old(log) else old(log) + [Completion(run, Ok, 0)]
    {
      hide OutJob.Receiving, OutJob.TransferDone, Wraps;
      cnt, aux, target := 0, 0, User(0);
      OutJobBegins(OutView());
      OutTransComplet(false);
    }

    /** Stops a job; the callback hears how far the hardware got with its current transfer. */
    method AbortJob()
      requires Booked()
      modifies this`nack, this`busy, this`log
      ensures Valid() && nack && !busy
      ensures log == if old(busy) && hasCallback then old(log) + [Completion(run, Abort, if isIn then aux else cnt)]
                     else old(log)
    {
      nack := true;
      if !busy {
        return;
      }
      JobComplete(Abort, if isIn then aux else cnt);
    }

    /** Halts the endpoint, which ends its job. */
    method SetHalt()
      requires Booked()
      modifies this`nack, this`busy, this`log, this`stalled
      ensures Valid() && stalled && !busy
      ensures log == if old(busy) && hasCallback then old(log) + [Completion(run, Abort, if isIn then aux else cnt)]
                     else old(log)
    {
      AbortJob();
      stalled := true;
    }

    /** Ends a halt. No job can be waiting then: a halted endpoint has none. */
    method ClearHalt()
      requires Booked()
      modifies this`stalled
      ensures Booked() && (old(Valid()) ==> Valid()) && !stalled && (old(stalled) ==> !busy)
    {
      if !stalled {
        return;
      }
      stalled := false;
    }

    /** Allocates the endpoint unless it is allocated already. */
    method Alloc(size: nat) returns (ok: bool)
      requires Booked() && IsEpSize(size)
      modifies this`epSize, this`enabled, this`stalled, this`nack
      ensures Booked() && (old(Valid()) ==> Valid()) && enabled
      ensures ok <==> !old(enabled)
      ensures if ok then epSize == size && !stalled && !busy else epSize == old(epSize) && stalled == old(stalled)
    {
      if enabled {
        return false;
      }
      enabled, stalled, nack, epSize := true, false, true, size;
      return true;
    }

    /** Gives the endpoint back, after ending its job. */
    method Free()
      requires Booked()
      modifies this`nack, this`busy, this`log, this`enabled, this`stalled
      ensures Valid() && !enabled && !stalled && !busy
      ensures log == if old(busy) && hasCallback then old(log) + [Completion(run, Abort, if isIn then aux else cnt)]
                     else old(log)
    {
      AbortJob();
      enabled, stalled := false, false;
    }

    /**
     * A completion that is not, or not only, that of the job under way: it was pending when
     * another job was aborted, or belongs to a transfer requested since then. The driver goes
     * by whatever the registers hold. It may end the job under way, but only that, and only once.
     */
    method LateCompletion(moved: nat, requested: nat)
      requires Booked()
      modifies this`nbTrans, this`shortPacket, this`useCache, this`aux, this`cnt, this`target, this`nack, this`busy,
               this`log
      ensures Booked() && (busy ==> old(busy))
      ensures log == if busy || !old(busy && hasCallback) then old(log) else old(log) + [Completion(run, Ok, nbTrans)]
    {
      var again: bool;
      if isIn {
        again := LateIn(moved);
      } else {
        again := LateOut(moved, requested);
      }
      if !again {
        JobComplete(Ok, nbTrans);
      }
    }

    /** The counters after a late IN completion, and whether it requests another transfer. */
    method LateIn(moved: nat) returns (again: bool)
      requires epSize > 0
      modifies this`nbTrans, this`shortPacket, this`aux, this`cnt, this`target, this`nack
      ensures nbTrans == (old(nbTrans) + moved) % 0x10000
      ensures again <==> nbTrans != bufSize || old(shortPacket)
    {
      nbTrans := (nbTrans + moved) % 0x10000;
      if nbTrans != bufSize {
        var nextTrans := NextIn((bufSize - nbTrans) % 0x10000, epSize);
        shortPacket := shortPacket && nextTrans % epSize == 0;
        aux, cnt, target, nack := 0, nextTrans, User(nbTrans), false;
        return true;
      }
      again := shortPacket;
      if shortPacket {
        shortPacket := false;
        aux, cnt, nack := 0, 0, false;
      }
    }

    /** The counters after a late OUT completion, and whether it requests another transfer. */
    method LateOut(moved: nat, requested: nat) returns (again: bool)
      requires epSize > 0
      modifies this`nbTrans, this`useCache, this`aux, this`cnt, this`target, this`nack
      ensures nbTrans == Min((old(nbTrans) + moved) % 0x10000, bufSize)
      ensures again <==> moved == requested && nbTrans != bufSize
    {
      nbTrans := (nbTrans + moved) % 0x10000;
      if nbTrans > bufSize {
        nbTrans := bufSize;
      }
      again := moved == requested && nbTrans != bufSize;
      if again {
        var nextTrans := NextOut(bufSize - nbTrans, epSize);
        cnt, nack := 0, false;
        if nextTrans < epSize {
          useCache, target, aux := true, Cache, epSize;
        } else {
          target, aux := User(nbTrans), nextTrans;
        }
      }
    }

    /** The hardware sends one packet of an IN job. */
    method HwSend()
      requires Valid() && isIn && busy
      modifies this`wire, this`nbTrans, this`shortPacket, this`aux, this`cnt, this`target, this`nack, this`busy,
               this`log
      ensures Valid()
      ensures wire == old(wire + [NextPacket(InView())])
      ensures !busy <==> InView().AllSent()
      ensures log == if busy || !hasCallback then old(log) else old(log) + [Completion(run, Ok, bufSize)]
      ensures busy ==> old(nbTrans + aux) < nbTrans + aux <= bufSize
    {
      hide InJob.Sending, InJob.TransferDone, InJob.AllSent, IsEpSize;
      PacketSent(InView());
      PacketFromBuffer(InView());
      Emit();
      if aux == cnt {
        nack := true;
        InTransComplet(cnt == 0);
      }
    }

    /** The DMA reads the next packet from the user buffer and puts it on the wire. */
    method Emit()
      requires Wellformed() && InView().Sending()
      modifies this`wire, this`aux
      ensures InView() == old(InView().(wire := InView().wire + [NextPacket(InView())],
                                        aux := InView().aux + |NextPacket(InView())|))
    {
      hide InJob.Sending, NextPacket, IsEpSize;
      PacketFromBuffer(InView());
      var n := if epSize < cnt - aux then epSize else cnt - aux;
      if n > 0 {
        SliceOfPrefix(buf[..], bufSize, nbTrans + aux, nbTrans + aux + n);
      }
      var packet := if n == 0 then [] else buf[target.offset + aux..target.offset + aux + n];
      wire := wire + [packet];
      aux := aux + |packet|;
    }

    /** The hardware receives one packet of an OUT job. */
    method HwReceive(packet: seq<bv8>)
      requires Valid() && !isIn && busy && |packet| <= epSize
      modifies this`received, this`nbTrans, this`useCache, this`aux, this`cnt, this`target, this`nack, this`busy,
               this`log
      modifies buf, cache
      ensures Valid()
      ensures received == old(received) + packet
      ensures !Wraps(bufSize, epSize) ==> |received| < 0x10000
      ensures !Wraps(bufSize, epSize) ==> (!busy <==> |packet| < epSize || |received| >= bufSize)
      ensures Wraps(bufSize, epSize) ==> (!busy <==> |packet| < epSize)
      ensures log == if busy || !old(hasCallback) then old(log) else old(log) + [Completion(run, Ok, nbTrans)]
      ensures !busy && |received| < 0x10000 ==>
        nbTrans == Min(|received|, bufSize) && buf[..nbTrans] == received[..nbTrans]
      ensures buf[bufSize..] == old(buf[bufSize..])
      ensures old(target.User?) ==> cache[..] == old(cache[..])
    {
      hide OutJob.Receiving, OutJob.TransferDone, OutJob.Received, OutJob.Copied, IsEpSize, Wraps, RoundUp;
      ghost var j := OutView();
      PacketFits(j, packet);
      ReceiveStep(j, packet);
      Store(packet);
      if |packet| < epSize || cnt == aux {
        nack := true;
        OutTransComplet(|packet| < epSize);
      }
    }

    /** The DMA writes a packet behind the bytes of the current transfer. */
    method Store(packet: seq<bv8>)
      requires Wellformed()
      requires match target
               case Cache => cnt + |packet| <= CACHE_SIZE
               case User(offset) => offset + cnt + |packet| <= buf.Length
      modifies this`cnt, this`received, buf, cache
      ensures OutView() == old(OutView().Received(packet))
      ensures old(target.User?) ==> cache[..] == old(cache[..])
    {
      match target {
        case Cache =>
          forall i | 0 <= i < |packet| {
            cache[cnt + i] := packet[i];
          }
          assert cache[..] == old(cache[..cnt]) + packet + old(cache[cnt + |packet|..]);
          assert buf[..] == old(buf[..]);
        case User(offset) =>
          forall i | 0 <= i < |packet| {
            buf[offset + cnt + i] := packet[i];
          }
          assert buf[..] == old(buf[..offset + cnt]) + packet + old(buf[offset + cnt + |packet|..]);
          assert cache[..] == old(cache[..]);
      }
      cnt := cnt + |packet|;
      received := received + packet;
    }
  }

  // ----- whole runs -----

  /** What can happen to an endpoint. */
  datatype Event =
    | EvAlloc(size: nat)
    | EvFree
    | EvRun(short: bool, data: array<bv8>, size: nat, callback: bool)
    | EvAbort
    | EvSetHalt
    | EvClearHalt
    | EvSend
    | EvReceive(packet: seq<bv8>)
    | EvLateCompletion(moved: nat, requested: nat)

  /** What the driver and the bus may ask for at any time; user buffers come from a given set. */
  ghost predicate Admissible(isIn: bool, buffers: set<array<bv8>>, e: Event) {
    match e
    case EvAlloc(size) => IsEpSize(size) && (!isIn ==> size <= CACHE_SIZE)
    case EvRun(_, data, size, _) => data in buffers && size <= data.Length && size <= 0xFFFF
    case _ => true
  }

  /**
   * One event. Packets are moved for a job that a late completion has not disturbed, and when
   * the endpoint is ready for them; the transfers of a disturbed job are late completions.
   */
  method Apply(ep: Endpoint, e: Event, disturbed: bool, buffers: set<array<bv8>>) returns (accepted: bool, still: bool)
    requires ep.Booked() && (!disturbed ==> ep.Valid()) && (!ep.isIn ==> ep.epSize <= CACHE_SIZE)
    requires Admissible(ep.isIn, buffers, e) && ep.buf in buffers && ep.cache !in buffers
    modifies ep, buffers, ep.cache
    ensures ep.Booked() && (!still ==> ep.Valid()) && (!ep.isIn ==> ep.epSize <= CACHE_SIZE)
    ensures ep.buf in buffers && ep.started == old(ep.started) + if accepted then 1 else 0
    ensures old(ep.log) <= ep.log && (still ==> disturbed || e.EvLateCompletion?)
    ensures accepted ==> e.EvRun?
    ensures |ep.log| <= |old(ep.log)| + 1
    ensures |ep.log| > |old(ep.log)| ==>
      (ep.log[|old(ep.log)|].status == Abort <==> e.EvAbort? || e.EvSetHalt? || e.EvFree?)
    ensures e.EvAbort? || e.EvSetHalt? || e.EvFree? ==> |ep.log| == ep.started
  {
    hide Endpoint.InView, Endpoint.OutView;
    accepted, still := false, disturbed;
    match e {
      case EvAlloc(size) =>
        var ok := ep.Alloc(size);
      case EvFree =>
        ep.Free();
      case EvRun(short, data, size, callback) =>
        accepted := ep.Run(short, data, size, callback);
        still := disturbed && !accepted;
        accepted := accepted && callback;
      case EvAbort =>
        ep.AbortJob();
      case EvSetHalt =>
        ep.SetHalt();
      case EvClearHalt =>
        ep.ClearHalt();
      case EvSend =>
        if ep.isIn && ep.busy && !disturbed {
          ep.HwSend();
        }
      case EvReceive(packet) =>
        if !ep.isIn && ep.busy && !disturbed && |packet| <= ep.epSize {
          ep.HwReceive(packet);
        }
      case EvLateCompletion(moved, requested) =>
        ep.LateCompletion(moved, requested);
        still := true;
    }
  }

  /**
   * What one event adds to a log: accepted and answered count the accepted runs with a callback
   * and the calls of callbacks before and after it. The entry it adds says Abort exactly when it
   * was an abort, a halt or the freeing of the endpoint, and after those no run is waiting.
   */
  predicate Explained(log: seq<Completion>, e: Event, accepted: nat, answered: nat, accepted': nat, answered': nat) {
    && accepted <= accepted' <= accepted + (if e.EvRun? then 1 else 0)
    && answered <= answered' <= answered + 1
    && (e.EvAbort? || e.EvSetHalt? || e.EvFree? ==> answered' == accepted')
    && (answered < answered' ==>
          answered < |log| && (log[answered].status == Abort <==> e.EvAbort? || e.EvSetHalt? || e.EvFree?))
  }

  /** How a log came about, event by event. */
  predicate Explains(log: seq<Completion>, events: seq<Event>, accepted: seq<nat>, answered: seq<nat>) {
    && |accepted| == |answered| == |events| + 1
    && accepted[0] == answered[0] == 0 && answered[|events|] == |log|
    && forall k :: 0 <= k < |events| ==>
         Explained(log, events[k], accepted[k], answered[k], accepted[k + 1], answered[k + 1])
  }

  /** One more event, and what it has added to the log. */
  lemma OneMoreEvent(log: seq<Completion>, log': seq<Completion>, events: seq<Event>, e: Event,
                     accepted: seq<nat>, answered: seq<nat>, one: nat)
    requires Explains(log, events, accepted, answered) && log <= log'
    requires Explained(log', e, accepted[|events|], |log|, accepted[|events|] + one, |log'|)
    ensures Explains(log', events + [e], accepted + [accepted[|events|] + one], answered + [|log'|])
  {
    var accepted', answered' := accepted + [accepted[|events|] + one], answered + [|log'|];
    forall k | 0 <= k < |events + [e]|
      ensures Explained(log', (events + [e])[k], accepted'[k], answered'[k], accepted'[k + 1], answered'[k + 1])
    {
      if k < |events| {
        assert Explained(log, events[k], accepted[k], answered[k], accepted[k + 1], answered[k + 1]);
      }
    }
  }

  /**
   * Any sequence of events, among them completions of transfers that were aborted. Whatever
   * their order, every accepted run with a callback is answered exactly once, in order, unless
   * it is still under way at the end; it hears of an abort exactly when it was aborted; and a
   * halted or freed endpoint has no job.
   */
  method Replay(ep: Endpoint, events: seq<Event>, buffers: set<array<bv8>>)
    returns (accepted: nat, ghost accepts: seq<nat>, ghost answers: seq<nat>)
    requires ep.Valid() && ep.started == 0 && (!ep.isIn ==> ep.epSize <= CACHE_SIZE)
    requires ep.buf in buffers && ep.cache !in buffers
    requires forall i :: 0 <= i < |events| ==> Admissible(ep.isIn, buffers, events[i])
    modifies ep, buffers, ep.cache
    ensures ep.stalled || !ep.enabled ==> !ep.busy
    ensures accepted == |ep.log| + (if ep.busy && ep.hasCallback then 1 else 0)
    ensures forall i :: 0 <= i < |ep.log| ==> ep.log[i].job == i
    ensures Explains(ep.log, events, accepts, answers) && accepts[|events|] == accepted
  {
    hide Explains;
    accepted, accepts, answers := 0, [0], [0];
    var disturbed := false;
    NothingHappened(ep.log, events);
    for k := 0 to |events|
      invariant ep.Booked() && (!disturbed ==> ep.Valid()) && accepted == ep.started && ep.buf in buffers
      invariant !ep.isIn ==> ep.epSize <= CACHE_SIZE
      invariant |accepts| == k + 1 && accepts[k] == accepted
      invariant Explains(ep.log, events[..k], accepts, answers)
    {
      ghost var log := ep.log;
      var one;
      one, disturbed := Apply(ep, events[k], disturbed, buffers);
      OneMoreEvent(log, ep.log, events[..k], events[k], accepts, answers, if one then 1 else 0);
      accepted := accepted + if one then 1 else 0;
      accepts, answers := accepts + [accepted], answers + [|ep.log|];
      assert events[..k] + [events[k]] == events[..k + 1];
    }
    assert events[..|events|] == events;
  }

  lemma NothingHappened(log: seq<Completion>, events: seq<Event>)
    requires log == []
    ensures Explains(log, events[..0], [0], [0])
  {
  }

  /** An IN job from its first packet to its last: what is on the wire is the data, properly closed. */
  method SendAll(ep: Endpoint, short: bool, data: array<bv8>, size: nat, callback: bool)
    requires ep.Valid() && ep.isIn && ep.enabled && !ep.stalled && !ep.busy
    requires data != ep.cache && size <= data.Length && size <= 0xFFFF
    modifies ep, data
    ensures ep.Valid() && !ep.busy && data[..] == old(data[..])
    ensures ep.wire == Wire(data[..size], ep.epSize, short || size == 0)
    ensures ep.log == old(ep.log) + if callback then [Completion(old(ep.started), Ok, size)] else []
  {
    hide Wire, IsEpSize, InJob.Sending, OutJob.Receiving, Endpoint.OutView, NextPacket;
    var ok := ep.Run(short, data, size, callback);
    if ep.busy {
      PacketFromBuffer(ep.InView());
    }
    while ep.busy
      invariant ep.Valid() && ep.buf == data && ep.bufSize == size && ep.epSize == old(ep.epSize)
      invariant data[..] == old(data[..]) && ep.want == (short || size == 0) && ep.hasCallback == callback
      invariant ep.started == old(ep.started) + if callback then 1 else 0
      invariant ep.busy ==> ep.log == old(ep.log)
      invariant !ep.busy ==> ep.InView().AllSent()
                             && ep.log == old(ep.log) + if callback then [Completion(old(ep.started), Ok, size)] else []
      invariant ep.busy ==> ep.nbTrans + ep.aux <= size
      decreases ep.busy, size - ep.nbTrans - ep.aux
    {
      ep.HwSend();
    }
  }

  /** Packet k ends the job: it is short or, unless the byte count can wrap, the buffer of n bytes is full with it. */
  predicate EndsAt(packets: seq<seq<bv8>>, k: nat, n: nat, size: nat)
    requires k < |packets| && size > 0
  {
    |packets[k]| < size || (!Wraps(n, size) && |Concat(packets[..k + 1])| >= n)
  }

  /** An OUT job of which the first packets have arrived: it is still under way, or they ended it. */
  ghost predicate Fed(ep: Endpoint, n: nat, packets: seq<seq<bv8>>, used: nat, log: seq<Completion>)
    reads ep, ep.buf, ep.cache
  {
    && ep.Valid() && used <= |packets| && n == ep.bufSize && ep.received == Concat(packets[..used]) && ep.epSize > 0
    && (!Wraps(n, ep.epSize) ==> |ep.received| < 0x10000)
    && (forall k :: 0 <= k < used - 1 ==> !EndsAt(packets, k, n, ep.epSize))
    && if ep.busy then n > 0 && ep.log == log && (used > 0 ==> !EndsAt(packets, used - 1, n, ep.epSize))
       else
         && (if n == 0 then used == 0 else used > 0 && EndsAt(packets, used - 1, n, ep.epSize))
         && (|ep.received| < 0x10000 ==>
             ep.nbTrans == Min(|ep.received|, n) && ep.buf[..ep.nbTrans] == ep.received[..ep.nbTrans])
         && ep.log == log + if ep.hasCallback then [Completion(|log|, Ok, ep.nbTrans)] else []
  }

  /** One more packet for a job under way. */
  method Feed(ep: Endpoint, n: nat, packets: seq<seq<bv8>>, used: nat, ghost log: seq<Completion>)
    requires Fed(ep, n, packets, used, log) && ep.busy && !ep.isIn
    requires used < |packets| && |packets[used]| <= ep.epSize
    modifies ep`received, ep`nbTrans, ep`useCache, ep`aux, ep`cnt, ep`target, ep`nack, ep`busy, ep`log, ep.buf, ep.cache
    ensures Fed(ep, n, packets, used + 1, log)
    ensures ep.buf[n..] == old(ep.buf[n..])
  {
    hide Wraps, Endpoint.OutView, Endpoint.InView, Concat, IsEpSize, OutJob.Receiving, InJob.Sending, InJob.AllSent;
    assert packets[..used + 1] == packets[..used] + [packets[used]];
    ConcatAppend(packets[..used], packets[used]);
    ep.HwReceive(packets[used]);
  }

  lemma NothingYet(packets: seq<seq<bv8>>)
    ensures packets[..0] == [] && Concat(packets[..0]) == []
  {
  }

  /** An OUT job fed with packets until it ends: the buffer holds what they carried, cut at its size. */
  method ReceiveAll(ep: Endpoint, data: array<bv8>, n: nat, callback: bool, packets: seq<seq<bv8>>) returns (used: nat)
    requires ep.Valid() && !ep.isIn && ep.enabled && !ep.stalled && !ep.busy && ep.epSize <= CACHE_SIZE
    requires data != ep.cache && n <= data.Length && n <= 0xFFFF
    requires forall i :: 0 <= i < |packets| ==> |packets[i]| <= ep.epSize
    modifies ep, data, ep.cache
    ensures used <= |packets| && data[n..] == old(data[n..]) && ep.epSize == old(ep.epSize) > 0
    ensures forall k :: 0 <= k < used - 1 ==> !EndsAt(packets, k, n, ep.epSize)
    ensures ep.busy ==>
      used == |packets| && (used > 0 ==> !EndsAt(packets, used - 1, n, ep.epSize)) && ep.log == old(ep.log)
    ensures !ep.busy ==>
      && (if n == 0 then used == 0 else used > 0 && EndsAt(packets, used - 1, n, ep.epSize))
      && ep.log == old(ep.log) + if callback then [Completion(old(ep.started), Ok, ep.nbTrans)] else []
    ensures !Wraps(n, ep.epSize) ==> |Concat(packets[..used])| < 0x10000
    ensures !ep.busy ==>
      var bytes := Concat(packets[..used]);
      |bytes| < 0x10000 ==> ep.nbTrans == Min(|bytes|, n) && data[..ep.nbTrans] == bytes[..ep.nbTrans]
  {
    assert ep.epSize > 0;
    hide Wraps, Endpoint.OutView, Endpoint.InView, Concat, IsEpSize, OutJob.Receiving, InJob.Sending, InJob.AllSent,
      EndsAt;
    NothingYet(packets);
    assert |ep.log| == ep.started;
    var ok := ep.Run(false, data, n, callback);
    assert n == 0 ==> ep.buf[..0] == ep.received[..0];
    used := 0;
    while used < |packets| && ep.busy
      invariant Fed(ep, n, packets, used, old(ep.log)) && ep.buf == data && ep.epSize == old(ep.epSize)
      invariant data[n..] == old(data[n..]) && ep.hasCallback == callback
    {
      Feed(ep, n, packets, used, old(ep.log));
      used := used + 1;
    }
  }
}
