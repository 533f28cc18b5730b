// Packets on the bus, and the arithmetic of packet sizes.

module Multiples {

  function Min(a: nat, b: nat): nat {
    if a < b then a else b
  }

  lemma {:induction false} MulAtLeast(d: int, m: int)
    requires m > 0
    ensures d > 0 ==> d * m >= m
    ensures d < 0 ==> d * m <= -m
    decreases if d < 0 then -d else d
  {
  }

  lemma Distribute(a: int, b: int, m: int)
    ensures (a - b) * m == a * m - b * m
    ensures (a + b) * m == a * m + b * m
  {
  }

  lemma DivMod(a: int, m: int)
    requires m > 0
    ensures a == (a / m) * m + a % m && 0 <= a % m < m
  {
  }

  lemma RemainderUnique(a: int, q: int, r: int, m: int)
    requires m > 0 && a == q * m + r && 0 <= r < m
    ensures a % m == r && a / m == q
  {
    DivMod(a, m);
    var q' := a / m;
    Distribute(q, q', m);
    MulAtLeast(q - q', m);
  }

  lemma MulMod(k: int, m: int)
    requires m > 0
    ensures (k * m) % m == 0 && (k * m) / m == k
  {
    RemainderUnique(k * m, k, 0, m);
  }

  /** Sums and differences of multiples are multiples, and a remainder can be cut off. */
  lemma AddMultiples(a: int, b: int, m: int)
    requires m > 0 && a % m == 0 && b % m == 0
    ensures (a + b) % m == 0 && (a - b) % m == 0
  {
    DivMod(a, m);
    DivMod(b, m);
    Distribute(a / m, b / m, m);
    MulMod(a / m + b / m, m);
    MulMod(a / m - b / m, m);
  }

  lemma CutRemainder(a: int, m: int)
    requires m > 0
    ensures (a - a % m) % m == 0
  {
    DivMod(a, m);
    MulMod(a / m, m);
  }

  /** Adding a multiple does not change the remainder. */
  lemma SameRemainder(a: int, b: int, m: int)
    requires m > 0 && b % m == 0
    ensures (a + b) % m == a % m
  {
    CutRemainder(a, m);
    AddMultiples(a - a % m, b, m);
    var c := a - a % m + b;
    DivMod(c, m);
    DivMod(a, m);
    RemainderUnique(a + b, c / m, a % m, m);
  }

  lemma SmallMultiple(a: int, m: int)
    requires m > 0 && a % m == 0 && a > 0
    ensures a >= m
  {
  }
}

/** How a buffer travels as packets. */
module Packets {
  import opened Multiples

  /** data cut into packets of size bytes, of which only the last may be short. */
  function Cut<T>(data: seq<T>, size: nat): seq<seq<T>>
    requires size > 0
    decreases |data|
  {
    if data == [] then []
    else if |data| <= size then [data]
    else [data[..size]] + Cut(data[size..], size)
  }

  /** What an IN job puts on the wire: a zero-length packet closes it when it is wanted and needed. */
  function Wire<T>(data: seq<T>, size: nat, want: bool): seq<seq<T>>
    requires size > 0
  {
    Cut(data, size) + if want && |data| % size == 0 then [[]] else []
  }

  function Concat<T>(packets: seq<seq<T>>): seq<T> {
    if packets == [] then [] else packets[0] + Concat(packets[1..])
  }

  lemma {:induction false} CutAppend<T>(a: seq<T>, p: seq<T>, size: nat)
    requires size > 0 && |a| % size == 0 && 0 < |p| <= size
    ensures Cut(a + p, size) == Cut(a, size) + [p]
    decreases |a|
  {
    if a == [] {
      assert a + p == p;
    } else {
      SmallMultiple(|a|, size);
      AddMultiples(|a|, size, size) by { MulMod(1, size); }
      if |a| == size {
        assert (a + p)[size..] == p && (a + p)[..size] == a;
      } else {
        assert (a + p)[size..] == a[size..] + p && (a + p)[..size] == a[..size];
        CutAppend(a[size..], p, size);
      }
    }
  }

  lemma {:induction false} ConcatAppend<T>(a: seq<seq<T>>, p: seq<T>)
    ensures Concat(a + [p]) == Concat(a) + p
  {
    if a == [] {
      assert a + [p] == [p];
      assert Concat([p]) == p + Concat([p][1..]);
    } else {
      assert (a + [p])[1..] == a[1..] + [p];
      ConcatAppend(a[1..], p);
    }
  }

  /** What has been sent before the end is not yet everything. */
  lemma PartIsNotAll<T>(data: seq<T>, sent: nat, size: nat, want: bool)
    requires size > 0 && sent < |data|
    ensures Cut(data[..sent], size) != Wire(data, size, want)
  {
    CutIsFaithful(data[..sent], size);
    CutIsFaithful(data, size);
    ConcatAppend(Cut(data, size), []);
    assert Cut(data, size) + [] == Cut(data, size);
  }

  /** The packets put together are the data, and every packet but the last is full. */
  lemma {:induction false} CutIsFaithful<T>(data: seq<T>, size: nat)
    requires size > 0
    ensures Concat(Cut(data, size)) == data
    ensures forall i :: 0 <= i < |Cut(data, size)| - 1 ==> |Cut(data, size)[i]| == size
    ensures forall i :: 0 <= i < |Cut(data, size)| ==> 0 < |Cut(data, size)[i]| <= size
    decreases |data|
  {
    if |data| > size {
      CutIsFaithful(data[size..], size);
      assert data == data[..size] + data[size..];
    } else if data != [] {
      assert Concat([data]) == data + Concat([data][1..]);
    }
  }
}
