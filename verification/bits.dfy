/** Bit-level arithmetic shared by the two Base32 codecs and the TOTP engine.

    A bit string is a sequence of 0/1 integers, most significant bit first, as the
    Base32 codecs read their input. `Unchunk` concatenates fixed-width groups (bytes
    are 8-bit groups, Base32 symbols 5-bit groups) and `ChunkValues` cuts a bit string
    back into complete groups, dropping an incomplete trailing group. */
module Bits {

  /** An octet, the unit of PHP's byte strings (`ord`/`chr`). */
  type byte = b: int | 0 <= b < 256

  /** One binary digit. */
  type bit = b: int | 0 <= b < 2

  function Pow2(n: nat): (r: nat)
    ensures r >= 1
  {
    if n == 0 then 1 else 2 * Pow2(n - 1)
  }

  /** The natural number a bit string denotes, most significant bit first. */
  function BitsValue(bits: seq<bit>): (v: nat)
  {
    if bits == [] then 0 else 2 * BitsValue(bits[..|bits| - 1]) + bits[|bits| - 1]
  }

  /** A string of n bits denotes a value below 2^n. */
  lemma {:induction false} BitsValueBound(bits: seq<bit>)
    ensures BitsValue(bits) < Pow2(|bits|)
  {
    if bits != [] {
      BitsValueBound(bits[..|bits| - 1]);
    }
  }

  /** The `width` low-order bits of `v`, most significant first. */
  function ToBits(v: nat, width: nat): (bits: seq<bit>)
    ensures |bits| == width
  {
    if width == 0 then [] else ToBits(v / 2, width - 1) + [v % 2]
  }

  function Zeros(n: nat): (bits: seq<bit>)
    ensures |bits| == n
    ensures forall i :: 0 <= i < n ==> bits[i] == 0
  {
    if n == 0 then [] else Zeros(n - 1) + [0]
  }

  /** The concatenation of the `width`-bit forms of `values`. */
  function Unchunk(values: seq<nat>, width: nat): (bits: seq<bit>)
    ensures |bits| == |values| * width
  {
    if values == [] then []
    else Unchunk(values[..|values| - 1], width) + ToBits(values[|values| - 1], width)
  }

  /** The values of the complete `width`-bit groups of `bits`, read from the front;
      an incomplete trailing group is dropped. */
  function ChunkValues(bits: seq<bit>, width: nat): (values: seq<nat>)
    requires width > 0
    decreases |bits|
  {
    if |bits| < width then [] else [BitsValue(bits[..width])] + ChunkValues(bits[width..], width)
  }

  predicate AllBelow(values: seq<nat>, bound: nat)
  {
    forall i :: 0 <= i < |values| ==> values[i] < bound
  }

  // ---------------------------------------------------------------------------
  // Division and remainder

  lemma {:induction false} MulAtLeast(k: nat, d: nat)
    requires k >= 1
    ensures k * d >= d
  {
    if k > 1 {
      MulAtLeast(k - 1, d);
      assert k * d == (k - 1) * d + d;
    }
  }

  lemma DivModOfSum(q: nat, r: nat, d: nat)
    requires r < d
    ensures (q * d + r) / d == q
    ensures (q * d + r) % d == r
  {
    var n := q * d + r;
    var q', r' := n / d, n % d;
    assert n == q' * d + r';
    if q' < q {
      assert (q - q') * d == r' - r;
      MulAtLeast(q - q', d);
    } else if q' > q {
      assert (q' - q) * d == r - r';
      MulAtLeast(q' - q, d);
    }
  }

  lemma MulBelow(x: nat, bound: nat, k: nat)
    requires x < bound
    ensures x * k <= (bound - 1) * k < bound * k || k == 0
  {
    if k > 0 {
      MulAtLeast(k, 1);
      assert bound * k == (bound - 1) * k + k;
      assert (bound - 1 - x) * k >= 0;
      assert (bound - 1) * k - x * k == (bound - 1 - x) * k;
    }
  }

  lemma ModBelow(x: int, m: int)
    requires 0 <= x < m
    ensures x % m == x
  {
    DivModOfSum(0, x, m);
  }

  lemma Pow2Add(a: nat, b: nat)
    ensures Pow2(a + b) == Pow2(a) * Pow2(b)
  {
    if a > 0 {
      Pow2Add(a - 1, b);
    }
  }

  // ---------------------------------------------------------------------------
  // Bit strings and their values

  lemma {:induction false} BitsValueAppend(a: seq<bit>, b: seq<bit>)
    ensures BitsValue(a + b) == BitsValue(a) * Pow2(|b|) + BitsValue(b)
    decreases |b|
  {
    if b == [] {
      assert a + b == a;
    } else {
      var b' := b[..|b| - 1];
      assert (a + b)[..|a + b| - 1] == a + b';
      BitsValueAppend(a, b');
      var va, vb', p', x := BitsValue(a), BitsValue(b'), Pow2(|b'|), b[|b| - 1];
      assert Pow2(|b|) == 2 * p';
      assert BitsValue(b) == 2 * vb' + x;
      assert (a + b)[|a + b| - 1] == x;
      assert BitsValue(a + b) == 2 * (va * p' + vb') + x;
      DoubleShift(va, p', vb', x);
    }
  }

  lemma DoubleShift(v: int, p: int, w: int, x: int)
    ensures 2 * (v * p + w) + x == v * (2 * p) + (2 * w + x)
  {
  }

  /** Splitting a bit string after its first part: the quotient by 2^|b| is the value
      of the front, the remainder the value of the back. */
  lemma BitsValueSplit(a: seq<bit>, b: seq<bit>)
    ensures BitsValue(a + b) / Pow2(|b|) == BitsValue(a)
    ensures BitsValue(a + b) % Pow2(|b|) == BitsValue(b)
  {
    BitsValueAppend(a, b);
    BitsValueBound(b);
    DivModOfSum(BitsValue(a), BitsValue(b), Pow2(|b|));
  }

  lemma {:induction false} BitsValueOfToBits(v: nat, width: nat)
    requires v < Pow2(width)
    ensures BitsValue(ToBits(v, width)) == v
  {
    if width > 0 {
      BitsValueOfToBits(v / 2, width - 1);
      var bits := ToBits(v, width);
      assert bits[..|bits| - 1] == ToBits(v / 2, width - 1);
    }
  }

  lemma {:induction false} ToBitsOfBitsValue(bits: seq<bit>)
    ensures ToBits(BitsValue(bits), |bits|) == bits
  {
    if bits != [] {
      var front := bits[..|bits| - 1];
      ToBitsOfBitsValue(front);
      assert BitsValue(bits) / 2 == BitsValue(front);
      assert bits == front + [bits[|bits| - 1]];
    }
  }

  lemma {:induction false} BitsValueZeros(n: nat)
    ensures BitsValue(Zeros(n)) == 0
  {
    if n > 0 {
      BitsValueZeros(n - 1);
      assert Zeros(n)[..n - 1] == Zeros(n - 1);
    }
  }

  // ---------------------------------------------------------------------------
  // Grouping

  lemma {:induction false} UnchunkAppend(a: seq<nat>, b: seq<nat>, width: nat)
    ensures Unchunk(a + b, width) == Unchunk(a, width) + Unchunk(b, width)
    decreases |b|
  {
    if b == [] {
      assert a + b == a;
    } else {
      var b', last := b[..|b| - 1], b[|b| - 1];
      assert (a + b)[..|a + b| - 1] == a + b';
      assert (a + b)[|a + b| - 1] == last;
      var x := ToBits(last, width);
      assert Unchunk(a + b, width) == Unchunk(a + b', width) + x;
      assert Unchunk(b, width) == Unchunk(b', width) + x;
      UnchunkAppend(a, b', width);
      assert (Unchunk(a, width) + Unchunk(b', width)) + x == Unchunk(a, width) + (Unchunk(b', width) + x);
    }
  }

  lemma UnchunkPush(values: seq<nat>, v: nat, width: nat)
    ensures Unchunk(values + [v], width) == Unchunk(values, width) + ToBits(v, width)
  {
    assert (values + [v])[..|values|] == values;
  }

  /** One more value read into a stream whose bits are split into `done` and `pending`. */
  lemma UnchunkPushPending(values: seq<nat>, done: seq<bit>, pending: seq<bit>, v: nat, width: nat)
    requires done + pending == Unchunk(values, width)
    ensures done + (pending + ToBits(v, width)) == Unchunk(values + [v], width)
  {
    var x := ToBits(v, width);
    UnchunkPush(values, v, width);
    assert done + (pending + x) == (done + pending) + x;
  }

  lemma UnchunkSingle(v: nat, width: nat)
    ensures Unchunk([v], width) == ToBits(v, width)
  {
    assert [v][..0] == [];
  }

  /** Grouping distributes over concatenation when the first part is whole groups. */
  lemma {:induction false} ChunkValuesAppend(a: seq<bit>, b: seq<bit>, width: nat, groups: nat)
    requires width > 0
    requires |a| == groups * width
    ensures ChunkValues(a + b, width) == ChunkValues(a, width) + ChunkValues(b, width)
    decreases groups
  {
    if groups == 0 {
      assert a + b == b;
    } else {
      assert |a| >= width;
      assert (a + b)[..width] == a[..width];
      assert (a + b)[width..] == a[width..] + b;
      ChunkValuesAppend(a[width..], b, width, groups - 1);
    }
  }

  lemma ChunkValuesOneGroup(bits: seq<bit>, width: nat)
    requires width > 0
    requires |bits| == width
    ensures ChunkValues(bits, width) == [BitsValue(bits)]
  {
    assert bits[..width] == bits;
  }

  lemma ChunkValuesShort(bits: seq<bit>, width: nat)
    requires 0 < width
    requires |bits| < width
    ensures ChunkValues(bits, width) == []
  {
  }

  /** Cutting the concatenated groups apart again gives back the values. */
  lemma {:induction false} ChunkValuesOfUnchunk(values: seq<nat>, width: nat)
    requires width > 0
    requires AllBelow(values, Pow2(width))
    ensures ChunkValues(Unchunk(values, width), width) == values
    decreases |values|
  {
    if values != [] {
      var front := values[..|values| - 1];
      var last := values[|values| - 1];
      var x := ToBits(last, width);
      assert Unchunk(values, width) == Unchunk(front, width) + x;
      assert last < Pow2(width);
      assert AllBelow(front, Pow2(width));
      ChunkValuesOfUnchunk(front, width);
      ChunkValuesAppend(Unchunk(front, width), x, width, |front|);
      ChunkValuesOneGroup(x, width);
      BitsValueOfToBits(last, width);
      assert ChunkValues(x, width) == [last];
      assert values == front + [last];
    }
  }

  /** An incomplete tail of fewer than `width` bits is dropped by grouping. */
  lemma ChunkValuesDropsTail(bits: seq<bit>, tail: seq<bit>, width: nat, groups: nat)
    requires width > 0
    requires |bits| == groups * width
    requires |tail| < width
    ensures ChunkValues(bits + tail, width) == ChunkValues(bits, width)
  {
    ChunkValuesAppend(bits, tail, width, groups);
    assert ChunkValues(bits, width) + [] == ChunkValues(bits, width);
  }

  /** Regrouping whole groups and concatenating them again gives back the bits. */
  lemma {:induction false} UnchunkOfChunkValues(bits: seq<bit>, width: nat, groups: nat)
    requires width > 0
    requires |bits| == groups * width
    ensures Unchunk(ChunkValues(bits, width), width) == bits
    decreases groups
  {
    if groups > 0 {
      OneGroupLess(|bits|, width, groups);
      var head := bits[..width];
      var rest := bits[width..];
      var v := BitsValue(head);
      var restValues := ChunkValues(rest, width);
      assert ChunkValues(bits, width) == [v] + restValues;
      UnchunkOfChunkValues(rest, width, groups - 1);
      UnchunkAppend([v], restValues, width);
      UnchunkSingle(v, width);
      ToBitsOfBitsValue(head);
      assert bits == head + rest;
    }
  }

  lemma OneGroupLess(n: nat, width: nat, groups: nat)
    requires width > 0 && groups > 0 && n == groups * width
    ensures n >= width && n - width == (groups - 1) * width
  {
  }

  /** Taking one more complete group off the front of the pending bits adds its value
      to the grouping of what is done. */
  lemma ChunkValuesExtend(done: seq<bit>, pending: seq<bit>, width: nat, groups: nat)
    requires width > 0
    requires |done| == groups * width
    requires |pending| >= width
    ensures ChunkValues(done + pending[..width], width) == ChunkValues(done, width) + [BitsValue(pending[..width])]
  {
    var head := pending[..width];
    ChunkValuesAppend(done, head, width, groups);
    ChunkValuesOneGroup(head, width);
  }

  /** The value of the first `width` pending bits is the quotient of the pending value
      by 2^(bits left), and the value of the bits left is the remainder. */
  lemma BitsValueTake(pending: seq<bit>, width: nat)
    requires |pending| >= width
    ensures BitsValue(pending) / Pow2(|pending| - width) == BitsValue(pending[..width])
    ensures BitsValue(pending) % Pow2(|pending| - width) == BitsValue(pending[width..])
  {
    assert pending == pending[..width] + pending[width..];
    BitsValueSplit(pending[..width], pending[width..]);
  }

  /** Moving one complete group from the pending bits to the finished ones: its value
      is the pending value divided by 2^(bits left), and the bits left keep the
      remainder. */
  lemma TakeGroup(done: seq<bit>, pending: seq<bit>, width: nat, groups: nat)
    requires width > 0
    requires |done| == groups * width
    requires |pending| >= width
    ensures 0 <= BitsValue(pending) / Pow2(|pending| - width) < Pow2(width)
    ensures ChunkValues(done + pending[..width], width) ==
            ChunkValues(done, width) + [BitsValue(pending) / Pow2(|pending| - width)]
    ensures BitsValue(pending) % Pow2(|pending| - width) == BitsValue(pending[width..])
    ensures (done + pending[..width]) + pending[width..] == done + pending
    ensures |done + pending[..width]| == (groups + 1) * width
  {
    ChunkValuesExtend(done, pending, width, groups);
    BitsValueTake(pending, width);
    BitsValueBound(pending[..width]);
    assert (done + pending[..width]) + pending[width..] == done + (pending[..width] + pending[width..]);
    assert pending[..width] + pending[width..] == pending;
  }

  /** The value of the next complete group, read off a buffer holding the pending bits:
      below 2^width and appended to the grouping of what is done. */
  lemma GroupOut(done: seq<bit>, pending: seq<bit>, width: nat, groups: nat, buffer: nat)
    requires width > 0
    requires |done| == groups * width
    requires |pending| >= width
    requires buffer == BitsValue(pending)
    ensures var x := buffer / Pow2(|pending| - width);
            && 0 <= x < Pow2(width)
            && x % Pow2(width) == x
            && ChunkValues(done + pending[..width], width) == ChunkValues(done, width) + [x]
  {
    TakeGroup(done, pending, width, groups);
    ModBelow(buffer / Pow2(|pending| - width), Pow2(width));
  }

  lemma BitsValuePush(bits: seq<bit>, v: nat, width: nat)
    requires v < Pow2(width)
    ensures BitsValue(bits + ToBits(v, width)) == BitsValue(bits) * Pow2(width) + v
  {
    BitsValueAppend(bits, ToBits(v, width));
    BitsValueOfToBits(v, width);
  }

  lemma {:induction false} ChunkValuesLength(bits: seq<bit>, width: nat, groups: nat, extra: nat)
    requires width > 0
    requires extra < width
    requires |bits| == groups * width + extra
    ensures |ChunkValues(bits, width)| == groups
    decreases groups
  {
    if groups > 0 {
      ChunkValuesLength(bits[width..], width, groups - 1, extra);
    }
  }

  lemma {:induction false} ChunkValuesBelow(bits: seq<bit>, width: nat)
    requires width > 0
    ensures AllBelow(ChunkValues(bits, width), Pow2(width))
    decreases |bits|
  {
    if |bits| >= width {
      BitsValueBound(bits[..width]);
      ChunkValuesBelow(bits[width..], width);
    }
  }

  // ---------------------------------------------------------------------------
  // Big-endian byte strings

  /** The natural number a byte string denotes, most significant byte first. */
  function BigEndianValue(bytes: seq<byte>): (v: nat)
  {
    if bytes == [] then 0 else 256 * BigEndianValue(bytes[..|bytes| - 1]) + bytes[|bytes| - 1]
  }

  function Pow256(n: nat): (r: nat)
    ensures r >= 1
  {
    if n == 0 then 1 else 256 * Pow256(n - 1)
  }

  lemma {:induction false} BigEndianValueBound(bytes: seq<byte>)
    ensures BigEndianValue(bytes) < Pow256(|bytes|)
  {
    if bytes != [] {
      BigEndianValueBound(bytes[..|bytes| - 1]);
    }
  }

  /** Two byte strings of equal length with the same big-endian value are equal. */
  lemma {:induction false} BigEndianValueInjective(a: seq<byte>, b: seq<byte>)
    requires |a| == |b|
    requires BigEndianValue(a) == BigEndianValue(b)
    ensures a == b
  {
    if a != [] {
      var n := |a|;
      DivModOfSum(BigEndianValue(a[..n - 1]), a[n - 1], 256);
      DivModOfSum(BigEndianValue(b[..n - 1]), b[n - 1], 256);
      BigEndianValueInjective(a[..n - 1], b[..n - 1]);
      assert a == a[..n - 1] + [a[n - 1]];
      assert b == b[..n - 1] + [b[n - 1]];
    }
  }

  /** The `n` low-order bytes of `v`, most significant first (PHP's `pack` with a
      big-endian format). */
  function ToBytes(v: nat, n: nat): (bytes: seq<byte>)
    ensures |bytes| == n
  {
    if n == 0 then [] else ToBytes(v / 256, n - 1) + [v % 256]
  }

  /** The big-endian value of the `n` low-order bytes of `v` is `v` modulo 256^n. */
  lemma {:induction false} BigEndianValueOfToBytes(v: nat, n: nat)
    ensures BigEndianValue(ToBytes(v, n)) == v % Pow256(n)
  {
    if n > 0 {
      var q, r := v / 256, v % 256;
      var p := Pow256(n - 1);
      BigEndianValueOfToBytes(q, n - 1);
      var bytes := ToBytes(v, n);
      assert bytes[..n - 1] == ToBytes(q, n - 1);
      assert BigEndianValue(bytes) == 256 * (q % p) + r;
      ModOfShifted(q, r, p);
    }
  }

  lemma ModOfShifted(q: nat, r: nat, p: nat)
    requires r < 256 && p >= 1
    ensures (256 * q + r) % (256 * p) == 256 * (q % p) + r
  {
    var a, b := q / p, q % p;
    assert 0 <= a;
    assert q == a * p + b;
    assert 256 * q + r == a * (256 * p) + (256 * b + r);
    MulBelow(b, p, 256);
    DivModOfSum(a, 256 * b + r, 256 * p);
  }
}
