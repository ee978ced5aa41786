/**
  Fixed-width big-endian ordinal codes (internal/encoder/general.go):
  `intToBytes` writes an integer as `width` bytes, most significant first,
  and `bytesByUniques` picks the code width for a number of distinct values.
  Bytes are integers in 0..255; Go's `bytes.Compare` is `Compare`.
*/
module ByteCodec {
  import opened Arith

  function Pow256(w: nat): (p: nat)
    ensures p >= 1
  {
    if w == 0 then 1 else 256 * Pow256(w - 1)
  }

  predicate IsBytes(bs: seq<int>)
  {
    forall i :: 0 <= i < |bs| ==> 0 <= bs[i] < 256
  }

  /** The unsigned integer a byte sequence denotes, most significant byte first. */
  function BigEndian(bs: seq<int>): int
  {
    if |bs| == 0 then 0 else bs[0] * Pow256(|bs| - 1) + BigEndian(bs[1..])
  }

  /** Go's `bytes.Compare`: lexicographic, a proper prefix comes first. */
  function Compare(a: seq<int>, b: seq<int>): (c: int)
    ensures -1 <= c <= 1
    ensures c == 0 <==> a == b
    decreases |a|
  {
    if |a| == 0 then (if |b| == 0 then 0 else -1)
    else if |b| == 0 then 1
    else if a[0] < b[0] then -1
    else if a[0] > b[0] then 1
    else
      var c := Compare(a[1..], b[1..]);
      assert c == 0 ==> a == [a[0]] + a[1..] == [b[0]] + b[1..] == b;
      c
  }

  /** `bytes.Compare(a, b) < 0` */
  predicate Less(a: seq<int>, b: seq<int>)
  {
    Compare(a, b) < 0
  }

  /** The code `intToBytes(v, w)` produces: byte k is bits 8(w-1-k)..8(w-k) of `v`
      (arithmetic shift, then the low eight bits). */
  function ToBytes(v: int, w: nat): (bs: seq<int>)
  {
    seq(w, k requires 0 <= k < w => (v / Pow256(w - 1 - k)) % 256)
  }

  /** intToBytes: fills the buffer from the last byte to the first, shifting `v`
      right by eight bits after each byte. */
  method IntToBytes(v: int, width: int) returns (buf: seq<int>)
    requires width >= 0
    ensures |buf| == width && IsBytes(buf)
    ensures buf == ToBytes(v, width)
  {
    var a := new int[width];
    var x := v;
    var i := width - 1;
    while i >= 0
      invariant -1 <= i < width
      invariant x == v / Pow256(width - 1 - i)
      invariant forall k :: i < k < width ==> a[k] == (v / Pow256(width - 1 - k)) % 256
    {
      a[i] := x % 256;
      DivDiv(v, Pow256(width - 1 - i), 256);
      assert Pow256(width - 1 - i) * 256 == Pow256(width - 1 - (i - 1));
      x := x / 256;
      i := i - 1;
    }
    buf := a[..];
  }

  // ---------------------------------------------------------------------------
  // What the codes mean

  lemma ToBytesHead(v: int, w: nat)
    requires w >= 1
    ensures ToBytes(v, w) == [(v / Pow256(w - 1)) % 256] + ToBytes(v, w - 1)
  {
  }

  lemma {:induction false} BigEndianRange(bs: seq<int>)
    requires IsBytes(bs)
    ensures 0 <= BigEndian(bs) < Pow256(|bs|)
  {
    if |bs| > 0 {
      BigEndianRange(bs[1..]);
      MulMono(Pow256(|bs| - 1), bs[0], 255);
      MulMono(Pow256(|bs| - 1), 0, bs[0]);
    }
  }

  /** Reading the code back gives `v` modulo the code's capacity. */
  lemma {:induction false} BigEndianOfToBytes(v: int, w: nat)
    ensures BigEndian(ToBytes(v, w)) == v % Pow256(w)
  {
    if w > 0 {
      ToBytesHead(v, w);
      var bs := ToBytes(v, w);
      assert bs[1..] == ToBytes(v, w - 1);
      BigEndianOfToBytes(v, w - 1);
      ModSplit(v, Pow256(w - 1));
    }
  }

  /** A smaller leading digit decides, whatever the lower digits are. */
  lemma LeadingDigit(x: int, y: int, p: int, r: int, s: int)
    requires p > 0 && 0 <= r < p && 0 <= s < p && x < y
    ensures x * p + r < y * p + s
  {
    MulMono(p, x + 1, y);
    assert p * (x + 1) == x * p + p;
    assert p * y == y * p;
  }

  /** For codes of one width, `bytes.Compare` orders them as the integers they denote. */
  lemma {:induction false} CompareIsNumeric(a: seq<int>, b: seq<int>)
    requires |a| == |b| && IsBytes(a) && IsBytes(b)
    ensures Less(a, b) <==> BigEndian(a) < BigEndian(b)
  {
    if |a| > 0 {
      var p := Pow256(|a| - 1);
      var ra, rb := BigEndian(a[1..]), BigEndian(b[1..]);
      assert BigEndian(a) == a[0] * p + ra;
      assert BigEndian(b) == b[0] * p + rb;
      BigEndianRange(a[1..]);
      BigEndianRange(b[1..]);
      if a[0] < b[0] {
        LeadingDigit(a[0], b[0], p, ra, rb);
      } else if a[0] > b[0] {
        LeadingDigit(b[0], a[0], p, rb, ra);
      } else {
        CompareIsNumeric(a[1..], b[1..]);
      }
    }
  }

  /** Equal-width codes denoting the same integer are the same code. */
  lemma BigEndianInjective(a: seq<int>, b: seq<int>)
    requires |a| == |b| && IsBytes(a) && IsBytes(b)
    ensures a == b <==> BigEndian(a) == BigEndian(b)
  {
    CompareIsNumeric(a, b);
    CompareIsNumeric(b, a);
    CompareFlip(a, b);
  }

  /** `intToBytes` and the big-endian reading are inverse on in-range values. */
  lemma CodeRoundTrip(v: int, w: nat)
    requires 0 <= v < Pow256(w)
    ensures IsBytes(ToBytes(v, w)) && BigEndian(ToBytes(v, w)) == v
  {
    BigEndianOfToBytes(v, w);
    DivUnique(v, Pow256(w), 0, v);
  }

  lemma BytesRoundTrip(bs: seq<int>)
    requires IsBytes(bs)
    ensures ToBytes(BigEndian(bs), |bs|) == bs
  {
    BigEndianRange(bs);
    CodeRoundTrip(BigEndian(bs), |bs|);
    BigEndianInjective(ToBytes(BigEndian(bs), |bs|), bs);
  }

  /** Order preservation: smaller ordinals get byte-wise smaller codes. */
  lemma CodeOrder(i: int, j: int, w: nat)
    requires 0 <= i < j < Pow256(w)
    ensures Less(ToBytes(i, w), ToBytes(j, w))
  {
    CodeRoundTrip(i, w);
    CodeRoundTrip(j, w);
    CompareIsNumeric(ToBytes(i, w), ToBytes(j, w));
  }

  /** A one-byte code is the value itself. */
  lemma OneByte(v: int)
    requires 0 <= v < 256
    ensures ToBytes(v, 1) == [v]
  {
    assert ToBytes(v, 1)[0] == (v / Pow256(0)) % 256;
  }

  lemma CodeExamples()
    ensures ToBytes(150, 1) == [150]
    ensures ToBytes(255, 1) == [255]
    ensures ToBytes(0, 1) == [0]
    ensures ToBytes(4104, 2) == [16, 8]
    ensures ToBytes(4104 + 65536 + 131072 + 8388608, 3) == [131, 16, 8]
  {
    OneByte(150);
    OneByte(255);
    OneByte(0);
    assert Pow256(1) == 256 && Pow256(2) == 65536;
    var c := ToBytes(8589320, 3);
    assert c[0] == (8589320 / 65536) % 256 == 131;
    assert c[1] == (8589320 / 256) % 256 == 16;
    assert c[2] == 8589320 % 256 == 8;
    var d := ToBytes(4104, 2);
    assert d[0] == (4104 / 256) % 256 == 16;
    assert d[1] == 4104 % 256 == 8;
  }

  // ---------------------------------------------------------------------------
  // Lexicographic order as a strict total order

  lemma {:induction false} CompareFlip(a: seq<int>, b: seq<int>)
    ensures Compare(a, b) == -Compare(b, a)
    decreases |a|
  {
    if |a| > 0 && |b| > 0 && a[0] == b[0] {
      CompareFlip(a[1..], b[1..]);
    }
  }

  lemma {:induction false} LessTransitive(a: seq<int>, b: seq<int>, c: seq<int>)
    requires Less(a, b) && Less(b, c)
    ensures Less(a, c)
    decreases |a|
  {
    if |a| > 0 && |b| > 0 && |c| > 0 && a[0] == b[0] == c[0] {
      LessTransitive(a[1..], b[1..], c[1..]);
    }
  }

  // ---------------------------------------------------------------------------
  // bytesByUniques

  /** The loop of bytesByUniques from a state (`uniques`, `mod`, `i`). */
  function WidthFrom(uniques: int, mod: int, i: nat): nat
    requires uniques >= 1
    decreases uniques
  {
    if uniques < 256 || (uniques == 256 && mod == 0) then i
    else WidthFrom(uniques / 256, uniques % 256, i + 1)
  }

  /** What bytesByUniques(n) returns. */
  function WidthOf(n: int): nat
  {
    if n <= 0 then 0 else WidthFrom(n, 0, 1)
  }

  /** bytesByUniques: divides `uniques` by 256, keeping the latest remainder in
      `mod`, until it is below 256, or exactly 256 with a zero `mod`. */
  method BytesByUniques(uniques: int) returns (w: int)
    ensures w == WidthOf(uniques)
  {
    if uniques <= 0 {
      return 0;
    }
    var u, mod, i := uniques, 0, 1;
    while true
      invariant u >= 1 && i >= 1
      invariant WidthFrom(u, mod, i) == WidthOf(uniques)
      decreases u
    {
      if u < 256 || (u == 256 && mod == 0) {
        return i;
      }
      u, mod := u / 256, u % 256;
      i := i + 1;
    }
  }

  lemma Pow256Grows(k: nat)
    requires k >= 1
    ensures Pow256(k) >= 256
  {
  }

  /** Loop exit on `uniques < 256`: the remaining ordinals fit one more byte. */
  lemma StopBelow256(n: int, p: int, u: int)
    requires n >= 0 && p > 0 && u == n / p && u < 256
    ensures n < 256 * p
  {
    assert n == p * u + n % p;
    MulMono(p, u, 255);
  }

  /** Loop exit on `uniques == 256 && mod == 0`: the top two digits read 256, 0. */
  lemma StopAt256(n: int, p2: int)
    requires n >= 0 && p2 > 0
    requires n / (256 * p2) == 256 && (n / p2) % 256 == 0
    ensures n < 65536 * p2 + p2
  {
    var q := n / p2;
    DivDiv(n, p2, 256);
    assert p2 * 256 == 256 * p2;
    assert q == 256 * (q / 256) + q % 256;
    assert q == 65536;
    assert n == p2 * q + n % p2;
  }

  /** Loop continues on `uniques == 256 && mod != 0`: more than 256 * p ordinals. */
  lemma ContinueAt256(n: int, p2: int)
    requires n >= 0 && p2 > 0
    requires n / (256 * p2) == 256 && (n / p2) % 256 != 0
    ensures n > 65536 * p2
  {
    var q := n / p2;
    DivDiv(n, p2, 256);
    assert p2 * 256 == 256 * p2;
    assert q == 256 * (q / 256) + q % 256;
    assert q >= 65537;
    assert n == p2 * q + n % p2;
    MulMono(p2, 65537, q);
  }

  lemma ContinueAbove256(n: int, p: int, u: int)
    requires n >= 0 && p > 0 && u == n / p && u >= 257
    ensures n > 256 * p
  {
    assert n == p * u + n % p;
    MulMono(p, 257, u);
  }

  lemma {:induction false} WidthFromBounds(n: int, u: int, mod: int, i: nat)
    requires n >= 1 && i >= 1 && u >= 1
    requires u == n / Pow256(i - 1)
    requires i == 1 ==> mod == 0
    requires i >= 2 ==> mod == (n / Pow256(i - 2)) % 256 && Pow256(i - 1) < n
    ensures WidthFrom(u, mod, i) >= i
    ensures WidthFits(n, WidthFrom(u, mod, i))
    decreases u
  {
    var p := Pow256(i - 1);
    assert Pow256(i) == 256 * p;
    if u < 256 {
      StopBelow256(n, p, u);
      assert WidthFrom(u, mod, i) == i;
    } else if u == 256 && mod == 0 {
      if i >= 2 {
        assert p == 256 * Pow256(i - 2);
        StopAt256(n, Pow256(i - 2));
        assert Pow256(i) == 65536 * Pow256(i - 2);
      }
      assert WidthFrom(u, mod, i) == i;
    } else {
      if u >= 257 {
        ContinueAbove256(n, p, u);
      } else {
        assert p == 256 * Pow256(i - 2);
        ContinueAt256(n, Pow256(i - 2));
      }
      DivDiv(n, p, 256);
      assert p * 256 == Pow256(i);
      WidthFromBounds(n, u / 256, u % 256, i + 1);
      assert WidthFrom(u, mod, i) == WidthFrom(u / 256, u % 256, i + 1);
    }
  }

  /** Width `w` is never wider than needed for `n` codes, and enough for them
      except inside the window 256^w < n < 256^w + 256^(w-2). */
  predicate WidthFits(n: int, w: nat)
  {
    (w == 1 || (w >= 1 && Pow256(w - 1) < n)) &&
    (n <= Pow256(w) || (w >= 3 && n < Pow256(w) + Pow256(w - 2)))
  }

  /** The width bytesByUniques picks: 0 for no values; otherwise at least 1, never
      wider than needed, and enough for `n` codes except inside the window
      256^w < n < 256^w + 256^(w-2), where it comes out one byte short. */
  lemma WidthBounds(n: int)
    ensures n <= 0 ==> WidthOf(n) == 0
    ensures n >= 1 ==> WidthOf(n) >= 1
    ensures n >= 1 ==> var w := WidthOf(n);
      (w == 1 || Pow256(w - 1) < n) &&
      (n <= Pow256(w) || (w >= 3 && n < Pow256(w) + Pow256(w - 2)))
  {
    if n >= 1 {
      WidthFromBounds(n, n, 0, 1);
    }
  }

  /** The loop never ends before step i. */
  lemma WidthFromAtLeast(u: int, mod: int, i: nat)
    requires u >= 1
    ensures WidthFrom(u, mod, i) >= i
    decreases u
  {
    if !(u < 256 || (u == 256 && mod == 0)) {
      WidthFromAtLeast(u / 256, u % 256, i + 1);
    }
  }

  /** A state of the loop that is no larger, ordering by the remaining quotient and
      then by the latest remainder, stops no later. */
  lemma {:induction false} WidthFromMono(u1: int, m1: int, u2: int, m2: int, i: nat)
    requires 1 <= u1 <= u2 && 0 <= m1 && (u1 < u2 || m1 <= m2)
    ensures WidthFrom(u1, m1, i) <= WidthFrom(u2, m2, i)
    decreases u2
  {
    if u1 < 256 || (u1 == 256 && m1 == 0) {
      WidthFromAtLeast(u2, m2, i);
    } else {
      assert !(u2 < 256 || (u2 == 256 && m2 == 0));
      WidthFromMono(u1 / 256, u1 % 256, u2 / 256, u2 % 256, i + 1);
    }
  }

  /** More distinct values never get a narrower width. */
  lemma WidthMonotone(a: int, b: int)
    requires a <= b
    ensures WidthOf(a) <= WidthOf(b)
  {
    if a >= 1 {
      WidthFromMono(a, 0, b, 0, 1);
    }
  }

  /** One byte exactly for 1..256 distinct values, two or more from 257 on. */
  lemma WidthOneByte(n: int)
    requires n >= 1
    ensures WidthOf(n) == 1 <==> n <= 256
    ensures n >= 257 ==> WidthOf(n) >= 2
  {
    WidthBounds(n);
    var w := WidthOf(n);
    if w >= 2 {
      Pow256Grows(w - 1);
    }
    if w >= 3 {
      Pow256Grows(w - 2);
    }
  }

  /** Up to 256^3 values the width is the smallest with room for every ordinal. */
  lemma WidthMinimalUpTo3Bytes(n: int)
    requires 1 <= n <= Pow256(3)
    ensures n <= Pow256(WidthOf(n))
    ensures WidthOf(n) == 1 || Pow256(WidthOf(n) - 1) < n
  {
    WidthBounds(n);
    var w := WidthOf(n);
    if w >= 3 {
      PowMono(3, w);
    }
  }

  lemma {:induction false} PowMono(a: nat, b: nat)
    requires a <= b
    ensures Pow256(a) <= Pow256(b)
    decreases b
  {
    if a < b {
      PowMono(a, b - 1);
    }
  }

  /** 256^3 + 1 distinct values get a 3-byte width, which holds only 256^3 codes. */
  lemma WidthShortAt16777217()
    ensures WidthOf(Pow256(3) + 1) == 3
    ensures Pow256(WidthOf(Pow256(3) + 1)) < Pow256(3) + 1
  {
    assert Pow256(3) == 16777216;
    assert WidthFrom(16777217, 0, 1) == WidthFrom(65536, 1, 2) == WidthFrom(256, 0, 3) == 3;
  }

  lemma WidthExamples()
    ensures WidthOf(0) == 0 && WidthOf(1) == 1
    ensures WidthOf(256) == 1 && WidthOf(257) == 2
    ensures WidthOf(65536) == 2 && WidthOf(65537) == 3
  {
    assert WidthFrom(257, 0, 1) == WidthFrom(1, 1, 2) == 2;
    assert WidthFrom(65536, 0, 1) == WidthFrom(256, 0, 2) == 2;
    assert WidthFrom(65537, 0, 1) == WidthFrom(256, 1, 2) == WidthFrom(1, 0, 3) == 3;
  }
}
