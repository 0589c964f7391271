/**
 * CombGenerator.GenerateComb: a GUID whose last six bytes are a big-endian
 * time stamp (days since 1900-01-01, then the time of day in units of
 * 1/300 s), so that identifiers sort by creation time.
 *
 * The random GUID, the day count and the scaled tick count are inputs; the
 * byte conversion assumes a little-endian `BitConverter`.
 */
module Comb {
  import opened Entities

  // ---------------------------------------------------------------------------
  // Byte strings
  // ---------------------------------------------------------------------------

  /**
   * `BitConverter.GetBytes` of an n-byte integer: its two's complement bytes,
   * least significant first. Dafny's `%` and `/` are Euclidean, so `x % 256` is
   * the low byte and `x / 256` the arithmetic shift for negative `x` as well.
   */
  function LittleEndian(x: int, n: nat): (bytes: seq<Byte>)
    ensures |bytes| == n
    decreases n
  {
    if n == 0 then [] else [x % 256] + LittleEndian(x / 256, n - 1)
  }

  /** Reading the n bytes back, least significant first, gives x modulo 256^n. */
  lemma {:induction false} LittleEndianRoundTrip(x: int, n: nat)
    ensures LittleEndianValue(LittleEndian(x, n)) == x % Pow256(n)
    decreases n
  {
    if n > 0 {
      var rest := LittleEndian(x / 256, n - 1);
      LittleEndianRoundTrip(x / 256, n - 1);
      assert LittleEndian(x, n)[1..] == rest;
      ModSplit(x, Pow256(n - 1));
    }
  }

  /** The number a byte string denotes when read least significant byte first. */
  function LittleEndianValue(s: seq<Byte>): nat
  {
    if s == [] then 0 else s[0] + 256 * LittleEndianValue(s[1..])
  }

  /** Euclidean remainder by 256 * b, split into the low byte and the rest. */
  lemma ModSplit(x: int, b: nat)
    requires b >= 1
    ensures x % (256 * b) == x % 256 + 256 * ((x / 256) % b)
  {
    var q, r := x / 256, x % 256;
    var low := r + 256 * (q % b);
    assert x == (256 * b) * (q / b) + low by {
      assert q == b * (q / b) + q % b;
      assert x == 256 * q + r;
    }
    assert 0 <= low < 256 * b by {
      assert q % b <= b - 1;
      assert 256 * (q % b) <= 256 * (b - 1);
    }
    DivModUnique(x, 256 * b, q / b, low);
  }

  lemma DivModUnique(x: int, d: int, q: int, r: int)
    requires 0 <= r < d && x == q * d + r
    ensures x % d == r
  {
    var q', r' := x / d, x % d;
    var k := q - q';
    assert k * d == r' - r by {
      assert x == q' * d + r';
      assert k * d == q * d - q' * d;
    }
    if k >= 1 {
      MulAtLeast(k, d);
    } else if k <= -1 {
      MulAtLeast(-k, d);
    }
  }

  lemma MulAtLeast(k: int, d: int)
    requires k >= 1 && d >= 1
    ensures k * d >= d
  {}

  function Reversed(s: seq<Byte>): (r: seq<Byte>)
    ensures |r| == |s|
    ensures forall i :: 0 <= i < |s| ==> r[i] == s[|s| - 1 - i]
  {
    seq(|s|, i requires 0 <= i < |s| => s[|s| - 1 - i])
  }

  function Pow256(n: nat): (p: nat)
    ensures p >= 1
  {
    if n == 0 then 1 else 256 * Pow256(n - 1)
  }

  /** The number a byte string denotes when read most significant byte first. */
  function BigEndianValue(s: seq<Byte>): nat
  {
    if s == [] then 0 else s[0] * Pow256(|s| - 1) + BigEndianValue(s[1..])
  }

  /** Byte-wise (memcmp) order on byte strings of equal length. */
  predicate LexLess(a: seq<Byte>, b: seq<Byte>)
    requires |a| == |b|
  {
    |a| > 0 && (a[0] < b[0] || (a[0] == b[0] && LexLess(a[1..], b[1..])))
  }

  // ---------------------------------------------------------------------------
  // The generator
  // ---------------------------------------------------------------------------

  /**
   * The identifier GenerateComb returns: bytes 0..9 of the random GUID, then
   * the last two bytes of the reversed day count and the last four bytes of
   * the reversed tick count.
   */
  function CombLayout(random: Guid, days: int, ticks: int): (comb: Guid)
    ensures comb[..10] == random[..10]
    ensures BigEndianValue(comb[10..12]) == days % 0x1_0000
    ensures BigEndianValue(comb[12..]) == ticks % 0x1_0000_0000
  {
    var dayField := Reversed(LittleEndian(days, 4))[2..];
    var tickField := Reversed(LittleEndian(ticks, 8))[4..];
    DayBytes(days);
    TickBytes(ticks);
    var comb := random[..10] + dayField + tickField;
    assert comb[10..12] == dayField && comb[12..] == tickField;
    comb
  }

  /** `BitConverter.GetBytes`: a fresh array holding the n-byte little-endian form of x. */
  method GetBytes(x: int, n: nat) returns (bytes: array<Byte>)
    ensures fresh(bytes) && bytes[..] == LittleEndian(x, n)
  {
    bytes := new Byte[n];
    var rest, k := x, 0;
    while k < n
      invariant 0 <= k <= n
      invariant bytes[..k] + LittleEndian(rest, n - k) == LittleEndian(x, n)
    {
      bytes[k] := rest % 256;
      assert bytes[..k + 1] == bytes[..k] + [rest % 256];
      rest, k := rest / 256, k + 1;
    }
    assert bytes[..] == bytes[..n];
  }

  /** `Array.Reverse`: reverses the array in place. */
  method Reverse(a: array<Byte>)
    modifies a
    ensures a[..] == Reversed(old(a[..]))
  {
    var n, i := a.Length, 0;
    while i < n / 2
      invariant 0 <= i <= n / 2
      invariant forall k :: 0 <= k < i ==> a[k] == old(a[n - 1 - k]) && a[n - 1 - k] == old(a[k])
      invariant forall k :: i <= k < n - i ==> a[k] == old(a[k])
    {
      a[i], a[n - 1 - i] := a[n - 1 - i], a[i];
      i := i + 1;
    }
  }

  /** `Array.Copy(src, srcIndex, dst, dstIndex, length)` between two distinct arrays. */
  method Copy(src: array<Byte>, srcIndex: nat, dst: array<Byte>, dstIndex: nat, length: nat)
    requires src != dst
    requires srcIndex + length <= src.Length && dstIndex + length <= dst.Length
    modifies dst
    ensures dst[..] == old(dst[..dstIndex]) + src[srcIndex..srcIndex + length] + old(dst[dstIndex + length..])
  {
    var k := 0;
    while k < length
      invariant 0 <= k <= length
      invariant dst[..dstIndex] == old(dst[..dstIndex])
      invariant dst[dstIndex..dstIndex + k] == src[srcIndex..srcIndex + k]
      invariant dst[dstIndex + k..] == old(dst[dstIndex + k..])
    {
      dst[dstIndex + k] := src[srcIndex + k];
      k := k + 1;
    }
    assert dst[..] == dst[..dstIndex] + dst[dstIndex..dstIndex + length] + dst[dstIndex + length..];
  }

  /**
   * GenerateComb with the random GUID and the two clock readings as inputs:
   * keeps the first ten random bytes and stores the low 16 bits of the day
   * count and the low 32 bits of the tick count, most significant byte first.
   */
  method GenerateComb(random: Guid, days: int, ticks: int) returns (comb: Guid)
    ensures comb == CombLayout(random, days, ticks)
    ensures comb[..10] == random[..10]
    ensures BigEndianValue(comb[10..12]) == days % 0x1_0000
    ensures BigEndianValue(comb[12..]) == ticks % 0x1_0000_0000
  {
    var guidArray := new Byte[16](i requires 0 <= i < 16 => random[i]);
    var daysArray := GetBytes(days, 4);
    var msecsArray := GetBytes(ticks, 8);
    Reverse(daysArray);
    Reverse(msecsArray);
    ghost var dayField := daysArray[2..];
    ghost var tickField := msecsArray[4..];
    Copy(daysArray, daysArray.Length - 2, guidArray, guidArray.Length - 6, 2);
    assert guidArray[..] == random[..10] + dayField + random[12..];
    Copy(msecsArray, msecsArray.Length - 4, guidArray, guidArray.Length - 4, 4);
    assert guidArray[..] == random[..10] + dayField + tickField;
    comb := guidArray[..];
    assert dayField == Reversed(LittleEndian(days, 4))[2..];
    assert tickField == Reversed(LittleEndian(ticks, 8))[4..];
  }

  // ---------------------------------------------------------------------------
  // Properties of the layout
  // ---------------------------------------------------------------------------

  /** The two low bytes of the day count decode to the day count modulo 2^16. */
  lemma DayBytes(days: int)
    ensures BigEndianValue(Reversed(LittleEndian(days, 4))[2..]) == days % 0x1_0000
  {
    var q1 := days / 256;
    var le := LittleEndian(days, 4);
    assert LittleEndian(q1 / 256, 2)[0] == (q1 / 256) % 256;
    assert le[..2] == [days % 256, q1 % 256];
    var s := Reversed(le)[2..];
    assert s == [q1 % 256, days % 256];
    assert BigEndianValue(s) == (q1 % 256) * 256 + days % 256 by {
      assert BigEndianValue(s[1..]) == days % 256;
    }
    SplitLowByte16(days);
  }

  /** The four low bytes of the tick count decode to the tick count modulo 2^32. */
  lemma TickBytes(ticks: int)
    ensures BigEndianValue(Reversed(LittleEndian(ticks, 8))[4..]) == ticks % 0x1_0000_0000
  {
    var q1 := ticks / 256;
    var q2 := q1 / 256;
    var q3 := q2 / 256;
    var s := Reversed(LittleEndian(ticks, 8))[4..];
    LowFourBytes(ticks);
    assert BigEndianValue(s) == (q3 % 256) * 0x100_0000 + (q2 % 256) * 0x1_0000 + (q1 % 256) * 0x100 + ticks % 256 by {
      assert BigEndianValue(s[3..]) == ticks % 256;
      assert BigEndianValue(s[2..]) == (q1 % 256) * 0x100 + ticks % 256;
      assert BigEndianValue(s[1..]) == (q2 % 256) * 0x1_0000 + (q1 % 256) * 0x100 + ticks % 256;
    }
    SplitLowByte32(ticks);
    SplitLowByte24(q1);
    SplitLowByte16(q2);
  }

  lemma LowFourBytes(x: int)
    ensures Reversed(LittleEndian(x, 8))[4..] == [x / 256 / 256 / 256 % 256, x / 256 / 256 % 256, x / 256 % 256, x % 256]
  {
    var le := LittleEndian(x, 8);
    assert LittleEndian(x / 256 / 256 / 256, 5)[0] == x / 256 / 256 / 256 % 256;
    assert LittleEndian(x / 256 / 256, 6)[0] == x / 256 / 256 % 256;
    assert LittleEndian(x / 256, 7)[0] == x / 256 % 256;
    assert le[..4] == [x % 256, x / 256 % 256, x / 256 / 256 % 256, x / 256 / 256 / 256 % 256];
  }

  lemma SplitLowByte16(x: int)
    ensures x % 0x1_0000 == x % 256 + 256 * ((x / 256) % 256)
  {}

  lemma SplitLowByte24(x: int)
    ensures x % 0x100_0000 == x % 256 + 256 * ((x / 256) % 0x1_0000)
  {}

  lemma SplitLowByte32(x: int)
    ensures x % 0x1_0000_0000 == x % 256 + 256 * ((x / 256) % 0x100_0000)
  {}

  /**
   * Ordering: identifiers whose (day, tick) stamps are ordered compare the
   * same way byte by byte over their last six bytes, and conversely.
   */
  lemma CombOrdering(random1: Guid, days1: int, ticks1: int, random2: Guid, days2: int, ticks2: int)
    requires 0 <= days1 < 0x1_0000 && 0 <= days2 < 0x1_0000
    requires 0 <= ticks1 < 0x1_0000_0000 && 0 <= ticks2 < 0x1_0000_0000
    ensures LexLess(CombLayout(random1, days1, ticks1)[10..], CombLayout(random2, days2, ticks2)[10..])
        <==> days1 < days2 || (days1 == days2 && ticks1 < ticks2)
  {
    StampValueInRange(random1, days1, ticks1);
    StampValueInRange(random2, days2, ticks2);
    StampOrder(CombLayout(random1, days1, ticks1)[10..], days1, ticks1,
               CombLayout(random2, days2, ticks2)[10..], days2, ticks2);
  }

  lemma StampValueInRange(random: Guid, days: int, ticks: int)
    requires 0 <= days < 0x1_0000 && 0 <= ticks < 0x1_0000_0000
    ensures BigEndianValue(CombLayout(random, days, ticks)[10..]) == days * 0x1_0000_0000 + ticks
  {
    StampValue(random, days, ticks);
    assert days % 0x1_0000 == days && ticks % 0x1_0000_0000 == ticks;
  }

  lemma StampOrder(stamp1: seq<Byte>, days1: int, ticks1: int, stamp2: seq<Byte>, days2: int, ticks2: int)
    requires |stamp1| == |stamp2|
    requires 0 <= days1 < 0x1_0000 && 0 <= days2 < 0x1_0000
    requires 0 <= ticks1 < 0x1_0000_0000 && 0 <= ticks2 < 0x1_0000_0000
    requires BigEndianValue(stamp1) == days1 * 0x1_0000_0000 + ticks1
    requires BigEndianValue(stamp2) == days2 * 0x1_0000_0000 + ticks2
    ensures LexLess(stamp1, stamp2) <==> days1 < days2 || (days1 == days2 && ticks1 < ticks2)
  {
    LexLessIffValueLess(stamp1, stamp2);
  }

  /** The last six bytes, read big-endian, are days * 2^32 + ticks (both reduced). */
  lemma StampValue(random: Guid, days: int, ticks: int)
    ensures BigEndianValue(CombLayout(random, days, ticks)[10..])
         == (days % 0x1_0000) * 0x1_0000_0000 + ticks % 0x1_0000_0000
  {
    var c := CombLayout(random, days, ticks);
    assert c[10..] == c[10..12] + c[12..];
    BigEndianValueAppend(c[10..12], c[12..]);
    assert Pow256(4) == 0x1_0000_0000;
  }

  /**
   * Only the low 16 bits of the day count and the low 32 bits of the tick
   * count reach the identifier: two identifiers built from the same random
   * bytes are equal exactly when those bits agree.
   */
  lemma CombKeepsOnlyLowBits(random: Guid, days1: int, ticks1: int, days2: int, ticks2: int)
    ensures CombLayout(random, days1, ticks1) == CombLayout(random, days2, ticks2)
        <==> days1 % 0x1_0000 == days2 % 0x1_0000 && ticks1 % 0x1_0000_0000 == ticks2 % 0x1_0000_0000
  {
    var c1, c2 := CombLayout(random, days1, ticks1), CombLayout(random, days2, ticks2);
    if days1 % 0x1_0000 == days2 % 0x1_0000 && ticks1 % 0x1_0000_0000 == ticks2 % 0x1_0000_0000 {
      BigEndianValueInjective(c1[10..12], c2[10..12]);
      BigEndianValueInjective(c1[12..], c2[12..]);
      assert c1 == c1[..10] + c1[10..12] + c1[12..];
      assert c2 == c2[..10] + c2[10..12] + c2[12..];
    }
  }

  // ---------------------------------------------------------------------------
  // Big-endian values and byte-wise order
  // ---------------------------------------------------------------------------

  lemma {:induction false} Pow256Add(m: nat, n: nat)
    ensures Pow256(m + n) == Pow256(m) * Pow256(n)
    decreases m
  {
    if m > 0 {
      Pow256Add(m - 1, n);
    }
  }

  lemma {:induction false} BigEndianValueBound(s: seq<Byte>)
    ensures BigEndianValue(s) < Pow256(|s|)
    decreases |s|
  {
    if s != [] {
      BigEndianValueBound(s[1..]);
      var p := Pow256(|s| - 1);
      MulMonotone(s[0], 255, p);
    }
  }

  lemma {:induction false} BigEndianValueAppend(a: seq<Byte>, b: seq<Byte>)
    ensures BigEndianValue(a + b) == BigEndianValue(a) * Pow256(|b|) + BigEndianValue(b)
    decreases |a|
  {
    if a == [] {
      assert a + b == b;
    } else {
      assert (a + b)[1..] == a[1..] + b;
      BigEndianValueAppend(a[1..], b);
      Pow256Add(|a| - 1, |b|);
      LeadingByteScaled(a[0], Pow256(|a| - 1), Pow256(|b|), BigEndianValue(a[1..]));
    }
  }

  /** Byte-wise order on equal-length strings is the order of their big-endian values. */
  lemma {:induction false} LexLessIffValueLess(a: seq<Byte>, b: seq<Byte>)
    requires |a| == |b|
    ensures LexLess(a, b) <==> BigEndianValue(a) < BigEndianValue(b)
    decreases |a|
  {
    if a != [] {
      var p, u, v := Pow256(|a| - 1), BigEndianValue(a[1..]), BigEndianValue(b[1..]);
      assert BigEndianValue(a) == a[0] * p + u;
      assert BigEndianValue(b) == b[0] * p + v;
      BigEndianValueBound(a[1..]);
      BigEndianValueBound(b[1..]);
      LexLessIffValueLess(a[1..], b[1..]);
      if a[0] < b[0] {
        LeadingByteDominates(a[0], b[0], p, u, v);
      } else if a[0] > b[0] {
        LeadingByteDominates(b[0], a[0], p, v, u);
      }
    }
  }

  lemma MulMonotone(x: int, y: int, p: nat)
    requires x <= y
    ensures x * p <= y * p
  {}

  lemma LeadingByteDominates(x: int, y: int, p: int, u: int, v: int)
    requires x < y && 0 <= u < p && 0 <= v
    ensures x * p + u < y * p + v
  {
    MulMonotone(x + 1, y, p);
  }

  lemma LeadingByteScaled(x: int, p: int, q: int, v: int)
    ensures x * (p * q) + v * q == (x * p + v) * q
  {}

  lemma {:induction false} BigEndianValueInjective(a: seq<Byte>, b: seq<Byte>)
    requires |a| == |b| && BigEndianValue(a) == BigEndianValue(b)
    ensures a == b
    decreases |a|
  {
    if a != [] {
      LexLessIffValueLess(a, b);
      LexLessIffValueLess(b, a);
      assert a[0] == b[0];
      BigEndianValueInjective(a[1..], b[1..]);
      assert a == [a[0]] + a[1..];
      assert b == [b[0]] + b[1..];
    }
  }
}
