/** Byte strings: little-endian fixed-width integers and the lexicographic key order. */
module Bytes {

  type byte = b: int | 0 <= b < 256

  type Bytes = seq<byte>

  datatype Option<+T> = None | Some(value: T)

  const U16_LIMIT: int := 0x1_0000
  const U64_LIMIT: int := 0x1_0000_0000_0000_0000

  // ---------------------------------------------------------------- integers

  /** binary.LittleEndian.Uint16 of the two bytes at an offset. */
  function U16(s: Bytes, at: nat): (n: nat)
    requires at + 2 <= |s|
    ensures n < U16_LIMIT
  {
    (s[at] as int) + 256 * (s[at + 1] as int)
  }

  /** binary.LittleEndian.AppendUint16 of uint16(n): the value is truncated to 16 bits. */
  function EncodeU16(n: nat): (s: Bytes)
    ensures |s| == 2
    ensures U16(s, 0) == n % U16_LIMIT
  {
    [n % 256, n / 256 % 256]
  }

  /** The low `width` bytes of n, least significant first. */
  function EncodeLE(n: nat, width: nat): (s: Bytes)
    ensures |s| == width
    decreases width
  {
    if width == 0 then [] else [n % 256] + EncodeLE(n / 256, width - 1)
  }

  /** The number whose bytes are s, least significant first. */
  function DecodeLE(s: Bytes): (n: nat)
    decreases |s|
  {
    if s == [] then 0 else s[0] + 256 * DecodeLE(s[1..])
  }

  function Pow256(width: nat): (p: nat)
    ensures p > 0
  {
    if width == 0 then 1 else 256 * Pow256(width - 1)
  }

  /** Writing a number and reading it back keeps the part that fits in the width. */
  lemma {:induction false} DecodeEncodeLE(n: nat, width: nat)
    requires n < Pow256(width)
    ensures DecodeLE(EncodeLE(n, width)) == n
    decreases width
  {
    if width > 0 {
      DecodeEncodeLE(n / 256, width - 1);
      var s := EncodeLE(n, width);
      assert s[1..] == EncodeLE(n / 256, width - 1);
    }
  }

  /** Reading bytes as a number and writing it back gives the bytes. */
  lemma {:induction false} EncodeDecodeLE(s: Bytes)
    ensures EncodeLE(DecodeLE(s), |s|) == s
    decreases |s|
  {
    if s != [] {
      EncodeDecodeLE(s[1..]);
      var rest := DecodeLE(s[1..]);
      assert (s[0] + 256 * rest) % 256 == s[0] && (s[0] + 256 * rest) / 256 == rest;
      assert s == [s[0]] + s[1..];
    }
  }

  lemma {:induction false} DivTwice(n: nat, p: nat, d: nat)
    requires p > 0 && d == 256 * p
    ensures n / 256 / p == n / d
  {
    var q, r := DivMod(n, d);
    DivBoth(n, d, p, q, r, n / 256);
  }

  lemma {:induction false} DivBoth(n: nat, d: nat, p: nat, q: nat, r: nat, m: nat)
    requires d == 256 * p && n == d * q + r && r < d && m == n / 256
    ensures m / p == q
  {
    Regroup(p, q);
    DivPart(n, p * q, r, p);
    DivExact(q, p, r / 256);
  }

  lemma {:induction false} DivMod(n: nat, d: nat) returns (q: nat, r: nat)
    requires d > 0
    ensures q == n / d && n == d * q + r && r < d
  {
    q, r := n / d, n % d;
  }

  lemma {:induction false} Regroup(p: nat, q: nat)
    ensures 256 * p * q == 256 * (p * q)
  {
  }

  lemma {:induction false} DivPart(n: nat, z: nat, r: nat, p: nat)
    requires n == 256 * z + r && r < 256 * p
    ensures n / 256 == z + r / 256 && r / 256 < p
  {
  }

  lemma {:induction false} DivExact(q: nat, p: nat, r: nat)
    requires r < p
    ensures (p * q + r) / p == q
  {
    var x := p * q + r;
    QuotientUnique(p, x / p, x % p, q, r);
  }

  lemma {:induction false} QuotientUnique(p: nat, d: int, e: int, q: int, r: int)
    requires p * d + e == p * q + r && 0 <= e < p && 0 <= r < p
    ensures d == q
  {
    assert p * (d - q) == r - e;
    if d > q {
      Multiple(p, d - q);
    } else if d < q {
      assert p * (q - d) == e - r;
      Multiple(p, q - d);
    }
  }

  lemma {:induction false} Multiple(p: nat, k: int)
    requires k >= 1
    ensures p * k >= p
  {
  }

  /** Byte i of a number is its digit of weight 256 to the i: least significant first. */
  lemma {:induction false} DigitLE(n: nat, width: nat, i: nat)
    requires i < width
    ensures EncodeLE(n, width)[i] == n / Pow256(i) % 256
    decreases width
  {
    if i > 0 {
      DigitLE(n / 256, width - 1, i - 1);
      DivTwice(n, Pow256(i - 1), Pow256(i));
    }
  }

  /** The 16-bit fields are little-endian numbers of two bytes. */
  lemma {:induction false} U16IsLE(s: Bytes, at: nat, n: nat)
    requires at + 2 <= |s|
    ensures U16(s, at) == DecodeLE(s[at..at + 2]) && EncodeU16(n) == EncodeLE(n, 2)
  {
    var d := s[at..at + 2];
    assert DecodeLE(d[1..][1..]) == 0 && DecodeLE(d[1..]) == d[1];
    assert EncodeLE(n / 256, 1) == [n / 256 % 256] + EncodeLE(n / 256 / 256, 0);
  }

  lemma Pow256Of8()
    ensures Pow256(8) == U64_LIMIT
  {
    assert Pow256(3) == 0x100_0000;
    assert Pow256(6) == 0x1_0000_0000_0000;
  }

  /** A 64-bit page id survives its eight bytes. */
  lemma U64RoundTrip(n: nat)
    requires n < U64_LIMIT
    ensures DecodeLE(EncodeLE(n, 8)) == n
  {
    Pow256Of8();
    DecodeEncodeLE(n, 8);
  }

  // ------------------------------------------------------------------- order

  /** bytes.Compare: -1, 0 or 1 as a is below, equal to or above b. */
  function Compare(a: Bytes, b: Bytes): (c: int)
    ensures c == -1 || c == 0 || c == 1
  {
    CompareFrom(a, b, 0)
  }

  function CompareFrom(a: Bytes, b: Bytes, i: nat): (c: int)
    requires i <= |a| && i <= |b|
    ensures c == -1 || c == 0 || c == 1
    decreases |a| - i
  {
    if i == |a| then (if i == |b| then 0 else -1)
    else if i == |b| then 1
    else if a[i] < b[i] then -1
    else if a[i] > b[i] then 1
    else CompareFrom(a, b, i + 1)
  }

  predicate Lt(a: Bytes, b: Bytes) {
    Compare(a, b) < 0
  }

  /** A byte string as a base-257 fraction: its order is the lexicographic order. */
  ghost function Rank(k: Bytes): (r: real)
    ensures 0.0 <= r < 1.0
    decreases |k|
  {
    if k == [] then 0.0 else ((k[0] as int + 1) as real + Rank(k[1..])) / 257.0
  }

  lemma {:induction false} CompareIsRank(a: Bytes, b: Bytes, i: nat)
    requires i <= |a| && i <= |b|
    ensures CompareFrom(a, b, i) < 0 <==> Rank(a[i..]) < Rank(b[i..])
    ensures CompareFrom(a, b, i) == 0 <==> Rank(a[i..]) == Rank(b[i..])
    ensures CompareFrom(a, b, i) == 0 <==> a[i..] == b[i..]
    decreases |a| - i
  {
    if i < |a| && i < |b| {
      CompareIsRank(a, b, i + 1);
      assert a[i..][1..] == a[i + 1..] && b[i..][1..] == b[i + 1..];
      if a[i] == b[i] {
        assert a[i..] == [a[i]] + a[i + 1..] && b[i..] == [b[i]] + b[i + 1..];
      }
    }
  }

  /** Lt is a strict total order; stated through Rank so that chains of comparisons are arithmetic. */
  lemma OrderFacts()
    ensures forall a, b {:trigger Lt(a, b)} :: Lt(a, b) <==> Rank(a) < Rank(b)
    ensures forall a, b {:trigger Lt(a, b)} :: Rank(a) == Rank(b) ==> a == b
    ensures forall a, b {:trigger Compare(a, b)} ::
      && (Compare(a, b) == 0 <==> a == b)
      && (Compare(a, b) == 1 <==> Lt(b, a))
  {
    forall a, b ensures (Lt(a, b) <==> Rank(a) < Rank(b)) && (Rank(a) == Rank(b) ==> a == b)
                        && (Compare(a, b) == 0 <==> a == b) && (Compare(a, b) == 1 <==> Lt(b, a)) {
      CompareIsRank(a, b, 0);
      CompareIsRank(b, a, 0);
      assert a[0..] == a && b[0..] == b;
    }
  }

  /** a and b agree on their first n bytes, and then a ends or has the smaller byte. */
  ghost predicate LowerAt(a: Bytes, b: Bytes, n: nat) {
    n <= |a| && n < |b| && a[..n] == b[..n] && (n == |a| || a[n] < b[n])
  }

  lemma {:induction false} LowerFrom(a: Bytes, b: Bytes, i: nat, n: nat)
    requires LowerAt(a, b, n) && i <= n
    ensures CompareFrom(a, b, i) < 0
    decreases n - i
  {
    if i < n {
      assert a[i] == a[..n][i] && b[i] == b[..n][i];
      LowerFrom(a, b, i + 1, n);
    }
  }

  lemma {:induction false} FirstLower(a: Bytes, b: Bytes, i: nat) returns (n: nat)
    requires i <= |a| && i <= |b| && a[..i] == b[..i] && CompareFrom(a, b, i) < 0
    ensures LowerAt(a, b, n)
    decreases |a| - i
  {
    n := i;
    if i < |a| && a[i] == b[i] {
      assert a[..i + 1] == a[..i] + [a[i]] && b[..i + 1] == b[..i] + [b[i]];
      n := FirstLower(a, b, i + 1);
    }
  }

  /** Keys are ordered by their first difference; a proper prefix comes first. */
  lemma {:induction false} LtIff(a: Bytes, b: Bytes)
    ensures Lt(a, b) <==> exists n :: LowerAt(a, b, n)
  {
    if Lt(a, b) {
      var n := FirstLower(a, b, 0);
    }
    if n :| LowerAt(a, b, n) {
      LowerFrom(a, b, 0, n);
    }
  }
}
