/** Work and order on digests: leading zero bits, and the byte order that breaks ties between tips. */
module Digests {
  import opened Prelude
  import opened Domain

  /** Leading zero bits of one byte. */
  function ByteZeros(b: byte): nat {
    if b == 0 then 8 else if b == 1 then 7 else if b < 4 then 6 else if b < 8 then 5
    else if b < 16 then 4 else if b < 32 then 3 else if b < 64 then 2 else if b < 128 then 1 else 0
  }

  function ZeroBits(d: seq<byte>): nat {
    if d == [] then 0 else if d[0] == 0 then 8 + ZeroBits(d[1..]) else ByteZeros(d[0])
  }

  /** The number a digest spells, most significant byte first. */
  function BigEndian(d: seq<byte>): nat {
    if d == [] then 0 else d[0] * Pow2(8 * (|d| - 1)) + BigEndian(d[1..])
  }

  lemma {:induction false} BigEndianBelow(d: seq<byte>)
    ensures BigEndian(d) < Pow2(8 * |d|)
  {
    if d == [] {
    } else {
      var p := Pow2(8 * (|d| - 1));
      BigEndianBelow(d[1..]);
      Pow8();
      Pow2Adds(8, 8 * (|d| - 1));
      assert d[0] * p <= 255 * p by { Scale(d[0], 255, p); }
    }
  }

  lemma ByteZerosMeaning(b: byte, k: nat)
    requires k <= 8
    ensures ByteZeros(b) >= k <==> b < Pow2(8 - k)
  {
    assert Pow2(0) == 1 && Pow2(1) == 2 && Pow2(2) == 4 && Pow2(3) == 8;
    Pow2Adds(3, 1);
    Pow2Adds(3, 2);
    Pow2Adds(3, 3);
    Pow2Adds(4, 3);
    Pow8();
  }

  /** The proof-of-work target: the digest, read as a 256-bit number, is below 2^(256 - k). */
  predicate MeetsTarget(d: Digest, k: nat)
    requires k <= 256
  {
    BigEndian(d.bytes) < Pow2(256 - k)
  }

  /** A digest has at least `k` leading zero bits exactly when the number it spells is below 2^(bits - k). */
  lemma {:induction false} ZeroBitsMeaning(d: seq<byte>, k: nat)
    requires k <= 8 * |d|
    ensures ZeroBits(d) >= k <==> BigEndian(d) < Pow2(8 * |d| - k)
  {
    if d == [] {
    } else {
      var rest := 8 * (|d| - 1);
      var p := Pow2(rest);
      BigEndianBelow(d[1..]);
      if k <= 8 {
        Pow2Adds(8 - k, rest);
        ByteZerosMeaning(d[0], k);
        var q := Pow2(8 - k);
        if d[0] < q {
          Scale(d[0] as int + 1, q, p);
          assert (d[0] as int + 1) * p == d[0] * p + p;
        } else {
          Scale(q, d[0], p);
        }
      } else if d[0] == 0 {
        ZeroBitsMeaning(d[1..], k - 8);
      } else {
        Pow2Monotone(8 * |d| - k, rest);
        Scale(1, d[0], p);
      }
    }
  }

  /** `Digest::leading_zero_bits`. */
  method LeadingZeroBits(d: Digest) returns (total: nat)
    ensures total == ZeroBits(d.bytes)
    ensures forall k: nat | k <= 256 :: MeetsTarget(d, k) <==> k <= total
  {
    total := 0;
    var i := 0;
    while i < 32
      invariant 0 <= i <= 32
      invariant total + ZeroBits(d.bytes[i..]) == ZeroBits(d.bytes)
    {
      assert d.bytes[i..][0] == d.bytes[i] && d.bytes[i..][1..] == d.bytes[i + 1..];
      if d.bytes[i] == 0 {
        total := total + 8;
        i := i + 1;
      } else {
        total := total + ByteZeros(d.bytes[i]);
        break;
      }
    }
    forall k: nat | k <= 256
      ensures MeetsTarget(d, k) <==> k <= total
    {
      ZeroBitsMeaning(d.bytes, k);
    }
  }

  /** The order `cmp` gives two byte arrays of one length. */
  predicate LexLess(a: seq<byte>, b: seq<byte>)
    requires |a| == |b|
  {
    a != [] && (a[0] < b[0] || (a[0] == b[0] && LexLess(a[1..], b[1..])))
  }

  lemma {:induction false} LexTotal(a: seq<byte>, b: seq<byte>)
    requires |a| == |b|
    ensures a == b <==> !LexLess(a, b) && !LexLess(b, a)
    ensures !(LexLess(a, b) && LexLess(b, a))
  {
    if a == [] {
    } else {
      LexTotal(a[1..], b[1..]);
      assert a == [a[0]] + a[1..] && b == [b[0]] + b[1..];
    }
  }

  lemma {:induction false} LexTransitive(a: seq<byte>, b: seq<byte>, c: seq<byte>)
    requires |a| == |b| == |c|
    requires LexLess(a, b) && LexLess(b, c)
    ensures LexLess(a, c)
  {
    if a[0] == b[0] == c[0] {
      LexTransitive(a[1..], b[1..], c[1..]);
    }
  }

  /** The byte order compares the numbers the digests spell: the lesser array is the lesser number. */
  lemma {:induction false} LexIsNumeric(a: seq<byte>, b: seq<byte>)
    requires |a| == |b|
    ensures LexLess(a, b) <==> BigEndian(a) < BigEndian(b)
    ensures a == b <==> BigEndian(a) == BigEndian(b)
  {
    if a != [] {
      var p := Pow2(8 * (|a| - 1));
      LexIsNumeric(a[1..], b[1..]);
      BigEndianBelow(a[1..]);
      BigEndianBelow(b[1..]);
      assert a == [a[0]] + a[1..] && b == [b[0]] + b[1..];
      if a[0] < b[0] {
        Scale(a[0] as int + 1, b[0], p);
        assert (a[0] as int + 1) * p == a[0] * p + p;
      } else if b[0] < a[0] {
        Scale(b[0] as int + 1, a[0], p);
        assert (b[0] as int + 1) * p == b[0] * p + p;
      }
    }
  }

  /** The number a digest spells. */
  function Number(d: Digest): nat {
    BigEndian(d.bytes)
  }
}
