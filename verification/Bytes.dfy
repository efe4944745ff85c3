/**
 * Length-prefixed byte framing, as both fingerprints feed it to their hash.
 *
 * A text is its UTF-8 byte string, one `char` per byte.
 */
module Bytes {
  import opened Common

  type I32 = n: int | -0x8000_0000 <= n < 0x8000_0000

  function Pow256(k: nat): nat {
    if k == 0 then 1 else 256 * Pow256(k - 1)
  }

  /** The low `k` bytes of `n`, least significant first. */
  function LeBytes(n: nat, k: nat): (r: string)
    ensures |r| == k
  {
    if k == 0 then [] else [(n % 256) as char] + LeBytes(n / 256, k - 1)
  }

  /** The same bytes, most significant first. */
  function BeBytes(n: nat, k: nat): (r: string)
    ensures |r| == k
  {
    if k == 0 then [] else BeBytes(n / 256, k - 1) + [(n % 256) as char]
  }

  lemma {:induction false} LeBytesInjective(a: nat, b: nat, k: nat)
    requires a < Pow256(k) && b < Pow256(k)
    requires LeBytes(a, k) == LeBytes(b, k)
    ensures a == b
  {
    if k > 0 {
      assert LeBytes(a, k)[0] == LeBytes(b, k)[0];
      assert LeBytes(a, k)[1..] == LeBytes(a / 256, k - 1);
      assert LeBytes(b, k)[1..] == LeBytes(b / 256, k - 1);
      LeBytesInjective(a / 256, b / 256, k - 1);
    }
  }

  lemma {:induction false} BeBytesInjective(a: nat, b: nat, k: nat)
    requires a < Pow256(k) && b < Pow256(k)
    requires BeBytes(a, k) == BeBytes(b, k)
    ensures a == b
  {
    if k > 0 {
      assert BeBytes(a, k)[k - 1] == BeBytes(b, k)[k - 1];
      assert BeBytes(a, k)[..k - 1] == BeBytes(a / 256, k - 1);
      assert BeBytes(b, k)[..k - 1] == BeBytes(b / 256, k - 1);
      BeBytesInjective(a / 256, b / 256, k - 1);
    }
  }

  lemma Pow256Values()
    ensures Pow256(4) == 0x1_0000_0000 && Pow256(8) == U64_LIMIT
  {
    assert Pow256(2) == 0x1_0000;
    assert Pow256(4) == 0x1_0000_0000;
    assert Pow256(6) == 0x1_0000_0000_0000;
  }

  function I32Bytes(n: I32): string {
    LeBytes(if n < 0 then n + 0x1_0000_0000 else n, 4)
  }

  lemma I32BytesInjective(a: I32, b: I32)
    requires I32Bytes(a) == I32Bytes(b)
    ensures a == b
  {
    Pow256Values();
    LeBytesInjective(if a < 0 then a + 0x1_0000_0000 else a, if b < 0 then b + 0x1_0000_0000 else b, 4);
  }

  lemma Le64Injective(a: nat, b: nat)
    requires a < U64_LIMIT && b < U64_LIMIT
    requires LeBytes(a, 8) == LeBytes(b, 8)
    ensures a == b
  {
    Pow256Values();
    LeBytesInjective(a, b, 8);
  }

  function LengthPrefix(n: nat, big: bool): (r: string)
    ensures |r| == 8
  {
    if big then BeBytes(n, 8) else LeBytes(n, 8)
  }

  /** Every token behind its own 8-byte length; `big` picks the byte order. */
  function Framed(tokens: seq<string>, big: bool): string {
    if tokens == [] then [] else LengthPrefix(|tokens[0]|, big) + tokens[0] + Framed(tokens[1..], big)
  }

  /** Lengths fit the 64-bit prefix, as every length of the source language does. */
  predicate LengthsFit(tokens: seq<string>) {
    forall i :: 0 <= i < |tokens| ==> |tokens[i]| < U64_LIMIT
  }

  lemma PrefixDecides(a: nat, b: nat, big: bool)
    requires a < U64_LIMIT && b < U64_LIMIT
    requires LengthPrefix(a, big) == LengthPrefix(b, big)
    ensures a == b
  {
    Pow256Values();
    if big {
      BeBytesInjective(a, b, 8);
    } else {
      LeBytesInjective(a, b, 8);
    }
  }

  /** A length-prefixed token can be read off the front. */
  lemma FirstFrameIsReadable(a: string, b: string, r: string, s: string, big: bool)
    requires |a| < U64_LIMIT && |b| < U64_LIMIT
    requires LengthPrefix(|a|, big) + a + r == LengthPrefix(|b|, big) + b + s
    ensures a == b && r == s
  {
    var x, y := LengthPrefix(|a|, big) + a + r, LengthPrefix(|b|, big) + b + s;
    assert x[..8] == LengthPrefix(|a|, big) && y[..8] == LengthPrefix(|b|, big);
    PrefixDecides(|a|, |b|, big);
    assert x[8..8 + |a|] == a && y[8..8 + |a|] == b;
    assert x[8 + |a|..] == r && y[8 + |a|..] == s;
  }

  lemma SameHeadAndTail<T>(a: seq<T>, b: seq<T>)
    requires a != [] && b != [] && a[0] == b[0] && a[1..] == b[1..]
    ensures a == b
  {
    assert a == [a[0]] + a[1..] && b == [b[0]] + b[1..];
  }

  /** The framed bytes determine the tokens. */
  lemma {:induction false} FramingIsInjective(a: seq<string>, b: seq<string>, big: bool)
    requires LengthsFit(a) && LengthsFit(b)
    requires Framed(a, big) == Framed(b, big)
    ensures a == b
    decreases |a|
  {
    if a != [] && b != [] {
      FirstFrameIsReadable(a[0], b[0], Framed(a[1..], big), Framed(b[1..], big), big);
      FramingIsInjective(a[1..], b[1..], big);
      SameHeadAndTail(a, b);
    }
  }

  // --------------------------------------------------- byte-lexicographic order

  predicate Less(a: string, b: string) {
    b != [] && (a == [] || a[0] < b[0] || (a[0] == b[0] && Less(a[1..], b[1..])))
  }

  lemma {:induction false} LessIsTotal(a: string, b: string)
    ensures Less(a, b) || Less(b, a) || a == b
    ensures !(Less(a, b) && Less(b, a))
    ensures !Less(a, a)
    decreases |a|
  {
    if a != [] {
      LessIsTotal(a[1..], a[1..]);
      if b != [] {
        LessIsTotal(a[1..], b[1..]);
        if a[0] == b[0] && a[1..] == b[1..] {
          assert a == [a[0]] + a[1..] == b;
        }
      }
    }
  }

  lemma {:induction false} LessIsTransitive(a: string, b: string, c: string)
    requires Less(a, b) && Less(b, c)
    ensures Less(a, c)
    decreases |b|
  {
    if a != [] && a[0] == b[0] && b[0] == c[0] {
      LessIsTransitive(a[1..], b[1..], c[1..]);
    }
  }
}
