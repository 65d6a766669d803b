/** 64-bit words: shifts, bitwise OR and the two loops of the frame's length header. */
module Words {
  import opened Prelude

  function Pow2(n: nat): (p: nat)
    ensures p >= 1
  {
    if n == 0 then 1 else 2 * Pow2(n - 1)
  }

  /** `x >> s`, one bit at a time. */
  function Shr(x: nat, s: nat): nat {
    if s == 0 then x else Shr(x / 2, s - 1)
  }

  /** `x << s` on `u64`: the bits pushed out at the top are lost. */
  function Shl64(x: nat, s: nat): nat {
    x * Pow2(s) % U64
  }

  /** `x | y`, bit by bit. */
  function BitOr(x: nat, y: nat): nat {
    if x == 0 && y == 0 then 0
    else 2 * BitOr(x / 2, y / 2) + (if x % 2 == 1 || y % 2 == 1 then 1 else 0)
  }

  /** The `w` lowest base-256 digits of `n`, lowest first. */
  function Digits(n: nat, w: nat): (d: Str)
    ensures |d| == w
  {
    if w == 0 then [] else [n % 256] + Digits(n / 256, w - 1)
  }

  /** The number whose base-256 digits, lowest first, are `d`. */
  function Weighted(d: Str): nat {
    if d == [] then 0 else d[0] + 256 * Weighted(d[1..])
  }

  lemma {:induction false} Pow2Add(m: nat, n: nat)
    ensures Pow2(m + n) == Pow2(m) * Pow2(n)
  {
    if m > 0 {
      Pow2Add(m - 1, n);
      assert Pow2(m + n) == 2 * Pow2(m - 1 + n);
      assert Pow2(m) * Pow2(n) == 2 * (Pow2(m - 1) * Pow2(n));
    }
  }

  lemma Pow2Word()
    ensures Pow2(8) == 256
    ensures Pow2(64) == U64
  {
    assert Pow2(4) == 16;
    Pow2Add(4, 4);
    Pow2Add(8, 8);
    Pow2Add(16, 16);
    Pow2Add(32, 32);
  }

  lemma {:induction false} Pow2Monotone(m: nat, n: nat)
    requires m <= n
    ensures Pow2(m) <= Pow2(n)
  {
    if m < n {
      Pow2Monotone(m, n - 1);
    }
  }

  lemma {:induction false} ShrAdd(x: nat, s: nat, t: nat)
    ensures Shr(x, s + t) == Shr(Shr(x, s), t)
  {
    if s > 0 {
      ShrAdd(x / 2, s - 1, t);
    }
  }

  lemma ShrNibble(x: nat)
    ensures Shr(x, 4) == x / 16
  {
    assert Shr(x / 8, 1) == x / 8 / 2;
    assert Shr(x / 4, 2) == Shr(x / 4 / 2, 1);
    assert Shr(x / 2, 3) == Shr(x / 2 / 2, 2);
  }

  lemma ShrOctet(x: nat)
    ensures Shr(x, 8) == x / 256
  {
    ShrNibble(x);
    ShrNibble(x / 16);
    ShrAdd(x, 4, 4);
  }

  /** Digit `i` is what shifting right by `8 * i` and truncating to `u8` leaves. */
  lemma {:induction false} DigitIsShift(n: nat, w: nat, i: nat)
    requires i < w
    ensures Digits(n, w)[i] == Shr(n, 8 * i) % 256
  {
    if i > 0 {
      DigitIsShift(n / 256, w - 1, i - 1);
      ShrOctet(n);
      ShrAdd(n, 8, 8 * (i - 1));
    }
  }

  /** OR of a number below `2^k` and a multiple of `2^k` is their sum. */
  lemma {:induction false} OrDisjoint(x: nat, y: nat, k: nat)
    requires x < Pow2(k)
    ensures BitOr(x, y * Pow2(k)) == x + y * Pow2(k)
  {
    if k == 0 {
      OrZero(y);
    } else {
      var h := y * Pow2(k - 1);
      assert y * Pow2(k) == 2 * h;
      assert x / 2 < Pow2(k - 1);
      OrDisjoint(x / 2, y, k - 1);
      if !(x == 0 && 2 * h == 0) {
        assert (2 * h) / 2 == h && (2 * h) % 2 == 0;
      }
    }
  }

  lemma {:induction false} OrZero(y: nat)
    ensures BitOr(0, y) == y
  {
    if y > 0 {
      OrZero(y / 2);
    }
  }

  lemma {:induction false} WeightedSnoc(d: Str, b: Byte)
    ensures Weighted(d + [b]) == Weighted(d) + b * Pow2(8 * |d|)
  {
    if d == [] {
      assert [b][1..] == [];
    } else {
      assert (d + [b])[1..] == d[1..] + [b];
      WeightedSnoc(d[1..], b);
      OctetUp(b, |d| - 1);
    }
  }

  lemma OctetUp(b: nat, n: nat)
    ensures b * Pow2(8 * (n + 1)) == 256 * (b * Pow2(8 * n))
  {
    Pow2Word();
    Pow2Add(8, 8 * n);
    Associate(b, 256, Pow2(8 * n));
  }

  lemma Associate(a: nat, b: nat, c: nat)
    ensures a * (b * c) == b * (a * c)
  {
  }

  lemma {:induction false} WeightedBound(d: Str)
    ensures Weighted(d) < Pow2(8 * |d|)
  {
    if d != [] {
      WeightedBound(d[1..]);
      Pow2Word();
      Pow2Add(8, 8 * (|d| - 1));
    }
  }

  /** The digits of a number below `256^w` add up to it again. */
  lemma {:induction false} WeightedOfDigits(n: nat, w: nat)
    requires n < Pow2(8 * w)
    ensures Weighted(Digits(n, w)) == n
  {
    if w > 0 {
      Pow2Word();
      Pow2Add(8, 8 * (w - 1));
      WeightedOfDigits(n / 256, w - 1);
      assert Digits(n, w)[1..] == Digits(n / 256, w - 1);
    }
  }

  /** Octets are the digits of the number they weigh. */
  lemma {:induction false} DigitsOfWeighted(d: Str)
    ensures Digits(Weighted(d), |d|) == d
  {
    if d != [] {
      DigitsOfWeighted(d[1..]);
      var rest := Weighted(d[1..]);
      assert (d[0] + 256 * rest) % 256 == d[0] && (d[0] + 256 * rest) / 256 == rest;
      assert d == [d[0]] + d[1..];
    }
  }

  /** The header writer: shift right by `8 * i`, truncate to an octet, push. */
  method WriteLength(len: nat) returns (header: Str)
    requires len < U64
    ensures header == Digits(len, 8)
  {
    header := [];
    for i := 0 to 8
      invariant header == Digits(len, 8)[..i]
    {
      DigitIsShift(len, 8, i);
      header := header + [Shr(len, i * 8) % 256];
    }
  }

  /** An octet shifted left by fewer than eight octets stays below `2^64`. */
  lemma ShlExact(b: Byte, i: nat)
    requires i < 8
    ensures Shl64(b, 8 * i) == b * Pow2(8 * i)
  {
    var p := Pow2(8 * i);
    Pow2Add(8 * i, 8);
    Pow2Monotone(8 * i + 8, 64);
    Pow2Word();
    assert p * 256 <= U64;
    MulBound(b, p);
  }

  lemma MulBound(b: Byte, p: nat)
    requires p > 0
    ensures 0 <= b * p < p * 256
  {
  }

  /** One round of the header reader adds the next digit. */
  lemma OrDigit(d: Str, b: Byte)
    requires |d| < 8
    ensures BitOr(Weighted(d), Shl64(b, |d| * 8)) == Weighted(d + [b])
  {
    ShlExact(b, |d|);
    WeightedBound(d);
    OrDisjoint(Weighted(d), b, 8 * |d|);
    WeightedSnoc(d, b);
  }

  /** The header reader: shift octet `i` left by `8 * i` and OR it in. */
  method ReadLength(header: Str) returns (value: nat)
    requires |header| == 8
    ensures value == Weighted(header) && value < U64
  {
    value := 0;
    for i := 0 to 8
      invariant value == Weighted(header[..i])
    {
      OrDigit(header[..i], header[i]);
      assert header[..i] + [header[i]] == header[..i + 1];
      value := BitOr(value, Shl64(header[i], i * 8));
    }
    assert header[..8] == header;
    HeaderRoundTrip(0, header);
  }

  /** The two header loops are inverse to each other, on every `u64` and on every eight octets. */
  lemma HeaderRoundTrip(len: nat, header: Str)
    requires len < U64 && |header| == 8
    ensures Weighted(Digits(len, 8)) == len
    ensures Weighted(header) < U64 && Digits(Weighted(header), 8) == header
  {
    Pow2Word();
    WeightedOfDigits(len, 8);
    WeightedBound(header);
    DigitsOfWeighted(header);
  }
}
