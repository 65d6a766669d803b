/** Types shared by every component of the model. */
module Prelude {

  /** An octet. */
  type Byte = b: int | 0 <= b < 256

  /** A Rust `String`, `&str` or `Vec<u8>`: the octets it holds. */
  type Str = seq<Byte>

  /** The number of values of `u64` and of a 64-bit `usize`. */
  const U64: int := 0x1_0000_0000_0000_0000

  /** A value of `u64`. */
  type Word = w: int | 0 <= w < U64

  /** The largest length of a Rust `Vec` (`isize::MAX`). */
  const VEC_MAX: int := 0x7FFF_FFFF_FFFF_FFFF

  datatype Option<+T> = None | Some(value: T)

  datatype Result<+T, +E> = Ok(value: T) | Err(error: E)

  /** The octets of an ASCII literal. */
  function Ascii(s: string): (r: Str)
    requires forall c :: c in s ==> c < 128 as char
    ensures |r| == |s|
  {
    seq(|s|, i requires 0 <= i < |s| => AsciiOctet(s, i))
  }

  function AsciiOctet(s: string, i: nat): Byte
    requires i < |s|
    requires forall c :: c in s ==> c < 128 as char
  {
    assert s[i] in s;
    s[i] as int
  }

  /** `format!("{n}")`. */
  function Decimal(n: nat): Str {
    if n < 10 then [48 + n] else Decimal(n / 10) + [48 + n % 10]
  }

  /** `format!("{n:X}")`. */
  function Hex(n: nat): (r: Str)
    ensures r != []
  {
    if n < 16 then [HexDigit(n)] else Hex(n / 16) + [HexDigit(n % 16)]
  }

  function HexDigit(d: nat): Byte
    requires d < 16
  {
    if d < 10 then 48 + d else 55 + d
  }

  // ----- what numerals mean

  /** The number a numeral stands for, highest digit first; `A` is ten. */
  function Value(base: nat, s: Str): nat {
    if s == [] then 0
    else
      var last := s[|s| - 1];
      base * Value(base, s[..|s| - 1]) + (if 48 <= last <= 57 then last - 48 else if 65 <= last then last - 55 else 0)
  }

  /** A digit of a hexadecimal numeral: `0` to `9` or `A` to `F`. */
  predicate IsHexDigit(b: Byte) {
    48 <= b <= 57 || 65 <= b <= 70
  }

  /** A hexadecimal numeral has upper-case digits, no leading zero, and stands for its number. */
  lemma {:induction false} HexMeaning(n: nat)
    ensures Value(16, Hex(n)) == n
    ensures forall b :: b in Hex(n) ==> IsHexDigit(b)
    ensures n > 0 ==> Hex(n)[0] != 48
  {
    if n >= 16 {
      HexMeaning(n / 16);
      var s := Hex(n);
      assert s[..|s| - 1] == Hex(n / 16);
    }
  }

  lemma HexInjective(m: nat, n: nat)
    requires Hex(m) == Hex(n)
    ensures m == n
  {
    HexMeaning(m);
    HexMeaning(n);
  }

  /** A decimal numeral has decimal digits, no leading zero, and stands for its number. */
  lemma {:induction false} DecimalMeaning(n: nat)
    ensures Value(10, Decimal(n)) == n
    ensures Decimal(n) != [] && forall b :: b in Decimal(n) ==> 48 <= b <= 57
    ensures n > 0 ==> Decimal(n)[0] != 48
  {
    if n >= 10 {
      DecimalMeaning(n / 10);
      var s := Decimal(n);
      assert s[..|s| - 1] == Decimal(n / 10);
    }
  }

  /** `n` zero octets. */
  function Zeros(n: nat): (r: Str)
    ensures |r| == n
  {
    if n == 0 then [] else [0] + Zeros(n - 1)
  }

  /** The position of the first `b` in `s`, or `|s|` when there is none. */
  function IndexOf(s: Str, b: Byte): (i: nat)
    ensures i <= |s|
  {
    if s == [] || s[0] == b then 0 else 1 + IndexOf(s[1..], b)
  }

  /** A string free of `b`, followed by a `b`, ends at the first `b`. */
  lemma {:induction false} IndexOfSeparator(s: Str, b: Byte, rest: Str)
    requires b !in s
    ensures IndexOf(s + [b] + rest, b) == |s|
  {
    if s != [] {
      assert (s + [b] + rest)[1..] == s[1..] + [b] + rest;
      IndexOfSeparator(s[1..], b, rest);
    }
  }

  /** A string free of `b` is all there is before the first `b`. */
  lemma {:induction false} IndexOfAbsent(s: Str, b: Byte)
    requires b !in s
    ensures IndexOf(s, b) == |s|
  {
    if s != [] {
      IndexOfAbsent(s[1..], b);
    }
  }

  /** `HashMap` iteration: some duplicate-free listing of the keys. */
  ghost predicate Enumerates<V>(order: seq<Str>, m: map<Str, V>) {
    && (forall k :: k in order <==> k in m)
    && (forall i, j :: 0 <= i < j < |order| ==> order[i] != order[j])
  }
}
