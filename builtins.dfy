/**
 * The Python built-ins the core relies on, restricted to the uses it makes of them:
 * slicing, `str.split` / `str.join`, `str.replace` of one character by nothing,
 * `int(s, 16)`, the format specifications `X`, `08X` and plain `{}` for integers,
 * and `struct.unpack_from("<i", ...)`.
 */
module Builtins {
  import opened Wrappers

  /** An element of a Python `bytes` object. */
  type uint8 = x: int | 0 <= x < 256

  function Min(a: int, b: int): int { if a <= b then a else b }

  // ---------------------------------------------------------------- slicing

  /** Python's `s[lo:hi]` for non-negative bounds: bounds past the end are clamped, never an error. */
  function PySlice<T>(s: seq<T>, lo: nat, hi: nat): (r: seq<T>)
    ensures |r| == if lo < Min(hi, |s|) then Min(hi, |s|) - lo else 0
    ensures forall i :: 0 <= i < |r| ==> lo + i < |s| && r[i] == s[lo + i]
    ensures lo <= hi <= |s| ==> r == s[lo..hi]
  {
    var h := Min(hi, |s|);
    if lo <= h then s[lo..h] else []
  }

  // ------------------------------------------------------ split and join

  /** `s.split(sep)` for a one-character separator: always at least one part, none containing `sep`. */
  function Split(s: string, sep: char): (parts: seq<string>)
    ensures |parts| >= 1
    ensures forall i :: 0 <= i < |parts| ==> sep !in parts[i]
  {
    if |s| == 0 then [""]
    else
      var rest := Split(s[1..], sep);
      if s[0] == sep then [""] + rest
      else [[s[0]] + rest[0]] + rest[1..]
  }

  /** `sep.join(parts)`. */
  function Join(parts: seq<string>, sep: string): string
  {
    if |parts| == 0 then ""
    else if |parts| == 1 then parts[0]
    else parts[0] + sep + Join(parts[1..], sep)
  }

  /** Joining the parts of a split with the separator gives back the original text. */
  lemma {:induction false} JoinSplit(s: string, sep: char)
    ensures Join(Split(s, sep), [sep]) == s
  {
    if |s| > 0 {
      var rest := Split(s[1..], sep);
      JoinSplit(s[1..], sep);
      if s[0] == sep {
        assert Split(s, sep) == [""] + rest;
        assert Join([""] + rest, [sep]) == "" + [sep] + Join(rest, [sep]);
        assert s == [s[0]] + s[1..];
      } else {
        var parts := [[s[0]] + rest[0]] + rest[1..];
        assert Split(s, sep) == parts;
        if |rest| == 1 {
          assert Join(parts, [sep]) == [s[0]] + rest[0];
          assert Join(rest, [sep]) == rest[0];
        } else {
          assert parts[1..] == rest[1..];
          assert Join(parts, [sep]) == [s[0]] + rest[0] + [sep] + Join(rest[1..], [sep]);
          assert Join(rest, [sep]) == rest[0] + [sep] + Join(rest[1..], [sep]);
        }
        assert s == [s[0]] + s[1..];
      }
    }
  }

  /** A text without the separator splits into itself alone. */
  lemma {:induction false} SplitWithoutSeparator(a: string, sep: char)
    requires sep !in a
    ensures Split(a, sep) == [a]
  {
    if |a| > 0 {
      assert sep !in a[1..];
      SplitWithoutSeparator(a[1..], sep);
      assert [a[0]] + a[1..] == a;
    }
  }

  /** Splitting `a + sep + b`, with no separator in `a`, yields `a` followed by the parts of `b`. */
  lemma {:induction false} SplitAfterField(a: string, sep: char, b: string)
    requires sep !in a
    ensures Split(a + [sep] + b, sep) == [a] + Split(b, sep)
  {
    if |a| == 0 {
      assert a + [sep] + b == [sep] + b;
      assert ([sep] + b)[1..] == b;
    } else {
      assert (a + [sep] + b)[1..] == a[1..] + [sep] + b;
      assert sep !in a[1..];
      SplitAfterField(a[1..], sep, b);
      assert [a[0]] + a[1..] == a;
    }
  }

  /** Splitting a join of separator-free parts gives back the parts. */
  lemma {:induction false} SplitJoin(parts: seq<string>, sep: char)
    requires |parts| >= 1
    requires forall i :: 0 <= i < |parts| ==> sep !in parts[i]
    ensures Split(Join(parts, [sep]), sep) == parts
  {
    if |parts| == 1 {
      SplitWithoutSeparator(parts[0], sep);
    } else {
      SplitJoin(parts[1..], sep);
      SplitAfterField(parts[0], sep, Join(parts[1..], [sep]));
      assert [parts[0]] + parts[1..] == parts;
    }
  }

  /** `s.replace(c, "")`. */
  function Without(s: string, c: char): (r: string)
    ensures c !in r
    ensures forall x :: x in r <==> x in s && x != c
    ensures c !in s ==> r == s
    ensures multiset(r) == multiset(s)[c := 0]
  {
    if |s| == 0 then ""
    else
      var rest := Without(s[1..], c);
      assert s == [s[0]] + s[1..];
      assert multiset(s) == multiset{s[0]} + multiset(s[1..]);
      if s[0] == c then rest else [s[0]] + rest
  }

  /** Removal works character by character: a single character goes exactly when it is `c`. */
  lemma WithoutSingle(x: char, c: char)
    ensures Without([x], c) == if x == c then "" else [x]
  {
    assert [x][1..] == "";
  }

  /** Removal distributes over concatenation, so every other character keeps its place. */
  lemma {:induction false} WithoutConcat(a: string, b: string, c: char)
    ensures Without(a + b, c) == Without(a, c) + Without(b, c)
  {
    if |a| > 0 {
      assert (a + b)[0] == a[0];
      assert (a + b)[1..] == a[1..] + b;
      WithoutConcat(a[1..], b, c);
    } else {
      assert a + b == b;
    }
  }

  /** Removing a character twice removes nothing more. */
  lemma WithoutIdempotent(s: string, c: char)
    ensures Without(Without(s, c), c) == Without(s, c)
  {
  }

  // ------------------------------------------------------------ numerals

  /** The value of a digit character of any base up to 16, in either case; 16 for a non-digit. */
  function DigitValue(c: char): (v: nat)
    ensures v <= 16
  {
    if '0' <= c <= '9' then c as int - '0' as int
    else if 'a' <= c <= 'f' then c as int - 'a' as int + 10
    else if 'A' <= c <= 'F' then c as int - 'A' as int + 10
    else 16
  }

  /** The upper-case digit character for `d`. */
  function DigitChar(d: nat): (c: char)
    requires d < 16
    ensures DigitValue(c) == d
    ensures c in "0123456789ABCDEF"
  {
    if d < 10 then ('0' as int + d) as char else ('A' as int + d - 10) as char
  }

  predicate AllDigits(s: string, base: nat)
  {
    forall i :: 0 <= i < |s| ==> DigitValue(s[i]) < base
  }

  function Pow(base: nat, k: nat): nat
  {
    if k == 0 then 1 else base * Pow(base, k - 1)
  }

  /** The value of the digit string `s` in `base`, most significant digit first. */
  function ValueIn(s: string, base: nat): nat
  {
    if |s| == 0 then 0 else ValueIn(s[..|s| - 1], base) * base + DigitValue(s[|s| - 1])
  }

  lemma Regroup(x: int, p: int, y: int, base: int, d: int)
    ensures (x * p + y) * base + d == x * (base * p) + (y * base + d)
  {
  }

  /** Euclidean division by a base of at least 2 shortens a number of at least one digit. */
  lemma DivideByBase(n: nat, base: nat)
    requires 2 <= base && base <= n
    ensures 1 <= n / base < n && n % base < base
    ensures n == n / base * base + n % base
  {
  }

  /** The digits of `b` are the low-order digits of `a + b`. */
  lemma {:induction false} ValueOfConcat(a: string, b: string, base: nat)
    ensures ValueIn(a + b, base) == ValueIn(a, base) * Pow(base, |b|) + ValueIn(b, base)
  {
    if |b| > 0 {
      var ab := a + b;
      assert ab[..|ab| - 1] == a + b[..|b| - 1];
      assert ab[|ab| - 1] == b[|b| - 1];
      ValueOfConcat(a, b[..|b| - 1], base);
      Regroup(ValueIn(a, base), Pow(base, |b| - 1), ValueIn(b[..|b| - 1], base), base, DigitValue(b[|b| - 1]));
    } else {
      assert a + b == a;
    }
  }

  /** Python's `int(s, 16)` on a plain digit string: at least one digit, every character a hex digit. */
  function ParseHex(s: string): (r: Option<nat>)
    ensures r.Some? <==> |s| > 0 && AllDigits(s, 16)
  {
    if |s| > 0 && AllDigits(s, 16) then Some(ValueIn(s, 16)) else None
  }

  /** Every character is an upper-case hex digit. */
  predicate HexChars(s: string)
  {
    forall i :: 0 <= i < |s| ==> s[i] in "0123456789ABCDEF"
  }

  /** The shortest numeral of `n` in `base`, with upper-case letters. */
  function Numeral(n: nat, base: nat): (s: string)
    requires 2 <= base <= 16
    ensures |s| >= 1 && AllDigits(s, base) && HexChars(s)
    ensures |s| > 1 ==> s[0] != '0'
  {
    if n < base then [DigitChar(n)]
    else
      DivideByBase(n, base);
      var s := Numeral(n / base, base) + [DigitChar(n % base)];
      assert s[0] == Numeral(n / base, base)[0];
      s
  }

  /** Reading a numeral back gives the number. */
  lemma {:induction false} NumeralRoundTrip(n: nat, base: nat)
    requires 2 <= base <= 16
    ensures ValueIn(Numeral(n, base), base) == n
  {
    if n >= base {
      DivideByBase(n, base);
      NumeralRoundTrip(n / base, base);
      var s := Numeral(n, base);
      assert s[..|s| - 1] == Numeral(n / base, base);
    }
  }

  /** `f"{n:X}"` for a non-negative integer. */
  function UpperHex(n: nat): string { Numeral(n, 16) }

  /** `f"{n}"` for a non-negative integer. */
  function Decimal(n: nat): string { Numeral(n, 10) }

  /** `f"{i:X}"`: a minus sign, then the magnitude, for negative values. */
  function SignedHex(i: int): string
  {
    if i < 0 then "-" + UpperHex(-i) else UpperHex(i)
  }

  /** `f"{i}"` for an integer. */
  function SignedDecimal(i: int): string
  {
    if i < 0 then "-" + Decimal(-i) else Decimal(i)
  }

  /** Reading an optionally signed numeral back: `int(s, base)` on `-` and digits, or digits alone. */
  function ParseSigned(s: string, base: nat): Option<int>
  {
    if |s| > 0 && s[0] == '-' then
      if |s| > 1 && AllDigits(s[1..], base) then Some(-(ValueIn(s[1..], base) as int)) else None
    else if |s| > 0 && AllDigits(s, base) then Some(ValueIn(s, base))
    else None
  }

  /** A signed numeral starts with `-` exactly for a negative value, and reads back as the value. */
  lemma SignedNumeralRoundTrip(i: int, base: nat)
    requires 2 <= base <= 16
    ensures var s := (if i < 0 then "-" + Numeral(-i, base) else Numeral(i, base));
      && (s[0] == '-' <==> i < 0)
      && ParseSigned(s, base) == Some(i)
  {
    var m := if i < 0 then -i else i;
    NumeralRoundTrip(m, base);
    var n := Numeral(m, base);
    assert n[0] in "0123456789ABCDEF";
    if i < 0 {
      assert ("-" + n)[1..] == n;
    }
  }

  /** `f"{i:X}"` carries a minus sign exactly for a negative value and reads back in base 16. */
  lemma SignedHexRoundTrip(i: int)
    ensures (SignedHex(i)[0] == '-' <==> i < 0) && ParseSigned(SignedHex(i), 16) == Some(i)
  {
    SignedNumeralRoundTrip(i, 16);
  }

  /** `f"{i}"` carries a minus sign exactly for a negative value and reads back in base 10. */
  lemma SignedDecimalRoundTrip(i: int)
    ensures (SignedDecimal(i)[0] == '-' <==> i < 0) && ParseSigned(SignedDecimal(i), 10) == Some(i)
  {
    SignedNumeralRoundTrip(i, 10);
  }

  /** `str(b)` for a boolean: one of the two names, `True` exactly when `b` holds. */
  function PyBool(b: bool): (r: string)
    ensures r == "True" || r == "False"
    ensures r == "True" <==> b
  {
    if b then "True" else "False"
  }

  function Zeros(k: nat): (z: string)
    ensures |z| == k && forall i :: 0 <= i < k ==> z[i] == '0'
  {
    if k == 0 then "" else "0" + Zeros(k - 1)
  }

  /** `f"{n:08X}"`: upper-case hex, left-padded with zeros to at least 8 digits. */
  function Hex8(n: nat): string
  {
    var h := UpperHex(n);
    if |h| >= 8 then h else Zeros(8 - |h|) + h
  }

  /** A row of zeros is worth nothing. */
  lemma {:induction false} ZerosValue(k: nat, base: nat)
    ensures ValueIn(Zeros(k), base) == 0
  {
    if k > 0 {
      assert Zeros(k)[..k - 1] == Zeros(k - 1);
      ZerosValue(k - 1, base);
    }
  }

  lemma ZeroTimes(x: int, y: int)
    requires x == 0
    ensures x * y == 0
  {
  }

  lemma Hex8Value(n: nat)
    ensures ValueIn(Hex8(n), 16) == n
  {
    var h := UpperHex(n);
    NumeralRoundTrip(n, 16);
    if |h| < 8 {
      var z := Zeros(8 - |h|);
      ValueOfConcat(z, h, 16);
      ZerosValue(8 - |h|, 16);
      ZeroTimes(ValueIn(z, 16), Pow(16, |h|));
    }
  }

  lemma DigitsOfConcat(a: string, b: string)
    requires HexChars(a) && HexChars(b) && AllDigits(a, 16) && AllDigits(b, 16)
    ensures HexChars(a + b) && AllDigits(a + b, 16)
  {
    forall i | 0 <= i < |a + b|
      ensures (a + b)[i] in "0123456789ABCDEF" && DigitValue((a + b)[i]) < 16
    {
      if i < |a| {
        assert (a + b)[i] == a[i];
      } else {
        assert (a + b)[i] == b[i - |a|];
      }
    }
  }

  lemma ZerosAreDigits(k: nat)
    ensures HexChars(Zeros(k)) && AllDigits(Zeros(k), 16)
  {
    assert DigitValue('0') == 0;
  }

  /** `08X` pads with zeros to exactly 8 digits, and never cuts a longer numeral; the numeral ends the text. */
  lemma Hex8Digits(n: nat)
    ensures |Hex8(n)| >= 8
    ensures |Hex8(n)| == if |UpperHex(n)| < 8 then 8 else |UpperHex(n)|
    ensures Hex8(n)[|Hex8(n)| - |UpperHex(n)|..] == UpperHex(n)
    ensures forall i :: 0 <= i < |Hex8(n)| - |UpperHex(n)| ==> Hex8(n)[i] == '0'
    ensures HexChars(Hex8(n)) && AllDigits(Hex8(n), 16)
  {
    var h := UpperHex(n);
    if |h| < 8 {
      assert (Zeros(8 - |h|) + h)[8 - |h|..] == h;
      ZerosAreDigits(8 - |h|);
      DigitsOfConcat(Zeros(8 - |h|), h);
    }
  }

  /** The padded offset is at least 8 upper-case hex digits and reads back as the offset. */
  lemma Hex8RoundTrip(n: nat)
    ensures |Hex8(n)| >= 8 && HexChars(Hex8(n))
    ensures ParseHex(Hex8(n)) == Some(n)
  {
    Hex8Value(n);
    Hex8Digits(n);
  }

  // ------------------------------------------------- struct.unpack_from("<i")

  /** The unsigned value of four little-endian bytes. */
  function WordValue(b0: int, b1: int, b2: int, b3: int): int
  {
    b0 + 0x100 * b1 + 0x1_0000 * b2 + 0x100_0000 * b3
  }

  /** `struct.unpack_from("<i", raw, at)[0]`: the signed little-endian 32-bit word at `at`. */
  function UnpackInt32LE(raw: seq<uint8>, at: nat): (w: int)
    requires at + 4 <= |raw|
    ensures -0x8000_0000 <= w < 0x8000_0000
  {
    var u := WordValue(raw[at], raw[at + 1], raw[at + 2], raw[at + 3]);
    if u < 0x8000_0000 then u else u - 0x1_0000_0000
  }

  /** `struct.pack("<i", w)`, the inverse of UnpackInt32LE. */
  function PackInt32LE(w: int): (b: seq<uint8>)
    requires -0x8000_0000 <= w < 0x8000_0000
    ensures |b| == 4
  {
    var u := if w < 0 then w + 0x1_0000_0000 else w;
    [u % 0x100, u / 0x100 % 0x100, u / 0x1_0000 % 0x100, u / 0x100_0000]
  }

  /** The unsigned value of four bytes splits back into those bytes. */
  lemma BytesOfWord(b0: int, b1: int, b2: int, b3: int)
    requires 0 <= b0 < 0x100 && 0 <= b1 < 0x100 && 0 <= b2 < 0x100 && 0 <= b3 < 0x100
    ensures var u := WordValue(b0, b1, b2, b3);
      u % 0x100 == b0 && u / 0x100 % 0x100 == b1 && u / 0x1_0000 % 0x100 == b2 && u / 0x100_0000 == b3
  {
    var u := WordValue(b0, b1, b2, b3);
    var q := b1 + 0x100 * b2 + 0x1_0000 * b3;
    assert u == q * 0x100 + b0;
    assert u / 0x100 == q;
    var q2 := b2 + 0x100 * b3;
    assert q == q2 * 0x100 + b1;
    assert q / 0x100 == q2;
    assert u / 0x1_0000 == q2 by {
      assert u == q2 * 0x1_0000 + (b1 * 0x100 + b0);
    }
    assert u / 0x100_0000 == b3 by {
      assert u == b3 * 0x100_0000 + (b2 * 0x1_0000 + b1 * 0x100 + b0);
    }
  }

  /** Packing the unpacked word gives back the four bytes it was read from. */
  lemma PackUnpack(raw: seq<uint8>, at: nat)
    requires at + 4 <= |raw|
    ensures PackInt32LE(UnpackInt32LE(raw, at)) == raw[at..at + 4]
  {
    BytesOfWord(raw[at], raw[at + 1], raw[at + 2], raw[at + 3]);
  }

  /** Unpacking the packed word gives back the word. */
  lemma UnpackPack(w: int)
    requires -0x8000_0000 <= w < 0x8000_0000
    ensures UnpackInt32LE(PackInt32LE(w), 0) == w
  {
    var u := if w < 0 then w + 0x1_0000_0000 else w;
    var b := PackInt32LE(w);
    var b0, b1, b2, b3 := b[0] as int, b[1] as int, b[2] as int, b[3] as int;
    var q := u / 0x100;
    var q2 := q / 0x100;
    assert u == q * 0x100 + b0;
    assert q == q2 * 0x100 + b1;
    assert u / 0x1_0000 == q2;
    assert q2 == b3 * 0x100 + b2;
    assert WordValue(b0, b1, b2, b3) == u;
  }

  /** The low byte of the word is the byte at `at`, whatever the sign of the word. */
  lemma LowByte(raw: seq<uint8>, at: nat)
    requires at + 4 <= |raw|
    ensures UnpackInt32LE(raw, at) % 0x100 == raw[at]
  {
    var b0, b1, b2, b3 := raw[at] as int, raw[at + 1] as int, raw[at + 2] as int, raw[at + 3] as int;
    var q := b1 + 0x100 * b2 + 0x1_0000 * b3;
    var u := q * 0x100 + b0;
    assert WordValue(b0, b1, b2, b3) == u;
    if u >= 0x8000_0000 {
      assert u - 0x1_0000_0000 == (q - 0x100_0000) * 0x100 + b0;
    }
  }
}
