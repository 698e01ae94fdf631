/**
  The Kotlin standard-library behaviour that the authenticator's core relies on,
  written out so that the modules modelling the source can use it exactly:
  nullable values and thrown exceptions, 32- and 64-bit integers with their
  wrap-around and truncating division, `toByte()`, `toString(radix)` with
  `padStart`, `toIntOrNull(radix)`, `isBlank()`, `split`, `indexOf` and
  `removePrefix`.

  Strings are sequences of Unicode scalar values, while Kotlin's are UTF-16
  code units, so a character outside the Basic Multilingual Plane is one
  character here and two in Kotlin. This changes an outcome only in
  `hexStringToByteArray`, whose even-length `require` and pairing of
  characters count scalar values here: `"a😀"` fails its require in Kotlin
  but reaches the pair parse here, which fails instead. Everywhere else such
  a character is rejected, or passed through unchanged, alike.
 */
module KotlinLang {

  /** A Kotlin nullable value: `None` is `null`. */
  datatype Option<+T> = None | Some(value: T)

  /** The outcome of a call that either returns or throws. */
  datatype Result<+T, +E> = Success(value: T) | Failure(error: E)

  /** A thrown exception; callers here observe only its (nullable) message. */
  datatype Exception = Exception(message: Option<string>)

  /** A byte, as the unsigned value of its 8-bit pattern. Kotlin's `Byte` is
      signed; `b.toInt() and 0xFF` recovers this value. */
  type byte = b: int | 0 <= b < 256

  const IntMin: int := -0x8000_0000
  const IntMax: int := 0x7FFF_FFFF

  /** The range of Kotlin's `Int`. */
  predicate IsInt(v: int) { IntMin <= v <= IntMax }

  /** The range of Kotlin's `Long`. */
  predicate IsLong(v: int) { -0x8000_0000_0000_0000 <= v < 0x8000_0000_0000_0000 }

  function Pow2(n: nat): (p: nat)
    ensures p >= 1
  {
    if n == 0 then 1 else 2 * Pow2(n - 1)
  }

  /** The `Int` whose 32-bit pattern is that of `x`: two's-complement wrap-around. */
  function WrapInt(x: int): (w: int)
    ensures IsInt(w)
    ensures (x - w) % 0x1_0000_0000 == 0
  {
    (x + 0x8000_0000) % 0x1_0000_0000 - 0x8000_0000
  }

  /** `Number.toByte()`: keeps the low 8 bits (shown as their unsigned value). */
  function ToByte(v: int): (b: byte)
    ensures (v - b) % 256 == 0
  {
    v % 256
  }

  /** The signed value Kotlin's `Byte` holds for the pattern `b`. */
  function SignedByte(b: byte): (s: int)
    ensures -128 <= s < 128
    ensures ToByte(s) == b
  {
    if b < 128 then b else b - 256
  }

  /** `x and (2^bits - 1)` on a two's-complement integer: its low `bits` bits. */
  function AndLow(x: int, bits: nat): (r: int)
    ensures 0 <= r < Pow2(bits)
  {
    x % Pow2(bits)
  }

  /** `b.toInt() and 0x0F`, `and 0x7F`, `and 0xFF` on a signed `Byte` read the
      low bits of its unsigned pattern. */
  lemma AndLowSignedByte(b: byte, bits: nat)
    requires bits <= 8
    ensures AndLow(SignedByte(b), bits) == b % Pow2(bits)
  {
    if b >= 128 {
      var P, Q: int := Pow2(bits), Pow2(8 - bits);
      Pow2Add(bits, 8 - bits);
      assert Pow2(8) == 256;
      assert P * Q == 256;
      assert (-Q) * P == -256 by { MulNeg(Q, P); }
      ModShift(b, -Q, P);
    }
  }

  /** `a or b` on non-negative integers, bit by bit from the least significant. */
  function Or(a: nat, b: nat): nat
    decreases a + b
  {
    if a == 0 then b
    else if b == 0 then a
    else 2 * Or(a / 2, b / 2) + (if a % 2 == 1 || b % 2 == 1 then 1 else 0)
  }

  /** When `b` fits below the lowest set bit of `a`, `a or b` is `a + b`. */
  lemma {:induction false} OrDisjoint(a: nat, b: nat, k: nat)
    requires a % Pow2(k) == 0 && b < Pow2(k)
    ensures Or(a, b) == a + b
    decreases k
  {
    if k > 0 && a != 0 && b != 0 {
      var P := Pow2(k - 1);
      assert Pow2(k) == 2 * P;
      HalveMultiple(a, P);
      HalveBelow(b, P);
      OrDisjoint(a / 2, b / 2, k - 1);
      DivMod(b, 2);
    }
  }

  lemma HalveMultiple(a: int, p: int)
    requires p > 0 && a % (2 * p) == 0
    ensures a % 2 == 0 && a == 2 * (a / 2) && (a / 2) % p == 0
  {
    var q := a / (2 * p);
    DivMod(a, 2 * p);
    assert a == 2 * (q * p);
    DivModUnique(a, 2, q * p, 0);
    DivModUnique(a / 2, p, q, 0);
  }

  lemma HalveBelow(b: nat, p: int)
    requires b < 2 * p
    ensures b / 2 < p
  {
    DivMod(b, 2);
  }

  /** Kotlin's `/` on integers: the quotient rounded toward zero. */
  function TruncDiv(a: int, d: int): (q: int)
    requires d > 0
    ensures a >= 0 ==> 0 <= a - d * q < d
    ensures a <= 0 ==> -d < a - d * q <= 0
  {
    if a >= 0 then a / d else -((-a) / d)
  }

  /** Kotlin's `%` on integers: the remainder takes the sign of the dividend. */
  function TruncRem(a: int, d: int): (r: int)
    requires d > 0
    ensures a == d * TruncDiv(a, d) + r
    ensures a >= 0 ==> 0 <= r < d
    ensures a < 0 ==> -d < r <= 0
  {
    if a >= 0 then a % d else -((-a) % d)
  }

  lemma DivMod(x: int, d: int)
    requires d > 0
    ensures x == (x / d) * d + x % d && 0 <= x % d < d
  {
  }

  /** Euclidean division is unique: a quotient and remainder in range are the ones Dafny computes. */
  lemma DivModUnique(x: int, d: int, q: int, r: int)
    requires d > 0 && 0 <= r < d && x == q * d + r
    ensures x / d == q && x % d == r
  {
    var q', r' := x / d, x % d;
    DivMod(x, d);
    assert (q - q') * d == r' - r;
    if q > q' {
      MulAtLeast(q - q', d);
      assert false;
    } else if q < q' {
      MulAtLeast(q' - q, d);
      assert false;
    }
  }

  lemma DivShrinks(n: nat, d: int)
    requires d >= 2 && n > 0
    ensures n / d < n
  {
    DivMod(n, d);
    assert (n / d) * d == (n / d) * (d - 2) + 2 * (n / d);
  }

  lemma DivAtLeastOne(n: int, d: int)
    requires 0 < d <= n
    ensures n / d >= 1
  {
    DivMod(n, d);
    if n / d <= 0 {
      MulLe(n / d, 0, d);
    }
  }

  lemma MulNeg(a: int, b: int)
    ensures (-a) * b == -(b * a)
  {
  }

  lemma MulAtLeast(k: int, d: int)
    requires k >= 1 && d > 0
    ensures k * d >= d
  {
    assert k * d == (k - 1) * d + d;
  }

  lemma Pow2Add(a: nat, b: nat)
    ensures Pow2(a + b) == Pow2(a) * Pow2(b)
    decreases a
  {
    if a > 0 {
      Pow2Add(a - 1, b);
      assert Pow2(a + b) == 2 * Pow2(a - 1 + b);
    }
  }

  /** Adding a multiple of `d` does not change the remainder. */
  lemma ModShift(x: int, k: int, d: int)
    requires d > 0
    ensures (x + k * d) % d == x % d
  {
    DivMod(x, d);
    DivModUnique(x + k * d, d, x / d + k, x % d);
  }

  /** Reading a value modulo `256 * p` as a high byte over `p` and a low part. */
  lemma HighLow(x: int, p: int, h: int, r: int)
    requires p > 0 && 0 <= h < 256 && 0 <= r < p
    requires x % (256 * p) == h * p + r
    ensures (x / p) % 256 == h && x % p == r
  {
    var q := x / (256 * p);
    DivMod(x, 256 * p);
    MulAddDistrib(q, 256, p, h);
    assert x == (q * 256 + h) * p + r;
    DivModUnique(x, p, q * 256 + h, r);
    DivModUnique(q * 256 + h, 256, q, h);
  }

  /** The powers of two the byte and word layouts use. */
  lemma Pow2Table()
    ensures Pow2(4) == 16 && Pow2(5) == 32 && Pow2(7) == 128 && Pow2(8) == 256
    ensures Pow2(16) == 0x1_0000 && Pow2(24) == 0x100_0000 && Pow2(32) == 0x1_0000_0000
  {
    Pow2Of16();
    Pow2Of24();
    Pow2Of32();
  }

  lemma Pow2Of16()
    ensures Pow2(16) == 0x1_0000
  {
    assert Pow2(8) == 256;
    Pow2Add(8, 8);
  }

  lemma Pow2Of24()
    ensures Pow2(24) == 0x100_0000
  {
    assert Pow2(8) == 256;
    Pow2Of16();
    Pow2Add(16, 8);
  }

  lemma Pow2Of32()
    ensures Pow2(32) == 0x1_0000_0000
  {
    Pow2Of16();
    Pow2Add(16, 16);
  }

  lemma MulAddDistrib(a: int, b: int, c: int, d: int)
    ensures a * (b * c) + d * c == (a * b + d) * c
    ensures (a * b + d) * c == a * (b * c) + d * c
  {
  }

  lemma MulAssoc(a: int, b: int, c: int)
    ensures (a * b) * c == a * (c * b)
  {
  }

  /** Dividing twice is dividing by the product. */
  lemma DivDiv(x: int, a: int, b: int)
    requires a > 0 && b > 0
    ensures x / a / b == x / (a * b)
  {
    var q1, r1 := x / a, x % a;
    var q2, r2 := q1 / b, q1 % b;
    DivMod(x, a);
    DivMod(q1, b);
    MulAddDistrib(q2, b, a, r2);
    assert x == q2 * (a * b) + (r2 * a + r1) by { MulAssoc(q2, a, b); }
    assert r2 * a + r1 < a * b by {
      assert r2 * a <= (b - 1) * a by { MulLe(r2, b - 1, a); }
      MulAddDistrib(1, b - 1, a, 1);
      assert (b - 1) * a + a == b * a;
    }
    DivModUnique(x, a * b, q2, r2 * a + r1);
  }

  lemma MulLe(x: int, y: int, a: int)
    requires a >= 0 && x <= y
    ensures x * a <= y * a
  {
    assert y * a - x * a == (y - x) * a;
  }

  /* ---------------------------------------------------------------------- */
  /* Characters and digits                                                   */

  predicate IsAsciiDigit(c: char) { '0' <= c <= '9' }

  predicate IsLowerHexDigit(c: char) { '0' <= c <= '9' || 'a' <= c <= 'f' }

  /** `Char.uppercaseChar()` for ASCII letters and for the two other
      characters whose upper case is an ASCII letter, dotless `ı` (U+0131) and
      long `ſ` (U+017F). Any other character is kept: its upper case, where it
      has one, is not ASCII. */
  function UppercaseChar(c: char): (u: char)
    ensures 'a' <= c <= 'z' ==> u as int == c as int - 32
    ensures c == DotlessI ==> u == 'I'
    ensures c == LongS ==> u == 'S'
    ensures !('a' <= c <= 'z') && c != DotlessI && c != LongS ==> u == c
  {
    if 'a' <= c <= 'z' then (c as int - 32) as char
    else if c == DotlessI then 'I'
    else if c == LongS then 'S'
    else c
  }

  const DotlessI: char := 0x131 as char
  const LongS: char := 0x17F as char
  const SharpS: char := 0xDF as char

  /** `String.uppercase()` of one character, Unicode's full case mapping: `ß`
      and the Latin ligatures U+FB00-U+FB06 (`ﬀ ﬁ ﬂ ﬃ ﬄ ﬅ ﬆ`) expand to two or
      three letters; every other character maps as `UppercaseChar`. These are
      all the characters whose upper case consists of ASCII letters only. */
  function UppercaseOf(c: char): (u: string)
    ensures 1 <= |u| <= 3
    ensures c == SharpS ==> u == "SS"
    ensures c != SharpS && !(0xFB00 <= c as int <= 0xFB06) ==> u == [UppercaseChar(c)]
  {
    if c == SharpS then "SS"
    else if c as int == 0xFB00 then "FF"
    else if c as int == 0xFB01 then "FI"
    else if c as int == 0xFB02 then "FL"
    else if c as int == 0xFB03 then "FFI"
    else if c as int == 0xFB04 then "FFL"
    else if c as int == 0xFB05 || c as int == 0xFB06 then "ST"
    else [UppercaseChar(c)]
  }

  /** `String.uppercase()`: each character replaced by its upper case, which
      may be longer than one character. */
  function Uppercase(s: string): (u: string)
    ensures |u| >= |s|
  {
    if |s| == 0 then "" else UppercaseOf(s[0]) + Uppercase(s[1..])
  }

  /** Upper-casing works character by character. */
  lemma {:induction false} UppercaseConcat(a: string, b: string)
    ensures Uppercase(a + b) == Uppercase(a) + Uppercase(b)
    decreases |a|
  {
    if |a| > 0 {
      assert (a + b)[0] == a[0] && (a + b)[1..] == a[1..] + b;
      UppercaseConcat(a[1..], b);
    } else {
      assert a + b == b;
    }
  }

  /** The characters of an upper-cased string are those of the upper cases of
      its characters. */
  lemma {:induction false} UppercaseMember(s: string, x: char)
    ensures x in Uppercase(s) <==> exists i :: 0 <= i < |s| && x in UppercaseOf(s[i])
    decreases |s|
  {
    if |s| > 0 {
      UppercaseMember(s[1..], x);
      if x in Uppercase(s[1..]) {
        var i :| 0 <= i < |s[1..]| && x in UppercaseOf(s[1..][i]);
        assert x in UppercaseOf(s[i + 1]);
      }
      if exists i :: 0 <= i < |s| && x in UppercaseOf(s[i]) {
        var i :| 0 <= i < |s| && x in UppercaseOf(s[i]);
        if i > 0 {
          assert s[1..][i - 1] == s[i];
        }
      }
    }
  }

  /** A string whose characters are their own upper case is unchanged. */
  lemma {:induction false} UppercaseFixed(s: string)
    requires forall i :: 0 <= i < |s| ==> UppercaseOf(s[i]) == [s[i]]
    ensures Uppercase(s) == s
    decreases |s|
  {
    if |s| > 0 {
      assert forall i :: 0 <= i < |s[1..]| ==> s[1..][i] == s[i + 1];
      UppercaseFixed(s[1..]);
      assert s == [s[0]] + s[1..];
    }
  }

  /** Upper-casing twice is upper-casing once. */
  lemma {:induction false} UppercaseIdempotent(s: string)
    ensures Uppercase(Uppercase(s)) == Uppercase(s)
    decreases |s|
  {
    if |s| > 0 {
      var u := UppercaseOf(s[0]);
      assert forall k :: 0 <= k < |u| ==> UppercaseOf(u[k]) == [u[k]];
      UppercaseFixed(u);
      UppercaseIdempotent(s[1..]);
      UppercaseConcat(u, Uppercase(s[1..]));
    }
  }

  /** `Char.equals(other, ignoreCase = true)`: equal upper cases. Kotlin also
      accepts equal lower cases of the upper cases (the Kelvin sign and `k`,
      say); no such pair involves an ASCII digit or one of `A-F a-f`. */
  predicate EqualsIgnoreCase(a: char, b: char) {
    UppercaseChar(a) == UppercaseChar(b)
  }

  /** The digit value Kotlin's radix parsing gives an ASCII character (36 = not a digit). */
  function DigitValue(c: char): (d: nat)
    ensures d <= 36
    ensures d < 10 <==> IsAsciiDigit(c)
  {
    if '0' <= c <= '9' then c as int - '0' as int
    else if 'a' <= c <= 'z' then c as int - 'a' as int + 10
    else if 'A' <= c <= 'Z' then c as int - 'A' as int + 10
    else 36
  }

  /** The character Kotlin's `toString(radix)` writes for digit `d` (lower case). */
  function DigitChar(d: nat): (c: char)
    requires d < 36
    ensures DigitValue(c) == d
    ensures d < 16 ==> IsLowerHexDigit(c)
  {
    if d < 10 then (48 + d) as char else (87 + d) as char
  }

  /** The value of a string of digits in `radix`, most significant first, or
      `None` when some character is not a digit of that radix. */
  function DigitsValue(s: string, radix: nat): Option<nat>
    requires 2 <= radix <= 36
  {
    if |s| == 0 then Some(0)
    else
      var init := DigitsValue(s[..|s| - 1], radix);
      var d := DigitValue(s[|s| - 1]);
      if init.None? || d >= radix then None else Some(init.value * radix + d)
  }

  /** A digit string has a value exactly when every character is a digit of the radix. */
  lemma {:induction false} DigitsValueSome(s: string, radix: nat)
    requires 2 <= radix <= 36
    ensures DigitsValue(s, radix).Some? <==> forall i :: 0 <= i < |s| ==> DigitValue(s[i]) < radix
    decreases |s|
  {
    if |s| > 0 {
      var init := s[..|s| - 1];
      DigitsValueSome(init, radix);
      assert forall i :: 0 <= i < |s| - 1 ==> s[i] == init[i];
    }
  }

  lemma DigitsValueSnoc(s: string, c: char, radix: nat)
    requires 2 <= radix <= 36
    requires DigitsValue(s, radix).Some? && DigitValue(c) < radix
    ensures DigitsValue(s + [c], radix) == Some(DigitsValue(s, radix).value * radix + DigitValue(c))
  {
    var t := s + [c];
    assert t[..|t| - 1] == s;
  }

  /** `String.toIntOrNull(radix)`: an optional `+` or `-`, at least one digit,
      and a value that fits in an `Int`; anything else is `null`. */
  function ToIntOrNull(s: string, radix: nat): (r: Option<int>)
    requires 2 <= radix <= 36
    ensures r.Some? ==> IsInt(r.value)
    ensures |s| == 0 ==> r.None?
    ensures r.Some? ==> s != "-" && s != "+"
  {
    if |s| == 0 then None
    else
      var negative := s[0] == '-';
      var digits := if s[0] == '-' || s[0] == '+' then s[1..] else s;
      if |digits| == 0 then None
      else
        match DigitsValue(digits, radix)
        case None => None
        case Some(v) =>
          var n: int := if negative then -(v as int) else v;
          if IsInt(n) then Some(n) else None
  }

  /** `Int.toString(radix)` for a non-negative value: no leading zeros, lower case. */
  function ToRadixString(n: nat, radix: nat): (s: string)
    requires 2 <= radix <= 36
    ensures |s| >= 1
    ensures forall i :: 0 <= i < |s| ==> DigitValue(s[i]) < radix
    ensures n < radix <==> |s| == 1
    decreases n
  {
    if n < radix then [DigitChar(n)]
    else
      DivShrinks(n, radix);
      DivAtLeastOne(n, radix);
      ToRadixString(n / radix, radix) + [DigitChar(n % radix)]
  }

  /** Reading back what `toString(radix)` wrote gives the number. */
  lemma {:induction false} ToRadixStringValue(n: nat, radix: nat)
    requires 2 <= radix <= 36
    ensures DigitsValue(ToRadixString(n, radix), radix) == Some(n)
    decreases n
  {
    if n < radix {
      assert ToRadixString(n, radix)[..0] == [];
    } else {
      var q, r := n / radix, n % radix;
      DivShrinks(n, radix);
      var init := ToRadixString(q, radix);
      ToRadixStringValue(q, radix);
      DigitsValueSnoc(init, DigitChar(r), radix);
      DivMod(n, radix);
    }
  }

  /** `radix^k`. */
  function Power(radix: nat, k: nat): nat {
    if k == 0 then 1 else radix * Power(radix, k - 1)
  }

  /** A number below `radix^k` takes at most `k` digits. */
  lemma {:induction false} ToRadixStringLength(n: nat, radix: nat, k: nat)
    requires 2 <= radix <= 36 && 1 <= k && n < Power(radix, k)
    ensures |ToRadixString(n, radix)| <= k
    decreases n
  {
    if n >= radix {
      DivShrinks(n, radix);
      DivMod(n, radix);
      assert Power(radix, 1) == radix;
      assert n / radix < Power(radix, k - 1) by {
        if n / radix >= Power(radix, k - 1) {
          MulLe(Power(radix, k - 1), n / radix, radix);
        }
      }
      ToRadixStringLength(n / radix, radix, k - 1);
    }
  }

  /** Leading zeros do not change the value a digit string spells. */
  lemma {:induction false} DigitsValueLeadingZeros(zeros: string, s: string, radix: nat)
    requires 2 <= radix <= 36
    requires forall i :: 0 <= i < |zeros| ==> zeros[i] == '0'
    ensures DigitsValue(zeros + s, radix) == DigitsValue(s, radix)
    decreases |s|
  {
    if |s| == 0 {
      assert zeros + s == zeros;
      ZerosValue(zeros, radix);
    } else {
      var init := s[..|s| - 1];
      assert (zeros + s)[..|zeros + s| - 1] == zeros + init;
      assert (zeros + s)[|zeros + s| - 1] == s[|s| - 1];
      DigitsValueLeadingZeros(zeros, init, radix);
    }
  }

  lemma {:induction false} ZerosValue(zeros: string, radix: nat)
    requires 2 <= radix <= 36
    requires forall i :: 0 <= i < |zeros| ==> zeros[i] == '0'
    ensures DigitsValue(zeros, radix) == Some(0)
    decreases |zeros|
  {
    if |zeros| > 0 {
      ZerosValue(zeros[..|zeros| - 1], radix);
    }
  }

  /** `String.padStart(length, c)`. */
  function PadStart(s: string, length: nat, c: char): (p: string)
    ensures |s| >= length ==> p == s
    ensures |s| < length ==> |p| == length && p[length - |s|..] == s
    ensures |s| < length ==> forall i :: 0 <= i < length - |s| ==> p[i] == c
  {
    if |s| >= length then s else seq(length - |s|, _ => c) + s
  }

  /** `Char.isWhitespace()` on the JVM: `Character.isWhitespace` or `Character.isSpaceChar`. */
  predicate IsWhitespace(c: char) {
    var n := c as int;
    (0x09 <= n <= 0x0D) || (0x1C <= n <= 0x20) || n == 0xA0 || n == 0x1680
    || (0x2000 <= n <= 0x200A) || n == 0x2028 || n == 0x2029 || n == 0x202F
    || n == 0x205F || n == 0x3000
  }

  /** `CharSequence.isBlank()`: empty or only whitespace. */
  predicate IsBlank(s: string) {
    forall i :: 0 <= i < |s| ==> IsWhitespace(s[i])
  }

  /* ---------------------------------------------------------------------- */
  /* Searching and splitting                                                 */

  /** `String.replace(c.toString(), "")`: every occurrence of `c` removed. */
  function RemoveAll(s: string, c: char): (r: string)
    ensures c !in r
    ensures forall x :: x != c ==> (x in r <==> x in s)
    ensures c !in s ==> r == s
    ensures |r| <= |s|
  {
    if |s| == 0 then ""
    else if s[0] == c then RemoveAll(s[1..], c)
    else [s[0]] + RemoveAll(s[1..], c)
  }

  /** Removing a character works piece by piece. */
  lemma {:induction false} RemoveAllConcat(a: string, b: string, c: char)
    ensures RemoveAll(a + b, c) == RemoveAll(a, c) + RemoveAll(b, c)
    decreases |a|
  {
    if |a| > 0 {
      assert (a + b)[1..] == a[1..] + b;
      RemoveAllConcat(a[1..], b, c);
    } else {
      assert a + b == b;
    }
  }

  /** `pat` occurs in `s` at index `j`. */
  predicate OccursAt(s: string, pat: string, j: int) {
    0 <= j && j + |pat| <= |s| && s[j..j + |pat|] == pat
  }

  /** `String.indexOf(pat)`: the first occurrence of a non-empty pattern, or -1. */
  function IndexOf(s: string, pat: string): (i: int)
    requires |pat| > 0
    ensures i == -1 || OccursAt(s, pat, i)
    ensures i == -1 <==> forall j :: !OccursAt(s, pat, j)
    ensures forall j :: 0 <= j < i ==> !OccursAt(s, pat, j)
    decreases |s|
  {
    if |s| < |pat| then -1
    else if s[..|pat|] == pat then 0
    else
      var r := IndexOf(s[1..], pat);
      assert forall j :: 1 <= j ==> (OccursAt(s, pat, j) <==> OccursAt(s[1..], pat, j - 1)) by {
        forall j | 1 <= j ensures OccursAt(s, pat, j) <==> OccursAt(s[1..], pat, j - 1) {
          if j + |pat| <= |s| {
            var here, there := s[j..j + |pat|], s[1..][j - 1..j - 1 + |pat|];
            assert forall k :: 0 <= k < |pat| ==> here[k] == there[k];
            assert here == there;
          }
        }
      }
      if r == -1 then -1 else r + 1
  }

  /** `String.indexOf(c)`: the first occurrence of `c`, or -1. */
  function IndexOfChar(s: string, c: char): (i: int)
    ensures -1 <= i < |s|
    ensures i == -1 <==> c !in s
    ensures i >= 0 ==> s[i] == c && c !in s[..i]
  {
    if |s| == 0 then -1
    else if s[0] == c then 0
    else
      var r := IndexOfChar(s[1..], c);
      assert s == [s[0]] + s[1..];
      assert r >= 0 ==> s[..r + 1] == [s[0]] + s[1..][..r];
      if r == -1 then -1 else r + 1
  }

  /** `String.split(sep.toString())`: all pieces, empty ones included. */
  function Split(s: string, sep: char): (parts: seq<string>)
    ensures |parts| >= 1
    ensures forall i :: 0 <= i < |parts| ==> sep !in parts[i]
  {
    if |s| == 0 then [""]
    else
      var rest := Split(s[1..], sep);
      if s[0] == sep then [""] + rest
      else [[s[0]] + rest[0]] + rest[1..]
  }

  /** The pieces joined back with the separator (the inverse of `Split`). */
  function Join(parts: seq<string>, sep: char): string
    requires |parts| >= 1
  {
    if |parts| == 1 then parts[0] else parts[0] + [sep] + Join(parts[1..], sep)
  }

  /** Splitting loses nothing: joining the pieces gives the string back. */
  lemma {:induction false} JoinSplit(s: string, sep: char)
    ensures Join(Split(s, sep), sep) == s
  {
    if |s| > 0 {
      JoinSplit(s[1..], sep);
      var rest := Split(s[1..], sep);
      if s[0] != sep && |rest| > 1 {
        assert ([[s[0]] + rest[0]] + rest[1..])[1..] == rest[1..];
      }
    }
  }

  /** `s.split(sep, limit = 2)` when it yields two parts: the text before and
      after the first `sep`; `None` when `sep` does not occur (one part). */
  function SplitFirst(s: string, sep: char): (r: Option<(string, string)>)
    ensures r.None? <==> sep !in s
    ensures r.Some? ==> s == r.value.0 + [sep] + r.value.1 && sep !in r.value.0
  {
    var i := IndexOfChar(s, sep);
    if i == -1 then None
    else
      assert s == s[..i] + [sep] + s[i + 1..];
      Some((s[..i], s[i + 1..]))
  }

  /** `String.removePrefix(p)`. */
  function RemovePrefix(s: string, p: string): (r: string)
    ensures |p| <= |s| && s[..|p|] == p ==> p + r == s
    ensures !(|p| <= |s| && s[..|p|] == p) ==> r == s
  {
    if |p| <= |s| && s[..|p|] == p then
      assert s == s[..|p|] + s[|p|..];
      s[|p|..]
    else s
  }

  /* ---------------------------------------------------------------------- */
  /* Collections                                                             */

  /** `mapNotNull`: the `Some` results of `f`, in order. */
  function MapNotNull<A, B>(f: A -> Option<B>, s: seq<A>): seq<B> {
    if |s| == 0 then []
    else
      var init := MapNotNull(f, s[..|s| - 1]);
      match f(s[|s| - 1])
      case None => init
      case Some(b) => init + [b]
  }

  /** `toMap`: each pair, in order, overwrites what an earlier one gave its key. */
  function ToMap<K, V>(pairs: seq<(K, V)>): map<K, V> {
    if |pairs| == 0 then map[]
    else ToMap(pairs[..|pairs| - 1])[pairs[|pairs| - 1].0 := pairs[|pairs| - 1].1]
  }

  /** The results of `mapNotNull` are exactly the `Some` values `f` gives. */
  lemma {:induction false} MapNotNullMember<A, B>(f: A -> Option<B>, s: seq<A>, b: B)
    ensures b in MapNotNull(f, s) <==> exists i :: 0 <= i < |s| && f(s[i]) == Some(b)
  {
    if |s| > 0 {
      var n := |s| - 1;
      var init := s[..n];
      MapNotNullMember(f, init, b);
      if b in MapNotNull(f, s) && f(s[n]) != Some(b) {
        var i :| 0 <= i < |init| && f(init[i]) == Some(b);
        assert s[i] == init[i];
      }
      if i :| 0 <= i < n && f(s[i]) == Some(b) {
        assert init[i] == s[i];
      }
    }
  }

  /** `mapNotNull` maps the two halves of a sequence separately. */
  lemma {:induction false} MapNotNullAppend<A, B>(f: A -> Option<B>, s: seq<A>, t: seq<A>)
    ensures MapNotNull(f, s + t) == MapNotNull(f, s) + MapNotNull(f, t)
    decreases |t|
  {
    if |t| == 0 {
      assert s + t == s;
    } else {
      var n := |t| - 1;
      assert (s + t)[..|s + t| - 1] == s + t[..n];
      assert (s + t)[|s + t| - 1] == t[n];
      MapNotNullAppend(f, s, t[..n]);
    }
  }

  /** The keys of `toMap` are the keys of its pairs. */
  lemma {:induction false} ToMapKeys<K, V>(pairs: seq<(K, V)>, key: K)
    ensures key in ToMap(pairs) <==> exists i :: 0 <= i < |pairs| && pairs[i].0 == key
  {
    if |pairs| > 0 {
      var n := |pairs| - 1;
      var init := pairs[..n];
      ToMapKeys(init, key);
      if key in ToMap(pairs) && pairs[n].0 != key {
        var i :| 0 <= i < |init| && init[i].0 == key;
        assert pairs[i] == init[i];
      }
      if i :| 0 <= i < n && pairs[i].0 == key {
        assert init[i] == pairs[i];
      }
    }
  }

  /** For a repeated key the last pair wins. */
  lemma {:induction false} ToMapLastWins<K, V>(pairs: seq<(K, V)>, j: int)
    requires 0 <= j < |pairs|
    requires forall i :: j < i < |pairs| ==> pairs[i].0 != pairs[j].0
    ensures pairs[j].0 in ToMap(pairs) && ToMap(pairs)[pairs[j].0] == pairs[j].1
  {
    var n := |pairs| - 1;
    if j < n {
      var init := pairs[..n];
      assert init[j] == pairs[j];
      assert forall i :: j < i < |init| ==> init[i] == pairs[i];
      ToMapLastWins(init, j);
    }
  }
}
