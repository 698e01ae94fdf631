/**
  `TOTPGenerator`: one-time codes from a Base32 secret. The counter is written
  as eight big-endian bytes, signed with HMAC-SHA1 under the decoded secret, the
  digest is cut down by the dynamic truncation of RFC 4226 (section 5.3), and
  the result is reduced to six decimal digits. TOTP takes the counter from the
  Unix time in seconds with a 30-second step from the epoch (RFC 6238,
  section 4).

  HMAC-SHA1 is a library call whose internals are not modelled: it is the
  parameter `mac`, which maps the key bytes and the message to the 20-byte
  digest, or to `None` when the library throws. The clock is the parameter
  `currentTime`.
 */
module TotpGenerator {
  import opened KotlinLang
  import Base32

  /** `DIGITS`, `TIME_STEP` and `EPOCH_START`. */
  const Digits: nat := 6
  const TimeStepSeconds: int := 30
  const EpochStart: int := 0

  /** An HMAC-SHA1 digest. */
  type Digest = s: seq<byte> | |s| == 20 witness seq(20, _ => 0)

  /** HMAC-SHA1 keyed with the first argument over the second; `None` when the
      library throws. */
  type Mac = (seq<byte>, seq<byte>) -> Option<Digest>

  /* ---------------------------------------------------------------------- */
  /* The counter as bytes                                                    */

  /** `longToByteArray`: byte `i` is `(value shr (56 - 8 i)).toByte()`, from
      `shr 56` down to the unshifted value. `shr` on a `Long` is an arithmetic
      shift, that is floor division. */
  function LongToByteArray(value: int): (bytes: seq<byte>)
    requires IsLong(value)
    ensures |bytes| == 8
  {
    seq(8, i requires 0 <= i < 8 => ToByte(value / Pow2(56 - 8 * i)))
  }

  /** The unsigned number a byte string spells, most significant byte first. */
  function BigEndian(bytes: seq<byte>): nat {
    if |bytes| == 0 then 0 else BigEndian(bytes[..|bytes| - 1]) * 256 + bytes[|bytes| - 1]
  }

  /** The `Long` whose 64-bit two's-complement pattern is `u`. */
  function SignedLong(u: nat): int {
    if u >= 0x8000_0000_0000_0000 then u - 0x1_0000_0000_0000_0000 else u
  }

  /** The eight bytes are the 64-bit two's-complement word of the value, most
      significant byte first: read back as a signed word they give the value. */
  lemma LongToByteArrayValue(value: int)
    requires IsLong(value)
    ensures BigEndian(LongToByteArray(value)) == value % Pow2(64)
    ensures SignedLong(BigEndian(LongToByteArray(value))) == value
  {
    var bytes := LongToByteArray(value);
    LongPrefixValue(value, 8);
    assert bytes[..8] == bytes;
    assert Pow2(0) == 1;
    Pow2Of64();
    SignedWord(value);
  }

  lemma SignedWord(value: int)
    requires IsLong(value)
    ensures SignedLong(value % 0x1_0000_0000_0000_0000) == value
  {
    if value >= 0 {
      DivModUnique(value, 0x1_0000_0000_0000_0000, 0, value);
    } else {
      DivModUnique(value, 0x1_0000_0000_0000_0000, -1, value + 0x1_0000_0000_0000_0000);
    }
  }

  /** Different counters give different messages. */
  lemma LongToByteArrayInjective(a: int, b: int)
    requires IsLong(a) && IsLong(b) && LongToByteArray(a) == LongToByteArray(b)
    ensures a == b
  {
    LongToByteArrayValue(a);
    LongToByteArrayValue(b);
  }

  /** The first `j` bytes spell the top `8 j` bits of the word. */
  lemma {:induction false} LongPrefixValue(value: int, j: nat)
    requires IsLong(value) && j <= 8
    ensures BigEndian(LongToByteArray(value)[..j]) == (value / Pow2(64 - 8 * j)) % Pow2(8 * j)
    decreases j
  {
    var bytes := LongToByteArray(value);
    if j == 0 {
      assert bytes[..0] == [];
    } else {
      var k := j - 1;
      LongPrefixValue(value, k);
      assert bytes[..j][..k] == bytes[..k];
      var x := value / Pow2(56 - 8 * k);
      assert bytes[k] == x % 256;
      ShiftByte(value, k);
      ModOfDiv(x, 256, Pow2(8 * k));
    }
  }

  /** Shifting right by eight more bits divides by 256. */
  lemma ShiftByte(value: int, k: nat)
    requires k < 8
    ensures value / Pow2(64 - 8 * k) == (value / Pow2(56 - 8 * k)) / 256
    ensures Pow2(8 * k) * 256 == Pow2(8 * k + 8)
  {
    assert Pow2(8) == 256;
    Pow2Add(56 - 8 * k, 8);
    Pow2Add(8 * k, 8);
    DivDiv(value, Pow2(56 - 8 * k), 256);
  }

  lemma Pow2Of64()
    ensures Pow2(64) == 0x1_0000_0000_0000_0000
  {
    Pow2Of32();
    Pow2Add(32, 32);
  }

  /** Appending the low digit in base `d` below the rest reassembles the value modulo `d m`. */
  lemma ModOfDiv(x: int, d: int, m: int)
    requires d > 0 && m > 0
    ensures ((x / d) % m) * d + x % d == x % (m * d)
  {
    var q, r := x / d, x % d;
    DivMod(x, d);
    DivMod(q, m);
    var hi := q / m;
    MulAddDistrib(hi, m, d, q % m);
    assert x == hi * (m * d) + ((q % m) * d + r);
    MulLe(q % m, m - 1, d);
    DivModUnique(x, m * d, hi, (q % m) * d + r);
  }

  /* ---------------------------------------------------------------------- */
  /* Dynamic truncation                                                      */

  /** `hash[hash.size - 1].toInt() and 0x0F`: the offset stays inside the digest. */
  function Offset(hash: Digest): (offset: int)
    ensures 0 <= offset <= 15 && offset + 3 < |hash|
  {
    AndLow(SignedByte(hash[|hash| - 1]), 4)
  }

  /** The 31-bit value read at the offset: the top field keeps seven bits, the
      others eight, and the fields are combined with `or`. Each shifted field
      stays below 2^31, so no shift wraps around. */
  function Truncate(hash: Digest): nat {
    var offset := Offset(hash);
    Or(Or(Or(AndLow(SignedByte(hash[offset]), 7) * 0x100_0000,
             AndLow(SignedByte(hash[offset + 1]), 8) * 0x1_0000),
          AndLow(SignedByte(hash[offset + 2]), 8) * 0x100),
       AndLow(SignedByte(hash[offset + 3]), 8))
  }

  /** Dynamic truncation as section 5.3 of RFC 4226 defines it on unsigned
      bytes: the low four bits of the last byte select four bytes, read
      big-endian, of which the low 31 bits are kept. */
  function DynamicTruncation(hash: Digest): (value: nat)
    ensures value < 0x8000_0000
  {
    var offset := hash[19] % 16;
    BigEndian(hash[offset..offset + 4]) % 0x8000_0000
  }

  /** The source's signed-byte arithmetic computes RFC 4226's truncation. */
  lemma TruncateIsDynamicTruncation(hash: Digest)
    ensures Offset(hash) == hash[19] % 16
    ensures Truncate(hash) == DynamicTruncation(hash)
    ensures Truncate(hash) < 0x8000_0000
  {
    TruncateUnsigned(hash);
    var o := hash[19] % 16;
    BigEndianFour(hash[o..o + 4]);
    RfcLow31(hash[o], hash[o + 1], hash[o + 2], hash[o + 3]);
  }

  /** The truncated value in terms of the unsigned bytes. */
  lemma TruncateUnsigned(hash: Digest)
    ensures Offset(hash) == hash[19] % 16
    ensures var o := hash[19] % 16;
      Truncate(hash) == (hash[o] % 128) as int * 0x100_0000 + hash[o + 1] as int * 0x1_0000 + hash[o + 2] as int * 0x100 + hash[o + 3]
  {
    Pow2Table();
    AndLowSignedByte(hash[19], 4);
    var o := Offset(hash);
    var a, b, c, d: int := hash[o], hash[o + 1], hash[o + 2], hash[o + 3];
    AndLowSignedByte(a, 7);
    AndLowSignedByte(b, 8);
    AndLowSignedByte(c, 8);
    AndLowSignedByte(d, 8);
    TruncateFields(a % 128, b, c, d);
  }

  lemma BigEndianFour(w: seq<byte>)
    requires |w| == 4
    ensures BigEndian(w) == ((w[0] as int * 256 + w[1]) * 256 + w[2]) * 256 + w[3]
  {
    assert w[..1][..0] == [];
    assert BigEndian(w[..1]) == w[0] as int;
    assert w[..2][..1] == w[..1];
    assert BigEndian(w[..2]) == w[0] as int * 256 + w[1];
    assert w[..3][..2] == w[..2];
    assert BigEndian(w[..3]) == (w[0] as int * 256 + w[1]) * 256 + w[2];
    assert w[..3] == w[..|w| - 1];
  }

  /** `or` of the four shifted fields, which occupy disjoint bits, is their sum. */
  lemma TruncateFields(a: nat, b: nat, c: nat, d: nat)
    requires a < 128 && b < 256 && c < 256 && d < 256
    ensures Or(Or(Or(a * 0x100_0000, b * 0x1_0000), c * 0x100), d)
         == a * 0x100_0000 + b * 0x1_0000 + c * 0x100 + d
  {
    var ab := a * 0x100_0000 + b * 0x1_0000;
    var abc := ab + c * 0x100;
    assert Or(a * 0x100_0000, b * 0x1_0000) == ab by {
      Pow2Of24();
      ModShift(0, a, 0x100_0000);
      OrDisjoint(a * 0x100_0000, b * 0x1_0000, 24);
    }
    assert Or(ab, c * 0x100) == abc by {
      Pow2Of16();
      assert ab == (a * 0x100 + b) * 0x1_0000;
      ModShift(0, a * 0x100 + b, 0x1_0000);
      OrDisjoint(ab, c * 0x100, 16);
    }
    assert Or(abc, d) == abc + d by {
      assert Pow2(8) == 256;
      assert abc == (a * 0x1_0000 + b * 0x100 + c) * 0x100;
      ModShift(0, a * 0x1_0000 + b * 0x100 + c, 0x100);
      OrDisjoint(abc, d, 8);
    }
  }

  /** The low 31 bits of four big-endian bytes drop the top bit of the first. */
  lemma RfcLow31(a: int, b: int, c: int, d: int)
    requires 0 <= a < 256 && 0 <= b < 256 && 0 <= c < 256 && 0 <= d < 256
    ensures (((a * 256 + b) * 256 + c) * 256 + d) % 0x8000_0000
         == (a % 128) * 0x100_0000 + b * 0x1_0000 + c * 0x100 + d
  {
    var low := (a % 128) * 0x100_0000 + b * 0x1_0000 + c * 0x100 + d;
    DivMod(a, 128);
    assert ((a * 256 + b) * 256 + c) * 256 + d == (a / 128) * 0x8000_0000 + low;
    DivModUnique(((a * 256 + b) * 256 + c) * 256 + d, 0x8000_0000, a / 128, low);
  }

  /* ---------------------------------------------------------------------- */
  /* HOTP and TOTP                                                           */

  /** `generateHOTP`: any exception (an undecodable secret, a failing HMAC)
      becomes the literal `"ERROR"`. */
  function GenerateHotp(mac: Mac, secret: string, counter: int): string
    requires IsLong(counter)
  {
    match Base32.Decode(secret)
    case None => "ERROR"
    case Some(key) =>
      match mac(key, LongToByteArray(counter))
      case None => "ERROR"
      case Some(hash) => PadStart(ToRadixString(Truncate(hash) % 1_000_000, 10), Digits, '0')
  }

  /** A generated code is six decimal digits spelling the truncated digest
      modulo 10^6, as section 5.3 of RFC 4226 prescribes. */
  lemma HotpCode(mac: Mac, secret: string, counter: int)
    requires IsLong(counter)
    requires Base32.Decode(secret).Some?
    requires mac(Base32.Decode(secret).value, LongToByteArray(counter)).Some?
    ensures var hash := mac(Base32.Decode(secret).value, LongToByteArray(counter)).value;
            var code := GenerateHotp(mac, secret, counter);
            && |code| == 6
            && (forall i :: 0 <= i < |code| ==> IsAsciiDigit(code[i]))
            && DigitsValue(code, 10) == Some(DynamicTruncation(hash) % 1_000_000)
  {
    var key := Base32.Decode(secret).value;
    var hash := mac(key, LongToByteArray(counter)).value;
    var otp := Truncate(hash) % 1_000_000;
    assert GenerateHotp(mac, secret, counter) == PadStart(ToRadixString(otp, 10), 6, '0');
    TruncateIsDynamicTruncation(hash);
    SixDigits(otp);
  }

  /** Zero-padding the decimal form of a number below 10^6 to six places. */
  lemma SixDigits(otp: nat)
    requires otp < 1_000_000
    ensures var code := PadStart(ToRadixString(otp, 10), 6, '0');
            && |code| == 6
            && (forall i :: 0 <= i < |code| ==> IsAsciiDigit(code[i]))
            && DigitsValue(code, 10) == Some(otp)
  {
    var s := ToRadixString(otp, 10);
    assert Power(10, 6) == 1_000_000;
    ToRadixStringLength(otp, 10, 6);
    ToRadixStringValue(otp, 10);
    var code := PadStart(s, 6, '0');
    if |s| < 6 {
      var zeros := code[..6 - |s|];
      assert code == zeros + s;
      DigitsValueLeadingZeros(zeros, s, 10);
    }
  }

  /** `generateHOTP` returns `"ERROR"` exactly when decoding the secret or
      computing the HMAC fails. */
  lemma HotpError(mac: Mac, secret: string, counter: int)
    requires IsLong(counter)
    ensures GenerateHotp(mac, secret, counter) == "ERROR" <==>
      Base32.Decode(secret).None? || mac(Base32.Decode(secret).value, LongToByteArray(counter)).None?
  {
    if Base32.Decode(secret).Some? && mac(Base32.Decode(secret).value, LongToByteArray(counter)).Some? {
      HotpCode(mac, secret, counter);
      assert IsAsciiDigit(GenerateHotp(mac, secret, counter)[0]) && !IsAsciiDigit("ERROR"[0]);
    }
  }

  /** `(currentTime - EPOCH_START) / TIME_STEP` with Kotlin's division, which
      rounds toward zero. */
  function TimeStep(currentTime: int): (counter: int)
    requires IsLong(currentTime)
    ensures IsLong(counter)
  {
    TruncDiv(currentTime - EpochStart, TimeStepSeconds)
  }

  /** `generateTOTP`: the HOTP code of the current time step. */
  function GenerateTotp(mac: Mac, secret: string, currentTime: int): string
    requires IsLong(currentTime)
  {
    GenerateHotp(mac, secret, TimeStep(currentTime))
  }

  /** From the epoch on, the counter is the number of whole steps elapsed,
      `floor((t - T0) / X)` of section 4 of RFC 6238. */
  lemma TimeStepWindow(currentTime: int)
    requires IsLong(currentTime) && currentTime >= EpochStart
    ensures TimeStep(currentTime) == (currentTime - EpochStart) / TimeStepSeconds
    ensures TimeStepSeconds * TimeStep(currentTime) <= currentTime < TimeStepSeconds * TimeStep(currentTime) + TimeStepSeconds
  {
    DivMod(currentTime, 30);
  }

  /** Before the epoch Kotlin's division rounds toward zero, so the step
      around the epoch spans 59 seconds, from -29 to 29. */
  lemma TimeStepAroundEpoch(currentTime: int)
    requires -TimeStepSeconds < currentTime < TimeStepSeconds
    ensures TimeStep(currentTime) == 0
  {
  }

  /** Two times in the same 30-second window give the same code. */
  lemma TotpSameWindow(mac: Mac, secret: string, t1: int, t2: int)
    requires IsLong(t1) && IsLong(t2) && t1 >= 0 && t2 >= 0
    requires t1 / TimeStepSeconds == t2 / TimeStepSeconds
    ensures GenerateTotp(mac, secret, t1) == GenerateTotp(mac, secret, t2)
  {
    assert TimeStep(t1) == TimeStep(t2) by {
      TimeStepWindow(t1);
      TimeStepWindow(t2);
    }
  }

  /** `getRemainingTime`: `TIME_STEP - currentTime % TIME_STEP` with Kotlin's
      remainder, which takes the sign of the dividend. */
  function RemainingTime(currentTime: int): int
    requires IsLong(currentTime)
  {
    TimeStepSeconds - TruncRem(currentTime, TimeStepSeconds)
  }

  /** From the epoch on, the remaining time lies in 1..30 (not 0..29), is 30
      exactly on a step boundary, and is the number of seconds for which the
      current code stays valid: the step changes exactly when it runs out. */
  lemma RemainingTimeRange(currentTime: int)
    requires IsLong(currentTime) && currentTime >= 0
    ensures 1 <= RemainingTime(currentTime) <= TimeStepSeconds
    ensures RemainingTime(currentTime) == TimeStepSeconds <==> currentTime % TimeStepSeconds == 0
    ensures 30 * (TimeStep(currentTime) + 1) == currentTime + RemainingTime(currentTime)
  {
    DivMod(currentTime, 30);
  }

  /** The code stays the same for the remaining time, and the counter moves
      on when that time has passed. */
  lemma TotpValidForRemainingTime(mac: Mac, secret: string, currentTime: int, elapsed: int)
    requires IsLong(currentTime) && currentTime >= 0
    requires 0 <= elapsed <= RemainingTime(currentTime) && IsLong(currentTime + elapsed)
    ensures elapsed < RemainingTime(currentTime) ==>
      GenerateTotp(mac, secret, currentTime + elapsed) == GenerateTotp(mac, secret, currentTime)
    ensures elapsed == RemainingTime(currentTime) ==>
      TimeStep(currentTime + elapsed) == TimeStep(currentTime) + 1
  {
    StepAfter(currentTime, elapsed);
  }

  lemma StepAfter(currentTime: int, elapsed: int)
    requires IsLong(currentTime) && currentTime >= 0
    requires 0 <= elapsed <= RemainingTime(currentTime) && IsLong(currentTime + elapsed)
    ensures elapsed < RemainingTime(currentTime) ==> TimeStep(currentTime + elapsed) == TimeStep(currentTime)
    ensures elapsed == RemainingTime(currentTime) ==> TimeStep(currentTime + elapsed) == TimeStep(currentTime) + 1
  {
    RemainingTimeRange(currentTime);
    TimeStepWindow(currentTime);
    TimeStepWindow(currentTime + elapsed);
    var c := TimeStep(currentTime);
    if elapsed < RemainingTime(currentTime) {
      DivModUnique(currentTime + elapsed, 30, c, currentTime + elapsed - 30 * c);
    } else {
      DivModUnique(currentTime + elapsed, 30, c + 1, 0);
    }
  }

  /** Before the epoch the remainder is negative and the result exceeds a
      whole step: it lies in 30..59. */
  lemma RemainingTimeBeforeEpoch(currentTime: int)
    requires IsLong(currentTime) && currentTime < 0
    ensures TimeStepSeconds <= RemainingTime(currentTime) < 2 * TimeStepSeconds
    ensures RemainingTime(currentTime) == TimeStepSeconds <==> currentTime % TimeStepSeconds == 0
  {
    DivMod(-currentTime, 30);
    DivMod(currentTime, 30);
    if (-currentTime) % 30 == 0 {
      DivModUnique(currentTime, 30, -((-currentTime) / 30), 0);
    } else {
      DivModUnique(currentTime, 30, -((-currentTime) / 30) - 1, 30 - (-currentTime) % 30);
    }
  }
}
