/**
  `KeyGenerator.generateSecureKey`: 32 random bytes written into a `ByteArray`
  one by one, then rendered as lower-case hex, two characters per byte. The
  random source is an input: `draws` holds the successive results of
  `Random.nextInt(256)`.
 */
module PlatformServices {
  import opened KotlinLang
  import CryptoUtils

  /** A Kotlin `Byte`: a signed 8-bit value. */
  type KByte = b: int | -128 <= b < 128

  /** The number of random bytes in a key. */
  const KeySize: nat := 32

  /** `(byte.toInt() and 0xFF).toString(16).padStart(2, '0')`. */
  function HexByte(b: KByte): string {
    var unsigned := AndLow(b, 8);
    PadStart(ToRadixString(unsigned, 16), 2, '0')
  }

  /** `bytes.joinToString("") { HexByte(it) }`. */
  function HexFormat(bytes: seq<KByte>): string {
    if |bytes| == 0 then "" else HexFormat(bytes[..|bytes| - 1]) + HexByte(bytes[|bytes| - 1])
  }

  /** The bytes `keyBytes[i] = Random.nextInt(256).toByte()` stores, one per draw. */
  function KeyBytes(draws: seq<int>): (bytes: seq<KByte>)
    ensures |bytes| == |draws|
  {
    seq(|draws|, i requires 0 <= i < |draws| => SignedByte(ToByte(draws[i])))
  }

  /** `generateSecureKey`: the array is filled in place, then formatted. The
      key is 64 lower-case hex digits, and reading it back as hex gives the
      drawn bytes. */
  method GenerateSecureKey(draws: seq<int>) returns (key: string)
    requires |draws| == KeySize && CryptoUtils.AreDraws(draws, 256)
    ensures key == HexFormat(KeyBytes(draws))
    ensures |key| == 2 * KeySize
    ensures forall k :: 0 <= k < |key| ==> IsLowerHexDigit(key[k])
    ensures CryptoUtils.HexStringToByteArray(key).Success?
    ensures CryptoUtils.HexStringToByteArray(key).value == draws
  {
    var keyBytes := new KByte[KeySize](_ => 0);
    for i := 0 to KeySize
      invariant forall j :: 0 <= j < i ==> keyBytes[j] == SignedByte(ToByte(draws[j]))
    {
      keyBytes[i] := SignedByte(ToByte(draws[i]));
    }
    assert keyBytes[..] == KeyBytes(draws);
    key := HexFormat(keyBytes[..]);
    SecureKeyOfDraws(draws);
  }

  /** What the formatted key of a sequence of draws is: two lower-case hex
      digits per draw, decoding back to the draws. */
  lemma SecureKeyOfDraws(draws: seq<int>)
    requires CryptoUtils.AreDraws(draws, 256)
    ensures var key := HexFormat(KeyBytes(draws));
      && |key| == 2 * |draws|
      && (forall k :: 0 <= k < |key| ==> IsLowerHexDigit(key[k]))
      && CryptoUtils.HexStringToByteArray(key).Success?
      && CryptoUtils.HexStringToByteArray(key).value == draws
  {
    var bytes := KeyBytes(draws);
    HexFormatDigits(bytes);
    HexFormatRoundTrip(bytes);
    var r := CryptoUtils.HexStringToByteArray(HexFormat(bytes));
    forall i | 0 <= i < |draws| ensures r.value[i] == draws[i] {
      assert ToByte(bytes[i]) == ToByte(draws[i]);
      ByteIsItsLowByte(draws[i]);
    }
  }

  /** One byte is two lower-case hex digits: the high nibble, then the low one. */
  lemma HexByteDigits(b: KByte)
    ensures var h, u := HexByte(b), ToByte(b);
      |h| == 2 && IsLowerHexDigit(h[0]) && IsLowerHexDigit(h[1])
      && DigitValue(h[0]) == u / 16 && DigitValue(h[1]) == u % 16
  {
    var u := ToByte(b);
    Pow2Table();
    assert AndLow(b, 8) == u;
    if u < 16 {
      assert ToRadixString(u, 16) == [DigitChar(u)];
    } else {
      DivShrinks(u, 16);
      assert ToRadixString(u / 16, 16) == [DigitChar(u / 16)];
      assert ToRadixString(u, 16) == [DigitChar(u / 16)] + [DigitChar(u % 16)];
    }
  }

  /** Byte `i` is written at characters `2i` and `2i+1`. */
  lemma {:induction false} HexFormatLayout(bytes: seq<KByte>, i: int)
    ensures |HexFormat(bytes)| == 2 * |bytes|
    ensures 0 <= i < |bytes| ==> HexFormat(bytes)[2 * i..2 * i + 2] == HexByte(bytes[i])
    decreases |bytes|
  {
    if |bytes| > 0 {
      var init := bytes[..|bytes| - 1];
      HexFormatLayout(init, i);
      HexByteDigits(bytes[|bytes| - 1]);
      var h := HexFormat(bytes);
      assert h == HexFormat(init) + HexByte(bytes[|bytes| - 1]);
      if 0 <= i < |init| {
        assert h[2 * i..2 * i + 2] == HexFormat(init)[2 * i..2 * i + 2];
        assert init[i] == bytes[i];
      } else if i == |init| {
        assert h[2 * i..2 * i + 2] == HexByte(bytes[i]);
      }
    }
  }

  /** The formatted string is lower-case hex throughout, and characters `2i`
      and `2i+1` are the high and low nibble of byte `i`. */
  lemma HexFormatDigits(bytes: seq<KByte>)
    ensures |HexFormat(bytes)| == 2 * |bytes|
    ensures forall k :: 0 <= k < |HexFormat(bytes)| ==> IsLowerHexDigit(HexFormat(bytes)[k])
    ensures forall i :: 0 <= i < |bytes| ==>
      && DigitValue(HexFormat(bytes)[2 * i]) == ToByte(bytes[i]) / 16
      && DigitValue(HexFormat(bytes)[2 * i + 1]) == ToByte(bytes[i]) % 16
  {
    var h := HexFormat(bytes);
    HexFormatLayout(bytes, 0);
    forall i | 0 <= i < |bytes|
      ensures IsLowerHexDigit(h[2 * i]) && IsLowerHexDigit(h[2 * i + 1])
      ensures DigitValue(h[2 * i]) == ToByte(bytes[i]) / 16
      ensures DigitValue(h[2 * i + 1]) == ToByte(bytes[i]) % 16
    {
      HexFormatLayout(bytes, i);
      HexByteDigits(bytes[i]);
      assert h[2 * i] == HexByte(bytes[i])[0];
      assert h[2 * i + 1] == HexByte(bytes[i])[1];
    }
    forall k | 0 <= k < |h| ensures IsLowerHexDigit(h[k]) {
      var i := k / 2;
      assert k == 2 * i || k == 2 * i + 1;
    }
  }

  /** Reading one formatted byte back in radix 16 gives its unsigned value. */
  lemma HexPairValue(b: KByte)
    ensures ToIntOrNull(HexByte(b), 16) == Some(ToByte(b) as int)
  {
    var h, u := HexByte(b), ToByte(b);
    HexByteDigits(b);
    DigitsValueSnoc([], h[0], 16);
    assert [] + [h[0]] == [h[0]];
    DigitsValueSnoc([h[0]], h[1], 16);
    assert [h[0]] + [h[1]] == h;
    assert DigitsValue(h, 16) == Some(u / 16 * 16 + u % 16);
  }

  /** Round trip with `CryptoUtils.hexStringToByteArray`: the formatted string
      decodes to the unsigned values of the bytes. */
  lemma HexFormatRoundTrip(bytes: seq<KByte>)
    ensures var r := CryptoUtils.HexStringToByteArray(HexFormat(bytes));
      r.Success? && |r.value| == |bytes| &&
      forall i :: 0 <= i < |bytes| ==> r.value[i] == ToByte(bytes[i])
  {
    var h := HexFormat(bytes);
    HexFormatDigits(bytes);
    assert ' ' !in h by {
      forall k | 0 <= k < |h| ensures h[k] != ' ' {
        assert IsLowerHexDigit(h[k]);
      }
    }
    assert RemoveAll(h, ' ') == h;
    var values := seq(|bytes|, i requires 0 <= i < |bytes| => ToByte(bytes[i]) as int);
    forall i | 0 <= i < |bytes| ensures ToIntOrNull(h[2 * i..2 * i + 2], 16) == Some(values[i]) {
      HexFormatLayout(bytes, i);
      HexPairValue(bytes[i]);
    }
    CryptoUtils.HexStringOfPairs(h, values);
    var r := CryptoUtils.HexStringToByteArray(h);
    forall i | 0 <= i < |bytes| ensures r.value[i] == ToByte(bytes[i]) {
      ByteIsItsLowByte(ToByte(bytes[i]));
    }
  }

  lemma ByteIsItsLowByte(b: byte)
    ensures ToByte(b) == b
  {
  }
}
