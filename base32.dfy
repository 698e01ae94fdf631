/**
  Base32 decoding of OTP secrets as `TOTPGenerator.base32Decode` does it:
  the alphabet of section 6 of RFC 4648, permissive cleaning (upper-casing,
  dropping every `=` and space), five bits per character accumulated into a
  32-bit `Int`, a byte emitted whenever eight bits are available, trailing
  bits shorter than a byte dropped.

  `Decode` is the specification: the concatenated 5-bit values of the
  cleaned characters, cut into bytes. `Base32Decode` is the loop of the
  source, proved to compute it.
 */
module Base32 {
  import opened KotlinLang

  const Alphabet: string := "ABCDEFGHIJKLMNOPQRSTUVWXYZ234567"

  /** `encoded.uppercase().replace("=", "").replace(" ", "")`. */
  function Clean(encoded: string): (c: string)
    ensures '=' !in c && ' ' !in c
  {
    RemoveAll(RemoveAll(Uppercase(encoded), '='), ' ')
  }

  /** `alphabet.indexOf(c)`: the 5-bit value of a character, or -1. */
  function ValueOf(c: char): (v: int)
    ensures -1 <= v < 32
    ensures v == -1 <==> c !in Alphabet
    ensures v >= 0 ==> Alphabet[v] == c
  {
    IndexOfChar(Alphabet, c)
  }

  predicate IsBase32(s: string) {
    forall i :: 0 <= i < |s| ==> s[i] in Alphabet
  }

  predicate AreFiveBit(vs: seq<int>) {
    forall i :: 0 <= i < |vs| ==> 0 <= vs[i] < 32
  }

  /** The 5-bit values of a string of Base32 characters. */
  function Values(s: string): (vs: seq<int>)
    requires IsBase32(s)
    ensures |vs| == |s| && AreFiveBit(vs)
    ensures forall i :: 0 <= i < |s| ==> Alphabet[vs[i]] == s[i]
  {
    seq(|s|, i requires 0 <= i < |s| => ValueOf(s[i]))
  }

  /* ---------------------------------------------------------------------- */
  /* The bit-stream specification                                            */

  /** The unsigned value of a bit string, most significant bit first. */
  function BitsValue(bits: seq<bool>): nat {
    if |bits| == 0 then 0
    else 2 * BitsValue(bits[..|bits| - 1]) + (if bits[|bits| - 1] then 1 else 0)
  }

  /** The low `width` bits of `v`, most significant first. */
  function Bits(v: nat, width: nat): (bits: seq<bool>)
    ensures |bits| == width
  {
    if width == 0 then [] else Bits(v / 2, width - 1) + [v % 2 == 1]
  }

  /** Five bits per value, concatenated in order. */
  function BitStream(vs: seq<int>): (bits: seq<bool>)
    requires AreFiveBit(vs)
    ensures |bits| == 5 * |vs|
  {
    if |vs| == 0 then [] else BitStream(vs[..|vs| - 1]) + Bits(vs[|vs| - 1], 5)
  }

  /** The byte that eight bits spell. */
  function ByteOf(bits: seq<bool>): (b: byte)
    requires |bits| == 8
    ensures b == BitsValue(bits)
  {
    BitsValueBound(bits);
    BitsValue(bits)
  }

  /** Byte `i` is bits `[8i, 8i+8)`; a tail shorter than eight bits is dropped. */
  function Packed(bits: seq<bool>): (bytes: seq<byte>)
    ensures |bytes| == |bits| / 8
  {
    seq(|bits| / 8, i requires 0 <= i < |bits| / 8 => ByteOf(bits[8 * i..8 * i + 8]))
  }

  /** What decoding yields: `None` when the source throws
      `IllegalArgumentException` (a cleaned character outside the alphabet). */
  function Decode(encoded: string): Option<seq<byte>> {
    var c := Clean(encoded);
    if IsBase32(c) then Some(Packed(BitStream(Values(c)))) else None
  }

  /* ---------------------------------------------------------------------- */
  /* The decoding loop of the source                                         */

  /** `base32Decode`: `buffer` is Kotlin's 32-bit `Int` and wraps around as it
      does; `shr` on it is floor division; failure is the thrown exception. */
  method Base32Decode(encoded: string) returns (r: Option<seq<byte>>)
    ensures r == Decode(encoded)
  {
    if |encoded| == 0 {
      assert Clean(encoded) == [];
      return Some([]);
    }
    var cleanInput := Clean(encoded);
    var bytes: seq<byte> := [];
    var buffer := 0;
    var bitsLeft := 0;
    DecodingStart(cleanInput);
    for k := 0 to |cleanInput|
      invariant Decoding(cleanInput, k, buffer, bitsLeft, bytes)
    {
      var value := ValueOf(cleanInput[k]);
      if value == -1 {
        UnknownCharFails(cleanInput, k);
        return None;
      }
      ghost var buffer0, bitsLeft0, bytes0 := buffer, bitsLeft, bytes;
      // `buffer shl 5` leaves the low five bits zero, so `or value` adds `value`.
      buffer := WrapInt(buffer * 32) + value;
      bitsLeft := bitsLeft + 5;
      if bitsLeft >= 8 {
        bytes := bytes + [ToByte(buffer / Pow2(bitsLeft - 8))];
        bitsLeft := bitsLeft - 8;
        DecodingEmit(cleanInput, k, buffer0, bitsLeft0, bytes0, buffer, bitsLeft);
      } else {
        DecodingPlain(cleanInput, k, buffer0, bitsLeft0, bytes, buffer, bitsLeft);
      }
    }
    DecodingDone(cleanInput, buffer, bitsLeft, bytes);
    return Some(bytes);
  }

  /* ---------------------------------------------------------------------- */
  /* Properties of decoding                                                  */

  /** The upper case of `c` consists of alphabet characters. */
  predicate UpperInAlphabet(c: char) {
    forall k :: 0 <= k < |UppercaseOf(c)| ==> UppercaseOf(c)[k] in Alphabet
  }

  /** Decoding fails exactly when some input character other than `=` and
      space has, once upper-cased, a character outside the alphabet `A-Z2-7`. */
  lemma DecodeFailsIff(encoded: string)
    ensures Decode(encoded).None? <==>
      exists i :: 0 <= i < |encoded| && encoded[i] != '=' && encoded[i] != ' '
                  && !UpperInAlphabet(encoded[i])
  {
    var c := Clean(encoded);
    if !IsBase32(c) {
      var j :| 0 <= j < |c| && c[j] !in Alphabet;
      CleanMember(encoded, c[j]);
      var i :| 0 <= i < |encoded| && c[j] in UppercaseOf(encoded[i]);
      var k :| 0 <= k < |UppercaseOf(encoded[i])| && UppercaseOf(encoded[i])[k] == c[j];
      assert encoded[i] != '=' && encoded[i] != ' ';
    }
    if exists i :: 0 <= i < |encoded| && encoded[i] != '=' && encoded[i] != ' '
                   && !UpperInAlphabet(encoded[i]) {
      var i :| 0 <= i < |encoded| && encoded[i] != '=' && encoded[i] != ' '
               && !UpperInAlphabet(encoded[i]);
      var k :| 0 <= k < |UppercaseOf(encoded[i])| && UppercaseOf(encoded[i])[k] !in Alphabet;
      var x := UppercaseOf(encoded[i])[k];
      assert x != '=' && x != ' ' by {
        AlphabetUpperCases(encoded[i]);
      }
      CleanMember(encoded, x);
    }
  }

  /** Only `=` and space upper-case to `=` or space. */
  lemma AlphabetUpperCases(c: char)
    requires c != '=' && c != ' '
    ensures '=' !in UppercaseOf(c) && ' ' !in UppercaseOf(c)
  {
  }

  /** The characters left after cleaning. */
  lemma CleanMember(encoded: string, x: char)
    ensures x in Clean(encoded) <==>
      x != '=' && x != ' ' && exists i :: 0 <= i < |encoded| && x in UppercaseOf(encoded[i])
  {
    UppercaseMember(encoded, x);
  }

  /** Case does not matter: any spelling decodes like its upper case. */
  lemma DecodeIgnoresCase(x: string)
    ensures Decode(Uppercase(x)) == Decode(x)
  {
    UppercaseIdempotent(x);
  }

  /** Upper-casing is Unicode's full case mapping: the long `s` is `S`, so
      `ſſ` decodes as `SS` does, to the one byte 0x94. */
  lemma DecodeLongS(s: string)
    requires s == [LongS, LongS]
    ensures Clean(s) == "SS"
    ensures Decode(s) == Some([0x94])
  {
    CleanLongS(s);
    ValuesOfSS(Clean(s));
    var bits := TwoEighteens(Values(Clean(s)));
    PackedTwoEighteens(bits);
  }

  /** `S` is the value 18. */
  lemma ValuesOfSS(c: string)
    requires c == "SS"
    ensures IsBase32(c) && Values(c) == [18, 18]
  {
    AlphabetCode(18);
    assert IsBase32(c) by {
      forall i | 0 <= i < 2 ensures c[i] in Alphabet {
        assert c[i] == Alphabet[18];
      }
    }
    forall i | 0 <= i < 2 ensures Values(c)[i] == 18 {
      ValueOfCode(c[i]);
    }
  }

  /** Ten bits make one byte, the first eight. */
  lemma PackedTwoEighteens(bits: seq<bool>)
    requires bits == [true, false, false, true, false, true, false, false, true, false]
    ensures Packed(bits) == [0x94]
  {
    EightBitsOfTwoEighteens(bits);
    assert Packed(bits) == [ByteOf(bits[0..8])];
  }

  /** `ſſ` is cleaned to `SS`. */
  lemma CleanLongS(s: string)
    requires s == [LongS, LongS]
    ensures Clean(s) == "SS"
  {
    assert Uppercase(s) == "SS" by {
      assert s[1..] == [LongS];
      assert Uppercase(s[1..]) == "S" by {
        assert s[1..][1..] == [];
      }
    }
    assert RemoveAll("SS", '=') == "SS";
    assert RemoveAll("SS", ' ') == "SS";
  }

  /** The ten bits of two `S` characters, value 18 each. */
  lemma TwoEighteens(vs: seq<int>) returns (bits: seq<bool>)
    requires vs == [18, 18]
    ensures AreFiveBit(vs) && bits == BitStream(vs)
    ensures bits == [true, false, false, true, false, true, false, false, true, false]
  {
    assert Bits(18, 5) == [true, false, false, true, false];
    assert vs[..1] == [18] && vs[..1][..0] == [];
    assert BitStream(vs[..1]) == Bits(18, 5);
    bits := BitStream(vs);
  }

  /** Their first eight bits spell 0x94. */
  lemma EightBitsOfTwoEighteens(bits: seq<bool>)
    requires bits == [true, false, false, true, false, true, false, false, true, false]
    ensures BitsValue(bits[0..8]) == 0x94
  {
    var b := bits[0..8];
    assert [true][..0] == [];
    assert BitsValue([true]) == 1;
    assert [true, false][..1] == [true];
    assert BitsValue([true, false]) == 2;
    assert [true, false, false][..2] == [true, false];
    assert BitsValue([true, false, false]) == 4;
    assert [true, false, false, true][..3] == [true, false, false];
    assert BitsValue([true, false, false, true]) == 9;
    assert [true, false, false, true, false][..4] == [true, false, false, true];
    assert BitsValue([true, false, false, true, false]) == 18;
    assert [true, false, false, true, false, true][..5] == [true, false, false, true, false];
    assert BitsValue([true, false, false, true, false, true]) == 37;
    assert [true, false, false, true, false, true, false][..6] == [true, false, false, true, false, true];
    assert BitsValue([true, false, false, true, false, true, false]) == 74;
    assert [true, false, false, true, false, true, false, false][..7] == [true, false, false, true, false, true, false];
    assert BitsValue([true, false, false, true, false, true, false, false]) == 148;
    assert b == [true, false, false, true, false, true, false, false];
  }

  /** `=` padding and spaces, wherever they stand, do not matter. */
  lemma DecodeIgnoresPadding(x: string, y: string, pad: char)
    requires pad == '=' || pad == ' '
    ensures Decode(x + [pad] + y) == Decode(x + y)
  {
    assert Clean([pad]) == [] by {
      assert [pad][1..] == [];
      assert Uppercase([pad]) == [pad];
    }
    calc {
      Clean(x + [pad] + y);
      { CleanConcat(x + [pad], y); }
      Clean(x + [pad]) + Clean(y);
      { CleanConcat(x, [pad]); }
      Clean(x) + Clean(y);
      { CleanConcat(x, y); }
      Clean(x + y);
    }
  }

  /** Cleaning works character by character. */
  lemma CleanConcat(a: string, b: string)
    ensures Clean(a + b) == Clean(a) + Clean(b)
  {
    UppercaseConcat(a, b);
    RemoveAllConcat(Uppercase(a), Uppercase(b), '=');
    RemoveAllConcat(RemoveAll(Uppercase(a), '='), RemoveAll(Uppercase(b), '='), ' ');
  }

  /** A secret whose cleaned length is a multiple of eight characters (forty
      bits, five whole bytes) decodes independently of what follows it. */
  lemma DecodeConcat(a: string, b: string)
    requires |Clean(a)| % 8 == 0
    requires Decode(a).Some? && Decode(b).Some?
    ensures Decode(a + b) == Some(Decode(a).value + Decode(b).value)
    ensures |Clean(a + b)| == |Clean(a)| + |Clean(b)|
  {
    var ca, cb := Clean(a), Clean(b);
    CleanConcat(a, b);
    ValuesConcat(ca, cb);
    var va, vb := Values(ca), Values(cb);
    BitStreamConcat(va, vb);
    DivMod(|ca|, 8);
    PackedConcat(BitStream(va), BitStream(vb), 5 * (|ca| / 8));
  }

  lemma ValuesConcat(ca: string, cb: string)
    requires IsBase32(ca) && IsBase32(cb)
    ensures IsBase32(ca + cb) && Values(ca + cb) == Values(ca) + Values(cb)
  {
    var c := ca + cb;
    assert IsBase32(c) by {
      forall i | 0 <= i < |c| ensures c[i] in Alphabet {
        if i < |ca| { assert c[i] == ca[i]; } else { assert c[i] == cb[i - |ca|]; }
      }
    }
    forall i | 0 <= i < |c| ensures Values(c)[i] == (Values(ca) + Values(cb))[i] {
      if i < |ca| { assert c[i] == ca[i]; } else { assert c[i] == cb[i - |ca|]; }
    }
  }

  lemma {:induction false} BitStreamConcat(xs: seq<int>, ys: seq<int>)
    requires AreFiveBit(xs) && AreFiveBit(ys)
    ensures AreFiveBit(xs + ys)
    ensures BitStream(xs + ys) == BitStream(xs) + BitStream(ys)
    decreases |ys|
  {
    FiveBitConcat(xs, ys);
    if |ys| == 0 {
      assert xs + ys == xs;
    } else {
      var ys', last := ys[..|ys| - 1], ys[|ys| - 1];
      var zs := xs + ys;
      assert AreFiveBit(ys');
      BitStreamConcat(xs, ys');
      assert zs[..|zs| - 1] == xs + ys' && zs[|zs| - 1] == last;
      assert BitStream(zs) == BitStream(xs + ys') + Bits(last, 5);
      assert BitStream(ys) == BitStream(ys') + Bits(last, 5);
    }
  }

  lemma FiveBitConcat(xs: seq<int>, ys: seq<int>)
    requires AreFiveBit(xs) && AreFiveBit(ys)
    ensures AreFiveBit(xs + ys)
  {
    var zs := xs + ys;
    forall i | 0 <= i < |zs| ensures 0 <= zs[i] < 32 {
      if i < |xs| { assert zs[i] == xs[i]; } else { assert zs[i] == ys[i - |xs|]; }
    }
  }

  lemma PackedConcat(x: seq<bool>, y: seq<bool>, n: nat)
    requires |x| == 8 * n
    ensures Packed(x + y) == Packed(x) + Packed(y)
  {
    forall i | 0 <= i < |Packed(x + y)|
      ensures Packed(x + y)[i] == (Packed(x) + Packed(y))[i]
    {
      if i < n {
        assert (x + y)[8 * i..8 * i + 8] == x[8 * i..8 * i + 8];
      } else {
        assert (x + y)[8 * i..8 * i + 8] == y[8 * (i - n)..8 * (i - n) + 8];
      }
    }
  }

  /** The secret of the test vectors in appendix D of RFC 4226,
      `GEZDGNBVGY3TQOJQGEZDGNBVGY3TQOJQ`, is the ASCII text
      `12345678901234567890`. */
  lemma DecodeRfc4226Secret()
    ensures Decode("GEZDGNBVGY3TQOJQGEZDGNBVGY3TQOJQ")
         == Some([49, 50, 51, 52, 53, 54, 55, 56, 57, 48, 49, 50, 51, 52, 53, 54, 55, 56, 57, 48])
  {
    RfcBlockValues();
    RfcBlockBytes();
    RfcSecretBlocks();
    DecodeBlocks("GEZDGNBV", "GY3TQOJQ", [49, 50, 51, 52, 53], [54, 55, 56, 57, 48],
                 "GEZDGNBVGY3TQOJQGEZDGNBVGY3TQOJQ",
                 [49, 50, 51, 52, 53, 54, 55, 56, 57, 48, 49, 50, 51, 52, 53, 54, 55, 56, 57, 48]);
  }

  /** The secret is the block pair `GEZDGNBV` `GY3TQOJQ` twice, its text `12345` `67890` twice. */
  lemma RfcSecretBlocks()
    ensures "GEZDGNBVGY3TQOJQGEZDGNBVGY3TQOJQ" == "GEZDGNBV" + "GY3TQOJQ" + ("GEZDGNBV" + "GY3TQOJQ")
    ensures var text: seq<byte> := [49, 50, 51, 52, 53, 54, 55, 56, 57, 48, 49, 50, 51, 52, 53, 54, 55, 56, 57, 48];
            var half1: seq<byte> := [49, 50, 51, 52, 53];
            var half2: seq<byte> := [54, 55, 56, 57, 48];
            text == half1 + half2 + (half1 + half2)
  {
  }

  /** The character values of the blocks `GEZDGNBV` and `GY3TQOJQ`. */
  lemma RfcBlockValues()
    ensures IsBase32("GEZDGNBV") && Values("GEZDGNBV") == [6, 4, 25, 3, 6, 13, 1, 21]
    ensures IsBase32("GY3TQOJQ") && Values("GY3TQOJQ") == [6, 24, 27, 19, 16, 14, 9, 16]
  {
    var b1, b2 := "GEZDGNBV", "GY3TQOJQ";
    var v1, v2 := [6, 4, 25, 3, 6, 13, 1, 21], [6, 24, 27, 19, 16, 14, 9, 16];
    forall i | 0 <= i < 8 ensures 0 <= v1[i] < 32 && b1[i] == Alphabet[v1[i]]
                              && 0 <= v2[i] < 32 && b2[i] == Alphabet[v2[i]] {
      if i == 0 {} else if i == 1 {} else if i == 2 {} else if i == 3 {}
      else if i == 4 {} else if i == 5 {} else if i == 6 {} else {}
    }
    BlockValues(b1, v1);
    BlockValues(b2, v2);
  }

  /** The blocks `GEZDGNBV` and `GY3TQOJQ` spell 0x3132333435 and
      0x3637383930: the ASCII texts `12345` and `67890`. */
  lemma RfcBlockBytes()
    ensures Packed(BitStream([6, 4, 25, 3, 6, 13, 1, 21])) == [49, 50, 51, 52, 53]
    ensures Packed(BitStream([6, 24, 27, 19, 16, 14, 9, 16])) == [54, 55, 56, 57, 48]
  {
    StreamBlock([6, 4, 25, 3, 6, 13, 1, 21], 0x31_3233_3435, [49, 50, 51, 52, 53]);
    StreamBlock([6, 24, 27, 19, 16, 14, 9, 16], 0x36_3738_3930, [54, 55, 56, 57, 48]);
  }

  /** Two eight-character blocks, repeated: what they decode to. */
  lemma DecodeBlocks(a: string, b: string, x: seq<byte>, y: seq<byte>, s: string, bytes: seq<byte>)
    requires IsBase32(a) && IsBase32(b) && |a| == 8 && |b| == 8
    requires Packed(BitStream(Values(a))) == x && Packed(BitStream(Values(b))) == y
    requires s == a + b + (a + b) && bytes == x + y + (x + y)
    ensures Decode(s) == Some(bytes)
  {
    var ab := a + b;
    ValuesConcat(a, b);
    ValuesConcat(ab, ab);
    var va, vb := Values(a), Values(b);
    BitStreamConcat(va, vb);
    BitStreamConcat(va + vb, va + vb);
    PackedConcat(BitStream(va), BitStream(vb), 5);
    PackedConcat(BitStream(va + vb), BitStream(va + vb), 10);
    CleanBase32(ab + ab);
  }

  /** The values of a block of alphabet characters. */
  lemma BlockValues(block: string, vs: seq<int>)
    requires |block| == 8 && |vs| == 8
    requires forall i :: 0 <= i < 8 ==> 0 <= vs[i] < 32 && block[i] == Alphabet[vs[i]]
    ensures IsBase32(block) && Values(block) == vs
  {
    forall i | 0 <= i < 8 ensures Values(block)[i] == vs[i] {
      AlphabetCode(vs[i]);
      ValueOfCode(block[i]);
    }
  }

  /** Eight 5-bit values spell a 40-bit number `n`; its five bytes, most
      significant first, are the block's decoded bytes. */
  lemma StreamBlock(vs: seq<int>, n: int, bytes: seq<byte>)
    requires |vs| == 8 && AreFiveBit(vs)
    requires n == ((((((vs[0] * 32 + vs[1]) * 32 + vs[2]) * 32 + vs[3]) * 32 + vs[4]) * 32
                   + vs[5]) * 32 + vs[6]) * 32 + vs[7]
    requires bytes == [n / 0x1_0000_0000 % 256, n / 0x100_0000 % 256, n / 0x1_0000 % 256, n / 0x100 % 256, n % 256]
    ensures Packed(BitStream(vs)) == bytes
  {
    assert vs[..0] == [] && vs[..8] == vs;
    assert BitsValue(BitStream(vs[..0])) == 0;
    StreamValueSnoc(vs, 1); StreamValueSnoc(vs, 2); StreamValueSnoc(vs, 3); StreamValueSnoc(vs, 4);
    StreamValueSnoc(vs, 5); StreamValueSnoc(vs, 6); StreamValueSnoc(vs, 7); StreamValueSnoc(vs, 8);
    PackedFive(BitStream(vs), n, bytes);
  }

  /** Forty bits spelling `n` pack into the five bytes of `n`, most significant first. */
  lemma PackedFive(stream: seq<bool>, n: int, bytes: seq<byte>)
    requires |stream| == 40 && BitsValue(stream) == n
    requires bytes == [n / 0x1_0000_0000 % 256, n / 0x100_0000 % 256, n / 0x1_0000 % 256, n / 0x100 % 256, n % 256]
    ensures Packed(stream) == bytes
  {
    Pow2Table();
    var packed := Packed(stream);
    assert packed[0] == n / 0x1_0000_0000 % 256 by { PackedByteValue(stream, 0); }
    assert packed[1] == n / 0x100_0000 % 256 by { PackedByteValue(stream, 1); }
    assert packed[2] == n / 0x1_0000 % 256 by { PackedByteValue(stream, 2); }
    assert packed[3] == n / 0x100 % 256 by { PackedByteValue(stream, 3); }
    assert packed[4] == n % 256 by { PackedByteValue(stream, 4); }
    forall i | 0 <= i < 5 ensures packed[i] == bytes[i] {
      if i == 0 {} else if i == 1 {} else if i == 2 {} else if i == 3 {} else {}
    }
  }

  /** Appending a 5-bit value to the stream multiplies the number it spells by
      32 and adds the value. */
  lemma StreamValueSnoc(vs: seq<int>, k: nat)
    requires AreFiveBit(vs) && 0 < k <= |vs|
    ensures BitsValue(BitStream(vs[..k])) == BitsValue(BitStream(vs[..k - 1])) * 32 + vs[k - 1]
  {
    var p := vs[..k];
    assert p[..k - 1] == vs[..k - 1];
    BitsValueAppend(BitStream(p[..k - 1]), Bits(p[k - 1], 5));
    Pow2Table();
    BitsOfValue(p[k - 1], 5);
  }

  /** Byte `i` of `Packed(bits)` is bits `[8i, 8i+8)` of the number `bits` spells. */
  lemma PackedByteValue(bits: seq<bool>, i: nat)
    requires i < |bits| / 8
    ensures 8 * i + 8 <= |bits|
    ensures Packed(bits)[i] == (BitsValue(bits) / Pow2(|bits| - 8 * i - 8)) % 256
  {
    DivMod(|bits|, 8);
    var head, window, rest := bits[..8 * i], bits[8 * i..8 * i + 8], bits[8 * i + 8..];
    assert bits == (head + window) + rest;
    BitsValueAppend(head + window, rest);
    BitsValueAppend(head, window);
    BitsValueBound(window);
    BitsValueBound(rest);
    assert Pow2(8) == 256;
    var p := Pow2(|rest|);
    var hw := BitsValue(head + window);
    DivModUnique(BitsValue(bits), p, hw, BitsValue(rest));
    DivModUnique(hw, 256, BitsValue(head), BitsValue(window));
  }

  /** Base32 text is already clean. */
  lemma CleanBase32(s: string)
    requires IsBase32(s)
    ensures Clean(s) == s
  {
    forall i | 0 <= i < |s| ensures UppercaseOf(s[i]) == [s[i]] {
      AlphabetMember(s[i]);
    }
    UppercaseFixed(s);
    assert '=' !in s && ' ' !in s by {
      if '=' in s { AlphabetMember('='); }
      if ' ' in s { AlphabetMember(' '); }
    }
  }

  /** The alphabet lists `A`-`Z` then `2`-`7`. */
  lemma AlphabetCode(i: nat)
    requires i < 32
    ensures Alphabet[i] as int == if i < 26 then 'A' as int + i else '2' as int + (i - 26)
  {
  }

  lemma AlphabetMember(c: char)
    ensures c in Alphabet <==> 'A' <= c <= 'Z' || '2' <= c <= '7'
  {
    if c in Alphabet {
      var i :| 0 <= i < 32 && Alphabet[i] == c;
      AlphabetCode(i);
    } else if 'A' <= c <= 'Z' {
      AlphabetCode(c as int - 'A' as int);
    } else if '2' <= c <= '7' {
      AlphabetCode(c as int - '2' as int + 26);
    }
  }

  /** `alphabet.indexOf(c)` is the arithmetic value of the character: 0-25
      for `A`-`Z`, 26-31 for `2`-`7`, -1 otherwise. */
  lemma ValueOfCode(c: char)
    ensures ValueOf(c) == if 'A' <= c <= 'Z' then c as int - 'A' as int
                          else if '2' <= c <= '7' then c as int - '2' as int + 26
                          else -1
  {
    AlphabetMember(c);
    var i := ValueOf(c);
    if i >= 0 { AlphabetCode(i); }
  }

  /** Bit `k` (most significant first) of decoded byte `i` is bit `8i + k` of
      the stream of 5-bit character values: bit `(8i + k) % 5` of the value of
      cleaned character `(8i + k) / 5`. */
  /** Every successful decoding yields `floor(5n/8)` bytes for `n` cleaned
      characters: trailing bits short of a byte are dropped. */
  lemma DecodeLength(encoded: string)
    requires Decode(encoded).Some?
    ensures |Decode(encoded).value| == 5 * |Clean(encoded)| / 8
  {
    var vs := Values(Clean(encoded));
    assert Decode(encoded).value == Packed(BitStream(vs));
  }

  lemma DecodeBitLayout(encoded: string, i: nat, k: nat)
    requires Decode(encoded).Some? && i < |Decode(encoded).value| && k < 8
    ensures |Decode(encoded).value| == 5 * |Clean(encoded)| / 8
    ensures (8 * i + k) / 5 < |Clean(encoded)|
    ensures (Decode(encoded).value[i] / Pow2(7 - k)) % 2
      == (Values(Clean(encoded))[(8 * i + k) / 5] / Pow2(4 - (8 * i + k) % 5)) % 2
  {
    var vs := Values(Clean(encoded));
    assert Decode(encoded).value == Packed(BitStream(vs));
    PackedStreamBit(vs, i, k);
  }

  lemma PackedStreamBit(vs: seq<int>, i: nat, k: nat)
    requires AreFiveBit(vs) && i < |BitStream(vs)| / 8 && k < 8
    ensures (8 * i + k) / 5 < |vs|
    ensures (Packed(BitStream(vs))[i] / Pow2(7 - k)) % 2
      == (vs[(8 * i + k) / 5] / Pow2(4 - (8 * i + k) % 5)) % 2
  {
    PackedBit(BitStream(vs), i, k);
    StreamBit(vs, 8 * i + k);
  }

  /** Bit `k` of byte `i` of `Packed(bits)` is `bits[8i + k]`. */
  lemma PackedBit(bits: seq<bool>, i: nat, k: nat)
    requires i < |bits| / 8 && k < 8
    ensures 8 * i + k < |bits|
    ensures (Packed(bits)[i] / Pow2(7 - k)) % 2 == if bits[8 * i + k] then 1 else 0
  {
    DivMod(|bits|, 8);
    var window := bits[8 * i..8 * i + 8];
    BitOfValue(window, k);
  }

  /** Bit `j` of the stream, as 0 or 1, is bit `j % 5` of value `j / 5`. */
  lemma StreamBit(vs: seq<int>, j: nat)
    requires AreFiveBit(vs) && j < 5 * |vs|
    ensures (if BitStream(vs)[j] then 1 else 0) == (vs[j / 5] / Pow2(4 - j % 5)) % 2
  {
    var q, k := j / 5, j % 5;
    assert q < |vs| && k < 5;
    var v := vs[q];
    BitStreamAt(vs, j);
    BitsAt(v, 5, k);
  }

  /** Bit `k` of a bit string's value, counted from the most significant end. */
  lemma BitOfValue(bits: seq<bool>, k: nat)
    requires k < |bits|
    ensures (BitsValue(bits) / Pow2(|bits| - 1 - k)) % 2 == if bits[k] then 1 else 0
  {
    BitsOfBitsValue(bits);
    BitsAt(BitsValue(bits), |bits|, k);
  }

  /** Bit `j` of the stream is bit `j % 5` of value `j / 5`. */
  lemma {:induction false} BitStreamAt(vs: seq<int>, j: nat)
    requires AreFiveBit(vs) && j < 5 * |vs|
    ensures BitStream(vs)[j] == Bits(vs[j / 5], 5)[j % 5]
    decreases |vs|
  {
    var init := vs[..|vs| - 1];
    if j < 5 * |init| {
      BitStreamAt(init, j);
    }
  }

  /** Bit `k` of `Bits(v, width)`, counted from the most significant end. */
  lemma {:induction false} BitsAt(v: nat, width: nat, k: nat)
    requires k < width
    ensures Bits(v, width)[k] == ((v / Pow2(width - 1 - k)) % 2 == 1)
    decreases width
  {
    if k < width - 1 {
      BitsAt(v / 2, width - 1, k);
      DivDiv(v, 2, Pow2(width - 2 - k));
    }
  }

  /** Reading a bit string's value back as bits gives the string. */
  lemma {:induction false} BitsOfBitsValue(bits: seq<bool>)
    ensures Bits(BitsValue(bits), |bits|) == bits
    decreases |bits|
  {
    if |bits| > 0 {
      var init := bits[..|bits| - 1];
      BitsOfBitsValue(init);
      assert bits == init + [bits[|bits| - 1]];
    }
  }

  /* ---------------------------------------------------------------------- */
  /* Arithmetic on bit strings                                               */

  lemma {:induction false} BitsValueBound(bits: seq<bool>)
    ensures BitsValue(bits) < Pow2(|bits|)
    decreases |bits|
  {
    if |bits| > 0 {
      BitsValueBound(bits[..|bits| - 1]);
    }
  }

  lemma {:induction false} BitsValueAppend(a: seq<bool>, b: seq<bool>)
    ensures BitsValue(a + b) == BitsValue(a) * Pow2(|b|) + BitsValue(b)
    decreases |b|
  {
    if |b| == 0 {
      assert a + b == a;
    } else {
      var b' := b[..|b| - 1];
      var last := if b[|b| - 1] then 1 else 0;
      AppendInit(a, b);
      assert BitsValue(a + b) == 2 * BitsValue(a + b') + last;
      assert BitsValue(b) == 2 * BitsValue(b') + last;
      BitsValueAppend(a, b');
      var x, p, y := BitsValue(a), Pow2(|b'|), BitsValue(b');
      assert Pow2(|b|) == 2 * p;
      TwiceShifted(x, p, y, last);
    }
  }

  lemma TwiceShifted(x: int, p: int, y: int, last: int)
    ensures 2 * (x * p + y) + last == x * (2 * p) + (2 * y + last)
  {
  }

  lemma AppendInit<T>(a: seq<T>, b: seq<T>)
    requires |b| > 0
    ensures (a + b)[..|a + b| - 1] == a + b[..|b| - 1]
    ensures (a + b)[|a + b| - 1] == b[|b| - 1]
  {
  }

  lemma {:induction false} BitsOfValue(v: nat, width: nat)
    requires v < Pow2(width)
    ensures BitsValue(Bits(v, width)) == v
    decreases width
  {
    if width > 0 {
      var init := Bits(v / 2, width - 1);
      assert (init + [v % 2 == 1])[..width - 1] == init;
      BitsOfValue(v / 2, width - 1);
    }
  }

  /** Wrapping to 32 bits keeps every bit below the 32nd. */
  lemma WrapModPow2(x: int, j: nat)
    requires j <= 32
    ensures WrapInt(x) % Pow2(j) == x % Pow2(j)
  {
    var q := (x + 0x8000_0000) / 0x1_0000_0000;
    DivMod(x + 0x8000_0000, 0x1_0000_0000);
    assert WrapInt(x) == x - q * 0x1_0000_0000;
    var D, E := Pow2(j), Pow2(32 - j);
    Pow2Add(j, 32 - j);
    Pow2Table();
    MulAssoc(q, E, D);
    assert WrapInt(x) == x + (-(q * E)) * D;
    ModShift(x, -(q * E), D);
  }


  /** What the loop keeps: the buffer fits in an `Int`, fewer than eight bits
      are pending, the bytes emitted so far are the packed bit stream, and the
      low bits of the buffer hold the pending bits. */
  predicate DecoderState(buffer: int, bitsLeft: int, bits: seq<bool>, bytes: seq<byte>) {
    && IsInt(buffer)
    && 0 <= bitsLeft < 8
    && |bits| == 8 * |bytes| + bitsLeft
    && bytes == Packed(bits)
    && buffer % Pow2(bitsLeft) == BitsValue(bits[8 * |bytes|..])
  }

  /** The loop invariant after `k` characters of `c`. */
  predicate Decoding(c: string, k: int, buffer: int, bitsLeft: int, bytes: seq<byte>) {
    && 0 <= k <= |c|
    && IsBase32(c[..k])
    && DecoderState(buffer, bitsLeft, BitStream(Values(c[..k])), bytes)
  }

  /** The invariant holds before the first character. */
  lemma DecodingStart(c: string)
    ensures Decoding(c, 0, 0, 0, [])
  {
    assert c[..0] == [];
    assert BitStream(Values(c[..0])) == [];
  }

  /** An iteration that completes a byte keeps the invariant. */
  lemma DecodingEmit(c: string, k: int, buffer: int, bitsLeft: int, bytes: seq<byte>,
                     buffer': int, bitsLeft': int)
    requires Decoding(c, k, buffer, bitsLeft, bytes) && k < |c| && ValueOf(c[k]) != -1
    requires buffer' == WrapInt(buffer * 32) + ValueOf(c[k]) && bitsLeft + 5 >= 8 && bitsLeft' == bitsLeft - 3
    ensures Decoding(c, k + 1, buffer', bitsLeft', bytes + [ToByte(buffer' / Pow2(bitsLeft'))])
  {
    StreamStep(c, k);
    var bits := BitStream(Values(c[..k]));
    var v := ValueOf(c[k]);
    EmitLoopStep(buffer, bitsLeft, bits, bytes, v, buffer', bitsLeft');
  }

  /** An iteration that leaves fewer than eight bits pending keeps the invariant. */
  lemma DecodingPlain(c: string, k: int, buffer: int, bitsLeft: int, bytes: seq<byte>,
                      buffer': int, bitsLeft': int)
    requires Decoding(c, k, buffer, bitsLeft, bytes) && k < |c| && ValueOf(c[k]) != -1
    requires buffer' == WrapInt(buffer * 32) + ValueOf(c[k]) && bitsLeft + 5 < 8 && bitsLeft' == bitsLeft + 5
    ensures Decoding(c, k + 1, buffer', bitsLeft', bytes)
  {
    StreamStep(c, k);
    var bits := BitStream(Values(c[..k]));
    var v := ValueOf(c[k]);
    PlainLoopStep(buffer, bitsLeft, bits, bytes, v, buffer', bitsLeft');
  }

  /** A character outside the alphabet makes the cleaned input undecodable. */
  lemma UnknownCharFails(c: string, k: int)
    requires 0 <= k < |c| && ValueOf(c[k]) == -1
    ensures !IsBase32(c)
  {
  }

  /** After the last character the loop has packed the whole stream. */
  lemma DecodingDone(c: string, buffer: int, bitsLeft: int, bytes: seq<byte>)
    requires Decoding(c, |c|, buffer, bitsLeft, bytes)
    ensures IsBase32(c) && bytes == Packed(BitStream(Values(c)))
  {
    assert c[..|c|] == c;
  }

  /** An iteration that leaves fewer than eight bits pending keeps the invariant. */
  lemma PlainLoopStep(buffer: int, bitsLeft: nat, bits: seq<bool>, bytes: seq<byte>, v: int,
                      buffer': int, bitsLeft': int)
    requires DecoderState(buffer, bitsLeft, bits, bytes) && 0 <= v < 32 && bitsLeft + 5 < 8
    requires buffer' == WrapInt(buffer * 32) + v && bitsLeft' == bitsLeft + 5
    ensures DecoderState(buffer', bitsLeft', bits + Bits(v, 5), bytes)
  {
    PendingStep(buffer, bitsLeft, bits, bytes, v);
    assert |bits| % 8 == bitsLeft by { DivModUnique(|bits|, 8, |bytes|, bitsLeft); }
    PackedStep(bits, Bits(v, 5));
  }

  /** An iteration that completes a byte emits it and keeps the invariant. */
  lemma EmitLoopStep(buffer: int, bitsLeft: nat, bits: seq<bool>, bytes: seq<byte>, v: int,
                     buffer': int, bitsLeft': int)
    requires DecoderState(buffer, bitsLeft, bits, bytes) && 0 <= v < 32 && bitsLeft + 5 >= 8
    requires buffer' == WrapInt(buffer * 32) + v && bitsLeft' == bitsLeft + 5 - 8
    ensures DecoderState(buffer', bitsLeft', bits + Bits(v, 5), bytes + [ToByte(buffer' / Pow2(bitsLeft'))])
  {
    PendingStep(buffer, bitsLeft, bits, bytes, v);
    EmitWindow(buffer', bitsLeft, bits, Bits(v, 5), bytes);
  }

  /** The pending bits after one more character, as the buffer holds them. */
  lemma PendingStep(buffer: int, bitsLeft: nat, bits: seq<bool>, bytes: seq<byte>, v: int)
    requires DecoderState(buffer, bitsLeft, bits, bytes) && 0 <= v < 32
    ensures IsInt(WrapInt(buffer * 32) + v)
    ensures (WrapInt(buffer * 32) + v) % Pow2(bitsLeft + 5) == BitsValue((bits + Bits(v, 5))[8 * |bytes|..])
  {
    var leftover := bits[8 * |bytes|..];
    BufferStep(buffer, bitsLeft, leftover, v);
    assert (bits + Bits(v, 5))[8 * |bytes|..] == leftover + Bits(v, 5);
  }

  /** Five more bits on top of at least three pending ones complete a byte. */
  lemma EmitWindow(x: int, m: nat, bits: seq<bool>, extra: seq<bool>, bytes: seq<byte>)
    requires |extra| == 5 && 3 <= m < 8 && |bits| == 8 * |bytes| + m && bytes == Packed(bits)
    requires x % Pow2(m + 5) == BitsValue((bits + extra)[8 * |bytes|..])
    ensures Packed(bits + extra) == bytes + [ToByte(x / Pow2(m - 3))]
    ensures x % Pow2(m - 3) == BitsValue((bits + extra)[8 * (|bytes| + 1)..])
  {
    assert |bits| % 8 == m && |bits| / 8 == |bytes| by { DivModUnique(|bits|, 8, |bytes|, m); }
    PackedStep(bits, extra);
    EmitStep(x, bits + extra, bytes, (bits + extra)[8 * |bytes|..]);
  }

  /** The byte emitted when eight bits are pending, and the bits left over. */
  lemma EmitStep(x: int, bits: seq<bool>, bytes: seq<byte>, window: seq<bool>)
    requires 8 * |bytes| + 8 <= |bits| && window == bits[8 * |bytes|..]
    requires x % Pow2(|window|) == BitsValue(window)
    ensures ToByte(x / Pow2(|window| - 8)) == ByteOf(bits[8 * |bytes|..8 * |bytes| + 8])
    ensures x % Pow2(|window| - 8) == BitsValue(bits[8 * (|bytes| + 1)..])
  {
    EmitByte(x, window);
    assert window[..8] == bits[8 * |bytes|..8 * |bytes| + 8];
    assert bits[8 * (|bytes| + 1)..] == window[8..];
  }

  /** One character: the low `m + 5` bits of the new buffer are the old
      leftover bits followed by the character's five bits. */
  lemma BufferStep(buffer: int, m: nat, leftover: seq<bool>, v: int)
    requires IsInt(buffer) && m < 8 && |leftover| == m && 0 <= v < 32
    requires buffer % Pow2(m) == BitsValue(leftover)
    ensures IsInt(WrapInt(buffer * 32) + v)
    ensures (WrapInt(buffer * 32) + v) % Pow2(m + 5) == BitsValue(leftover + Bits(v, 5))
  {
    var y := WrapInt(buffer * 32);
    var P := Pow2(m + 5);
    ShiftFits(buffer, v);
    ShiftLowBits(buffer, m);
    WrapModPow2(buffer * 32, m + 5);
    assert y % P == (buffer % Pow2(m)) * 32;
    Pow2Add(m, 5);
    Pow2Table();
    DivModUnique(P, 32, Pow2(m), 0);
    AddLowBits(y, P, buffer % Pow2(m), v);
    BitsOfValue(v, 5);
    Pow2Table();
    BitsValueAppend(leftover, Bits(v, 5));
  }

  /** `buffer shl 5` is a multiple of 32 that fits in an `Int`, so adding a
      5-bit value cannot overflow. */
  lemma ShiftFits(buffer: int, v: int)
    requires 0 <= v < 32
    ensures IsInt(WrapInt(buffer * 32) + v)
  {
    var y := WrapInt(buffer * 32);
    Pow2Table();
    WrapModPow2(buffer * 32, 5);
    ModShift(0, buffer, 32);
    DivMod(y, 32);
  }

  /** The low `m + 5` bits of `buffer * 32` are the low `m` bits of `buffer`, shifted. */
  lemma ShiftLowBits(buffer: int, m: nat)
    requires m < 8
    ensures (buffer * 32) % Pow2(m + 5) == (buffer % Pow2(m)) * 32
  {
    var P := Pow2(m + 5);
    Pow2Add(m, 5);
    Pow2Table();
    var a, R := buffer / Pow2(m), buffer % Pow2(m);
    DivMod(buffer, Pow2(m));
    MulAddDistrib(a, Pow2(m), 32, R);
    assert buffer * 32 == R * 32 + a * P;
    ModShift(R * 32, a, P);
    DivModUnique(R * 32, P, 0, R * 32);
  }

  /** Adding `v` to a number whose low bits are `R * 32` sets the low five bits to `v`. */
  lemma AddLowBits(y: int, P: int, R: int, v: int)
    requires P > 0 && 0 <= R && R * 32 < P && P % 32 == 0 && 0 <= v < 32
    requires y % P == R * 32
    ensures (y + v) % P == R * 32 + v
  {
    DivMod(y, P);
    DivMod(P, 32);
    assert R * 32 + v < P;
    DivModUnique(y + v, P, y / P, R * 32 + v);
  }

  /** Eight bits available: the emitted byte is the top eight of them and the
      remainder keeps the rest. */
  lemma EmitByte(x: int, window: seq<bool>)
    requires |window| >= 8 && x % Pow2(|window|) == BitsValue(window)
    ensures ToByte(x / Pow2(|window| - 8)) == BitsValue(window[..8])
    ensures x % Pow2(|window| - 8) == BitsValue(window[8..])
  {
    var M := |window|;
    var P := Pow2(M - 8);
    var H, R := BitsValue(window[..8]), BitsValue(window[8..]);
    assert window == window[..8] + window[8..];
    BitsValueAppend(window[..8], window[8..]);
    BitsValueBound(window[..8]);
    BitsValueBound(window[8..]);
    assert Pow2(8) == 256;
    Pow2Add(8, M - 8);
    HighLow(x, P, H, R);
  }

  /** The bit stream of one more character. */
  lemma StreamStep(c: string, k: nat)
    requires k < |c| && IsBase32(c[..k]) && c[k] in Alphabet
    ensures IsBase32(c[..k + 1])
    ensures BitStream(Values(c[..k + 1])) == BitStream(Values(c[..k])) + Bits(ValueOf(c[k]), 5)
  {
    assert c[..k + 1][..k] == c[..k];
    assert Values(c[..k + 1])[..k] == Values(c[..k]);
  }

  /** Appending five bits to a stream with fewer than eight leftover bits
      completes at most one more byte. */
  lemma PackedStep(bits: seq<bool>, extra: seq<bool>)
    requires |extra| == 5
    ensures |bits| % 8 + 5 < 8 ==> Packed(bits + extra) == Packed(bits)
    ensures |bits| % 8 + 5 >= 8 ==>
      Packed(bits + extra) == Packed(bits) + [ByteOf((bits + extra)[8 * (|bits| / 8)..8 * (|bits| / 8) + 8])]
  {
    var all := bits + extra;
    forall i | 0 <= i < |bits| / 8
      ensures all[8 * i..8 * i + 8] == bits[8 * i..8 * i + 8]
    {
    }
  }
}
