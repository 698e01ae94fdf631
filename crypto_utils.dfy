/**
  The two helpers of `CryptoUtils` that do not call into the cryptography
  library: `hexStringToByteArray`, which reads the stored encryption key back
  into bytes, and `generateRandomSecret`, which draws a fresh 32-character
  Base32 secret. The random source is an input: `draws` holds the successive
  results of `random.nextInt(32)`.
 */
module CryptoUtils {
  import opened KotlinLang
  import Base32

  /* ---------------------------------------------------------------------- */
  /* hexStringToByteArray                                                    */

  /** What `hexStringToByteArray` throws: the `require` failure (an
      `IllegalArgumentException` with `OddLengthMessage`) or the
      `NumberFormatException` of `toInt(16)` on the first bad pair. */
  datatype HexError = OddLength | NotHex(pair: string)

  const OddLengthMessage: string := "Hex string must have even length"

  /** `s.chunked(2)` for an even-length string. */
  function Chunked(s: string): (chunks: seq<string>)
    requires |s| % 2 == 0
  {
    seq(|s| / 2, i requires 0 <= i < |s| / 2 => s[2 * i..2 * i + 2])
  }

  /** `chunks.map { it.toInt(16).toByte() }`: the pairs are read in order, so
      the first one that is not a number is the one that throws. */
  function ParseChunks(chunks: seq<string>): (r: Result<seq<byte>, HexError>)
    ensures r.Success? ==> |r.value| == |chunks|
    ensures r.Failure? ==> r.error.NotHex?
  {
    if |chunks| == 0 then Success([])
    else
      match ToIntOrNull(chunks[0], 16)
      case None => Failure(NotHex(chunks[0]))
      case Some(v) =>
        match ParseChunks(chunks[1..])
        case Failure(e) => Failure(e)
        case Success(rest) => Success([ToByte(v)] + rest)
  }

  /** `hexStringToByteArray`: spaces removed, an even length required, then
      every pair of characters read as a signed radix-16 `Int` and kept as its
      low byte. */
  function HexStringToByteArray(hexString: string): Result<seq<byte>, HexError> {
    var clean := RemoveAll(hexString, ' ');
    if |clean| % 2 != 0 then Failure(OddLength)
    else ParseChunks(Chunked(clean))
  }

  /** Which chunks parse decides the outcome: success exactly when all of them
      do, each byte then being the low byte of its chunk's value; otherwise the
      failure names the first chunk that does not. */
  lemma {:induction false} ParseChunksMeaning(chunks: seq<string>)
    ensures ParseChunks(chunks).Success? <==>
      forall i :: 0 <= i < |chunks| ==> ToIntOrNull(chunks[i], 16).Some?
    ensures ParseChunks(chunks).Success? ==>
      forall i :: 0 <= i < |chunks| ==>
        ParseChunks(chunks).value[i] == ToByte(ToIntOrNull(chunks[i], 16).value)
    ensures ParseChunks(chunks).Failure? ==>
      exists i :: 0 <= i < |chunks| && ParseChunks(chunks).error == NotHex(chunks[i])
        && ToIntOrNull(chunks[i], 16).None?
        && forall j :: 0 <= j < i ==> ToIntOrNull(chunks[j], 16).Some?
    decreases |chunks|
  {
    if |chunks| > 0 {
      var tail := chunks[1..];
      ParseChunksMeaning(tail);
      assert forall i :: 1 <= i < |chunks| ==> chunks[i] == tail[i - 1];
      var r := ParseChunks(chunks);
      if ToIntOrNull(chunks[0], 16).Some? && ParseChunks(tail).Failure? {
        var i :| 0 <= i < |tail| && ParseChunks(tail).error == NotHex(tail[i])
          && ToIntOrNull(tail[i], 16).None?
          && forall j :: 0 <= j < i ==> ToIntOrNull(tail[j], 16).Some?;
        assert r.error == NotHex(chunks[i + 1]);
      }
    }
  }

  /** An odd number of non-space characters is the `require` failure, and
      nothing else is. */
  lemma HexStringOddLength(hexString: string)
    ensures HexStringToByteArray(hexString) == Failure(OddLength) <==>
      |RemoveAll(hexString, ' ')| % 2 == 1
  {
  }

  /** Pair `i` of the cleaned string is chunk `i`. */
  lemma ChunkedPairs(clean: string, i: int)
    requires |clean| % 2 == 0 && 0 <= i < |clean| / 2
    ensures |Chunked(clean)| == |clean| / 2 && Chunked(clean)[i] == clean[2 * i..2 * i + 2]
  {
  }

  /** Decoding succeeds exactly when the cleaned length is even and every pair
      of characters `2i`, `2i+1` parses in radix 16. */
  lemma HexStringSucceedsIff(hexString: string)
    ensures var clean := RemoveAll(hexString, ' ');
      HexStringToByteArray(hexString).Success? <==>
        |clean| % 2 == 0 && forall i :: 0 <= i < |clean| / 2 ==> ToIntOrNull(clean[2 * i..2 * i + 2], 16).Some?
  {
    var clean := RemoveAll(hexString, ' ');
    if |clean| % 2 == 0 {
      var chunks := Chunked(clean);
      ParseChunksMeaning(chunks);
      if ParseChunks(chunks).Success? {
        forall i | 0 <= i < |clean| / 2 ensures ToIntOrNull(clean[2 * i..2 * i + 2], 16).Some? {
          ChunkedPairs(clean, i);
        }
      } else {
        var i :| 0 <= i < |chunks| && ToIntOrNull(chunks[i], 16).None?;
        ChunkedPairs(clean, i);
      }
    }
  }

  /** On success there are half as many bytes as cleaned characters, and byte
      `i` is the low byte of the value of characters `2i` and `2i+1`. */
  lemma HexStringBytes(hexString: string, i: int)
    requires HexStringToByteArray(hexString).Success?
    ensures var clean := RemoveAll(hexString, ' ');
      |clean| % 2 == 0 && |HexStringToByteArray(hexString).value| == |clean| / 2
    ensures var clean := RemoveAll(hexString, ' ');
      0 <= i < |clean| / 2 ==>
        && ToIntOrNull(clean[2 * i..2 * i + 2], 16).Some?
        && HexStringToByteArray(hexString).value[i] == ToByte(ToIntOrNull(clean[2 * i..2 * i + 2], 16).value)
  {
    var clean := RemoveAll(hexString, ' ');
    var chunks := Chunked(clean);
    ParseChunksMeaning(chunks);
    if 0 <= i < |clean| / 2 {
      ChunkedPairs(clean, i);
    }
  }

  /** A space-free string whose pairs spell `values` decodes to their low bytes. */
  lemma HexStringOfPairs(s: string, values: seq<int>)
    requires ' ' !in s && |s| == 2 * |values|
    requires forall i :: 0 <= i < |values| ==> ToIntOrNull(s[2 * i..2 * i + 2], 16) == Some(values[i])
    ensures var r := HexStringToByteArray(s);
      r.Success? && |r.value| == |values| && forall i :: 0 <= i < |values| ==> r.value[i] == ToByte(values[i])
  {
    assert RemoveAll(s, ' ') == s;
    assert |s| % 2 == 0 && |s| / 2 == |values|;
    forall i | 0 <= i < |s| / 2 ensures ToIntOrNull(s[2 * i..2 * i + 2], 16).Some? {
      assert ToIntOrNull(s[2 * i..2 * i + 2], 16) == Some(values[i]);
    }
    HexStringSucceedsIff(s);
    var r := HexStringToByteArray(s);
    assert r.Success?;
    HexStringBytes(s, 0);
    forall i | 0 <= i < |values| ensures r.value[i] == ToByte(values[i]) {
      HexStringBytes(s, i);
    }
  }

  /** A space anywhere in the input is ignored. */
  lemma HexStringIgnoresSpaces(x: string, y: string)
    ensures HexStringToByteArray(x + " " + y) == HexStringToByteArray(x + y)
  {
    RemoveAllConcat(x + " ", y, ' ');
    RemoveAllConcat(x, " ", ' ');
    RemoveAllConcat(x, y, ' ');
    assert RemoveAll(" ", ' ') == "";
    assert RemoveAll(x + " " + y, ' ') == RemoveAll(x + y, ' ');
  }

  /** `toInt(16)` accepts a sign, so the pair `-1` is the byte `0xFF`. */
  lemma HexStringAcceptsSign(hexString: string)
    requires hexString == "-1"
    ensures HexStringToByteArray(hexString) == Success([255])
  {
    assert RemoveAll(hexString, ' ') == hexString;
    assert hexString[0..2] == hexString;
    assert Chunked(hexString) == [hexString];
    assert hexString[1..] == "1";
    assert DigitsValue("1", 16) == Some(1) by {
      assert ("1")[..0] == "";
    }
    assert ToIntOrNull(hexString, 16) == Some(-1);
    assert [hexString][1..] == [];
    assert ParseChunks([hexString]) == Success([ToByte(-1)] + []);
    assert [ToByte(-1)] + [] == [255];
  }

  /* ---------------------------------------------------------------------- */
  /* generateRandomSecret                                                    */

  const SecretLength: nat := 32

  const Characters: string := "ABCDEFGHIJKLMNOPQRSTUVWXYZ234567"

  /** Each draw is a result of `nextInt(bound)`. */
  predicate AreDraws(draws: seq<int>, bound: int) {
    forall i :: 0 <= i < |draws| ==> 0 <= draws[i] < bound
  }

  /** `(1..32).map { characters[random.nextInt(characters.length)] }.joinToString("")`,
      the `i`-th call of `nextInt` having returned `draws[i]`. */
  function GenerateRandomSecret(draws: seq<int>): string
    requires |draws| == SecretLength && AreDraws(draws, |Characters|)
  {
    seq(SecretLength, i requires 0 <= i < SecretLength => Characters[draws[i]])
  }

  /** The secret's characters are exactly the Base32 alphabet. */
  lemma CharactersAreBase32()
    ensures Characters == Base32.Alphabet
  {
  }

  /** A generated secret is 32 Base32 characters that spell the draws back, so
      Base32 decoding accepts it unchanged and yields the 160 drawn bits as
      20 bytes. */
  lemma RandomSecretDecodes(draws: seq<int>)
    requires |draws| == SecretLength && AreDraws(draws, |Characters|)
    ensures var secret := GenerateRandomSecret(draws);
      |secret| == SecretLength && Base32.IsBase32(secret) && Base32.Clean(secret) == secret
      && Base32.Values(secret) == draws
    ensures Base32.AreFiveBit(draws)
    ensures var decoded := Base32.Decode(GenerateRandomSecret(draws));
      decoded == Some(Base32.Packed(Base32.BitStream(draws))) && |decoded.value| == 20
  {
    var secret := GenerateRandomSecret(draws);
    CharactersAreBase32();
    assert Base32.IsBase32(secret) by {
      forall i | 0 <= i < |secret| ensures secret[i] in Base32.Alphabet {
        assert secret[i] == Base32.Alphabet[draws[i]];
      }
    }
    Base32.CleanBase32(secret);
    var vs := Base32.Values(secret);
    forall i | 0 <= i < |secret| ensures vs[i] == draws[i] {
      Base32.AlphabetCode(draws[i]);
      Base32.ValueOfCode(secret[i]);
      Base32.AlphabetCode(vs[i]);
    }
  }
}
