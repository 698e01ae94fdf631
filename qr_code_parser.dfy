/**
  `QRCodeParser`: reading an `otpauth://totp/...` provisioning URI, as a QR code
  carries it, into an `OTPAuthUri` record. The URI is split by hand into
  scheme, host, path and query; the query is split into percent-decoded
  key/value pairs; the path is the label, `issuer:account` or `account`.

  Percent-decoding works in two stages: a table of 33 escapes is replaced
  entry by entry, ignoring case, and then every remaining `%XX` is decoded
  through a signed byte. Both stages are modelled as written, including the
  double decoding of `%25` and the sign extension of bytes from 0x80 up.
 */
module QrCodeParser {
  import opened KotlinLang

  /** `OTPAuthUri`, with the defaults of its constructor. */
  datatype OtpAuthUri = OtpAuthUri(
    secret: string,
    issuer: Option<string>,
    accountName: Option<string>,
    algorithm: string,
    digits: int,
    period: int)

  const DefaultAlgorithm: string := "SHA1"
  const DefaultDigits: int := 6
  const DefaultPeriod: int := 30

  /* ---------------------------------------------------------------------- */
  /* Splitting the URI                                                       */

  /** `ParsedUri`: each part is absent when the splitter does not find it. */
  datatype UriParts = UriParts(
    scheme: Option<string>,
    host: Option<string>,
    path: Option<string>,
    query: Option<string>)

  /** `parseUri`: the scheme ends at the first `://`; the query starts after
      the first `?` that follows it; the host runs up to the first `/` before
      that, and the path is the rest, `/` included. */
  function ParseUri(uri: string): UriParts {
    var schemeEnd := IndexOf(uri, "://");
    if schemeEnd == -1 then UriParts(None, None, None, None)
    else SplitAfterScheme(uri[..schemeEnd], uri[schemeEnd + 3..])
  }

  /** The host, path and query of what follows the `://`. */
  function SplitAfterScheme(scheme: string, remaining: string): UriParts {
    var queryStart := IndexOfChar(remaining, '?');
    var pathAndHost := if queryStart != -1 then remaining[..queryStart] else remaining;
    var query := if queryStart != -1 then Some(remaining[queryStart + 1..]) else None;
    var pathStart := IndexOfChar(pathAndHost, '/');
    var host := if pathStart != -1 then pathAndHost[..pathStart] else pathAndHost;
    var path := if pathStart != -1 then Some(pathAndHost[pathStart..]) else None;
    UriParts(Some(scheme), Some(host), path, query)
  }

  function OrEmpty(s: Option<string>): string {
    if s.Some? then s.value else ""
  }

  /** Without a `://` every part is absent. */
  lemma ParseUriWithoutSeparator(uri: string)
    requires forall j :: !OccursAt(uri, "://", j)
    ensures ParseUri(uri) == UriParts(None, None, None, None)
  {
  }

  /** With a `://` the parts put back together give the URI: the scheme holds
      no `://`, the host no `/` or `?`, the path starts with `/` and holds no
      `?`. */
  lemma ParseUriReassembles(uri: string, j: int)
    requires OccursAt(uri, "://", j)
    ensures var p := ParseUri(uri);
      && p.scheme.Some? && p.host.Some?
      && uri == p.scheme.value + "://" + p.host.value + OrEmpty(p.path) + QuerySuffix(p.query)
      && (forall i :: !OccursAt(p.scheme.value, "://", i))
      && '/' !in p.host.value && '?' !in p.host.value
      && (p.path.Some? ==> |p.path.value| > 0 && p.path.value[0] == '/' && '?' !in p.path.value)
  {
    var n := IndexOf(uri, "://");
    var scheme, rest := uri[..n], uri[n + 3..];
    assert uri == scheme + "://" + rest by {
      assert uri[n..n + 3] == "://";
      assert uri == uri[..n] + uri[n..n + 3] + uri[n + 3..];
    }
    SchemeHasNoSeparator(uri, n);
    RestReassembles(scheme, rest);
    var p := SplitAfterScheme(scheme, rest);
    assert ParseUri(uri) == p;
    var h, x, y := p.host.value, OrEmpty(p.path), QuerySuffix(p.query);
    assert uri == scheme + "://" + (h + x + y);
    ConcatAssoc(scheme + "://", h, x, y);
  }

  lemma ConcatAssoc<T>(a: seq<T>, b: seq<T>, c: seq<T>, d: seq<T>)
    ensures a + (b + c + d) == a + b + c + d
  {
  }

  /** The scheme ends at the first `://`, so it holds none. */
  lemma SchemeHasNoSeparator(uri: string, n: int)
    requires n == IndexOf(uri, "://") && n >= 0
    ensures forall i :: !OccursAt(uri[..n], "://", i)
  {
    forall i | OccursAt(uri[..n], "://", i) ensures false {
      assert uri[..n][i..i + 3] == uri[i..i + 3];
      assert OccursAt(uri, "://", i);
    }
  }

  /** What follows the `://` is the host, the path and `?` with the query. */
  lemma RestReassembles(scheme: string, remaining: string)
    ensures var p := SplitAfterScheme(scheme, remaining);
      && p.host.Some?
      && remaining == p.host.value + OrEmpty(p.path) + QuerySuffix(p.query)
      && '/' !in p.host.value && '?' !in p.host.value
      && (p.path.Some? ==> |p.path.value| > 0 && p.path.value[0] == '/' && '?' !in p.path.value)
  {
    var queryStart := IndexOfChar(remaining, '?');
    var pathAndHost := if queryStart != -1 then remaining[..queryStart] else remaining;
    var query := if queryStart != -1 then Some(remaining[queryStart + 1..]) else None;
    QuerySplit(remaining, queryStart, pathAndHost, query);
    var pathStart := IndexOfChar(pathAndHost, '/');
    var host := if pathStart != -1 then pathAndHost[..pathStart] else pathAndHost;
    var path := if pathStart != -1 then Some(pathAndHost[pathStart..]) else None;
    PathSplit(pathAndHost, pathStart, host, path);
  }

  /** Cutting at the first `?` loses only the `?`. */
  lemma QuerySplit(remaining: string, queryStart: int, pathAndHost: string, query: Option<string>)
    requires queryStart == IndexOfChar(remaining, '?')
    requires pathAndHost == if queryStart != -1 then remaining[..queryStart] else remaining
    requires query == if queryStart != -1 then Some(remaining[queryStart + 1..]) else None
    ensures remaining == pathAndHost + QuerySuffix(query)
  {
    if queryStart != -1 {
      assert remaining == remaining[..queryStart] + "?" + remaining[queryStart + 1..];
    } else {
      assert remaining + "" == remaining;
    }
  }

  /** Cutting at the first `/` loses nothing. */
  lemma PathSplit(pathAndHost: string, pathStart: int, host: string, path: Option<string>)
    requires pathStart == IndexOfChar(pathAndHost, '/')
    requires host == if pathStart != -1 then pathAndHost[..pathStart] else pathAndHost
    requires path == if pathStart != -1 then Some(pathAndHost[pathStart..]) else None
    ensures pathAndHost == host + OrEmpty(path)
  {
    if pathStart != -1 {
      assert pathAndHost == pathAndHost[..pathStart] + pathAndHost[pathStart..];
    } else {
      assert pathAndHost + "" == pathAndHost;
    }
  }

  /** `?` and the query, or nothing. */
  function QuerySuffix(query: Option<string>): string {
    if query.Some? then "?" + query.value else ""
  }

  /* ---------------------------------------------------------------------- */
  /* Percent-decoding                                                        */

  /** An entry of the decoding table: `%` `hi` `lo` stands for `decoded`. */
  datatype Escape = Escape(hi: char, lo: char, decoded: char)

  function Encoded(e: Escape): string {
    ['%', e.hi, e.lo]
  }

  /** The decoding table, in the order of its `mapOf`, which iteration keeps. */
  const DecodingTable: seq<Escape> := [
    Escape('2', '0', ' '), Escape('2', '1', '!'), Escape('2', '2', '"'),
    Escape('2', '3', '#'), Escape('2', '4', '$'), Escape('2', '5', '%'),
    Escape('2', '6', '&'), Escape('2', '7', '\''), Escape('2', '8', '('),
    Escape('2', '9', ')'), Escape('2', 'A', '*'), Escape('2', 'B', '+'),
    Escape('2', 'C', ','), Escape('2', 'D', '-'), Escape('2', 'E', '.'),
    Escape('2', 'F', '/'), Escape('3', 'A', ':'), Escape('3', 'B', ';'),
    Escape('3', 'C', '<'), Escape('3', 'D', '='), Escape('3', 'E', '>'),
    Escape('3', 'F', '?'), Escape('4', '0', '@'), Escape('5', 'B', '['),
    Escape('5', 'C', '\\'), Escape('5', 'D', ']'), Escape('5', 'E', '^'),
    Escape('5', 'F', '_'), Escape('6', '0', '`'), Escape('7', 'B', '{'),
    Escape('7', 'C', '|'), Escape('7', 'D', '}'), Escape('7', 'E', '~')
  ]

  /** The escape `e` starts `s`, letters compared ignoring case. */
  predicate EscapeAt(s: string, e: Escape) {
    |s| >= 3 && s[0] == '%' && EqualsIgnoreCase(s[1], e.hi) && EqualsIgnoreCase(s[2], e.lo)
  }

  /** `replace(encoded, decoded, ignoreCase = true)` for one table entry:
      occurrences are found left to right and do not overlap. */
  function ReplaceEscape(s: string, e: Escape): string
    decreases |s|
  {
    if |s| < 3 then s
    else if EscapeAt(s, e) then [e.decoded] + ReplaceEscape(s[3..], e)
    else [s[0]] + ReplaceEscape(s[1..], e)
  }

  /** The string after the first `n` table entries have been replaced. */
  function ApplyTable(s: string, n: nat): string
    requires n <= |DecodingTable|
  {
    if n == 0 then s else ReplaceEscape(ApplyTable(s, n - 1), DecodingTable[n - 1])
  }

  /** `[0-9A-Fa-f]`. */
  predicate IsHexDigit(c: char) {
    DigitValue(c) < 16
  }

  /** `hexValue.toInt(16)` for two hex digits. */
  function HexValue(hi: char, lo: char): (v: nat)
    requires IsHexDigit(hi) && IsHexDigit(lo)
    ensures v < 256
  {
    DigitValue(hi) * 16 + DigitValue(lo)
  }

  /** `toByte().toInt().toChar()`: the byte is read as signed, and `toChar`
      keeps the low sixteen bits of the negative value, so a byte `v` from
      0x80 up becomes the character `v + 0xFF00`. */
  function ByteChar(v: nat): (c: char)
    requires v < 256
  {
    var signed := SignedByte(v);
    ((signed + 0x1_0000) % 0x1_0000) as char
  }

  /** The regex pass: every `%` followed by two hex digits, left to right and
      without overlap, becomes the character of that byte. */
  function HexPass(s: string): string
    decreases |s|
  {
    if |s| == 0 then s
    else if |s| >= 3 && s[0] == '%' && IsHexDigit(s[1]) && IsHexDigit(s[2]) then
      [ByteChar(HexValue(s[1], s[2]))] + HexPass(s[3..])
    else [s[0]] + HexPass(s[1..])
  }

  /** What `urlDecode` computes. */
  function UrlDecoded(s: string): string {
    HexPass(ApplyTable(s, |DecodingTable|))
  }

  /** `urlDecode`: the table entries replaced one after another, then the
      regex pass. */
  method UrlDecode(encoded: string) returns (result: string)
    ensures result == UrlDecoded(encoded)
  {
    result := encoded;
    for k := 0 to |DecodingTable|
      invariant result == ApplyTable(encoded, k)
    {
      result := ReplaceEscape(result, DecodingTable[k]);
    }
    result := HexPass(result);
  }

  /** A byte below 0x80 is its own character; from 0x80 up it is sign-extended
      to a character in U+FF80..U+FFFF. */
  lemma ByteCharValue(v: nat)
    requires v < 256
    ensures v < 128 ==> ByteChar(v) as int == v
    ensures v >= 128 ==> ByteChar(v) as int == v + 0xFF00
  {
  }

  /** Every table entry decodes to the character its hex digits name, so the
      table agrees with the regex pass on each escape taken alone. */
  lemma TableAgreesWithHexPass()
    ensures forall k :: 0 <= k < |DecodingTable| ==>
      var e := DecodingTable[k];
      IsHexDigit(e.hi) && IsHexDigit(e.lo) && e.decoded == ByteChar(HexValue(e.hi, e.lo))
  {
    assert forall k :: 0 <= k < |DecodingTable| ==> DecodesToItsValue(DecodingTable[k]);
    forall k | 0 <= k < |DecodingTable|
      ensures var e := DecodingTable[k];
        IsHexDigit(e.hi) && IsHexDigit(e.lo) && e.decoded == ByteChar(HexValue(e.hi, e.lo))
    {
      var e := DecodingTable[k];
      ByteCharValue(HexValue(e.hi, e.lo));
    }
  }

  predicate DecodesToItsValue(e: Escape) {
    IsHexDigit(e.hi) && IsHexDigit(e.lo) && e.decoded as int == HexValue(e.hi, e.lo) < 128
  }

  lemma {:induction false} ReplaceEscapeNoPercent(s: string, e: Escape)
    requires '%' !in s
    ensures ReplaceEscape(s, e) == s
    decreases |s|
  {
    if |s| >= 3 {
      assert s == [s[0]] + s[1..];
      ReplaceEscapeNoPercent(s[1..], e);
      assert s == [s[0]] + s[1..];
    }
  }

  lemma {:induction false} ApplyTableNoPercent(s: string, n: nat)
    requires n <= |DecodingTable| && '%' !in s
    ensures ApplyTable(s, n) == s
  {
    if n > 0 {
      ApplyTableNoPercent(s, n - 1);
      ReplaceEscapeNoPercent(s, DecodingTable[n - 1]);
    }
  }

  lemma {:induction false} HexPassNoPercent(s: string)
    requires '%' !in s
    ensures HexPass(s) == s
    decreases |s|
  {
    if |s| > 0 {
      assert s == [s[0]] + s[1..];
      HexPassNoPercent(s[1..]);
      assert s == [s[0]] + s[1..];
    }
  }

  /** A string without `%` decodes to itself. */
  lemma UrlDecodedNoPercent(s: string)
    requires '%' !in s
    ensures UrlDecoded(s) == s
  {
    ApplyTableNoPercent(s, |DecodingTable|);
    HexPassNoPercent(s);
  }

  /* Every entry but `%25` only anticipates the regex pass. */

  /** The `%25` entry, the one whose replacement can start a new escape. */
  const PercentEscape: Escape := Escape('2', '5', '%')

  /** An entry whose replacement is neither `%` nor a hex digit, and is what
      the regex pass gives its digits. */
  predicate PlainEntry(e: Escape) {
    && IsHexDigit(e.hi) && IsHexDigit(e.lo) && e.decoded == ByteChar(HexValue(e.hi, e.lo))
    && e.decoded != '%' && !IsHexDigit(e.decoded)
  }

  /** Entry 5 is `%25`, and every other entry is plain. */
  lemma PlainEntries()
    ensures DecodingTable[5] == PercentEscape
    ensures forall k :: 0 <= k < |DecodingTable| && k != 5 ==> PlainEntry(DecodingTable[k])
  {
    TableAgreesWithHexPass();
    assert forall k :: 0 <= k < |DecodingTable| && k != 5 ==>
      DecodingTable[k].decoded != '%' && !IsHexDigit(DecodingTable[k].decoded);
  }

  /** A hex digit matched ignoring case has the same value. */
  lemma IgnoreCaseDigit(c: char, h: char)
    requires IsHexDigit(h) && EqualsIgnoreCase(c, h)
    ensures IsHexDigit(c) && DigitValue(c) == DigitValue(h)
  {
  }

  /** A character other than `%` passes the regex pass unchanged. */
  lemma HexPassLead(c: char, r: string)
    requires c != '%'
    ensures HexPass([c] + r) == [c] + HexPass(r)
  {
    assert ([c] + r)[1..] == r;
  }

  /** A leading hex digit is never part of a replaced escape. */
  lemma ReplaceEscapeHexLead(t: string, e: Escape)
    requires |t| > 0 && IsHexDigit(t[0])
    ensures ReplaceEscape(t, e) == [t[0]] + ReplaceEscape(t[1..], e)
  {
    assert t == [t[0]] + t[1..];
  }

  /** A plain entry never puts a hex digit in front of a text that does not
      start with one. */
  lemma ReplaceEscapePlainLead(t: string, e: Escape)
    requires PlainEntry(e) && |t| > 0 && !IsHexDigit(t[0])
    ensures |ReplaceEscape(t, e)| > 0 && !IsHexDigit(ReplaceEscape(t, e)[0])
  {
  }

  /** For every input, a plain entry leaves the result of the regex pass
      unchanged: each escape it replaces is one the regex pass would have
      replaced by the same character, and it creates no escape and removes
      none. */
  lemma {:induction false} HexPassReplacePlain(s: string, e: Escape)
    requires PlainEntry(e)
    ensures HexPass(ReplaceEscape(s, e)) == HexPass(s)
    decreases |s|
  {
    if |s| >= 3 {
      if EscapeAt(s, e) {
        IgnoreCaseDigit(s[1], e.hi);
        IgnoreCaseDigit(s[2], e.lo);
        HexPassReplacePlain(s[3..], e);
        HexPassLead(e.decoded, ReplaceEscape(s[3..], e));
      } else if s[0] != '%' {
        HexPassReplacePlain(s[1..], e);
        HexPassLead(s[0], ReplaceEscape(s[1..], e));
      } else if IsHexDigit(s[1]) && IsHexDigit(s[2]) {
        ReplaceEscapeHexLead(s[1..], e);
        ReplaceEscapeHexLead(s[2..], e);
        HexPassReplacePlain(s[3..], e);
        var r := ReplaceEscape(s[3..], e);
        var x := ReplaceEscape(s, e);
        assert x == ['%', s[1], s[2]] + r by {
          assert s[1..][1..] == s[2..] && s[2..][1..] == s[3..];
        }
        assert x[3..] == r;
      } else {
        HexPassReplacePlain(s[1..], e);
        var x := ReplaceEscape(s, e);
        assert x == ['%'] + ReplaceEscape(s[1..], e);
        if IsHexDigit(s[1]) {
          ReplaceEscapeHexLead(s[1..], e);
          assert s[1..][1..] == s[2..];
          ReplaceEscapePlainLead(s[2..], e);
        } else {
          ReplaceEscapePlainLead(s[1..], e);
        }
        assert x[1..] == ReplaceEscape(s[1..], e);
      }
    }
  }

  /** No `%25` anywhere. */
  predicate NoPercentEscape(s: string) {
    forall i :: 0 <= i < |s| ==> !EscapeAt(s[i..], PercentEscape)
  }

  /** Putting `c` in front of a text without `%25` makes none unless `c` is
      `%` and the text starts with `25`. */
  lemma ConsNoPercentEscape(c: char, r: string)
    requires NoPercentEscape(r)
    requires c == '%' ==> !(|r| >= 2 && r[0] == '2' && r[1] == '5')
    ensures NoPercentEscape([c] + r)
  {
    var x := [c] + r;
    forall i | 0 <= i < |x| ensures !EscapeAt(x[i..], PercentEscape) {
      if i > 0 {
        assert x[i..] == r[i - 1..];
      } else if c == '%' && |x| >= 3 {
        assert x[0..][1] == r[0] && x[0..][2] == r[1];
      }
    }
  }

  /** Without `%25` the `%25` entry changes nothing. */
  lemma {:induction false} ReplacePercentAbsent(s: string)
    requires NoPercentEscape(s)
    ensures ReplaceEscape(s, PercentEscape) == s
    decreases |s|
  {
    if |s| >= 3 {
      assert s[0..] == s;
      assert NoPercentEscape(s[1..]) by {
        forall i | 0 <= i < |s[1..]| ensures !EscapeAt(s[1..][i..], PercentEscape) {
          assert s[1..][i..] == s[i + 1..];
        }
      }
      ReplacePercentAbsent(s[1..]);
      assert s == [s[0]] + s[1..];
    }
  }

  /** The suffixes of a text without `%25` have none. */
  lemma NoPercentEscapeSuffix(s: string, n: nat)
    requires NoPercentEscape(s) && n <= |s|
    ensures NoPercentEscape(s[n..])
  {
    forall i | 0 <= i < |s[n..]| ensures !EscapeAt(s[n..][i..], PercentEscape) {
      assert s[n..][i..] == s[n + i..];
    }
  }

  /** A plain entry never creates a `%25`. */
  lemma {:induction false} ReplacePlainKeepsNoPercent(s: string, e: Escape)
    requires PlainEntry(e) && NoPercentEscape(s)
    ensures NoPercentEscape(ReplaceEscape(s, e))
    decreases |s|
  {
    if |s| >= 3 {
      if EscapeAt(s, e) {
        NoPercentEscapeSuffix(s, 3);
        ReplacePlainKeepsNoPercent(s[3..], e);
        ConsNoPercentEscape(e.decoded, ReplaceEscape(s[3..], e));
      } else {
        NoPercentEscapeSuffix(s, 1);
        ReplacePlainKeepsNoPercent(s[1..], e);
        var r := ReplaceEscape(s[1..], e);
        if s[0] == '%' {
          assert s[0..] == s;
          if IsHexDigit(s[1]) {
            ReplaceEscapeHexLead(s[1..], e);
            assert s[1..][1..] == s[2..];
            if |s[2..]| > 0 && s[1] == '2' {
              if IsHexDigit(s[2]) {
                ReplaceEscapeHexLead(s[2..], e);
              } else {
                ReplaceEscapePlainLead(s[2..], e);
              }
            }
          } else {
            ReplaceEscapePlainLead(s[1..], e);
          }
        }
        ConsNoPercentEscape(s[0], r);
      }
    }
  }

  /** Without `%25`, the table changes neither the result of the regex pass
      nor the absence of `%25`. */
  lemma {:induction false} ApplyTableNoPercentEscape(s: string, n: nat)
    requires n <= |DecodingTable| && NoPercentEscape(s)
    ensures HexPass(ApplyTable(s, n)) == HexPass(s) && NoPercentEscape(ApplyTable(s, n))
  {
    if n > 0 {
      ApplyTableNoPercentEscape(s, n - 1);
      PlainEntries();
      var t := ApplyTable(s, n - 1);
      if n - 1 == 5 {
        ReplacePercentAbsent(t);
      } else {
        HexPassReplacePlain(t, DecodingTable[n - 1]);
        ReplacePlainKeepsNoPercent(t, DecodingTable[n - 1]);
      }
    }
  }

  /** Without `%25`, decoding is the single regex pass: every `%XX`, in the
      table or not, becomes the character of byte `XX`, and nothing else
      changes. */
  lemma UrlDecodedIsHexPass(s: string)
    requires NoPercentEscape(s)
    ensures UrlDecoded(s) == HexPass(s)
  {
    ApplyTableNoPercentEscape(s, |DecodingTable|);
  }

  /** Entries `lo` to `n - 1`, none of them `%25`, leave the regex pass's
      result unchanged. */
  lemma {:induction false} ApplyTablePlainFrom(s: string, lo: nat, n: nat)
    requires lo <= n <= |DecodingTable| && (5 < lo || n <= 5)
    ensures HexPass(ApplyTable(s, n)) == HexPass(ApplyTable(s, lo))
    decreases n
  {
    if n > lo {
      ApplyTablePlainFrom(s, lo, n - 1);
      PlainEntries();
      HexPassReplacePlain(ApplyTable(s, n - 1), DecodingTable[n - 1]);
    }
  }

  /** For every input, the table's only effect on the result is its `%25`
      entry: the five entries before it do not change what the regex pass
      gives, and the ones after it do not change the result. So only `%25`
      can create an escape that a later entry or the regex pass then
      decodes. */
  lemma UrlDecodedCascade(s: string)
    ensures HexPass(ApplyTable(s, 5)) == HexPass(s)
    ensures UrlDecoded(s) == HexPass(ReplaceEscape(ApplyTable(s, 5), PercentEscape))
  {
    ApplyTablePlainFrom(s, 0, 5);
    ApplyTablePlainFrom(s, 6, |DecodingTable|);
    PlainEntries();
  }

  /** An entry that does not match where the only `%` stands leaves the text
      alone. */
  lemma ReplaceEscapeOther(s: string, e: Escape)
    requires |s| > 0 && '%' !in s[1..] && !EscapeAt(s, e)
    ensures ReplaceEscape(s, e) == s
  {
    ReplaceEscapeNoPercent(s[1..], e);
    assert s == [s[0]] + s[1..];
  }

  /** Once the first `lo` entries have produced a `t` that no later entry up
      to `hi` matches, those entries leave it alone. */
  lemma {:induction false} ApplyTableStable(s: string, t: string, lo: nat, hi: nat)
    requires lo <= hi <= |DecodingTable| && |t| > 0 && '%' !in t[1..]
    requires ApplyTable(s, lo) == t
    requires forall k :: lo <= k < hi ==> !EscapeAt(t, DecodingTable[k])
    ensures ApplyTable(s, hi) == t
    decreases hi
  {
    if hi > lo {
      ApplyTableStable(s, t, lo, hi - 1);
      ReplaceEscapeOther(t, DecodingTable[hi - 1]);
    }
  }

  /** `%2541` decodes twice: the table turns `%25` into `%`, and the regex
      pass then reads `%41` as `A`. */
  lemma UrlDecodeDoubleEscape(s: string)
    requires s == "%2541"
    ensures UrlDecoded(s) == "A"
  {
    var t := PercentTwentyFive(s);
    PercentFortyOneStays(s, t);
    PercentFortyOne(t);
  }

  /** The first six entries turn `%2541` into `%41`. */
  lemma PercentTwentyFive(s: string) returns (t: string)
    requires s == "%2541"
    ensures t == "%41" && ApplyTable(s, 6) == t
  {
    assert '%' !in s[1..];
    assert forall k :: 0 <= k < 5 ==> !EscapeAt(s, DecodingTable[k]);
    ApplyTableStable(s, s, 0, 5);
    var e := DecodingTable[5];
    assert e.decoded == '%' && EscapeAt(s, e);
    t := ['%'] + s[3..];
    assert ApplyTable(s, 6) == t by {
      assert ReplaceEscape(s, e) == [e.decoded] + ReplaceEscape(s[3..], e);
    }
  }

  /** No later entry matches `%41`. */
  lemma PercentFortyOneStays(s: string, t: string)
    requires t == "%41" && ApplyTable(s, 6) == t
    ensures ApplyTable(s, |DecodingTable|) == t
  {
    assert forall k :: 6 <= k < |DecodingTable| ==> !EscapeAt(t, DecodingTable[k]);
    ApplyTableStable(s, t, 6, |DecodingTable|);
  }

  /** The regex pass reads `%41` as `A`. */
  lemma PercentFortyOne(t: string)
    requires t == "%41"
    ensures HexPass(t) == "A"
  {
    assert HexValue(t[1], t[2]) == 65;
    assert HexPass(t) == [ByteChar(65)] + HexPass(t[3..]);
  }

  /** `%3a` is an escape of the table, matched ignoring case: it decodes to
      `:`. */
  lemma UrlDecodeIgnoresCase(s: string)
    requires s == "%3a"
    ensures UrlDecoded(s) == ":"
  {
    var t := PercentThreeA(s);
    ApplyTableRest(s, t, 17);
    HexPassNoPercent(t);
  }

  /** The first seventeen entries turn `%3a` into `:`, the sixteenth once its
      `a` is read as `A`. */
  lemma PercentThreeA(s: string) returns (t: string)
    requires s == "%3a"
    ensures t == ":" && ApplyTable(s, 17) == t
  {
    assert '%' !in s[1..];
    assert forall k :: 0 <= k < 16 ==> !EscapeAt(s, DecodingTable[k]);
    ApplyTableStable(s, s, 0, 16);
    var e := DecodingTable[16];
    assert e.decoded == ':' && EscapeAt(s, e);
    t := [':'];
    assert ApplyTable(s, 17) == t by {
      assert ReplaceEscape(s, e) == [e.decoded] + ReplaceEscape(s[3..], e);
    }
  }

  /** Once the text has no `%`, the remaining entries leave it alone. */
  lemma {:induction false} ApplyTableRest(s: string, t: string, lo: nat)
    requires lo <= |DecodingTable| && '%' !in t && ApplyTable(s, lo) == t
    ensures ApplyTable(s, |DecodingTable|) == t
  {
    ApplyTableRestTo(s, t, lo, |DecodingTable|);
  }

  lemma {:induction false} ApplyTableRestTo(s: string, t: string, lo: nat, hi: nat)
    requires lo <= hi <= |DecodingTable| && '%' !in t && ApplyTable(s, lo) == t
    ensures ApplyTable(s, hi) == t
    decreases hi
  {
    if hi > lo {
      ApplyTableRestTo(s, t, lo, hi - 1);
      ReplaceEscapeNoPercent(t, DecodingTable[hi - 1]);
    }
  }

  /** The regex pass on a byte from 0x80 up: `%C3` becomes U+FFC3, not the
      Latin-1 character U+00C3. */
  lemma HexPassSignExtends()
    ensures HexPass("%C3") == [0xFFC3 as char]
  {
    assert HexValue('C', '3') == 195;
    assert HexPass("%C3"[3..]) == "";
  }

  /* ---------------------------------------------------------------------- */
  /* Query parameters                                                        */

  /** The key/value pair of one `&`-separated piece: `split("=", limit = 2)`,
      both halves decoded, and no pair when there is no `=`. */
  function QueryPair(piece: string): (r: Option<(string, string)>)
    ensures r.None? <==> '=' !in piece
  {
    match SplitFirst(piece, '=')
    case None => None
    case Some((key, value)) => Some((UrlDecoded(key), UrlDecoded(value)))
  }

  /** `parseQueryParameters`: the pieces between `&`s, those with a pair
      kept in order, and a map in which a later pair overwrites an earlier one. */
  function ParseQueryParameters(query: string): map<string, string> {
    ToMap(MapNotNull(PairOf, Split(query, '&')))
  }

  /** `QueryPair` as the function `mapNotNull` applies. */
  const PairOf: string -> Option<(string, string)> := QueryPair

  /** The piece holds a `=` and its decoded key is `key`. */
  predicate GivesKey(piece: string, key: string) {
    QueryPair(piece).Some? && QueryPair(piece).value.0 == key
  }

  /** The keys are exactly the decoded keys of the pieces that hold a `=`;
      a piece without one is dropped. */
  lemma {:induction false} ParseQueryParametersKeys(query: string, key: string)
    ensures key in ParseQueryParameters(query) ==>
      exists i :: 0 <= i < |Split(query, '&')| && GivesKey(Split(query, '&')[i], key)
    ensures (exists i :: 0 <= i < |Split(query, '&')| && GivesKey(Split(query, '&')[i], key)) ==>
      key in ParseQueryParameters(query)
  {
    KeysOfPieces(Split(query, '&'), key);
  }

  lemma {:induction false} KeysOfPieces(pieces: seq<string>, key: string)
    ensures key in ToMap(MapNotNull(PairOf, pieces)) <==>
      exists i :: 0 <= i < |pieces| && GivesKey(pieces[i], key)
  {
    var pairs := MapNotNull(PairOf, pieces);
    ToMapKeys(pairs, key);
    if key in ToMap(pairs) {
      var j :| 0 <= j < |pairs| && pairs[j].0 == key;
      MapNotNullMember(PairOf, pieces, pairs[j]);
      var i :| 0 <= i < |pieces| && QueryPair(pieces[i]) == Some(pairs[j]);
      assert GivesKey(pieces[i], key);
    }
    if i :| 0 <= i < |pieces| && GivesKey(pieces[i], key) {
      var pair := QueryPair(pieces[i]).value;
      MapNotNullMember(PairOf, pieces, pair);
      assert pair in pairs;
      var j :| 0 <= j < |pairs| && pairs[j] == pair;
      assert pairs[j].0 == key;
    }
  }

  /** For a repeated key the last piece that gives it wins. */
  lemma {:induction false} ParseQueryParametersLastWins(query: string, j: int, key: string, value: string)
    requires 0 <= j < |Split(query, '&')| && QueryPair(Split(query, '&')[j]) == Some((key, value))
    requires forall i :: j < i < |Split(query, '&')| ==> !GivesKey(Split(query, '&')[i], key)
    ensures key in ParseQueryParameters(query) && ParseQueryParameters(query)[key] == value
  {
    LastPieceWins(Split(query, '&'), j, key, value);
  }

  lemma {:induction false} LastPieceWins(pieces: seq<string>, j: int, key: string, value: string)
    requires 0 <= j < |pieces| && QueryPair(pieces[j]) == Some((key, value))
    requires forall i :: j < i < |pieces| ==> !GivesKey(pieces[i], key)
    ensures var m := ToMap(MapNotNull(PairOf, pieces)); key in m && m[key] == value
  {
    var before, after := pieces[..j + 1], pieces[j + 1..];
    assert pieces == before + after;
    MapNotNullAppend(PairOf, before, after);
    var a, b := MapNotNull(PairOf, before), MapNotNull(PairOf, after);
    assert a == MapNotNull(PairOf, pieces[..j]) + [(key, value)] by {
      assert before[..j] == pieces[..j] && before[j] == pieces[j];
    }
    var pairs := a + b;
    forall i | |a| - 1 < i < |pairs| ensures pairs[i].0 != key {
      var pair := b[i - |a|];
      MapNotNullMember(PairOf, after, pair);
      var m :| 0 <= m < |after| && QueryPair(after[m]) == Some(pair);
      assert after[m] == pieces[j + 1 + m];
    }
    ToMapLastWins(pairs, |a| - 1);
  }

  /* ---------------------------------------------------------------------- */
  /* The provisioning URI                                                    */

  /** The query parameters of the split URI; a missing query counts as `""`. */
  function UriParameters(parts: UriParts): map<string, string> {
    ParseQueryParameters(OrEmpty(parts.query))
  }

  /** The label with its leading `/` removed, when there is a path. */
  function Label(parts: UriParts): Option<string> {
    if parts.path.Some? then Some(RemovePrefix(parts.path.value, "/")) else None
  }

  /** `(pathIssuer, accountName)`: the label is split at its first `:` before
      either half is decoded. */
  function LabelParts(name: Option<string>): (Option<string>, Option<string>) {
    match name
    case None => (None, None)
    case Some(l) =>
      match SplitFirst(l, ':')
      case Some((issuer, account)) => (Some(UrlDecoded(issuer)), Some(UrlDecoded(account)))
      case None => (None, Some(UrlDecoded(l)))
  }

  /** `params[key]?.toIntOrNull() ?: default`. */
  function IntParameter(params: map<string, string>, key: string, default: int): int {
    if key in params && ToIntOrNull(params[key], 10).Some? then ToIntOrNull(params[key], 10).value
    else default
  }

  /** `parseOTPAuthUri`. Nothing in its body throws, so its `catch` is never
      taken. */
  function ParseOtpAuthUri(uri: string): Option<OtpAuthUri> {
    var parts := ParseUri(uri);
    if parts.scheme != Some("otpauth") || parts.host != Some("totp") then None
    else
      var params := UriParameters(parts);
      if "secret" !in params then None
      else
        var (pathIssuer, accountName) := LabelParts(Label(parts));
        Some(OtpAuthUri(
          params["secret"],
          if "issuer" in params then Some(params["issuer"]) else pathIssuer,
          accountName,
          if "algorithm" in params then params["algorithm"] else DefaultAlgorithm,
          IntParameter(params, "digits", DefaultDigits),
          IntParameter(params, "period", DefaultPeriod)))
  }

  /** `isValidOTPAuthUri`: the URI parses exactly when its scheme is
      `otpauth`, its host `totp` and its query has a `secret`. */
  predicate IsValidOtpAuthUri(uri: string): (valid: bool)
    ensures valid <==>
      var parts := ParseUri(uri);
      parts.scheme == Some("otpauth") && parts.host == Some("totp") && "secret" in UriParameters(parts)
  {
    ParseOtpAuthUri(uri).Some?
  }

  /** A URI without `://` is rejected. */
  lemma ParseWithoutSeparator(uri: string)
    requires forall j :: !OccursAt(uri, "://", j)
    ensures ParseOtpAuthUri(uri) == None
  {
    ParseUriWithoutSeparator(uri);
  }

  /** The secret, the algorithm, the digits and the period of a parsed URI:
      the secret is the decoded query value, whatever its alphabet; a missing
      algorithm is `SHA1`; a missing or non-integer `digits` or `period` falls
      back to 6 or 30. */
  lemma ParsedParameters(uri: string)
    requires ParseOtpAuthUri(uri).Some?
    ensures var r, params := ParseOtpAuthUri(uri).value, UriParameters(ParseUri(uri));
      && r.secret == params["secret"]
      && ("algorithm" !in params ==> r.algorithm == "SHA1")
      && ("algorithm" in params ==> r.algorithm == params["algorithm"])
      && (("digits" !in params || ToIntOrNull(params["digits"], 10).None?) ==> r.digits == 6)
      && ("digits" in params && ToIntOrNull(params["digits"], 10).Some? ==>
            r.digits == ToIntOrNull(params["digits"], 10).value)
      && (("period" !in params || ToIntOrNull(params["period"], 10).None?) ==> r.period == 30)
      && ("period" in params && ToIntOrNull(params["period"], 10).Some? ==>
            r.period == ToIntOrNull(params["period"], 10).value)
  {
  }

  /** A query `issuer` wins over the label's; without one the issuer is the
      decoded text before the label's first `:`, or absent. */
  lemma IssuerPrecedence(uri: string)
    requires ParseOtpAuthUri(uri).Some?
    ensures var r, parts := ParseOtpAuthUri(uri).value, ParseUri(uri);
      var params := UriParameters(parts);
      && ("issuer" in params ==> r.issuer == Some(params["issuer"]))
      && ("issuer" !in params ==> r.issuer == LabelParts(Label(parts)).0)
  {
  }

  /** A label `issuer:account`, split at its first `:`, gives both halves
      decoded. */
  lemma LabelWithColon(uri: string, issuer: string, account: string)
    requires ParseOtpAuthUri(uri).Some?
    requires ParseUri(uri).path == Some("/" + issuer + ":" + account) && ':' !in issuer
    ensures var r := ParseOtpAuthUri(uri).value;
      && r.accountName == Some(UrlDecoded(account))
      && ("issuer" !in UriParameters(ParseUri(uri)) ==> r.issuer == Some(UrlDecoded(issuer)))
  {
    LabelSplit(issuer, account);
  }

  lemma LabelSplit(issuer: string, account: string)
    requires ':' !in issuer
    ensures LabelParts(Some(RemovePrefix("/" + issuer + ":" + account, "/")))
      == (Some(UrlDecoded(issuer)), Some(UrlDecoded(account)))
  {
    var name := issuer + ":" + account;
    assert "/" + issuer + ":" + account == "/" + name;
    assert RemovePrefix("/" + name, "/") == name;
    SplitFirstUnique(name, ':', issuer, account);
  }

  /** Without a `:` in the label (an escaped `%3A` included) there is no
      label issuer and the account is the whole decoded label. */
  lemma LabelWithoutColon(uri: string, name: string)
    requires ParseOtpAuthUri(uri).Some?
    requires ParseUri(uri).path == Some("/" + name) && ':' !in name
    ensures var r := ParseOtpAuthUri(uri).value;
      && r.accountName == Some(UrlDecoded(name))
      && ("issuer" !in UriParameters(ParseUri(uri)) ==> r.issuer == None)
  {
    assert RemovePrefix("/" + name, "/") == name;
  }

  /** Without a path the account and the label issuer are absent. */
  lemma NoPathNoAccount(uri: string)
    requires ParseOtpAuthUri(uri).Some? && ParseUri(uri).path.None?
    ensures ParseOtpAuthUri(uri).value.accountName.None?
  {
  }

  /** `SplitFirst` cuts at the first separator. */
  lemma SplitFirstUnique(s: string, sep: char, a: string, b: string)
    requires s == a + [sep] + b && sep !in a
    ensures SplitFirst(s, sep) == Some((a, b))
  {
    var r := SplitFirst(s, sep);
    assert s[|a|] == sep;
    assert sep in s;
    var x := r.value.0;
    assert x == s[..|a|] == a;
    assert r.value.1 == s[|a| + 1..] == b;
  }
}
