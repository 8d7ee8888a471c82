/** `decodeURIComponent` (section 19.2.6.2 of ECMA-262), which decodes
    with an empty set of reserved characters. `%XX` escapes are
    read as the bytes of one UTF-8 sequence, every other character is kept,
    and a malformed escape throws a `URIError` (here: `None`). The router
    applies it to each piece of a location's path before matching. */
module UriDecode {
  import opened Wrappers
  import AdLoader

  /** The value of a hexadecimal digit of either case. */
  function HexValue(c: char): (v: Option<nat>)
    ensures v.Some? <==> ('0' <= c <= '9') || ('a' <= c <= 'f') || ('A' <= c <= 'F')
    ensures v.Some? ==> v.value < 16
  {
    if '0' <= c <= '9' then Some(c as nat - '0' as nat)
    else if 'a' <= c <= 'f' then Some(c as nat - 'a' as nat + 10)
    else if 'A' <= c <= 'F' then Some(c as nat - 'A' as nat + 10)
    else None
  }

  /** The byte written as `%XX` at position `k`, if one is written there. */
  function EscapedByte(s: string, k: nat): (b: Option<nat>)
    ensures b.Some? ==> k + 3 <= |s| && s[k] == '%' && b.value < 256
  {
    if k + 3 <= |s| && s[k] == '%' && HexValue(s[k + 1]).Some? && HexValue(s[k + 2]).Some?
    then Some(16 * HexValue(s[k + 1]).value + HexValue(s[k + 2]).value)
    else None
  }

  /** The length of the UTF-8 sequence a byte starts: its number of leading
      one bits, except that `0xxxxxxx` stands alone; 0 when no sequence
      starts with it (a continuation byte, or five or more leading ones). */
  function SequenceLength(b: nat): (n: nat)
    ensures n <= 4
  {
    if b < 0x80 then 1
    else if 0xC0 <= b < 0xE0 then 2
    else if 0xE0 <= b < 0xF0 then 3
    else if 0xF0 <= b < 0xF8 then 4
    else 0
  }

  /** `n` escaped continuation bytes (`10xxxxxx`) from position `k` on. */
  function Continuations(s: string, k: nat, n: nat): (r: Option<seq<nat>>)
    requires k <= |s|
    ensures r.Some? ==> |r.value| == n && k + 3 * n <= |s|
    ensures r.Some? ==> forall i :: 0 <= i < n ==> 0x80 <= r.value[i] < 0xC0
    decreases n
  {
    if n == 0 then Some([])
    else match EscapedByte(s, k)
      case None => None
      case Some(b) =>
        if !(0x80 <= b < 0xC0) then None
        else match Continuations(s, k + 3, n - 1)
          case None => None
          case Some(more) => Some([b] + more)
  }

  /** The code point the payload bits of a lead byte and its continuation
      bytes spell. */
  function CodePoint(lead: int, more: seq<int>): int
    requires 1 <= |more| <= 3
  {
    if |more| == 1 then (lead - 0xC0) * 0x40 + (more[0] - 0x80)
    else if |more| == 2 then (lead - 0xE0) * 0x1000 + (more[0] - 0x80) * 0x40 + (more[1] - 0x80)
    else (lead - 0xF0) * 0x4_0000 + (more[0] - 0x80) * 0x1000 + (more[1] - 0x80) * 0x40 + (more[2] - 0x80)
  }

  /** A sequence of `n` bytes spelling `cp` is valid UTF-8: not overlong,
      not a surrogate, not beyond U+10FFFF. */
  predicate WellFormed(n: nat, cp: int) {
    if n == 2 then 0x80 <= cp
    else if n == 3 then 0x800 <= cp && !(0xD800 <= cp < 0xE000)
    else 0x1_0000 <= cp < 0x11_0000
  }

  /** The character an escape at the start of `s` stands for and the length
      of that escape; None where the escape is malformed. */
  function DecodeEscape(s: string): (r: Option<(char, nat)>)
    ensures r.Some? ==> 3 <= r.value.1 <= |s| && s[0] == '%'
  {
    match EscapedByte(s, 0)
    case None => None
    case Some(b) =>
      var n := SequenceLength(b);
      if n == 0 then None
      else if n == 1 then Some((b as char, 3))
      else match Continuations(s, 3, n - 1)
        case None => None
        case Some(more) =>
          var cp := CodePoint(b, more);
          if WellFormed(n, cp) then Some((cp as char, 3 * n)) else None
  }

  /** `decodeURIComponent(s)`, or None where it throws a `URIError`. */
  function DecodeUriComponent(s: string): (r: Option<string>)
    ensures r.Some? ==> |r.value| <= |s| && (r.value == "" <==> s == "")
    decreases |s|
  {
    if s == [] then Some("")
    else if s[0] != '%' then
      match DecodeUriComponent(s[1..])
      case None => None
      case Some(t) => Some([s[0]] + t)
    else match DecodeEscape(s)
      case None => None
      case Some(e) =>
        match DecodeUriComponent(s[e.1..])
        case None => None
        case Some(t) => Some([e.0] + t)
  }

  /** A string without `%` decodes to itself. */
  lemma {:induction false} DecodeUnescaped(s: string)
    requires '%' !in s
    ensures DecodeUriComponent(s) == Some(s)
    decreases |s|
  {
    if s != [] {
      assert s[0] in s;
      assert '%' !in s[1..] by {
        forall i | 0 <= i < |s[1..]| ensures s[1..][i] != '%' { assert s[1..][i] == s[i + 1]; }
      }
      DecodeUnescaped(s[1..]);
      assert [s[0]] + s[1..] == s;
    }
  }

  /** `decodeURIComponent` throws on a `%` without two hexadecimal digits
      and on a continuation byte that starts a sequence. */
  lemma MalformedEscapes()
    ensures DecodeUriComponent("%").None? && DecodeUriComponent("%4").None?
    ensures DecodeUriComponent("%80").None?
  {
    assert EscapedByte("%80", 0) == Some(0x80);
  }

  /** It throws on an overlong encoding (`%C0%80` for U+0000). */
  lemma OverlongThrows()
    ensures DecodeUriComponent("%C0%80").None?
  {
    var s := "%C0%80";
    assert EscapedByte(s, 0) == Some(0xC0) && EscapedByte(s, 3) == Some(0x80);
    ContinuationStep(s, 3, 1, 0x80, []);
    assert CodePoint(0xC0, [0x80]) == 0;
  }

  /** It throws on an encoded surrogate (`%ED%A0%80` for U+D800). */
  lemma SurrogateThrows()
    ensures DecodeUriComponent("%ED%A0%80").None?
  {
    var s := "%ED%A0%80";
    assert EscapedByte(s, 0) == Some(0xED) && EscapedByte(s, 3) == Some(0xA0) && EscapedByte(s, 6) == Some(0x80);
    var none, one: seq<nat> := [], [0x80];
    ContinuationStep(s, 6, 1, 0x80, none);
    assert [0x80] + none == one;
    ContinuationStep(s, 3, 2, 0xA0, one);
    assert CodePoint(0xED, [0xA0, 0x80]) == 0xD800;
  }

  lemma BeyondUnicodeBytes(s: string)
    requires s == "%F4%90%80%80"
    ensures EscapedByte(s, 0) == Some(0xF4) && EscapedByte(s, 3) == Some(0x90)
    ensures EscapedByte(s, 6) == Some(0x80) && EscapedByte(s, 9) == Some(0x80)
  {
    assert s[1] == 'F' && s[2] == '4' && s[4] == '9' && s[5] == '0';
    assert s[7] == '8' && s[8] == '0' && s[10] == '8' && s[11] == '0';
  }

  /** It throws beyond U+10FFFF (`%F4%90%80%80` for U+110000). */
  lemma BeyondUnicodeThrows()
    ensures DecodeUriComponent("%F4%90%80%80").None?
  {
    var s := "%F4%90%80%80";
    BeyondUnicodeBytes(s);
    var none, one, two: seq<nat> := [], [0x80], [0x80, 0x80];
    ContinuationStep(s, 9, 1, 0x80, none);
    assert [0x80] + none == one;
    ContinuationStep(s, 6, 2, 0x80, one);
    assert [0x80] + one == two;
    ContinuationStep(s, 3, 3, 0x90, two);
    assert CodePoint(0xF4, [0x90, 0x80, 0x80]) == 0x11_0000;
  }

  // ---------------------------------------------------------------------------
  // Decoding undoes encodeURIComponent

  lemma HexValueDigit(d: nat)
    requires d < 16
    ensures HexValue(AdLoader.HexDigits[d]) == Some(d)
  {
    assert AdLoader.HexDigits == ['0', '1', '2', '3', '4', '5', '6', '7', '8', '9', 'A', 'B', 'C', 'D', 'E', 'F'];
  }

  lemma HexDigitsOf(b: nat)
    requires b < 256
    ensures b / 16 < 16 && b % 16 < 16 && b == 16 * (b / 16) + b % 16
  {
  }

  /** The escape `encodeURIComponent` writes for `b` reads back as `b`. */
  lemma EscapedByteOf(s: string, k: nat, b: nat)
    requires b < 256 && k + 3 <= |s|
    requires var p := AdLoader.PercentByte(b); s[k] == p[0] && s[k + 1] == p[1] && s[k + 2] == p[2]
    ensures EscapedByte(s, k) == Some(b)
  {
    HexDigitsOf(b);
    HexValueDigit(b / 16);
    HexValueDigit(b % 16);
  }

  /** An escape reads the same after anything put in front of it. */
  lemma EscapedByteShift(p: string, t: string, k: nat)
    ensures EscapedByte(p + t, |p| + k) == EscapedByte(t, k)
  {
    if k + 3 <= |t| {
      var s := p + t;
      assert s[|p| + k] == t[k] && s[|p| + k + 1] == t[k + 1] && s[|p| + k + 2] == t[k + 2];
    }
  }

  /** An encoding followed by anything is its first escape followed by the
      rest. */
  lemma EncodingSplits(bytes: seq<nat>, rest: string)
    requires forall j :: 0 <= j < |bytes| ==> bytes[j] < 256
    requires bytes != []
    ensures AdLoader.PercentBytes(bytes) + rest
      == AdLoader.PercentByte(bytes[0]) + (AdLoader.PercentBytes(bytes[1..]) + rest)
  {
    var h, u := AdLoader.PercentByte(bytes[0]), AdLoader.PercentBytes(bytes[1..]);
    assert AdLoader.PercentBytes(bytes) == h + u;
    Associates(h, u, rest);
  }

  lemma Associates(a: string, b: string, c: string)
    ensures (a + b) + c == a + (b + c)
  {
  }

  /** Each `%XX` of an encoding, followed by anything, is the byte it was
      written for. */
  lemma {:induction false} EscapedBytes(bytes: seq<nat>, rest: string, i: nat)
    requires forall j :: 0 <= j < |bytes| ==> bytes[j] < 256
    requires i < |bytes|
    ensures EscapedByte(AdLoader.PercentBytes(bytes) + rest, 3 * i) == Some(bytes[i])
    decreases i
  {
    var head, tail := AdLoader.PercentByte(bytes[0]), bytes[1..];
    var t := AdLoader.PercentBytes(tail) + rest;
    EncodingSplits(bytes, rest);
    if i == 0 {
      EscapedByteOf(head + t, 0, bytes[0]);
    } else {
      EscapedBytes(tail, rest, i - 1);
      assert tail[i - 1] == bytes[i];
      EscapedByteShift(head, t, 3 * (i - 1));
    }
  }

  /** Escaped continuation bytes from position `3 * j` on are read back. */
  lemma {:induction false} ContinuationsOf(s: string, bytes: seq<nat>, j: nat)
    requires 3 * |bytes| <= |s| && 1 <= j <= |bytes|
    requires forall i :: j <= i < |bytes| ==> EscapedByte(s, 3 * i) == Some(bytes[i]) && 0x80 <= bytes[i] < 0xC0
    ensures Continuations(s, 3 * j, |bytes| - j) == Some(bytes[j..])
    decreases |bytes| - j
  {
    if j < |bytes| {
      ContinuationsOf(s, bytes, j + 1);
      assert 3 * (j + 1) == 3 * j + 3;
      ContinuationStep(s, 3 * j, |bytes| - j, bytes[j], bytes[j + 1..]);
      assert bytes[j..] == [bytes[j]] + bytes[j + 1..];
    } else {
      assert bytes[j..] == [];
    }
  }

  /** One more continuation byte in front of the rest. */
  lemma ContinuationStep(s: string, k: nat, n: nat, b: nat, more: seq<nat>)
    requires k <= |s| && n > 0
    requires EscapedByte(s, k) == Some(b) && 0x80 <= b < 0xC0
    requires Continuations(s, k + 3, n - 1) == Some(more)
    ensures Continuations(s, k, n) == Some([b] + more)
  {
  }

  lemma Spells2(cp: int)
    requires 0x80 <= cp < 0x800
    ensures var lead, b1 := 0xC0 + cp / 0x40, 0x80 + cp % 0x40;
      SequenceLength(lead) == 2 && 0x80 <= b1 < 0xC0 && CodePoint(lead, [b1]) == cp
  {
    assert cp == cp / 0x40 * 0x40 + cp % 0x40;
  }

  lemma Spells3(cp: int)
    requires 0x800 <= cp < 0x1_0000
    ensures var lead, b1, b2 := 0xE0 + cp / 0x1000, 0x80 + (cp / 0x40) % 0x40, 0x80 + cp % 0x40;
      SequenceLength(lead) == 3 && 0x80 <= b1 < 0xC0 && 0x80 <= b2 < 0xC0 && CodePoint(lead, [b1, b2]) == cp
  {
    assert cp / 0x40 == cp / 0x1000 * 0x40 + (cp / 0x40) % 0x40;
    assert cp == cp / 0x40 * 0x40 + cp % 0x40;
  }

  lemma Spells4(cp: int)
    requires 0x1_0000 <= cp < 0x11_0000
    ensures var lead, b1, b2, b3 := 0xF0 + cp / 0x4_0000, 0x80 + (cp / 0x1000) % 0x40, 0x80 + (cp / 0x40) % 0x40, 0x80 + cp % 0x40;
      && SequenceLength(lead) == 4 && 0x80 <= b1 < 0xC0 && 0x80 <= b2 < 0xC0 && 0x80 <= b3 < 0xC0
      && CodePoint(lead, [b1, b2, b3]) == cp
  {
    assert cp / 0x1000 == cp / 0x4_0000 * 0x40 + (cp / 0x1000) % 0x40;
    assert cp / 0x40 == cp / 0x1000 * 0x40 + (cp / 0x40) % 0x40;
    assert cp == cp / 0x40 * 0x40 + cp % 0x40;
  }

  /** The lead byte of a character's UTF-8 encoding announces its length,
      and the payload bits spell the character back. */
  lemma Utf8Spells(c: char)
    ensures var bytes := AdLoader.Utf8(c);
      && SequenceLength(bytes[0]) == |bytes|
      && (|bytes| == 1 ==> bytes[0] == c as int)
      && (|bytes| > 1 ==> CodePoint(bytes[0], bytes[1..]) == c as int && WellFormed(|bytes|, c as int))
      && forall i :: 1 <= i < |bytes| ==> 0x80 <= bytes[i] < 0xC0
  {
    var cp := c as int;
    var bytes := AdLoader.Utf8(c);
    if cp < 0x80 {
    } else if cp < 0x800 {
      Spells2(cp);
      assert bytes[1..] == [bytes[1]];
    } else if cp < 0x1_0000 {
      Spells3(cp);
      assert bytes[1..] == [bytes[1], bytes[2]];
    } else {
      Spells4(cp);
      assert bytes[1..] == [bytes[1], bytes[2], bytes[3]];
    }
  }

  /** The escapes written for one character decode to that character. */
  lemma EscapeOfChar(c: char, rest: string)
    ensures var head := AdLoader.PercentBytes(AdLoader.Utf8(c));
      DecodeEscape(head + rest) == Some((c, |head|))
  {
    var bytes := AdLoader.Utf8(c);
    var s := AdLoader.PercentBytes(bytes) + rest;
    Utf8Spells(c);
    forall i | 0 <= i < |bytes| ensures EscapedByte(s, 3 * i) == Some(bytes[i]) {
      EscapedBytes(bytes, rest, i);
    }
    if |bytes| > 1 {
      ContinuationsOf(s, bytes, 1);
    }
  }

  /** One step of decoding: a character kept, or an escape read. */
  lemma DecodeStep(s: string, c: char, len: nat, t: string)
    requires s != [] && 1 <= len <= |s|
    requires (s[0] != '%' && c == s[0] && len == 1) || DecodeEscape(s) == Some((c, len))
    requires DecodeUriComponent(s[len..]) == Some(t)
    ensures DecodeUriComponent(s) == Some([c] + t)
  {
  }

  /** What `encodeURIComponent` writes for one character, followed by the
      encoding of the rest, decodes to that character and the rest. */
  lemma HeadDecodes(c: char, rest: string, t: string)
    requires DecodeUriComponent(rest) == Some(t)
    ensures var head := if AdLoader.IsUnreserved(c) then [c] else AdLoader.PercentBytes(AdLoader.Utf8(c));
      DecodeUriComponent(head + rest) == Some([c] + t)
  {
    if AdLoader.IsUnreserved(c) {
      var e := [c] + rest;
      assert e[1..] == rest;
      DecodeStep(e, c, 1, t);
    } else {
      var head := AdLoader.PercentBytes(AdLoader.Utf8(c));
      var e := head + rest;
      EscapeOfChar(c, rest);
      assert e[|head|..] == rest;
      DecodeStep(e, c, |head|, t);
    }
  }

  /** `decodeURIComponent(encodeURIComponent(s)) == s`. */
  lemma {:induction false} DecodeEncode(s: string)
    ensures DecodeUriComponent(AdLoader.EncodeUriComponent(s)) == Some(s)
    decreases |s|
  {
    if s != [] {
      DecodeEncode(s[1..]);
      HeadDecodes(s[0], AdLoader.EncodeUriComponent(s[1..]), s[1..]);
      assert [s[0]] + s[1..] == s;
    }
  }
}
