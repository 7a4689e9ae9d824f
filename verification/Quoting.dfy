/** Quoted string keys, as printed by `toHCLQuotedString` in `internal/addrs/instance_key.go`, and
    a decoder for the quoted template literals of the HCL Native Syntax Specification, section
    "Template Expressions".

    Strings are sequences of Unicode scalar values. Which of them count as printable is a
    parameter, `isPrint`; the proofs only ever ask that it holds of `{`.
 */
module Quoting {
  import opened Addrs

  // ---------------------------------------------------------------- hexadecimal escapes

  const HEX_DIGITS := "0123456789abcdef"

  /** The last `width` hexadecimal digits of `n`, zero padded. */
  function Hex(n: nat, width: nat): (s: string)
    ensures |s| == width
  {
    if width == 0 then "" else Hex(n / 16, width - 1) + [HEX_DIGITS[n % 16]]
  }

  function DigitValue(c: char): Option<nat> {
    if '0' <= c <= '9' then Some((c as int - '0' as int) as nat)
    else if 'a' <= c <= 'f' then Some((c as int - 'a' as int + 10) as nat)
    else if 'A' <= c <= 'F' then Some((c as int - 'A' as int + 10) as nat)
    else None
  }

  function HexValue(s: string): Option<nat> {
    if s == "" then Some(0) else
    match (HexValue(s[..|s| - 1]), DigitValue(s[|s| - 1]))
    case (Some(high), Some(low)) => Some(16 * high + low)
    case _ => None
  }

  function Pow16(width: nat): nat {
    if width == 0 then 1 else 16 * Pow16(width - 1)
  }

  lemma HexDigit(d: nat)
    requires d < 16
    ensures DigitValue(HEX_DIGITS[d]) == Some(d)
  {
  }

  lemma AppendedDigit(high: string, digit: char)
    ensures HexValue(high + [digit]) ==
            if HexValue(high).Some? && DigitValue(digit).Some?
            then Some(16 * HexValue(high).value + DigitValue(digit).value)
            else None
  {
    assert (high + [digit])[..|high|] == high;
  }

  lemma {:induction false} HexRoundTrip(n: nat, width: nat)
    requires n < Pow16(width)
    ensures HexValue(Hex(n, width)) == Some(n)
  {
    if width > 0 {
      HexRoundTrip(n / 16, width - 1);
      HexDigit(n % 16);
      AppendedDigit(Hex(n / 16, width - 1), HEX_DIGITS[n % 16]);
    }
  }

  function CharOfCode(n: nat): Option<char> {
    if n < 0xd800 || 0xe000 <= n < 0x11_0000 then Some(n as char) else None
  }

  // ---------------------------------------------------------------- printing

  /** What is written for the first character of `s`; only a template introducer looks ahead. */
  function Chunk(s: string, isPrint: char -> bool): string
    requires s != ""
  {
    var c := s[0];
    match c
    case '\n' => "\\n"
    case '\r' => "\\r"
    case '\t' => "\\t"
    case '\"' => "\\\""
    case '\\' => "\\\\"
    case _ =>
      if c == '$' || c == '%' then (if |s| > 1 && s[1] == '{' then [c, c] else [c])
      else if isPrint(c) then [c]
      else if c as int < 0x1_0000 then "\\u" + Hex(c as int, 4)
      else "\\U" + Hex(c as int, 8)
  }

  function Escape(s: string, isPrint: char -> bool): string {
    if s == "" then "" else Chunk(s, isPrint) + Escape(s[1..], isPrint)
  }

  function Quoted(s: string, isPrint: char -> bool): string {
    "\"" + Escape(s, isPrint) + "\""
  }

  lemma {:induction false} EscapeSplit(s: string, i: nat, isPrint: char -> bool)
    requires i < |s|
    ensures Escape(s[i..], isPrint) == Chunk(s[i..], isPrint) + Escape(s[i + 1..], isPrint)
  {
    assert s[i..][1..] == s[i + 1..];
  }

  /** One turn of the printing loop: writes what stands for the rune at position `i`. */
  method WriteRune(buf: string, s: string, i: nat, isPrint: char -> bool) returns (r: string)
    requires i < |s|
    ensures r == buf + Chunk(s[i..], isPrint)
  {
    var c := s[i];
    match c {
      case '\n' => return buf + "\\n";
      case '\r' => return buf + "\\r";
      case '\t' => return buf + "\\t";
      case '\"' => return buf + "\\\"";
      case '\\' => return buf + "\\\\";
      case _ =>
        if c == '$' || c == '%' {
          r := buf + [c];
          var remain := s[i + 1..];
          if |remain| > 0 && remain[0] == '{' {
            r := r + [c];
            assert r == buf + [c, c];
          }
        } else if !isPrint(c) {
          if c as int < 65536 {
            return buf + ("\\u" + Hex(c as int, 4));
          } else {
            return buf + ("\\U" + Hex(c as int, 8));
          }
        } else {
          return buf + [c];
        }
    }
  }

  lemma Regroup(a: string, b: string, c: string)
    ensures (a + b) + c == a + (b + c)
  {
  }

  method ToHCLQuotedString(s: string, isPrint: char -> bool) returns (r: string)
    ensures r == Quoted(s, isPrint)
  {
    if |s| == 0 {
      return "\"\"";
    }
    var buf := "\"";
    assert s[0..] == s;
    for i := 0 to |s|
      invariant buf + Escape(s[i..], isPrint) == "\"" + Escape(s, isPrint)
    {
      EscapeSplit(s, i, isPrint);
      Regroup(buf, Chunk(s[i..], isPrint), Escape(s[i + 1..], isPrint));
      buf := WriteRune(buf, s, i, isPrint);
    }
    assert s[|s|..] == "";
    Regroup(buf, Escape("", isPrint), "\"");
    return buf + "\"";
  }

  /** A character that is written as it is: printable and neither a quote, a backslash nor the start of a template. */
  predicate IsPlain(s: string, i: int, isPrint: char -> bool)
    requires 0 <= i < |s|
  {
    && s[i] !in {'\n', '\r', '\t', '\"', '\\'}
    && (if s[i] == '$' || s[i] == '%' then i + 1 == |s| || s[i + 1] != '{' else isPrint(s[i]))
  }

  lemma ChunkLength(s: string, isPrint: char -> bool)
    requires s != ""
    ensures IsPlain(s, 0, isPrint) ==> Chunk(s, isPrint) == [s[0]]
    ensures !IsPlain(s, 0, isPrint) ==> |Chunk(s, isPrint)| > 1
  {
  }

  predicate AllPlain(s: string, isPrint: char -> bool) {
    forall i | 0 <= i < |s| :: IsPlain(s, i, isPrint)
  }

  lemma AllPlainFirst(s: string, isPrint: char -> bool)
    requires s != ""
    ensures AllPlain(s, isPrint) <==> IsPlain(s, 0, isPrint) && AllPlain(s[1..], isPrint)
  {
    forall i | 0 < i < |s| ensures IsPlain(s, i, isPrint) <==> IsPlain(s[1..], i - 1, isPrint) {
    }
    if AllPlain(s, isPrint) {
      forall i | 0 <= i < |s[1..]| ensures IsPlain(s[1..], i, isPrint) {
        assert IsPlain(s, i + 1, isPrint);
      }
    }
  }

  /** Escaping leaves a text alone exactly if every character is written as it is, and makes it longer otherwise. */
  lemma {:induction false} EscapeIsIdentity(s: string, isPrint: char -> bool)
    ensures AllPlain(s, isPrint) ==> Escape(s, isPrint) == s
    ensures !AllPlain(s, isPrint) ==> |Escape(s, isPrint)| > |s|
  {
    if s != "" {
      ChunkLength(s, isPrint);
      AllPlainFirst(s, isPrint);
      EscapeFirst(s, isPrint);
      EscapeIsIdentity(s[1..], isPrint);
      assert s == [s[0]] + s[1..];
    }
  }

  /** Quotes and backslashes get a backslash, line breaks and tabs their letters. */
  lemma SpecialChunks(rest: string, isPrint: char -> bool)
    ensures Chunk(['\"'] + rest, isPrint) == ['\\', '\"'] && Chunk(['\\'] + rest, isPrint) == ['\\', '\\']
    ensures Chunk(['\n'] + rest, isPrint) == ['\\', 'n']
    ensures Chunk(['\r'] + rest, isPrint) == ['\\', 'r'] && Chunk(['\t'] + rest, isPrint) == ['\\', 't']
  {
  }

  lemma EscapeFront(c: char, rest: string, isPrint: char -> bool)
    ensures Escape([c] + rest, isPrint) == Chunk([c] + rest, isPrint) + Escape(rest, isPrint)
  {
    assert ([c] + rest)[1..] == rest;
  }

  /** The escapes that the tests of the code fix, in front of any text: quotes and backslashes get a backslash, line
      breaks and tabs their letters, and only an introducer of a template is doubled. */
  lemma FixedEscapes(rest: string, isPrint: char -> bool)
    requires isPrint('{')
    ensures Escape(['\"'] + rest, isPrint) == ['\\', '\"'] + Escape(rest, isPrint)
    ensures Escape(['\\'] + rest, isPrint) == ['\\', '\\'] + Escape(rest, isPrint)
    ensures Escape(['\n'] + rest, isPrint) == ['\\', 'n'] + Escape(rest, isPrint)
    ensures Escape(['\r'] + rest, isPrint) == ['\\', 'r'] + Escape(rest, isPrint)
    ensures Escape(['\t'] + rest, isPrint) == ['\\', 't'] + Escape(rest, isPrint)
    ensures Escape(['$', '{'] + rest, isPrint) == ['$', '$', '{'] + Escape(rest, isPrint)
    ensures Escape(['%', '{'] + rest, isPrint) == ['%', '%', '{'] + Escape(rest, isPrint)
  {
    SpecialChunks(rest, isPrint);
    EscapeFront('\"', rest, isPrint);
    EscapeFront('\\', rest, isPrint);
    EscapeFront('\n', rest, isPrint);
    EscapeFront('\r', rest, isPrint);
    EscapeFront('\t', rest, isPrint);
    EscapedIntroducer(['$', '{'] + rest, isPrint);
    EscapedIntroducer(['%', '{'] + rest, isPrint);
    assert (['$', '{'] + rest)[2..] == rest && (['%', '{'] + rest)[2..] == rest;
  }

  // ---------------------------------------------------------------- decoding

  /** The character a backslash escape stands for, and how many characters the escape takes. */
  function DecodeEscape(t: string): Option<(char, nat)>
    requires |t| > 0 && t[0] == '\\'
    ensures DecodeEscape(t).Some? ==> 2 <= DecodeEscape(t).value.1 <= |t|
  {
    if |t| < 2 then None else
    match t[1]
    case 'n' => Some(('\n', 2))
    case 'r' => Some(('\r', 2))
    case 't' => Some(('\t', 2))
    case '\"' => Some(('\"', 2))
    case '\\' => Some(('\\', 2))
    case 'u' => DecodeHex(t, 4)
    case 'U' => DecodeHex(t, 8)
    case _ => None
  }

  function DecodeHex(t: string, width: nat): (r: Option<(char, nat)>)
    requires |t| >= 2
    ensures r.Some? ==> r.value.1 == 2 + width <= |t|
  {
    if |t| < 2 + width then None else
    match HexValue(t[2..2 + width])
    case None => None
    case Some(n) =>
      match CharOfCode(n)
      case None => None
      case Some(c) => Some((c, 2 + width))
  }

  /** Reads a template literal up to its closing quote; gives the literal and what follows the quote.
      An unescaped interpolation or directive is not a literal. */
  function DecodeBody(t: string): (r: Option<(string, string)>)
    ensures r.Some? ==> |r.value.1| < |t|
    decreases |t|
  {
    if t == "" then None
    else if t[0] == '\"' then Some(("", t[1..]))
    else if t[0] == '\n' then None
    else if t[0] == '\\' then
      match DecodeEscape(t)
      case None => None
      case Some((c, n)) => Prefixed([c], DecodeBody(t[n..]))
    else if t[0] == '$' || t[0] == '%' then
      if |t| >= 3 && t[1] == t[0] && t[2] == '{' then Prefixed([t[0], '{'], DecodeBody(t[3..]))
      else if |t| >= 2 && t[1] == '{' then None
      else Prefixed([t[0]], DecodeBody(t[1..]))
    else Prefixed([t[0]], DecodeBody(t[1..]))
  }

  function Prefixed(p: string, r: Option<(string, string)>): Option<(string, string)> {
    match r
    case None => None
    case Some((s, rest)) => Some((p + s, rest))
  }

  function DecodeQuoted(t: string): (r: Option<(string, string)>)
    ensures r.Some? ==> |r.value.1| + 1 < |t|
  {
    if t != "" && t[0] == '\"' then DecodeBody(t[1..]) else None
  }

  // ---------------------------------------------------------------- the printer has a left inverse

  /** An opening brace appears at the front of escaped text only where the string has one. */
  lemma FrontBrace(s: string, isPrint: char -> bool, rest: string)
    requires isPrint('{')
    ensures var t := Escape(s, isPrint) + "\"" + rest;
            t != "" && (t[0] == '{' <==> s != "" && s[0] == '{')
  {
  }

  lemma EscapeDecodes(c: char, width: nat, tail: string)
    requires width == (if c as int < 0x1_0000 then 4 else 8)
    ensures var t := (if width == 4 then "\\u" else "\\U") + Hex(c as int, width) + tail;
            DecodeEscape(t) == Some((c, 2 + width)) && t[2 + width..] == tail
  {
    var t := (if width == 4 then "\\u" else "\\U") + Hex(c as int, width) + tail;
    assert t[2..2 + width] == Hex(c as int, width);
    assert Pow16(4) == 0x1_0000 && Pow16(8) >= 0x11_0000 by {
      assert Pow16(2) == 256;
      assert Pow16(4) == 256 * Pow16(2);
      assert Pow16(6) == 256 * Pow16(4);
      assert Pow16(8) == 256 * Pow16(6);
    }
    HexRoundTrip(c as int, width);
  }

  /** What follows a lone introducer cannot be taken for the rest of an interpolation or its escape. */
  lemma NoFalseInterpolation(s: string, isPrint: char -> bool, rest: string, c: char)
    requires isPrint('{') && (c == '$' || c == '%') && (s == "" || s[0] != '{')
    ensures var t := Escape(s, isPrint) + "\"" + rest;
            t != "" && t[0] != '{' && !(|t| >= 2 && t[0] == c && t[1] == '{')
  {
    FrontBrace(s, isPrint, rest);
    if s != "" && s[0] == c {
      FrontBrace(s[1..], isPrint, rest);
      EscapeFirst(s, isPrint);
      Regroup4(Chunk(s, isPrint), Escape(s[1..], isPrint), "\"", rest);
    }
  }

  lemma EscapeFirst(s: string, isPrint: char -> bool)
    requires s != ""
    ensures Escape(s, isPrint) == Chunk(s, isPrint) + Escape(s[1..], isPrint)
  {
  }

  lemma BraceChunk(s: string, isPrint: char -> bool)
    requires isPrint('{') && s != "" && s[0] == '{'
    ensures Chunk(s, isPrint) == "{"
  {
  }

  lemma Doubled(c: char, tail: string)
    ensures [c, c] + ("{" + tail) == [c, c, '{'] + tail
  {
  }

  lemma EscapedIntroducer(s: string, isPrint: char -> bool)
    requires isPrint('{') && |s| > 1 && (s[0] == '$' || s[0] == '%') && s[1] == '{'
    ensures Escape(s, isPrint) == [s[0], s[0], '{'] + Escape(s[2..], isPrint)
  {
    assert s[1..][1..] == s[2..];
    EscapeFirst(s, isPrint);
    EscapeFirst(s[1..], isPrint);
    BraceChunk(s[1..], isPrint);
    Doubled(s[0], Escape(s[2..], isPrint));
  }

  lemma DoubledDecodes(c: char, tail: string)
    requires c == '$' || c == '%'
    ensures DecodeBody([c, c, '{'] + tail) == Prefixed([c, '{'], DecodeBody(tail))
  {
    var t := [c, c, '{'] + tail;
    assert t[3..] == tail;
  }

  /** An escaped introducer reads back as itself and its brace. */
  lemma EscapedIntroducerDecodes(s: string, isPrint: char -> bool, rest: string)
    requires isPrint('{') && |s| > 1 && (s[0] == '$' || s[0] == '%') && s[1] == '{'
    ensures DecodeBody(Escape(s, isPrint) + "\"" + rest) ==
            Prefixed([s[0], '{'], DecodeBody(Escape(s[2..], isPrint) + "\"" + rest))
  {
    var tail := Escape(s[2..], isPrint) + "\"" + rest;
    EscapedIntroducer(s, isPrint);
    Regroup4([s[0], s[0], '{'], Escape(s[2..], isPrint), "\"", rest);
    DoubledDecodes(s[0], tail);
  }

  lemma LoneDecodes(c: char, tail: string)
    requires (c == '$' || c == '%') && tail != "" && tail[0] != '{' && !(|tail| >= 2 && tail[0] == c && tail[1] == '{')
    ensures DecodeBody([c] + tail) == Prefixed([c], DecodeBody(tail))
  {
    var t := [c] + tail;
    assert t[1..] == tail;
  }

  lemma Regroup4(a: string, b: string, c: string, d: string)
    ensures a + b + c + d == a + (b + c + d)
  {
  }

  /** A lone introducer reads back as itself. */
  lemma IntroducerDecodes(s: string, isPrint: char -> bool, rest: string)
    requires isPrint('{') && s != "" && (s[0] == '$' || s[0] == '%') && !(|s| > 1 && s[1] == '{')
    ensures DecodeBody(Escape(s, isPrint) + "\"" + rest) ==
            Prefixed([s[0]], DecodeBody(Escape(s[1..], isPrint) + "\"" + rest))
  {
    var tail := Escape(s[1..], isPrint) + "\"" + rest;
    NoFalseInterpolation(s[1..], isPrint, rest, s[0]);
    EscapeFirst(s, isPrint);
    Regroup4([s[0]], Escape(s[1..], isPrint), "\"", rest);
    LoneDecodes(s[0], tail);
  }

  /** A character that is no introducer reads back as itself. */
  lemma PlainDecodes(s: string, isPrint: char -> bool, rest: string)
    requires s != "" && s[0] != '$' && s[0] != '%'
    ensures DecodeBody(Escape(s, isPrint) + "\"" + rest) ==
            Prefixed([s[0]], DecodeBody(Escape(s[1..], isPrint) + "\"" + rest))
  {
    var tail := Escape(s[1..], isPrint) + "\"" + rest;
    ChunkDecodes(s, isPrint, tail);
    EscapeFirst(s, isPrint);
    Regroup4(Chunk(s, isPrint), Escape(s[1..], isPrint), "\"", rest);
  }

  lemma EmptyDecodes(isPrint: char -> bool, rest: string)
    ensures DecodeBody(Escape("", isPrint) + "\"" + rest) == Some(("", rest))
  {
    assert Escape("", isPrint) + "\"" + rest == "\"" + rest;
    assert ("\"" + rest)[1..] == rest;
  }

  lemma FrontPair(s: string)
    requires |s| >= 2
    ensures [s[0], s[1]] + s[2..] == s
  {
  }

  lemma FrontApart(s: string)
    requires s != ""
    ensures [s[0]] + s[1..] == s
  {
  }

  /** Decoding undoes quoting, whatever follows the closing quote. */
  lemma {:induction false} DecodeUndoesEscape(s: string, isPrint: char -> bool, rest: string)
    requires isPrint('{')
    ensures DecodeBody(Escape(s, isPrint) + "\"" + rest) == Some((s, rest))
    decreases |s|
  {
    if s == "" {
      EmptyDecodes(isPrint, rest);
    } else if (s[0] == '$' || s[0] == '%') && |s| > 1 && s[1] == '{' {
      DecodeUndoesEscape(s[2..], isPrint, rest);
      EscapedIntroducerDecodes(s, isPrint, rest);
      FrontPair(s);
    } else {
      DecodeUndoesEscape(s[1..], isPrint, rest);
      if s[0] == '$' || s[0] == '%' {
        IntroducerDecodes(s, isPrint, rest);
      } else {
        PlainDecodes(s, isPrint, rest);
      }
      FrontApart(s);
    }
  }

  /** Every chunk other than a template introducer reads back as its own character. */
  lemma ChunkDecodes(s: string, isPrint: char -> bool, tail: string)
    requires s != "" && s[0] != '$' && s[0] != '%'
    ensures DecodeBody(Chunk(s, isPrint) + tail) == Prefixed([s[0]], DecodeBody(tail))
  {
    var c := s[0];
    var t := Chunk(s, isPrint) + tail;
    if c in {'\n', '\r', '\t', '\"', '\\'} {
      assert t[2..] == tail;
    } else if isPrint(c) {
      assert t == [c] + tail;
      assert t[1..] == tail;
    } else {
      EscapeDecodes(c, if c as int < 0x1_0000 then 4 else 8, tail);
    }
  }

  /** The printer of string keys has a left inverse, so it is injective and self-delimiting. */
  lemma QuotedRoundTrip(s: string, isPrint: char -> bool, rest: string)
    requires isPrint('{')
    ensures DecodeQuoted(Quoted(s, isPrint) + rest) == Some((s, rest))
  {
    var t := Quoted(s, isPrint) + rest;
    assert t[1..] == Escape(s, isPrint) + "\"" + rest;
    DecodeUndoesEscape(s, isPrint, rest);
  }
}
