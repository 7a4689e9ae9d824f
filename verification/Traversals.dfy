/** HCL traversals as sequences of steps, their text, and a scanner for that text.

    The scanner stands for the part of HCL's traversal syntax that addresses use: dotted names,
    integer indices and quoted string indices.
 */
module Traversals {
  import opened Addrs
  import opened Quoting

  datatype IndexValue = StringValue(text: string) | NumberValue(number: real) | OtherValue

  datatype Step = Root(name: string) | Attr(name: string) | Index(key: IndexValue) | Splat

  type Traversal = seq<Step>

  /** A traversal that starts at a root name and then only descends. */
  predicate IsAbsolute(t: Traversal) {
    |t| > 0 && t[0].Root? && forall i | 0 < i < |t| :: !t[i].Root?
  }

  /** The first step of a traversal read as a root, which is how parsers hand on a remainder. */
  function Absolute(t: Traversal): Traversal {
    if t != [] && t[0].Attr? then [Root(t[0].name)] + t[1..] else t
  }

  /** The same traversal seen as a continuation of another one. */
  function Relative(t: Traversal): Traversal {
    if t != [] && t[0].Root? then [Attr(t[0].name)] + t[1..] else t
  }

  lemma AbsoluteOfRelative(t: Traversal)
    requires IsAbsolute(t)
    ensures Absolute(Relative(t)) == t
  {
    assert Relative(t)[1..] == t[1..];
  }

  // ---------------------------------------------------------------- decimal numbers

  function Digits(n: nat): (s: string)
    ensures |s| > 0
  {
    if n < 10 then [HEX_DIGITS[n]] else Digits(n / 10) + [HEX_DIGITS[n % 10]]
  }

  function Decimal(i: int): (s: string)
    ensures |s| > 0
  {
    if i < 0 then "-" + Digits(-i) else Digits(i)
  }

  predicate AllDigits(s: string) {
    forall i | 0 <= i < |s| :: '0' <= s[i] <= '9'
  }

  function DigitsValue(s: string): nat
    requires AllDigits(s)
  {
    if s == "" then 0 else
    10 * DigitsValue(s[..|s| - 1]) + (s[|s| - 1] as int - '0' as int)
  }

  lemma {:induction false} DigitsRoundTrip(n: nat)
    ensures AllDigits(Digits(n)) && DigitsValue(Digits(n)) == n
  {
    var s := Digits(n);
    if n >= 10 {
      DigitsRoundTrip(n / 10);
      assert s[..|s| - 1] == Digits(n / 10);
    } else {
      assert s[..0] == "";
    }
  }

  /** The number of leading characters of `s` that are digits. */
  function DigitRun(s: string): (n: nat)
    ensures n <= |s| && AllDigits(s[..n])
  {
    if s == "" || !('0' <= s[0] <= '9') then 0
    else
      var n := 1 + DigitRun(s[1..]);
      assert s[..n] == [s[0]] + s[1..][..n - 1];
      n
  }

  lemma {:induction false} DigitRunStops(d: string, rest: string)
    requires AllDigits(d) && (rest == "" || !('0' <= rest[0] <= '9'))
    ensures DigitRun(d + rest) == |d|
  {
    if d == "" {
      assert d + rest == rest;
    } else {
      assert (d + rest)[1..] == d[1..] + rest;
      DigitRunStops(d[1..], rest);
    }
  }

  // ---------------------------------------------------------------- text of a traversal

  function IndexText(v: IndexValue, isPrint: char -> bool): string {
    match v
    case StringValue(text) => Quoted(text, isPrint)
    case NumberValue(number) => Decimal(number.Floor)
    case OtherValue => "?"
  }

  function StepText(s: Step, isPrint: char -> bool): string {
    match s
    case Root(name) => "." + name
    case Attr(name) => "." + name
    case Index(v) => "[" + IndexText(v, isPrint) + "]"
    case Splat => "[*]"
  }

  /** The text of a traversal read as a continuation: every name is preceded by its dot. */
  function Render(t: Traversal, isPrint: char -> bool): string {
    if t == [] then "" else StepText(t[0], isPrint) + Render(t[1..], isPrint)
  }

  lemma {:induction false} RenderConcat(t: Traversal, u: Traversal, isPrint: char -> bool)
    ensures Render(t + u, isPrint) == Render(t, isPrint) + Render(u, isPrint)
  {
    if t == [] {
      assert t + u == u;
    } else {
      assert (t + u)[1..] == t[1..] + u;
      RenderConcat(t[1..], u, isPrint);
    }
  }

  // ---------------------------------------------------------------- scanning

  /** Names are identifiers: not empty, and free of the characters that structure an address. */
  predicate IsIdentifier(name: string) {
    name != "" && forall i | 0 <= i < |name| :: name[i] != '.' && name[i] != '[' && name[i] != '\"'
  }

  function NameRun(s: string): (n: nat)
    ensures n <= |s|
  {
    if s == "" || s[0] == '.' || s[0] == '[' then 0 else 1 + NameRun(s[1..])
  }

  lemma {:induction false} NameRunStops(name: string, rest: string)
    requires forall i | 0 <= i < |name| :: name[i] != '.' && name[i] != '['
    requires rest == "" || rest[0] == '.' || rest[0] == '['
    ensures NameRun(name + rest) == |name|
  {
    if name == "" {
      assert name + rest == rest;
    } else {
      assert (name + rest)[1..] == name[1..] + rest;
      NameRunStops(name[1..], rest);
    }
  }

  /** Reads digits and the closing bracket after them. */
  function ScanNumber(s: string): (r: Option<(nat, string)>)
    ensures r.Some? ==> |r.value.1| < |s|
  {
    var n := DigitRun(s);
    if 0 < n < |s| && s[n] == ']' then Some((DigitsValue(s[..n]), s[n + 1..])) else None
  }

  /** Reads what stands between square brackets, given the text after the opening one. */
  function ScanIndex(s: string): (r: Option<(IndexValue, string)>)
    ensures r.Some? ==> |r.value.1| < |s|
  {
    if s == "" then None
    else if s[0] == '\"' then
      match DecodeQuoted(s)
      case None => None
      case Some((text, rest)) =>
        if rest != "" && rest[0] == ']' then Some((StringValue(text), rest[1..])) else None
    else if s[0] == '-' then
      match ScanNumber(s[1..])
      case None => None
      case Some((n, rest)) => Some((NumberValue((0 - n) as real), rest))
    else
      match ScanNumber(s)
      case None => None
      case Some((n, rest)) => Some((NumberValue(n as real), rest))
  }

  function Prepend(s: Step, r: Option<Traversal>): Option<Traversal> {
    match r
    case None => None
    case Some(t) => Some([s] + t)
  }

  function Scan(s: string): Option<Traversal>
    decreases |s|
  {
    if s == "" then Some([])
    else if s[0] == '.' then
      var n := NameRun(s[1..]);
      if n == 0 then None else Prepend(Attr(s[1..][..n]), Scan(s[1..][n..]))
    else if s[0] == '[' then
      match ScanIndex(s[1..])
      case None => None
      case Some((v, rest)) => Prepend(Index(v), Scan(rest))
    else None
  }

  predicate IsNegative(s: Step) {
    s.Index? && s.key.NumberValue? && s.key.number < 0.0
  }

  /** Parses the text of an absolute traversal. Between brackets HCL takes a number literal or a
      quoted string, and a number literal has no sign. */
  function ParseTraversalAbs(s: string): Option<Traversal> {
    match Scan("." + s)
    case None => None
    case Some(t) => if exists i | 0 <= i < |t| :: IsNegative(t[i]) then None else Some(Absolute(t))
  }

  /** The steps that the text of an address is made of. */
  predicate Printable(s: Step) {
    match s
    case Root(_) => false
    case Attr(name) => IsIdentifier(name)
    case Index(StringValue(_)) => true
    case Index(NumberValue(number)) => number.Floor as real == number
    case Index(OtherValue) => false
    case Splat => false
  }

  predicate AllPrintable(t: Traversal) {
    forall i | 0 <= i < |t| :: Printable(t[i])
  }

  lemma PrintableConcat(t: Traversal, u: Traversal)
    requires AllPrintable(t) && AllPrintable(u)
    ensures AllPrintable(t + u)
  {
    forall i | 0 <= i < |t + u| ensures Printable((t + u)[i]) {
      assert (t + u)[i] == if i < |t| then t[i] else u[i - |t|];
    }
  }

  lemma ScanQuotedIndex(text: string, rest: string, isPrint: char -> bool)
    requires isPrint('{')
    ensures ScanIndex(Quoted(text, isPrint) + "]" + rest) == Some((StringValue(text), rest))
  {
    var s := Quoted(text, isPrint) + "]" + rest;
    assert s == Quoted(text, isPrint) + ("]" + rest);
    QuotedRoundTrip(text, isPrint, "]" + rest);
    assert ("]" + rest)[1..] == rest;
  }

  lemma CutAfter(d: string, c: char, rest: string)
    ensures var s := d + [c] + rest;
            s == d + ([c] + rest) && s[..|d|] == d && s[|d|] == c && s[|d| + 1..] == rest
  {
  }

  lemma ScanDigitText(d: string, rest: string)
    requires d != "" && AllDigits(d)
    ensures ScanNumber(d + "]" + rest) == Some((DigitsValue(d), rest))
  {
    CutAfter(d, ']', rest);
    DigitRunStops(d, "]" + rest);
  }

  lemma ScanDigits(n: nat, rest: string)
    ensures ScanNumber(Digits(n) + "]" + rest) == Some((n, rest))
    ensures '0' <= Digits(n)[0] <= '9'
  {
    DigitsRoundTrip(n);
    ScanDigitText(Digits(n), rest);
  }

  lemma ScanUnsigned(s: string)
    requires s != "" && '0' <= s[0] <= '9'
    ensures ScanIndex(s) ==
            match ScanNumber(s)
            case None => None
            case Some((n, rest)) => Some((NumberValue(n as real), rest))
  {
  }

  lemma ScanSigned(s: string, t: string)
    requires s == "-" + t
    ensures ScanIndex(s) ==
            match ScanNumber(t)
            case None => None
            case Some((n, rest)) => Some((NumberValue((0 - n) as real), rest))
  {
    assert s[1..] == t;
  }

  lemma ScanMagnitude(negative: bool, n: nat, d: string, rest: string)
    requires d != "" && '0' <= d[0] <= '9' && ScanNumber(d + "]" + rest) == Some((n, rest))
    ensures ScanIndex((if negative then "-" + d else d) + "]" + rest) ==
            Some((NumberValue((if negative then 0 - n else n) as real), rest))
  {
    var t := d + "]" + rest;
    if negative {
      assert "-" + d + "]" + rest == "-" + t;
      ScanSigned("-" + t, t);
    } else {
      ScanUnsigned(t);
    }
  }

  lemma ScanNumberIndex(i: int, rest: string)
    ensures ScanIndex(Decimal(i) + "]" + rest) == Some((NumberValue(i as real), rest))
  {
    var n := if i < 0 then -i else i;
    ScanDigits(n, rest);
    ScanMagnitude(i < 0, n, Digits(n), rest);
  }

  lemma ScanIndexOfText(v: IndexValue, rest: string, isPrint: char -> bool)
    requires isPrint('{') && Printable(Index(v))
    ensures ScanIndex(IndexText(v, isPrint) + "]" + rest) == Some((v, rest))
  {
    match v {
      case StringValue(text) => ScanQuotedIndex(text, rest, isPrint);
      case NumberValue(number) => ScanNumberIndex(number.Floor, rest);
    }
  }

  lemma RenderFront(t: Traversal, isPrint: char -> bool)
    ensures Render(t, isPrint) == "" <==> t == []
    ensures t != [] ==> Render(t, isPrint)[0] == '.' || Render(t, isPrint)[0] == '['
  {
  }

  lemma ScanName(name: string, rest: string)
    requires IsIdentifier(name) && (rest == "" || rest[0] == '.' || rest[0] == '[')
    ensures Scan("." + name + rest) == Prepend(Attr(name), Scan(rest))
  {
    var s := "." + name + rest;
    assert s[1..] == name + rest;
    NameRunStops(name, rest);
    assert s[1..][..|name|] == name && s[1..][|name|..] == rest;
  }

  lemma ScanBracketed(s: string, t: string)
    requires s == "[" + t
    ensures Scan(s) == match ScanIndex(t) case None => None case Some((v, rest)) => Prepend(Index(v), Scan(rest))
  {
    assert s[1..] == t;
  }

  lemma BracketFirst(text: string, rest: string)
    ensures "[" + text + "]" + rest == "[" + (text + "]" + rest)
  {
  }

  lemma ScanBrackets(v: IndexValue, rest: string, isPrint: char -> bool)
    requires isPrint('{') && Printable(Index(v))
    ensures Scan("[" + IndexText(v, isPrint) + "]" + rest) == Prepend(Index(v), Scan(rest))
  {
    var t := IndexText(v, isPrint) + "]" + rest;
    ScanIndexOfText(v, rest, isPrint);
    BracketFirst(IndexText(v, isPrint), rest);
    ScanBracketed("[" + t, t);
  }

  /** Scanning undoes rendering. */
  lemma {:induction false} ScanRendered(t: Traversal, isPrint: char -> bool)
    requires isPrint('{') && AllPrintable(t)
    ensures Scan(Render(t, isPrint)) == Some(t)
  {
    if t != [] {
      var rest := Render(t[1..], isPrint);
      assert t == [t[0]] + t[1..];
      ScanRendered(t[1..], isPrint);
      RenderFront(t[1..], isPrint);
      assert Printable(t[0]);
      match t[0] {
        case Attr(name) => ScanName(name, rest);
        case Index(v) => ScanBrackets(v, rest, isPrint);
      }
    }
  }

  /** So the text of a traversal determines it. */
  lemma RenderInjective(t: Traversal, u: Traversal, isPrint: char -> bool)
    requires isPrint('{') && AllPrintable(t) && AllPrintable(u)
    requires Render(t, isPrint) == Render(u, isPrint)
    ensures t == u
  {
    ScanRendered(t, isPrint);
    ScanRendered(u, isPrint);
  }
}
