/** Unwrapping of redundant interpolations by the formatter: `formatValueExpr` and `trimNewlines` of
    `internal/command/fmt.go`, over sequences of lexical tokens.

    The code decides with one counter of quotes whether an outer `"${` and `}"` belong together. Against
    the grammar of nested delimiters that decision is shown to be right.
 */
module Formatter {
  import opened Addrs

  datatype Kind =
    | OQuote | CQuote
    | TemplateInterp | TemplateControl | TemplateSeqEnd
    | QuotedLit
    | OParen | CParen | OBrace | CBrace | OBrack | CBrack
    | OHeredoc | CHeredoc
    | Newline | Other

  datatype Token = Token(kind: Kind, bytes: string)

  type Tokens = seq<Token>

  // ---------------------------------------------------------------- nested delimiters

  predicate IsOpener(k: Kind) {
    k in {OQuote, TemplateInterp, TemplateControl, OParen, OBrace, OBrack, OHeredoc}
  }

  predicate IsCloser(k: Kind) {
    k in {CQuote, TemplateSeqEnd, CParen, CBrace, CBrack, CHeredoc}
  }

  predicate Closes(opener: Kind, closer: Kind) {
    match closer
    case CQuote => opener == OQuote
    case TemplateSeqEnd => opener == TemplateInterp || opener == TemplateControl
    case CParen => opener == OParen
    case CBrace => opener == OBrace
    case CBrack => opener == OBrack
    case CHeredoc => opener == OHeredoc
    case _ => false
  }

  /** One token against the stack of open delimiters. */
  function Shift(stack: seq<Kind>, k: Kind): Option<seq<Kind>> {
    if IsOpener(k) then Some(stack + [k])
    else if IsCloser(k) then
      if stack != [] && Closes(stack[|stack| - 1], k) then Some(stack[..|stack| - 1]) else None
    else Some(stack)
  }

  function Nest(stack: seq<Kind>, ts: Tokens): Option<seq<Kind>>
    decreases |ts|
  {
    if ts == [] then Some(stack) else
    match Shift(stack, ts[0].kind)
    case None => None
    case Some(next) => Nest(next, ts[1..])
  }

  /** Every delimiter has its counterpart. */
  predicate WellNested(ts: Tokens) {
    Nest([], ts) == Some([])
  }

  function Then(stack: Option<seq<Kind>>, ts: Tokens): Option<seq<Kind>> {
    match stack case None => None case Some(s) => Nest(s, ts)
  }

  lemma {:induction false} NestConcat(stack: seq<Kind>, a: Tokens, b: Tokens)
    ensures Nest(stack, a + b) == Then(Nest(stack, a), b)
    decreases |a|
  {
    if a == [] {
      assert a + b == b;
    } else {
      assert (a + b)[1..] == a[1..] + b;
      var next := Shift(stack, a[0].kind);
      if next.Some? {
        NestConcat(next.value, a[1..], b);
      }
    }
  }

  lemma NestOne(stack: seq<Kind>, t: Token)
    ensures Nest(stack, [t]) == Shift(stack, t.kind)
  {
    assert [t][1..] == [];
  }

  lemma ShiftOver(base: seq<Kind>, stack: seq<Kind>, k: Kind)
    requires Shift(stack, k).Some?
    ensures Shift(base + stack, k) == Some(base + Shift(stack, k).value)
  {
    if IsOpener(k) {
      assert base + stack + [k] == base + (stack + [k]);
    } else if IsCloser(k) {
      assert (base + stack)[..|base + stack| - 1] == base + stack[..|stack| - 1];
    }
  }

  /** What nests on its own nests the same on top of anything. */
  lemma {:induction false} NestOver(base: seq<Kind>, stack: seq<Kind>, ts: Tokens)
    requires Nest(stack, ts).Some?
    ensures Nest(base + stack, ts) == Some(base + Nest(stack, ts).value)
    decreases |ts|
  {
    if ts != [] {
      ShiftOver(base, stack, ts[0].kind);
      NestOver(base, Shift(stack, ts[0].kind).value, ts[1..]);
    }
  }

  lemma NestOpen(t: Token)
    requires IsOpener(t.kind)
    ensures Nest([], [t]) == Some([t.kind])
  {
    NestOne([], t);
    assert [] + [t.kind] == [t.kind];
  }

  lemma NestWithin(k: Kind, ts: Tokens)
    requires WellNested(ts)
    ensures Nest([k], ts) == Some([k])
  {
    assert [k] + [] == [k];
    NestOver([k], [], ts);
  }

  lemma NestClose(k: Kind, t: Token)
    requires !IsOpener(t.kind) && IsCloser(t.kind) && Closes(k, t.kind)
    ensures Nest([k], [t]) == Some([])
  {
    NestOne([k], t);
    assert [k][..0] == [];
  }

  lemma Regroup(a: Tokens, b: Tokens, c: Tokens)
    ensures a + b + c == a + (b + c)
  {
  }

  /** A pair of delimiters around well-nested tokens is well nested. */
  lemma EnclosedNests(open: Token, ts: Tokens, close: Token)
    requires WellNested(ts) && IsOpener(open.kind) && IsCloser(close.kind) && Closes(open.kind, close.kind)
    ensures WellNested([open] + ts + [close])
  {
    Regroup([open], ts, [close]);
    NestConcat([], [open], ts + [close]);
    NestOpen(open);
    NestConcat([open.kind], ts, [close]);
    NestWithin(open.kind, ts);
    NestClose(open.kind, close);
  }

  /** The first place where tokens nesting over `base + stack` close something in `base`. */
  predicate BreaksOut(base: seq<Kind>, stack: seq<Kind>, ts: Tokens, j: nat) {
    && j < |ts| && Nest(stack, ts[..j]) == Some([])
    && base != [] && Closes(base[|base| - 1], ts[j].kind)
  }

  /** Tokens that nest over a base either nest on their own or break out of them at a point up to which
      everything is matched. */
  lemma {:induction false} NestsOrBreaksOut(base: seq<Kind>, stack: seq<Kind>, ts: Tokens)
    requires Nest(base + stack, ts).Some?
    ensures Nest(stack, ts).Some? || exists j: nat :: BreaksOut(base, stack, ts, j)
    decreases |ts|
  {
    if ts != [] {
      var k := ts[0].kind;
      var next := Shift(stack, k);
      if next.Some? {
        ShiftOver(base, stack, k);
        NestsOrBreaksOut(base, next.value, ts[1..]);
        if j: nat :| BreaksOut(base, next.value, ts[1..], j) {
          assert ts[..j + 1][1..] == ts[1..][..j];
          assert BreaksOut(base, stack, ts, j + 1);
        }
      } else {
        assert stack == [] ==> base + stack == base;
        assert stack == [];
        assert ts[..0] == [];
        assert BreaksOut(base, stack, ts, 0);
      }
    }
  }

  // ---------------------------------------------------------------- the quote counter

  /** Opening minus closing quotes. */
  function QuoteDepth(ts: Tokens): int {
    if ts == [] then 0 else
    QuoteDepth(ts[..|ts| - 1]) +
    (match ts[|ts| - 1].kind case OQuote => 1 case CQuote => -1 case _ => 0)
  }

  function OpenQuotes(stack: seq<Kind>): nat {
    if stack == [] then 0 else OpenQuotes(stack[..|stack| - 1]) + if stack[|stack| - 1] == OQuote then 1 else 0
  }

  lemma ShiftQuotes(stack: seq<Kind>, k: Kind)
    requires Shift(stack, k).Some?
    ensures OpenQuotes(Shift(stack, k).value) ==
            OpenQuotes(stack) + (match k case OQuote => 1 case CQuote => -1 case _ => 0)
  {
    if IsOpener(k) {
      assert (stack + [k])[..|stack|] == stack;
    }
  }

  /** On tokens that nest, the counter is the number of quotes really open. */
  lemma {:induction false} CounterIsDepth(ts: Tokens)
    requires Nest([], ts).Some?
    ensures QuoteDepth(ts) == OpenQuotes(Nest([], ts).value)
  {
    if ts != [] {
      var init, last := ts[..|ts| - 1], ts[|ts| - 1];
      assert ts == init + [last];
      NestConcat([], init, [last]);
      CounterIsDepth(init);
      NestOne(Nest([], init).value, last);
      ShiftQuotes(Nest([], init).value, last.kind);
    }
  }

  /** A token of the interior that makes the code leave the expression alone: a template delimiter or
      literal text with, by the counter, no nested quote open. */
  predicate Flagged(inside: Tokens, i: int)
    requires 0 <= i < |inside|
  {
    inside[i].kind in {TemplateInterp, TemplateSeqEnd, QuotedLit} && QuoteDepth(inside[..i]) <= 0
  }

  predicate NothingFlagged(inside: Tokens) {
    forall i | 0 <= i < |inside| :: !Flagged(inside, i)
  }

  method ScanInside(inside: Tokens) returns (unwrappable: bool)
    ensures unwrappable == NothingFlagged(inside)
  {
    var quotes := 0;
    for i := 0 to |inside|
      invariant quotes == QuoteDepth(inside[..i])
      invariant forall j | 0 <= j < i :: !Flagged(inside, j)
    {
      var token := inside[i];
      assert inside[..i + 1][..i] == inside[..i];
      if token.kind == OQuote {
        quotes := quotes + 1;
        continue;
      }
      if token.kind == CQuote {
        quotes := quotes - 1;
        continue;
      }
      if quotes > 0 {
        continue;
      }
      if token.kind == TemplateInterp || token.kind == TemplateSeqEnd {
        assert Flagged(inside, i);
        return false;
      }
      if token.kind == QuotedLit {
        assert Flagged(inside, i);
        return false;
      }
    }
    return true;
  }

  // ---------------------------------------------------------------- trimming

  predicate AllNewlines(ts: Tokens) {
    forall i | 0 <= i < |ts| :: ts[i].kind == Newline
  }

  /** `trimmed` is `ts` without the newlines at its ends. */
  predicate IsTrimmed(ts: Tokens, trimmed: Tokens) {
    exists start, end | 0 <= start <= end <= |ts| :: TrimmedAt(ts, trimmed, start, end)
  }

  predicate TrimmedAt(ts: Tokens, trimmed: Tokens, start: int, end: int)
    requires 0 <= start <= end <= |ts|
  {
    && trimmed == ts[start..end]
    && AllNewlines(ts[..start]) && AllNewlines(ts[end..])
    && (start < end ==> ts[start].kind != Newline && ts[end - 1].kind != Newline)
  }

  function LeadingNewlines(ts: Tokens): (n: nat)
    ensures n <= |ts| && AllNewlines(ts[..n]) && (n < |ts| ==> ts[n].kind != Newline)
  {
    if ts == [] || ts[0].kind != Newline then 0 else
    var n := 1 + LeadingNewlines(ts[1..]);
    assert forall i | 0 < i < n :: ts[i] == ts[1..][..n - 1][i - 1];
    n
  }

  function TrailingEnd(ts: Tokens): (n: nat)
    ensures n <= |ts| && AllNewlines(ts[n..]) && (n > 0 ==> ts[n - 1].kind != Newline)
  {
    if ts == [] || ts[|ts| - 1].kind != Newline then |ts| else
    var n := TrailingEnd(ts[..|ts| - 1]);
    assert forall i | n <= i < |ts| - 1 :: ts[i] == ts[..|ts| - 1][n..][i - n];
    n
  }

  /** `None` is the slice-bounds panic: the two scans pass each other on tokens that are all newlines. */
  function Trim(ts: Tokens): Option<Tokens> {
    if ts == [] then Some([])
    else if LeadingNewlines(ts) <= TrailingEnd(ts) then Some(ts[LeadingNewlines(ts)..TrailingEnd(ts)])
    else None
  }

  method SkipLeading(ts: Tokens) returns (start: nat)
    ensures start == LeadingNewlines(ts)
  {
    start := 0;
    while start < |ts|
      invariant start <= |ts|
      invariant LeadingNewlines(ts) == start + LeadingNewlines(ts[start..])
    {
      if ts[start].kind != Newline {
        break;
      }
      assert ts[start..][1..] == ts[start + 1..];
      start := start + 1;
    }
  }

  method SkipTrailing(ts: Tokens) returns (end: nat)
    ensures end == TrailingEnd(ts)
  {
    end := |ts|;
    assert ts[..end] == ts;
    while end > 0
      invariant end <= |ts|
      invariant TrailingEnd(ts) == TrailingEnd(ts[..end])
    {
      if ts[end - 1].kind != Newline {
        break;
      }
      assert ts[..end][..end - 1] == ts[..end - 1];
      end := end - 1;
    }
  }

  method TrimNewlines(ts: Tokens) returns (r: Option<Tokens>)
    ensures r == Trim(ts)
  {
    if |ts| == 0 {
      return Some([]);
    }
    var start := SkipLeading(ts);
    var end := SkipTrailing(ts);
    if start <= end {
      return Some(ts[start..end]);
    }
    return None;
  }

  /** Trimming panics exactly on a non-empty sequence of nothing but newlines. */
  lemma TrimPanics(ts: Tokens)
    ensures Trim(ts).None? <==> ts != [] && AllNewlines(ts)
  {
    var a, b := LeadingNewlines(ts), TrailingEnd(ts);
    if ts != [] && !AllNewlines(ts) {
      var i :| 0 <= i < |ts| && ts[i].kind != Newline;
      assert forall j | 0 <= j < a :: ts[j] == ts[..a][j];
      assert forall j | b <= j < |ts| :: ts[j] == ts[b..][j - b];
      assert a <= i < b;
    }
  }

  lemma TrimIsTrimmed(ts: Tokens)
    requires Trim(ts).Some?
    ensures IsTrimmed(ts, Trim(ts).value)
  {
    var a, b := LeadingNewlines(ts), TrailingEnd(ts);
    assert TrimmedAt(ts, Trim(ts).value, a, b);
  }

  lemma {:induction false} NewlinesNest(stack: seq<Kind>, ts: Tokens)
    requires AllNewlines(ts)
    ensures Nest(stack, ts) == Some(stack)
  {
    if ts != [] {
      NewlinesNest(stack, ts[1..]);
    }
  }

  lemma ThreeParts(ts: Tokens, start: nat, end: nat)
    requires start <= end <= |ts|
    ensures ts[..start] + (ts[start..end] + ts[end..]) == ts
  {
  }

  lemma TrimmedNests(ts: Tokens, start: nat, end: nat)
    requires start <= end <= |ts| && AllNewlines(ts[..start]) && AllNewlines(ts[end..])
    ensures Nest([], ts[start..end]) == Nest([], ts)
  {
    ThreeParts(ts, start, end);
    NestConcat([], ts[..start], ts[start..end] + ts[end..]);
    NewlinesNest([], ts[..start]);
    NestConcat([], ts[start..end], ts[end..]);
    var mid := Nest([], ts[start..end]);
    if mid.Some? {
      NewlinesNest(mid.value, ts[end..]);
    }
  }

  // ---------------------------------------------------------------- formatting

  const OPEN := Token(OParen, "(")
  const CLOSE := Token(CParen, ")")

  predicate IsInterpolation(ts: Tokens) {
    && |ts| >= 5
    && ts[0].kind == OQuote && ts[1].kind == TemplateInterp
    && ts[|ts| - 2].kind == TemplateSeqEnd && ts[|ts| - 1].kind == CQuote
  }

  function Inside(ts: Tokens): Tokens
    requires |ts| >= 4
  {
    ts[2..|ts| - 2]
  }

  predicate Unwraps(ts: Tokens) {
    IsInterpolation(ts) && NothingFlagged(Inside(ts))
  }

  predicate MultiLine(ts: Tokens) {
    exists i | 0 <= i < |ts| :: ts[i].kind == Newline
  }

  predicate BetweenParens(ts: Tokens) {
    |ts| > 0 && ts[0].kind == OParen && ts[|ts| - 1].kind == CParen
  }

  function Parenthesised(trimmed: Tokens): Tokens {
    if MultiLine(trimmed) && !BetweenParens(trimmed) then [OPEN] + trimmed + [CLOSE] else trimmed
  }

  /** What the formatter makes of a value expression; `None` if it panics. */
  function Format(ts: Tokens): Option<Tokens> {
    if !Unwraps(ts) then Some(ts) else
    match Trim(Inside(ts))
    case None => None
    case Some(trimmed) => Some(Parenthesised(trimmed))
  }

  method FormatValueExpr(tokens: Tokens) returns (r: Option<Tokens>)
    ensures r == Format(tokens)
  {
    if |tokens| < 5 {
      return Some(tokens);
    }
    var oQuote := tokens[0];
    var oBrace := tokens[1];
    var cBrace := tokens[|tokens| - 2];
    var cQuote := tokens[|tokens| - 1];
    if oQuote.kind != OQuote || oBrace.kind != TemplateInterp || cBrace.kind != TemplateSeqEnd ||
       cQuote.kind != CQuote {
      return Some(tokens);
    }
    var inside := tokens[2..|tokens| - 2];
    var unwrappable := ScanInside(inside);
    if !unwrappable {
      return Some(tokens);
    }
    var t := TrimNewlines(inside);
    if t.None? {
      return None;
    }
    var wrapped := WrapIfMultiLine(t.value);
    return Some(wrapped);
  }

  /** Looks for line breaks and for parentheses at the ends. */
  method InspectLines(trimmed: Tokens) returns (isMultiLine: bool, hasLeadingParen: bool, hasTrailingParen: bool)
    ensures isMultiLine == MultiLine(trimmed)
    ensures hasLeadingParen && hasTrailingParen <==> BetweenParens(trimmed)
  {
    isMultiLine, hasLeadingParen, hasTrailingParen := false, false, false;
    for i := 0 to |trimmed|
      invariant isMultiLine <==> exists j | 0 <= j < i :: trimmed[j].kind == Newline
      invariant hasLeadingParen <==> i > 0 && trimmed[0].kind == OParen
      invariant hasTrailingParen <==> i == |trimmed| && i > 0 && trimmed[|trimmed| - 1].kind == CParen
    {
      var token := trimmed[i];
      if i == 0 && token.kind == OParen {
        hasLeadingParen := true;
      } else if token.kind == Newline {
        isMultiLine := true;
      } else if i == |trimmed| - 1 && token.kind == CParen {
        hasTrailingParen := true;
      }
    }
  }

  /** The last part of formatting: adds parentheses around several lines that lack them. */
  method WrapIfMultiLine(trimmed: Tokens) returns (r: Tokens)
    ensures r == Parenthesised(trimmed)
  {
    var isMultiLine, hasLeadingParen, hasTrailingParen := InspectLines(trimmed);
    if isMultiLine && (!hasLeadingParen || !hasTrailingParen) {
      var wrapped: Tokens := [OPEN];
      wrapped := wrapped + trimmed;
      wrapped := wrapped + [CLOSE];
      return wrapped;
    }
    return trimmed;
  }

  // ---------------------------------------------------------------- the decision is right

  /** In a well-nested interpolation with nothing flagged, the outer delimiters match each other: what lies
      between the braces nests on its own, and so does what lies between the quotes. */
  lemma OuterDelimitersMatch(ts: Tokens)
    requires WellNested(ts) && Unwraps(ts)
    ensures WellNested(Inside(ts)) && WellNested(ts[1..|ts| - 1])
  {
    var inside := Inside(ts);
    var last := |ts| - 1;
    var braced := [ts[1]] + inside + [ts[last - 1]];
    assert ts[1..last] == braced;
    assert [ts[0]] + ([ts[1]] + (inside + [ts[last - 1], ts[last]])) == ts;
    OpensOuter(ts[0], ts[1], inside, [ts[last - 1], ts[last]]);
    InsideNests(inside);
    InsideCloses(ts[1], inside, ts[last - 1], ts[last]);
    EnclosedNests(ts[1], inside, ts[last - 1]);
  }

  /** The interior of an interpolation is read with the outer quote and brace open. */
  lemma OpensOuter(quote: Token, brace: Token, inside: Tokens, back: Tokens)
    requires quote.kind == OQuote && brace.kind == TemplateInterp
    requires WellNested([quote] + ([brace] + (inside + back)))
    ensures Nest([OQuote, TemplateInterp], inside).Some?
    ensures Nest([OQuote, TemplateInterp], inside + back) == Some([])
  {
    NestConcat([], [quote], [brace] + (inside + back));
    NestOne([], quote);
    assert [] + [OQuote] == [OQuote];
    NestConcat([OQuote], [brace], inside + back);
    NestOne([OQuote], brace);
    assert [OQuote] + [TemplateInterp] == [OQuote, TemplateInterp];
    NestConcat([OQuote, TemplateInterp], inside, back);
  }

  /** With nothing flagged, the interior closes nothing that was opened outside it. */
  lemma InsideNests(inside: Tokens)
    requires Nest([OQuote, TemplateInterp], inside).Some? && NothingFlagged(inside)
    ensures Nest([], inside).Some?
  {
    assert [OQuote, TemplateInterp] + [] == [OQuote, TemplateInterp];
    NestsOrBreaksOut([OQuote, TemplateInterp], [], inside);
    if j: nat :| BreaksOut([OQuote, TemplateInterp], [], inside, j) {
      BreakIsFlagged(inside, j);
    }
  }

  /** A closing brace that ends the outer interpolation too early is seen by the counter. */
  lemma BreakIsFlagged(inside: Tokens, j: nat)
    requires BreaksOut([OQuote, TemplateInterp], [], inside, j)
    ensures Flagged(inside, j)
  {
    CounterIsDepth(inside[..j]);
  }

  lemma InsideCloses(brace: Token, inside: Tokens, cBrace: Token, cQuote: Token)
    requires Nest([], inside).Some? && cBrace.kind == TemplateSeqEnd && cQuote.kind == CQuote
    requires Nest([OQuote, TemplateInterp], inside + [cBrace, cQuote]) == Some([])
    ensures WellNested(inside)
  {
    var rest := Nest([], inside).value;
    var stack := [OQuote, TemplateInterp] + rest;
    NestConcat([OQuote, TemplateInterp], inside, [cBrace, cQuote]);
    assert [OQuote, TemplateInterp] + [] == [OQuote, TemplateInterp];
    NestOver([OQuote, TemplateInterp], [], inside);
    assert [cBrace, cQuote] == [cBrace] + [cQuote];
    NestConcat(stack, [cBrace], [cQuote]);
    NestOne(stack, cBrace);
    NestOne(stack[..|stack| - 1], cQuote);
    assert |stack| == 2;
  }

  /** A well-nested expression is returned unchanged, or as a strictly shorter well-nested one: the interior
      of outer delimiters that match each other, without the newlines at its ends, possibly parenthesised. */
  lemma FormatIsSound(ts: Tokens)
    requires WellNested(ts) && Format(ts).Some?
    ensures var out := Format(ts).value;
            || out == ts
            || (&& IsInterpolation(ts) && WellNested(Inside(ts)) && WellNested(ts[1..|ts| - 1])
                && |out| < |ts| && WellNested(out)
                && exists trimmed ::
                   IsTrimmed(Inside(ts), trimmed) && (out == trimmed || out == [OPEN] + trimmed + [CLOSE]))
  {
    if Unwraps(ts) {
      var inside := Inside(ts);
      var trimmed := Trim(inside).value;
      OuterDelimitersMatch(ts);
      TrimIsTrimmed(inside);
      TrimmedNests(inside, LeadingNewlines(inside), TrailingEnd(inside));
      assert WellNested(trimmed);
      EnclosedNests(OPEN, trimmed, CLOSE);
    }
  }

  lemma {:induction false} PrefixNests(ts: Tokens, i: nat)
    requires WellNested(ts) && i <= |ts|
    ensures Nest([], ts[..i]).Some?
  {
    assert ts == ts[..i] + ts[i..];
    NestConcat([], ts[..i], ts[i..]);
  }

  /** Every template delimiter and every literal text among the tokens stands inside a nested quotation. */
  predicate TemplatesAreQuoted(ts: Tokens)
    requires WellNested(ts)
  {
    forall i | 0 <= i < |ts| && ts[i].kind in {TemplateInterp, TemplateSeqEnd, QuotedLit} ::
      PrefixNests(ts, i);
      OpenQuotes(Nest([], ts[..i]).value) > 0
  }

  lemma UnflaggedIsQuoted(ts: Tokens)
    requires WellNested(ts)
    ensures NothingFlagged(ts) <==> TemplatesAreQuoted(ts)
  {
    forall i | 0 <= i < |ts|
      ensures Nest([], ts[..i]).Some? && QuoteDepth(ts[..i]) == OpenQuotes(Nest([], ts[..i]).value)
    {
      PrefixNests(ts, i);
      CounterIsDepth(ts[..i]);
    }
    if NothingFlagged(ts) {
      forall i | 0 <= i < |ts| && ts[i].kind in {TemplateInterp, TemplateSeqEnd, QuotedLit}
        ensures OpenQuotes(Nest([], ts[..i]).value) > 0
      {
        assert !Flagged(ts, i);
      }
    }
  }

  /** The tokens of a quotation whose only content is one interpolation of `inside`. */
  predicate IsWrapped(ts: Tokens, inside: Tokens) {
    && |inside| > 0 && |ts| == |inside| + 4 && ts[2..|ts| - 2] == inside
    && ts[0].kind == OQuote && ts[1].kind == TemplateInterp
    && ts[|ts| - 2].kind == TemplateSeqEnd && ts[|ts| - 1].kind == CQuote
  }

  /** Exactly these well-nested expressions are unwrapped: a quotation of one interpolation whose interior nests on
      its own, is not just newlines, and holds template delimiters and literal text only inside nested
      quotations. All others are returned as they are. */
  lemma UnwrapsExactly(ts: Tokens, inside: Tokens)
    requires WellNested(ts) && IsWrapped(ts, inside) && !AllNewlines(inside)
    ensures Format(ts).Some?
    ensures Format(ts) != Some(ts) <==> WellNested(inside) && TemplatesAreQuoted(inside)
  {
    assert IsInterpolation(ts) && Inside(ts) == inside;
    TrimPanics(inside);
    if Unwraps(ts) {
      OuterDelimitersMatch(ts);
    }
    if WellNested(inside) {
      UnflaggedIsQuoted(inside);
    }
    FormatShrinks(ts);
  }

  lemma UnwrappedWasWrapped(ts: Tokens)
    ensures Format(ts) == Some(ts) || IsWrapped(ts, ts[2..|ts| - 2])
  {
  }

  lemma FrontNewlines(ts: Tokens, n: nat)
    requires n <= |ts| && AllNewlines(ts[..n])
    ensures forall i | 0 <= i < n :: ts[i].kind == Newline
  {
    assert forall i | 0 <= i < n :: ts[i] == ts[..n][i];
  }

  lemma BackNewlines(ts: Tokens, n: nat)
    requires n <= |ts| && AllNewlines(ts[n..])
    ensures forall i | n <= i < |ts| :: ts[i].kind == Newline
  {
    assert forall i | n <= i < |ts| :: ts[i] == ts[n..][i - n];
  }

  lemma LeadingExactly(ts: Tokens, start: nat)
    requires start < |ts| && ts[start].kind != Newline && forall i | 0 <= i < start :: ts[i].kind == Newline
    ensures LeadingNewlines(ts) == start
  {
    FrontNewlines(ts, LeadingNewlines(ts));
  }

  lemma TrailingExactly(ts: Tokens, end: nat)
    requires 0 < end <= |ts| && ts[end - 1].kind != Newline && forall i | end <= i < |ts| :: ts[i].kind == Newline
    ensures TrailingEnd(ts) == end
  {
    BackNewlines(ts, TrailingEnd(ts));
  }

  lemma TrimmedIsUnique(ts: Tokens, trimmed: Tokens)
    requires IsTrimmed(ts, trimmed) && !AllNewlines(ts)
    ensures Trim(ts) == Some(trimmed)
  {
    var start, end :| 0 <= start <= end <= |ts| && TrimmedAt(ts, trimmed, start, end);
    FrontNewlines(ts, start);
    BackNewlines(ts, end);
    assert start < end;
    LeadingExactly(ts, start);
    TrailingExactly(ts, end);
  }

  /** What is unwrapped becomes the interior without the newlines at its ends, in new parentheses exactly if it has
      several lines and does not start and end with parentheses already. */
  lemma UnwrappedExactly(ts: Tokens, trimmed: Tokens)
    requires Format(ts).Some? && Format(ts) != Some(ts)
    ensures |ts| >= 5
    ensures IsTrimmed(ts[2..|ts| - 2], trimmed) ==>
              var severalLines := exists i | 0 <= i < |trimmed| :: trimmed[i].kind == Newline;
              var parens := |trimmed| > 0 && trimmed[0].kind == OParen && trimmed[|trimmed| - 1].kind == CParen;
              Format(ts) == Some(if severalLines && !parens
                                 then [Token(OParen, "(")] + trimmed + [Token(CParen, ")")] else trimmed)
  {
    TrimPanics(Inside(ts));
    if IsTrimmed(Inside(ts), trimmed) {
      TrimmedIsUnique(Inside(ts), trimmed);
    }
  }

  /** The only way to panic is an interpolation with nothing but newlines in it. */
  lemma FormatPanics(ts: Tokens)
    ensures Format(ts).None? <==> IsInterpolation(ts) && AllNewlines(Inside(ts))
  {
    if IsInterpolation(ts) {
      TrimPanics(Inside(ts));
      if AllNewlines(Inside(ts)) {
        assert forall i | 0 <= i < |Inside(ts)| :: !Flagged(Inside(ts), i);
      }
    }
  }

  // ---------------------------------------------------------------- repeated formatting

  lemma FormatShrinks(ts: Tokens)
    requires Format(ts).Some?
    ensures Format(ts).value == ts || |Format(ts).value| < |ts|
  {
  }

  /** Formats again and again until nothing changes. */
  function FormatAll(ts: Tokens): Option<Tokens>
    decreases |ts|
  {
    match Format(ts)
    case None => None
    case Some(out) =>
      FormatShrinks(ts);
      if out == ts then Some(ts) else FormatAll(out)
  }

  /** A pass that changes something leaves nothing to panic on: line breaks that remain are between
      parentheses, so the result is no interpolation of newlines. */
  lemma ChangedDoesNotPanicNext(ts: Tokens)
    requires Format(ts).Some? && Format(ts).value != ts
    ensures Format(Format(ts).value).Some?
  {
    var out := Format(ts).value;
    FormatPanics(out);
    if IsInterpolation(out) {
      assert !BetweenParens(out);
      assert !MultiLine(out);
      assert out[2] == Inside(out)[0];
    }
  }

  /** Repeated formatting of a well-nested expression panics if and only if the expression itself is an
      interpolation of nothing but newlines; every other one reaches a well-nested fixpoint. */
  lemma {:induction false} FormatReachesFixpoint(ts: Tokens)
    requires WellNested(ts)
    ensures FormatAll(ts).None? <==> IsInterpolation(ts) && AllNewlines(Inside(ts))
    ensures FormatAll(ts).Some? ==>
              WellNested(FormatAll(ts).value) && Format(FormatAll(ts).value) == Some(FormatAll(ts).value)
    decreases |ts|
  {
    FormatPanics(ts);
    if Format(ts).Some? && Format(ts).value != ts {
      FormatIsSound(ts);
      FormatShrinks(ts);
      ChangedDoesNotPanicNext(ts);
      FormatPanics(Format(ts).value);
      FormatReachesFixpoint(Format(ts).value);
    }
  }

  // ---------------------------------------------------------------- line breaks in the result

  /** The expression is one pair of parentheses, so line breaks inside it are harmless. */
  predicate Enclosed(ts: Tokens) {
    |ts| >= 2 && BetweenParens(ts) && WellNested(ts[1..|ts| - 1])
  }

  lemma ParenthesisedEnclosed(trimmed: Tokens)
    requires WellNested(trimmed) && MultiLine(Parenthesised(trimmed))
    ensures Enclosed(Parenthesised(trimmed)) <==>
            !(BetweenParens(trimmed) && !WellNested(trimmed[1..|trimmed| - 1]))
  {
    if BetweenParens(trimmed) {
      assert |trimmed| >= 2;
    } else {
      var w := [OPEN] + trimmed + [CLOSE];
      assert w[1..|w| - 1] == trimmed;
    }
  }

  /** An unwrapped expression of several lines ends up enclosed in one pair of parentheses, unless it already
      starts and ends with parentheses that do not belong to each other. */
  lemma MultiLineEnclosed(ts: Tokens)
    requires WellNested(ts) && Unwraps(ts) && Format(ts).Some? && MultiLine(Format(ts).value)
    ensures var trimmed := Trim(Inside(ts)).value;
            Enclosed(Format(ts).value) <==> !(BetweenParens(trimmed) && !WellNested(trimmed[1..|trimmed| - 1]))
  {
    var inside := Inside(ts);
    OuterDelimitersMatch(ts);
    TrimmedNests(inside, LeadingNewlines(inside), TrailingEnd(inside));
    ParenthesisedEnclosed(Trim(inside).value);
  }

  /** Such an expression exists: `"${(a) +` newline `(a)}"` is unwrapped and left without enclosing parentheses. */
  lemma UnrelatedParensAreNotEnclosed()
    ensures exists ts :: WellNested(ts) && Format(ts).Some? && Format(ts).value != ts
                         && MultiLine(Format(ts).value) && !Enclosed(Format(ts).value)
  {
    var a, plus, nl := Token(Other, "a"), Token(Other, "+"), Token(Newline, "");
    TwoPairs(a, plus, nl);
    var body := [OPEN, a, CLOSE, plus, nl, OPEN, a, CLOSE];
    assert body[4].kind == Newline;
    InterpolationOf(body);
  }

  function Interpolated(body: Tokens): Tokens {
    [Token(OQuote, "")] + ([Token(TemplateInterp, "")] + body + [Token(TemplateSeqEnd, "")]) + [Token(CQuote, "")]
  }

  lemma InterpolatedShape(body: Tokens)
    requires |body| > 0
    ensures IsInterpolation(Interpolated(body)) && Inside(Interpolated(body)) == body
    ensures |Interpolated(body)| == |body| + 4
  {
  }

  lemma InterpolatedNests(body: Tokens)
    requires WellNested(body)
    ensures WellNested(Interpolated(body))
  {
    var open, close := Token(TemplateInterp, ""), Token(TemplateSeqEnd, "");
    EnclosedNests(open, body, close);
    EnclosedNests(Token(OQuote, ""), [open] + body + [close], Token(CQuote, ""));
  }

  lemma InterpolationOf(body: Tokens)
    requires WellNested(body) && MultiLine(body) && BetweenParens(body) && !Enclosed(body)
    requires forall i | 0 <= i < |body| :: body[i].kind in {OParen, CParen, Newline, Other}
    ensures exists ts :: WellNested(ts) && Format(ts) == Some(body) && body != ts
  {
    var ts := Interpolated(body);
    InterpolatedNests(body);
    InterpolatedShape(body);
    PlainInterpolation(ts, body);
    assert WellNested(ts) && Format(ts) == Some(body) && body != ts;
  }

  /** An interpolation of plain tokens and parentheses, with no newline at its ends and with parentheses
      there, is unwrapped as it is. */
  lemma PlainInterpolation(ts: Tokens, body: Tokens)
    requires IsInterpolation(ts) && Inside(ts) == body && BetweenParens(body)
    requires forall i | 0 <= i < |body| :: body[i].kind in {OParen, CParen, Newline, Other}
    ensures Format(ts) == Some(body)
  {
    assert LeadingNewlines(body) == 0 && TrailingEnd(body) == |body|;
    assert body[0..|body|] == body;
  }

  /** Two parenthesised terms on two lines nest, but what is between the outermost parentheses does not. */
  lemma TwoPairs(a: Token, plus: Token, nl: Token)
    requires a.kind == Other && plus.kind == Other && nl.kind == Newline
    ensures var body := [OPEN, a, CLOSE, plus, nl, OPEN, a, CLOSE];
            WellNested(body) && !WellNested(body[1..7])
  {
    var body := [OPEN, a, CLOSE, plus, nl, OPEN, a, CLOSE];
    var pair := [OPEN] + [a] + [CLOSE];
    NestOne([], a);
    EnclosedNests(OPEN, [a], CLOSE);
    assert body == pair + ([plus] + ([nl] + pair));
    NestConcat([], pair, [plus] + ([nl] + pair));
    NestConcat([], [plus], [nl] + pair);
    NestConcat([], [nl], pair);
    NestOne([], plus);
    NestOne([], nl);
    assert body[1..7] == [a] + ([CLOSE] + [plus, nl, OPEN, a]);
    NestConcat([], [a], [CLOSE] + [plus, nl, OPEN, a]);
    NestConcat([], [CLOSE], [plus, nl, OPEN, a]);
    NestOne([], CLOSE);
  }
}
