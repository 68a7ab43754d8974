/** What each part of a TypeScript source must be, told from its first characters and the token before it
    alone (`_TypeScriptLexer` and `_typescript_regex_can_start`, scripts/check_test_isolation.py). */
module TypeScriptKinds {
  import opened Common
  import opened Escapes
  import opened LineTracking
  import opened TypeScriptReference
  import opened TypeScriptSkips

  // ---- when a slash begins a regex ----

  function LastValue(tokens: seq<Token>): Option<Text> {
    if tokens == [] then None else Some(tokens[|tokens|-1].value)
  }

  /** One character after which an expression begins. */
  predicate OpensExpression(c: Rune) {
    || c == 0x28 || c == 0x5B || c == 0x7B                // ( [ {
    || c == 0x3D || c == 0x2C || c == 0x3A || c == 0x3B   // = , : ;
    || c == 0x21 || c == 0x26 || c == 0x7C || c == 0x3F   // ! & | ?
  }

  /** A slash is a regex at the start, after a character that opens an expression, and after `return`, `case`
      and `throw`; after anything else it divides. */
  predicate RegexDue(before: Option<Text>) {
    || before.None?
    || (|before.value| == 1 && OpensExpression(before.value[0]))
    || before.value == [0x72, 0x65, 0x74, 0x75, 0x72, 0x6E]
    || before.value == [0x63, 0x61, 0x73, 0x65]
    || before.value == [0x74, 0x68, 0x72, 0x6F, 0x77]
  }

  lemma WordRunes()
    ensures Runes("return") == [0x72, 0x65, 0x74, 0x75, 0x72, 0x6E]
    ensures Runes("case") == [0x63, 0x61, 0x73, 0x65] && Runes("throw") == [0x74, 0x68, 0x72, 0x6F, 0x77]
  {
  }

  lemma OpenerRunes()
    ensures Runes("(") == [0x28] && Runes("[") == [0x5B] && Runes("{") == [0x7B] && Runes("=") == [0x3D]
    ensures Runes(",") == [0x2C] && Runes(":") == [0x3A] && Runes(";") == [0x3B] && Runes("!") == [0x21]
    ensures Runes("&") == [0x26] && Runes("|") == [0x7C] && Runes("?") == [0x3F]
  {
  }

  lemma CanStartWhenDue(tokens: seq<Token>)
    ensures RegexCanStart(tokens) <==> RegexDue(LastValue(tokens))
  {
    WordRunes();
    OpenerRunes();
    if tokens != [] {
      var value := tokens[|tokens|-1].value;
      if |value| == 1 && OpensExpression(value[0]) {
        SomeOpener(value);
      } else if RegexDue(Some(value)) {
        assert "return" in REGEX_OPENERS && "case" in REGEX_OPENERS && "throw" in REGEX_OPENERS;
      }
    }
  }

  lemma SomeOpener(value: Text)
    requires |value| == 1 && OpensExpression(value[0])
    ensures exists opener :: opener in REGEX_OPENERS && value == Runes(opener)
  {
    OpenerRunes();
    assert value == [value[0]];
    var opener :=
      if value[0] == 0x28 then "(" else if value[0] == 0x5B then "[" else if value[0] == 0x7B then "{"
      else if value[0] == 0x3D then "=" else if value[0] == 0x2C then "," else if value[0] == 0x3A then ":"
      else if value[0] == 0x3B then ";" else if value[0] == 0x21 then "!" else if value[0] == 0x26 then "&"
      else if value[0] == 0x7C then "|" else "?";
    assert opener in REGEX_OPENERS && value == Runes(opener);
  }

  // ---- the token before a part ----

  /** The value of the token a part gives, if it gives one. */
  function TokenOf(source: Text, rules: Rules, part: Part): Option<Text>
    requires Fits(part, |source|)
  {
    match part.kind
    case Word => Some(source[part.start..part.end])
    case Literal => Some(rules.cook(BodyTo(source, part.start, part.end)))
    case _ => None
  }

  /** The last token the parts give from position `from` on. */
  function ValueBefore(source: Text, rules: Rules, parts: seq<Part>, from: nat): Option<Text>
    requires AllFit(parts, |source|)
  {
    if parts == [] then None
    else
      var last := parts[|parts|-1];
      if from <= last.start && TokenOf(source, rules, last).Some? then TokenOf(source, rules, last)
      else ValueBefore(source, rules, parts[..|parts|-1], from)
  }

  /** A part's kind, from the character it begins with, the next one in its text and the token before it. */
  function KindDue(source: Text, rules: Rules, part: Part, before: Option<Text>): Kind
    requires Fits(part, |source|)
  {
    var c := source[part.start];
    var following := if part.start + 1 < part.until then Some(source[part.start+1]) else None;
    if c == 0x0A || rules.chars.space(c) then Blank
    else if c == 0x27 || c == 0x22 then Literal
    else if c == 0x60 then TemplateText
    else if c == 0x2F && following == Some(0x2F) then LineComment
    else if c == 0x2F && following == Some(0x2A) then BlockComment
    else if c == 0x2F && RegexDue(before) then Regex
    else Word
  }

  /** A part of code is of the kind that is due, and a slash that divides is a word of one character. */
  predicate RightKind(source: Text, rules: Rules, part: Part, before: Option<Text>)
    requires Fits(part, |source|)
  {
    part.kind.TemplateText? ||
    (&& part.kind == KindDue(source, rules, part, before)
     && (source[part.start] == 0x2F && part.kind.Word? ==> part.end == part.start + 1))
  }

  function OrElse(value: Option<Text>, other: Option<Text>): Option<Text> {
    if value.Some? then value else other
  }

  /** The token before part `i` in its own text; outside any interpolation `initial` comes before them all. */
  function BeforePart(source: Text, rules: Rules, parts: seq<Part>, i: nat, initial: Option<Text>): Option<Text>
    requires AllFit(parts, |source|) && i < |parts|
  {
    var value := ValueBefore(source, rules, parts[..i], parts[i].within);
    if parts[i].within == 0 then OrElse(value, initial) else value
  }

  ghost predicate AllRight(source: Text, rules: Rules, parts: seq<Part>, initial: Option<Text>)
    requires AllFit(parts, |source|)
  {
    forall i: nat :: i < |parts| ==> PartIsRight(source, rules, parts, i, initial)
  }

  ghost predicate PartIsRight(source: Text, rules: Rules, parts: seq<Part>, i: nat, initial: Option<Text>)
    requires AllFit(parts, |source|) && i < |parts|
  {
    RightKind(source, rules, parts[i], BeforePart(source, rules, parts, i, initial))
  }

  /** Parts that begin in [lo, hi), in interpolations, if any, that do too. */
  ghost predicate Between(parts: seq<Part>, lo: nat, hi: nat) {
    forall i :: 0 <= i < |parts| ==>
      lo <= parts[i].start < hi && (parts[i].within == 0 || lo <= parts[i].within)
  }

  lemma {:induction false} ValueConcat(source: Text, rules: Rules, a: seq<Part>, b: seq<Part>, from: nat)
    requires AllFit(a, |source|) && AllFit(b, |source|)
    ensures ValueBefore(source, rules, a + b, from)
         == OrElse(ValueBefore(source, rules, b, from), ValueBefore(source, rules, a, from))
    decreases |b|
  {
    if b == [] {
      assert a + b == a;
    } else {
      var n := |b| - 1;
      assert (a + b)[..|a|+n] == a + b[..n] && (a + b)[|a|+n] == b[n];
      ValueConcat(source, rules, a, b[..n], from);
    }
  }

  lemma {:induction false} NothingFrom(source: Text, rules: Rules, parts: seq<Part>, from: nat)
    requires AllFit(parts, |source|) && forall i :: 0 <= i < |parts| ==> parts[i].start < from
    ensures ValueBefore(source, rules, parts, from) == None
  {
    if parts != [] {
      NothingFrom(source, rules, parts[..|parts|-1], from);
    }
  }

  lemma BeforeInSecond(source: Text, rules: Rules, a: seq<Part>, b: seq<Part>, mid: nat, hi: nat, i: nat,
                       initial: Option<Text>)
    requires AllFit(a, |source|) && AllFit(b, |source|) && Between(b, mid, hi) && i < |b|
    requires forall k :: 0 <= k < |a| ==> a[k].start < mid
    ensures var second := OrElse(ValueBefore(source, rules, a, 0), initial);
            BeforePart(source, rules, a + b, |a| + i, initial) == BeforePart(source, rules, b, i, second)
  {
    assert (a + b)[|a|+i] == b[i] && (a + b)[..|a|+i] == a + b[..i];
    ValueConcat(source, rules, a, b[..i], b[i].within);
    if b[i].within != 0 {
      NothingFrom(source, rules, a, b[i].within);
    }
  }

  lemma RightInFirst(source: Text, rules: Rules, a: seq<Part>, b: seq<Part>, i: nat, initial: Option<Text>)
    requires AllFit(a, |source|) && AllFit(b, |source|) && i < |a| && PartIsRight(source, rules, a, i, initial)
    ensures PartIsRight(source, rules, a + b, i, initial)
  {
    assert (a + b)[i] == a[i] && (a + b)[..i] == a[..i];
  }

  lemma RightInSecond(source: Text, rules: Rules, a: seq<Part>, b: seq<Part>, mid: nat, hi: nat, i: nat,
                      initial: Option<Text>)
    requires AllFit(a, |source|) && AllFit(b, |source|) && Between(b, mid, hi) && i < |b|
    requires forall k :: 0 <= k < |a| ==> a[k].start < mid
    requires PartIsRight(source, rules, b, i, OrElse(ValueBefore(source, rules, a, 0), initial))
    ensures PartIsRight(source, rules, a + b, |a| + i, initial)
  {
    BeforeInSecond(source, rules, a, b, mid, hi, i, initial);
    assert (a + b)[|a|+i] == b[i];
  }

  lemma FitConcat(a: seq<Part>, b: seq<Part>, n: nat)
    requires AllFit(a, n) && AllFit(b, n)
    ensures AllFit(a + b, n)
  {
  }

  lemma BetweenConcat(a: seq<Part>, b: seq<Part>, lo: nat, mid: nat, hi: nat)
    requires lo <= mid <= hi && Between(a, lo, mid) && Between(b, mid, hi)
    ensures Between(a + b, lo, hi)
  {
  }

  lemma RightConcat(source: Text, rules: Rules, a: seq<Part>, b: seq<Part>, lo: nat, mid: nat, hi: nat,
                    initial: Option<Text>)
    requires AllFit(a, |source|) && AllFit(b, |source|) && lo <= mid <= hi && Between(a, lo, mid) && Between(b, mid, hi)
    requires AllRight(source, rules, a, initial)
    requires AllRight(source, rules, b, OrElse(ValueBefore(source, rules, a, 0), initial))
    ensures Between(a + b, lo, hi) && AllRight(source, rules, a + b, initial)
  {
    BetweenConcat(a, b, lo, mid, hi);
    RightConcatAt(source, rules, a, b, mid, hi, initial);
  }

  lemma RightConcatAt(source: Text, rules: Rules, a: seq<Part>, b: seq<Part>, mid: nat, hi: nat, initial: Option<Text>)
    requires AllFit(a, |source|) && AllFit(b, |source|) && Between(b, mid, hi)
    requires forall k :: 0 <= k < |a| ==> a[k].start < mid
    requires AllRight(source, rules, a, initial)
    requires AllRight(source, rules, b, OrElse(ValueBefore(source, rules, a, 0), initial))
    ensures AllFit(a + b, |source|) && AllRight(source, rules, a + b, initial)
  {
    FitConcat(a, b, |source|);
    forall i: nat | i < |a + b|
      ensures PartIsRight(source, rules, a + b, i, initial)
    {
      if i < |a| {
        RightInFirst(source, rules, a, b, i, initial);
      } else {
        RightInSecond(source, rules, a, b, mid, hi, i - |a|, initial);
      }
    }
  }

  // ---- parts of an interpolation ----

  lemma TokenShifts(source: Text, rules: Rules, start: nat, end: nat, part: Part)
    requires start <= end <= |source| && Fits(part, end - start)
    ensures TokenOf(source[start..end], rules, part) == TokenOf(source, rules, Moved(part, start))
  {
    if part.kind.Word? {
      SliceOfSlice(source, start, end, part.start, part.end);
    } else if part.kind.Literal? {
      BodyInSlice(source, start, end, part.start, part.end);
    }
  }

  lemma {:induction false} ValueShifts(source: Text, rules: Rules, start: nat, end: nat, parts: seq<Part>, from: nat)
    requires start <= end <= |source| && AllFit(parts, end - start) && AllFit(Shift(parts, start), |source|)
    ensures ValueBefore(source[start..end], rules, parts, from)
         == ValueBefore(source, rules, Shift(parts, start), from + start)
  {
    if parts != [] {
      var n := |parts| - 1;
      assert Shift(parts, start)[..n] == Shift(parts[..n], start);
      TokenShifts(source, rules, start, end, parts[n]);
      ValueShifts(source, rules, start, end, parts[..n], from);
    }
  }

  lemma KindShifts(source: Text, rules: Rules, start: nat, end: nat, part: Part, before: Option<Text>)
    requires start <= end <= |source| && Fits(part, end - start)
    ensures RightKind(source[start..end], rules, part, before) <==> RightKind(source, rules, Moved(part, start), before)
  {
    var slice := source[start..end];
    assert slice[part.start] == source[part.start+start];
    if part.start + 1 < part.until {
      assert slice[part.start+1] == source[part.start+1+start];
    }
  }

  lemma RightShift(source: Text, rules: Rules, start: nat, end: nat, parts: seq<Part>, initial: Option<Text>)
    requires 0 < start <= end <= |source| && AllFit(parts, end - start)
    requires Between(parts, 0, end - start) && AllRight(source[start..end], rules, parts, None)
    ensures AllFit(Shift(parts, start), |source|) && Between(Shift(parts, start), start, end)
    ensures AllRight(source, rules, Shift(parts, start), initial)
  {
    forall i: nat | i < |parts|
      ensures PartIsRight(source, rules, Shift(parts, start), i, initial)
    {
      RightShifts(source, rules, start, end, parts, i, initial);
    }
  }

  lemma RightShifts(source: Text, rules: Rules, start: nat, end: nat, parts: seq<Part>, i: nat, initial: Option<Text>)
    requires 0 < start <= end <= |source| && AllFit(parts, end - start) && AllFit(Shift(parts, start), |source|)
    requires i < |parts| && PartIsRight(source[start..end], rules, parts, i, None)
    ensures PartIsRight(source, rules, Shift(parts, start), i, initial)
  {
    assert Shift(parts, start)[..i] == Shift(parts[..i], start);
    ValueShifts(source, rules, start, end, parts[..i], parts[i].within);
    KindShifts(source, rules, start, end, parts[i], BeforePart(source[start..end], rules, parts, i, None));
  }

  // ---- every part is of the kind that is due ----

  lemma LastOfJoin(a: Lexed, b: Lexed)
    ensures LastValue(a.Join(b).tokens) == OrElse(LastValue(b.tokens), LastValue(a.tokens))
  {
  }

  lemma LastOfOne(source: Text, first: int, rules: Rules, part: Part)
    requires Fits(part, |source|)
    ensures LastValue(Read(source, first, rules, part).tokens) == TokenOf(source, rules, part)
  {
  }

  lemma {:induction false} LastOfSummary(source: Text, first: int, rules: Rules, parts: seq<Part>)
    requires AllFit(parts, |source|)
    ensures LastValue(Summary(source, first, rules, parts).tokens) == ValueBefore(source, rules, parts, 0)
  {
    if parts != [] {
      var n := |parts| - 1;
      LastOfSummary(source, first, rules, parts[..n]);
      SummaryLast(source, first, rules, parts);
      LastOfJoin(Summary(source, first, rules, parts[..n]), Read(source, first, rules, parts[n]));
      LastOfOne(source, first, rules, parts[n]);
    }
  }

  lemma SummaryLast(source: Text, first: int, rules: Rules, parts: seq<Part>)
    requires AllFit(parts, |source|) && parts != []
    ensures var n := |parts| - 1;
            Summary(source, first, rules, parts)
              == Summary(source, first, rules, parts[..n]).Join(Read(source, first, rules, parts[n]))
  {
    var n := |parts| - 1;
    assert parts == parts[..n] + [parts[n]];
    SummaryConcat(source, first, rules, parts[..n], [parts[n]]);
    SummaryOne(source, first, rules, parts[n]);
  }

  lemma StepValue(source: Text, first: int, rules: Rules, at: nat, out: Lexed)
    requires at < |source|
    ensures LastValue(Step(source, first, rules, at, out).out.tokens)
         == OrElse(ValueBefore(source, rules, PartsAt(source, first, rules, at, out), 0), LastValue(out.tokens))
  {
    StepIsSummary(source, first, rules, at, out);
    LastOfSummary(source, first, rules, PartsAt(source, first, rules, at, out));
  }

  /** The steps that take one part. */
  lemma OneIsRight(source: Text, first: int, rules: Rules, at: nat, out: Lexed)
    requires at < |source| && source[at] != BACKTICK
    ensures var parts, next := PartsAt(source, first, rules, at, out), Step(source, first, rules, at, out).next;
            Between(parts, at, next) && AllRight(source, rules, parts, LastValue(out.tokens))
  {
    CanStartWhenDue(out.tokens);
    var parts := PartsAt(source, first, rules, at, out);
    assert |parts| == 1;
    assert BeforePart(source, rules, parts, 0, LastValue(out.tokens)) == LastValue(out.tokens);
  }

  lemma {:induction false} PartsAreRight(source: Text, first: int, rules: Rules, at: nat, out: Lexed)
    requires at <= |source|
    ensures var parts := PartsFrom(source, first, rules, at, out);
            Between(parts, at, |source|) && AllRight(source, rules, parts, LastValue(out.tokens))
    decreases |source|, 2, |source| - at
  {
    if at < |source| {
      var s := Step(source, first, rules, at, out);
      var here, rest := PartsAt(source, first, rules, at, out), PartsFrom(source, first, rules, s.next, s.out);
      if source[at] == BACKTICK {
        TemplateStepIsRight(source, first, rules, at, out);
      } else {
        OneIsRight(source, first, rules, at, out);
      }
      PartsAreRight(source, first, rules, s.next, s.out);
      StepValue(source, first, rules, at, out);
      RightConcat(source, rules, here, rest, at, s.next, |source|, LastValue(out.tokens));
    }
  }

  lemma {:induction false} TemplateStepIsRight(source: Text, first: int, rules: Rules, at: nat, out: Lexed)
    requires at < |source| && source[at] == BACKTICK
    ensures var parts, next := PartsAt(source, first, rules, at, out), Step(source, first, rules, at, out).next;
            Between(parts, at, next) && AllRight(source, rules, parts, LastValue(out.tokens))
    decreases |source|, 1, 0
  {
    var template := TemplateFrom(source, at + 1, false);
    TemplateIsApart(source, at);
    TemplateIsRight(source, first, rules, at, template.end, template.spans, LastValue(out.tokens));
  }

  lemma TextIsRight(source: Text, rules: Rules, text: Part, initial: Option<Text>)
    requires Fits(text, |source|) && text.kind.TemplateText? && text.within == 0
    ensures AllRight(source, rules, [text], initial) && Between([text], text.start, text.end)
    ensures ValueBefore(source, rules, [text], 0) == None
  {
    assert [text][..0] == [];
  }

  lemma {:induction false} TemplateIsRight(source: Text, first: int, rules: Rules, at: nat, end: nat, spans: seq<Span>,
                                           initial: Option<Text>)
    requires end <= |source| && Apart(spans, at, end)
    ensures var parts := TemplateParts(source, first, rules, at, end, spans);
            Between(parts, at, end) && AllRight(source, rules, parts, initial)
    decreases |source|, 0, |spans|
  {
    ApartEnds(spans, at, end);
    if spans == [] {
      if at < end {
        TextIsRight(source, rules, Part(TemplateText, at, end, 0, |source|), initial);
      }
    } else {
      var span, rest := spans[0], spans[1..];
      ApartEnds(rest, span.end, end);
      var text := Part(TemplateText, at, span.start, 0, |source|);
      var inner := Shift(SpanParts(source, first, rules, span), span.start);
      var later := TemplateParts(source, first, rules, span.end, end, rest);
      var slice, line := source[span.start..span.end], LineOf(source, first, span.start);
      PartsAreRight(slice, line, rules, 0, NOTHING);
      RightShift(source, rules, span.start, span.end, SpanParts(source, first, rules, span), initial);
      TextIsRight(source, rules, text, initial);
      RightConcat(source, rules, [text], inner, at, span.start, span.end, initial);
      TemplateIsRight(source, first, rules, span.end, end, rest,
                      OrElse(ValueBefore(source, rules, [text] + inner, 0), initial));
      RightConcat(source, rules, [text] + inner, later, at, span.end, end, initial);
    }
  }

  /** For every source: each part that is not a template's own text is of the kind its first characters and the
      token before it in its own text call for.  In particular a slash that opens no comment is a regex if and
      only if that token is absent, a character that opens an expression, or `return`, `case` or `throw`, and
      else a token of one character. */
  lemma EveryPartIsDue(source: Text, first: int, rules: Rules)
    ensures var parts := PartsFrom(source, first, rules, 0, NOTHING);
            forall i :: 0 <= i < |parts| ==>
              RightKind(source, rules, parts[i], ValueBefore(source, rules, parts[..i], parts[i].within))
  {
    var parts := PartsFrom(source, first, rules, 0, NOTHING);
    PartsAreRight(source, first, rules, 0, NOTHING);
    forall i | 0 <= i < |parts|
      ensures RightKind(source, rules, parts[i], ValueBefore(source, rules, parts[..i], parts[i].within))
    {
      assert PartIsRight(source, rules, parts, i, None);
    }
  }

  // ---- a division after a string ----

  /** A string that holds an opening parenthesis, divided by two. */
  const QUOTED_OPENER: Text := [0x27, 0x28, 0x27, 0x2F, 0x32]

  lemma QuotedOpenerEnds()
    ensures QuotedEnd(QUOTED_OPENER, 1, 0x27, false) == 3 && BodyTo(QUOTED_OPENER, 0, 3) == [0x28]
  {
    assert QuotedEnd(QUOTED_OPENER, 2, 0x27, false) == 3;
  }

  /** The token before a slash counts by its value even when it is a string, so a division after a string
      whose value opens an expression is taken for a regex, and what follows is lost. */
  lemma DivisionAfterQuotedOpener(first: int, rules: Rules)
    requires rules.cook([0x28]) == [0x28]
    ensures LexFrom(QUOTED_OPENER, first, rules, 0, NOTHING).tokens == [Token([0x28], first, true)]
  {
    var source := QUOTED_OPENER;
    var found := Lexed([Token([0x28], first, true)], map[], {});
    QuotedOpenerEnds();
    assert source[..0] == [] && LineOf(source, first, 0) == first;
    assert Step(source, first, rules, 0, NOTHING) == Ahead(3, found);
    assert RegexDue(Some([0x28]));
    CanStartWhenDue(found.tokens);
    assert RegexEnd(source, 5, false, false, rules.chars) == 5;
    assert RegexEnd(source, 4, false, false, rules.chars) == 5;
    assert Step(source, first, rules, 3, found) == Ahead(5, found);
  }
}
