/** Where an interpolation ends, and where its own lexing would end it.  The scan that looks for the closing
    brace (`_typescript_expression_end`, scripts/check_test_isolation.py) does not know regexes, the lexer
    does; this says exactly when the two agree and what follows. */
module TypeScriptInterpolation {
  import opened Common
  import opened Escapes
  import opened LineTracking
  import opened TypeScriptReference
  import opened TypeScriptSkips
  import opened TypeScriptSlices

  // ---- the scan, up to a point ----

  /** How many braces the scan from `at`, with `depth` open, has open when it comes to `hi`; None if it ends
      the interpolation before or steps over `hi`. */
  function DepthAt(text: Text, at: nat, depth: nat, hi: nat): (reached: Option<nat>)
    requires at <= |text| && depth >= 1
    ensures reached.Some? ==> reached.value >= 1
    decreases |text| - at
  {
    if at >= hi then if at == hi then Some(depth) else None
    else if at == |text| || ClosesHere(text, at, depth) then None
    else DepthAt(text, ScanNext(text, at), ScanDepth(text, at, depth), hi)
  }

  /** From any point the scan passes it goes on to the same end. */
  lemma {:induction false} PassingKeepsTheEnd(text: Text, at: nat, depth: nat, mid: nat)
    requires at <= mid <= |text| && depth >= 1 && DepthAt(text, at, depth, mid).Some?
    ensures ExpressionEndFrom(text, at, depth) == ExpressionEndFrom(text, mid, DepthAt(text, at, depth, mid).value)
    decreases |text| - at
  {
    if at < mid {
      ScanStep(text, at, depth);
      PassingKeepsTheEnd(text, ScanNext(text, at), ScanDepth(text, at, depth), mid);
    }
  }

  /** Nothing in [lo, hi) begins a literal, template or comment, or is a brace. */
  predicate Harmless(text: Text, lo: nat, hi: nat) {
    forall k :: lo <= k < hi && k < |text| ==>
      && text[k] !in {QUOTE, DOUBLE, BACKTICK, OPEN, CLOSE}
      && !LineCommentAt(text, k) && !BlockCommentAt(text, k)
  }

  lemma {:induction false} HarmlessIsPassed(text: Text, lo: nat, hi: nat, depth: nat)
    requires lo <= hi <= |text| && depth >= 1 && Harmless(text, lo, hi)
    ensures DepthAt(text, lo, depth, hi) == Some(depth)
    decreases hi - lo
  {
    if lo < hi {
      assert NestedEnd(text, lo) == None && Delta(text[lo]) == 0;
      HarmlessIsPassed(text, lo + 1, hi, depth);
    }
  }

  // ---- lexing in place ----

  /** A regex begins here, as the lexer sees it after `tokens`. */
  predicate RegexAt(source: Text, at: nat, tokens: seq<Token>)
    requires at < |source|
  {
    source[at] == SLASH && !LineCommentAt(source, at) && !BlockCommentAt(source, at) && RegexCanStart(tokens)
  }

  /** The interpolation is over: the source is, or the brace token here is the first to close more than was
      opened. */
  predicate Over(source: Text, at: nat, depth: nat)
    requires at <= |source|
  {
    at == |source| || ClosesHere(source, at, depth)
  }

  /** Where the interpolation would end if the lexer itself went on in place, counting its brace tokens. */
  function OwnEnd(source: Text, first: int, rules: Rules, at: nat, out: Lexed, depth: nat): (end: nat)
    requires at <= |source| && depth >= 1
    ensures at <= end <= |source|
    decreases |source| - at
  {
    if Over(source, at, depth) then at
    else
      var s := Step(source, first, rules, at, out);
      OwnEnd(source, first, rules, s.next, s.out, depth + Delta(source[at]))
  }

  /** The scan passes every point that lexing in place passes, with as many braces open. */
  ghost predicate Agree(source: Text, first: int, rules: Rules, at: nat, out: Lexed, depth: nat)
    requires at <= |source| && depth >= 1
    decreases |source| - at
  {
    Over(source, at, depth) ||
    (var s, after := Step(source, first, rules, at, out), depth + Delta(source[at]);
     && DepthAt(source, at, depth, s.next) == Some(after)
     && Agree(source, first, rules, s.next, s.out, after))
  }

  /** Every regex that lexing in place meets is passed by the scan, character by character, with as many
      braces open after it as before. */
  ghost predicate RegexesPass(source: Text, first: int, rules: Rules, at: nat, out: Lexed, depth: nat)
    requires at <= |source| && depth >= 1
    decreases |source| - at
  {
    Over(source, at, depth) ||
    (var s, after := Step(source, first, rules, at, out), depth + Delta(source[at]);
     && (RegexAt(source, at, out.tokens) ==> DepthAt(source, at, depth, s.next) == Some(depth))
     && RegexesPass(source, first, rules, s.next, s.out, after))
  }

  /** Every regex that lexing in place meets holds nothing the scan would take for more than text. */
  ghost predicate RegexesHarmless(source: Text, first: int, rules: Rules, at: nat, out: Lexed, depth: nat)
    requires at <= |source| && depth >= 1
    decreases |source| - at
  {
    Over(source, at, depth) ||
    (var s, after := Step(source, first, rules, at, out), depth + Delta(source[at]);
     && (RegexAt(source, at, out.tokens) ==> Harmless(source, at, s.next))
     && RegexesHarmless(source, first, rules, s.next, s.out, after))
  }

  lemma ScanOnce(text: Text, at: nat, depth: nat)
    requires at < |text| && depth >= 1 && !ClosesHere(text, at, depth)
    ensures DepthAt(text, at, depth, ScanNext(text, at)) == Some(ScanDepth(text, at, depth))
  {
  }

  lemma {:induction false} RunIsPassed(text: Text, rules: Rules, lo: nat, hi: nat, depth: nat)
    requires lo <= hi <= |text| && depth >= 1 && forall k :: lo <= k < hi ==> rules.Continues(text[k])
    ensures DepthAt(text, lo, depth, hi) == Some(depth)
    decreases hi - lo
  {
    if lo < hi {
      assert rules.Continues(text[lo]);
      assert NestedEnd(text, lo) == None && Delta(text[lo]) == 0;
      RunIsPassed(text, rules, lo + 1, hi, depth);
    }
  }

  lemma WordIsPassed(source: Text, rules: Rules, at: nat, depth: nat)
    requires at < |source| && depth >= 1 && NestedEnd(source, at).None? && !ClosesHere(source, at, depth)
    ensures DepthAt(source, at, depth, WordEnd(source, rules, at)) == Some(depth + Delta(source[at]))
  {
    if rules.Starts(source[at]) {
      RunIsPassed(source, rules, at + 1, WordEnd(source, rules, at), depth);
    }
  }

  /** The scan takes every step of the lexer that is not a regex. */
  lemma OtherStepsArePassed(source: Text, first: int, rules: Rules, at: nat, out: Lexed, depth: nat)
    requires at < |source| && depth >= 1 && !ClosesHere(source, at, depth) && !RegexAt(source, at, out.tokens)
    ensures DepthAt(source, at, depth, Step(source, first, rules, at, out).next) == Some(depth + Delta(source[at]))
  {
    var c := source[at];
    ScanOnce(source, at, depth);
    if c != LF && !rules.chars.space(c) && SlashEnd(source, rules.chars, at, out.tokens).None?
       && c != QUOTE && c != DOUBLE && c != BACKTICK {
      WordIsPassed(source, rules, at, depth);
    }
  }

  /** The scan and lexing in place agree, at every point, exactly if every regex is passed. */
  lemma {:induction false} AgreeExactly(source: Text, first: int, rules: Rules, at: nat, out: Lexed, depth: nat)
    requires at <= |source| && depth >= 1
    ensures Agree(source, first, rules, at, out, depth) <==> RegexesPass(source, first, rules, at, out, depth)
    decreases |source| - at
  {
    if !Over(source, at, depth) {
      var s, after := Step(source, first, rules, at, out), depth + Delta(source[at]);
      AgreeExactly(source, first, rules, s.next, s.out, after);
      if !RegexAt(source, at, out.tokens) {
        OtherStepsArePassed(source, first, rules, at, out, depth);
      }
    }
  }

  lemma {:induction false} HarmlessPass(source: Text, first: int, rules: Rules, at: nat, out: Lexed, depth: nat)
    requires at <= |source| && depth >= 1 && RegexesHarmless(source, first, rules, at, out, depth)
    ensures RegexesPass(source, first, rules, at, out, depth)
    decreases |source| - at
  {
    if !Over(source, at, depth) {
      var s, after := Step(source, first, rules, at, out), depth + Delta(source[at]);
      HarmlessPass(source, first, rules, s.next, s.out, after);
      if RegexAt(source, at, out.tokens) {
        HarmlessIsPassed(source, at, s.next, depth);
      }
    }
  }

  lemma OverEnds(source: Text, at: nat, depth: nat)
    requires at <= |source| && depth >= 1 && Over(source, at, depth)
    ensures ExpressionEndFrom(source, at, depth) == at
  {
    if at < |source| {
      ScanStep(source, at, depth);
    }
  }

  lemma OwnEndStep(source: Text, first: int, rules: Rules, at: nat, out: Lexed, depth: nat)
    requires at <= |source| && depth >= 1
    ensures OwnEnd(source, first, rules, at, out, depth) ==
            if Over(source, at, depth) then at
            else
              var s := Step(source, first, rules, at, out);
              OwnEnd(source, first, rules, s.next, s.out, depth + Delta(source[at]))
  {
  }

  lemma {:induction false} AgreeingEnds(source: Text, first: int, rules: Rules, at: nat, out: Lexed, depth: nat)
    requires at <= |source| && depth >= 1 && Agree(source, first, rules, at, out, depth)
    ensures ExpressionEndFrom(source, at, depth) == OwnEnd(source, first, rules, at, out, depth)
    decreases |source| - at
  {
    OwnEndStep(source, first, rules, at, out, depth);
    if Over(source, at, depth) {
      OverEnds(source, at, depth);
    } else {
      var s, after := Step(source, first, rules, at, out), depth + Delta(source[at]);
      PassingKeepsTheEnd(source, at, depth, s.next);
      AgreeingEnds(source, first, rules, s.next, s.out, after);
    }
  }

  // ---- lexing on its own is lexing in place ----

  /** Steps lead from `at` to `end` exactly. */
  ghost predicate Leads(source: Text, first: int, rules: Rules, at: nat, out: Lexed, end: nat)
    requires at <= |source|
    decreases |source| - at
  {
    at == end ||
    (&& at < end && at < |source|
     && var s := Step(source, first, rules, at, out); Leads(source, first, rules, s.next, s.out, end))
  }

  /** What lexing in place finds up to `end`. */
  function InPlace(source: Text, first: int, rules: Rules, at: nat, out: Lexed, end: nat): Lexed
    requires at <= |source|
    decreases |source| - at
  {
    if at >= end || at == |source| then out
    else
      var s := Step(source, first, rules, at, out);
      InPlace(source, first, rules, s.next, s.out, end)
  }

  lemma {:induction false} OwnEndIsLedTo(source: Text, first: int, rules: Rules, at: nat, out: Lexed, depth: nat)
    requires at <= |source| && depth >= 1
    ensures Leads(source, first, rules, at, out, OwnEnd(source, first, rules, at, out, depth))
    decreases |source| - at
  {
    if !Over(source, at, depth) {
      var s := Step(source, first, rules, at, out);
      OwnEndIsLedTo(source, first, rules, s.next, s.out, depth + Delta(source[at]));
    }
  }

  /** The same tokens, and the same reasons for the same lines. */
  predicate Same(a: Lexed, b: Lexed) {
    a.tokens == b.tokens && a.reasons == b.reasons
  }

  lemma SpanIsTheSame(source: Text, first: int, rules: Rules, lo: nat, hi: nat, span: Span)
    requires lo <= hi <= |source| && lo + 2 <= span.start <= span.end <= hi
    ensures LexSpan(source[lo..hi], LineOf(source, first, lo), rules, Span(span.start - lo, span.end - lo))
         == LexSpan(source, first, rules, span)
  {
    SliceOfSlice(source, lo, hi, span.start - lo, span.end - lo);
    LineInSlice(source, first, lo, hi, span.start - lo);
  }

  lemma {:induction false} SpansAreTheSame(source: Text, first: int, rules: Rules, lo: nat, hi: nat,
                                           spans: seq<Span>, out: Lexed, inner: Lexed)
    requires lo <= hi <= |source| && Inside(spans, lo, hi) && From(spans, lo) && Same(inner, out)
    ensures Inside(Back(spans, lo), 0, hi - lo) && Inside(spans, 0, |source|)
    ensures Same(LexSpans(source[lo..hi], LineOf(source, first, lo), rules, Back(spans, lo), inner),
                 LexSpans(source, first, rules, spans, out))
    decreases |spans|
  {
    if spans != [] {
      var span, rest := spans[0], spans[1..];
      assert forall k :: 0 <= k < |rest| ==> rest[k] == spans[k+1];
      var back := Back(spans, lo);
      assert back == [Span(span.start - lo, span.end - lo)] + Back(rest, lo);
      assert back[1..] == Back(rest, lo);
      SpanIsTheSame(source, first, rules, lo, hi, span);
      var found := LexSpan(source, first, rules, span);
      SpansAreTheSame(source, first, rules, lo, hi, rest, out.Join(found), inner.Join(found));
    }
  }

  lemma CutOut(source: Text, lo: nat, hi: nat)
    requires lo <= hi <= |source|
    ensures Cut(source, source[lo..hi], lo)
  {
  }

  lemma SlashInSlice(source: Text, slice: Text, lo: nat, chars: CharTables, at: nat, tokens: seq<Token>)
    requires Cut(source, slice, lo) && lo <= at < lo + |slice|
    requires SlashEnd(source, chars, at, tokens).Or(at + 1) <= lo + |slice|
    ensures var outer, inner := SlashEnd(source, chars, at, tokens), SlashEnd(slice, chars, at - lo, tokens);
            inner == if outer.Some? then Some(outer.value - lo) else None
    ensures LineCommentAt(slice, at - lo) <==> LineCommentAt(source, at)
  {
    if source[at] == SLASH {
      if LineCommentAt(source, at) {
        FindInSlice(source, slice, lo, LF, at + 2);
      } else if BlockCommentAt(source, at) {
        BlockInSlice(source, slice, lo, at);
      } else if RegexCanStart(tokens) {
        RegexInSlice(source, slice, lo, at + 1, false, false, chars);
      }
    }
  }

  lemma CommentIsTheSame(source: Text, first: int, rules: Rules, lo: nat, hi: nat, at: nat, end: nat,
                         out: Lexed, inner: Lexed)
    requires lo <= at < end <= hi <= |source| && Same(inner, out)
    ensures Same(WithComment(source[lo..hi], LineOf(source, first, lo), rules, at - lo, end - lo, inner),
                 WithComment(source, first, rules, at, end, out))
  {
    SliceOfSlice(source, lo, hi, at - lo, end - lo);
    LineInSlice(source, first, lo, hi, at - lo);
  }

  lemma WordEndInSlice(source: Text, slice: Text, lo: nat, rules: Rules, at: nat)
    requires Cut(source, slice, lo) && lo <= at < lo + |slice| && WordEnd(source, rules, at) <= lo + |slice|
    ensures WordEnd(slice, rules, at - lo) == WordEnd(source, rules, at) - lo
  {
    if rules.Starts(source[at]) {
      RunInSlice(source, slice, lo, at + 1, rules.Continues);
    }
  }

  /** One step on its own is one step in place. */
  ghost predicate SameStep(source: Text, first: int, rules: Rules, lo: nat, hi: nat, at: nat, out: Lexed, inner: Lexed)
    requires lo <= at < hi <= |source|
  {
    var s := Step(source, first, rules, at, out);
    var own := Step(source[lo..hi], LineOf(source, first, lo), rules, at - lo, inner);
    own.next == s.next - lo && Same(own.out, s.out)
  }

  /** Neither a blank nor a comment or regex begins here. */
  predicate Solid(text: Text, rules: Rules, at: nat, tokens: seq<Token>)
    requires at < |text|
  {
    text[at] != LF && !rules.chars.space(text[at]) && SlashEnd(text, rules.chars, at, tokens).None?
  }

  lemma QuotedStep(text: Text, first: int, rules: Rules, at: nat, out: Lexed)
    requires at < |text| && (text[at] == QUOTE || text[at] == DOUBLE)
    ensures var end := QuotedEnd(text, at + 1, text[at], false);
            Step(text, first, rules, at, out) == Ahead(end, out.Add(QuotedToken(text, first, rules, at, end)))
  {
  }

  lemma WordStep(text: Text, first: int, rules: Rules, at: nat, out: Lexed)
    requires at < |text| && Solid(text, rules, at, out.tokens) && text[at] !in {QUOTE, DOUBLE, BACKTICK}
    ensures var end := WordEnd(text, rules, at);
            Step(text, first, rules, at, out) == Ahead(end, out.Add(WordToken(text, first, at, end)))
  {
  }

  lemma TemplatesStep(text: Text, first: int, rules: Rules, at: nat, out: Lexed)
    requires at < |text| && text[at] == BACKTICK
    ensures var t := TemplateFrom(text, at + 1, false);
            Step(text, first, rules, at, out) == Ahead(t.end, LexSpans(text, first, rules, t.spans, out))
  {
  }

  lemma SlashStep(text: Text, first: int, rules: Rules, at: nat, out: Lexed)
    requires at < |text| && SlashEnd(text, rules.chars, at, out.tokens).Some?
    ensures var end := SlashEnd(text, rules.chars, at, out.tokens).value;
            Step(text, first, rules, at, out)
              == Ahead(end, if LineCommentAt(text, at) then WithComment(text, first, rules, at, end, out) else out)
  {
  }

  lemma QuotedTokenIsTheSame(source: Text, first: int, rules: Rules, lo: nat, hi: nat, at: nat, end: nat)
    requires lo <= at < end <= hi <= |source|
    ensures QuotedToken(source[lo..hi], LineOf(source, first, lo), rules, at - lo, end - lo)
         == QuotedToken(source, first, rules, at, end)
  {
    LineInSlice(source, first, lo, hi, at - lo);
    BodyInSlice(source, lo, hi, at - lo, end - lo);
  }

  lemma WordTokenIsTheSame(source: Text, first: int, lo: nat, hi: nat, at: nat, end: nat)
    requires lo <= at < end <= hi <= |source|
    ensures WordToken(source[lo..hi], LineOf(source, first, lo), at - lo, end - lo) == WordToken(source, first, at, end)
  {
    LineInSlice(source, first, lo, hi, at - lo);
    SliceOfSlice(source, lo, hi, at - lo, end - lo);
  }

  lemma SameAdded(s: Ahead, own: Ahead, lo: nat, end: nat, out: Lexed, inner: Lexed, token: Token)
    requires lo <= end && Same(inner, out)
    requires s == Ahead(end, out.Add(token)) && own == Ahead(end - lo, inner.Add(token))
    ensures own.next == s.next - lo && Same(own.out, s.out)
  {
  }

  lemma SameQuotedSteps(source: Text, first: int, slice: Text, line: int, rules: Rules, lo: nat, at: nat, end: nat,
                        out: Lexed, inner: Lexed)
    requires lo <= at < end <= |source| && at - lo < end - lo <= |slice| && Same(inner, out)
    requires (source[at] == QUOTE || source[at] == DOUBLE) && slice[at-lo] == source[at]
    requires end == QuotedEnd(source, at + 1, source[at], false)
    requires end - lo == QuotedEnd(slice, at - lo + 1, source[at], false)
    requires QuotedToken(slice, line, rules, at - lo, end - lo) == QuotedToken(source, first, rules, at, end)
    ensures var s, own := Step(source, first, rules, at, out), Step(slice, line, rules, at - lo, inner);
            own.next == s.next - lo && Same(own.out, s.out)
  {
    QuotedStep(source, first, rules, at, out);
    QuotedStep(slice, line, rules, at - lo, inner);
  }

  lemma QuotedIsTheSame(source: Text, first: int, rules: Rules, lo: nat, hi: nat, at: nat, out: Lexed, inner: Lexed)
    requires lo <= at < hi <= |source| && Same(inner, out) && Step(source, first, rules, at, out).next <= hi
    requires source[at] == QUOTE || source[at] == DOUBLE
    ensures SameStep(source, first, rules, lo, hi, at, out, inner)
  {
    var end := QuotedEnd(source, at + 1, source[at], false);
    QuotedStep(source, first, rules, at, out);
    CutOut(source, lo, hi);
    QuotedEndInSlice(source, source[lo..hi], lo, at + 1, source[at], false);
    QuotedTokenIsTheSame(source, first, rules, lo, hi, at, end);
    SameQuotedSteps(source, first, source[lo..hi], LineOf(source, first, lo), rules, lo, at, end, out, inner);
  }

  lemma TemplateIsTheSame(source: Text, first: int, rules: Rules, lo: nat, hi: nat, at: nat, out: Lexed, inner: Lexed)
    requires lo <= at < hi <= |source| && Same(inner, out) && Step(source, first, rules, at, out).next <= hi
    requires source[at] == BACKTICK
    ensures SameStep(source, first, rules, lo, hi, at, out, inner)
  {
    CutOut(source, lo, hi);
    TemplatesStep(source, first, rules, at, out);
    TemplatesStep(source[lo..hi], LineOf(source, first, lo), rules, at - lo, inner);
    TemplateInSlice(source, source[lo..hi], lo, at + 1, false);
    SpansAreTheSame(source, first, rules, lo, hi, TemplateFrom(source, at + 1, false).spans, out, inner);
  }

  lemma WordIsTheSame(source: Text, first: int, rules: Rules, lo: nat, hi: nat, at: nat, out: Lexed, inner: Lexed)
    requires lo <= at < hi <= |source| && Same(inner, out) && Step(source, first, rules, at, out).next <= hi
    requires Solid(source, rules, at, out.tokens) && source[at] !in {QUOTE, DOUBLE, BACKTICK}
    ensures SameStep(source, first, rules, lo, hi, at, out, inner)
  {
    var slice, line, end := source[lo..hi], LineOf(source, first, lo), WordEnd(source, rules, at);
    CutOut(source, lo, hi);
    assert slice[at-lo] == source[at];
    SlashInSlice(source, slice, lo, rules.chars, at, out.tokens);
    WordStep(source, first, rules, at, out);
    WordStep(slice, line, rules, at - lo, inner);
    WordEndInSlice(source, slice, lo, rules, at);
    WordTokenIsTheSame(source, first, lo, hi, at, end);
    SameAdded(Step(source, first, rules, at, out), Step(slice, line, rules, at - lo, inner), lo, end, out, inner,
              WordToken(source, first, at, end));
  }

  lemma SlashIsTheSame(source: Text, first: int, rules: Rules, lo: nat, hi: nat, at: nat, out: Lexed, inner: Lexed)
    requires lo <= at < hi <= |source| && Same(inner, out) && Step(source, first, rules, at, out).next <= hi
    requires SlashEnd(source, rules.chars, at, out.tokens).Some?
    ensures SameStep(source, first, rules, lo, hi, at, out, inner)
  {
    CutOut(source, lo, hi);
    SlashStep(source, first, rules, at, out);
    SlashInSlice(source, source[lo..hi], lo, rules.chars, at, out.tokens);
    SlashStep(source[lo..hi], LineOf(source, first, lo), rules, at - lo, inner);
    CommentIsTheSame(source, first, rules, lo, hi, at, Step(source, first, rules, at, out).next, out, inner);
  }

  lemma BlankIsTheSame(source: Text, first: int, rules: Rules, lo: nat, hi: nat, at: nat, out: Lexed, inner: Lexed)
    requires lo <= at < hi <= |source| && Same(inner, out)
    requires source[at] == LF || rules.chars.space(source[at])
    ensures SameStep(source, first, rules, lo, hi, at, out, inner)
  {
    assert source[lo..hi][at-lo] == source[at];
  }

  lemma StepIsTheSame(source: Text, first: int, rules: Rules, lo: nat, hi: nat, at: nat, out: Lexed, inner: Lexed)
    requires lo <= at < hi <= |source| && Same(inner, out) && Step(source, first, rules, at, out).next <= hi
    ensures SameStep(source, first, rules, lo, hi, at, out, inner)
  {
    var c := source[at];
    if c == LF || rules.chars.space(c) {
      BlankIsTheSame(source, first, rules, lo, hi, at, out, inner);
    } else if SlashEnd(source, rules.chars, at, out.tokens).Some? {
      SlashIsTheSame(source, first, rules, lo, hi, at, out, inner);
    } else if c == QUOTE || c == DOUBLE {
      QuotedIsTheSame(source, first, rules, lo, hi, at, out, inner);
    } else if c == BACKTICK {
      TemplateIsTheSame(source, first, rules, lo, hi, at, out, inner);
    } else {
      WordIsTheSame(source, first, rules, lo, hi, at, out, inner);
    }
  }

  lemma {:induction false} OwnIsInPlace(source: Text, first: int, rules: Rules, lo: nat, hi: nat, at: nat,
                                        out: Lexed, inner: Lexed)
    requires lo <= at <= hi <= |source| && Same(inner, out) && Leads(source, first, rules, at, out, hi)
    ensures Same(LexFrom(source[lo..hi], LineOf(source, first, lo), rules, at - lo, inner),
                 InPlace(source, first, rules, at, out, hi))
    decreases hi - at
  {
    if at < hi {
      var s := Step(source, first, rules, at, out);
      LeadsNoFurther(source, first, rules, s.next, s.out, hi);
      StepIsTheSame(source, first, rules, lo, hi, at, out, inner);
      var own := Step(source[lo..hi], LineOf(source, first, lo), rules, at - lo, inner);
      OwnIsInPlace(source, first, rules, lo, hi, s.next, s.out, own.out);
    }
  }

  lemma LeadsNoFurther(source: Text, first: int, rules: Rules, at: nat, out: Lexed, end: nat)
    requires at <= |source| && Leads(source, first, rules, at, out, end)
    ensures at <= end
  {
  }

  /** An interpolation that begins at `start` agrees with its own lexing exactly if every regex that lexing in
      place meets is passed by the scan for its end, as one that holds no brace, quote, backtick or comment
      opening always is.  Then it ends at the first brace token that closes more than was opened, and lexed
      on its own it gives the tokens and reasons that lexing in place gives. */
  lemma InterpolationIsLexedInPlace(source: Text, first: int, rules: Rules, start: nat)
    requires 2 <= start <= |source|
    ensures var end := ExpressionEndFrom(source, start, 1);
            && (Agree(source, first, rules, start, NOTHING, 1) <==>
                  RegexesPass(source, first, rules, start, NOTHING, 1))
            && (RegexesHarmless(source, first, rules, start, NOTHING, 1) ==>
                  RegexesPass(source, first, rules, start, NOTHING, 1))
            && (RegexesPass(source, first, rules, start, NOTHING, 1) ==>
                  && end == OwnEnd(source, first, rules, start, NOTHING, 1)
                  && Same(LexSpan(source, first, rules, Span(start, end)),
                          InPlace(source, first, rules, start, NOTHING, end)))
  {
    AgreeExactly(source, first, rules, start, NOTHING, 1);
    if RegexesHarmless(source, first, rules, start, NOTHING, 1) {
      HarmlessPass(source, first, rules, start, NOTHING, 1);
    }
    if RegexesPass(source, first, rules, start, NOTHING, 1) {
      AgreeingEnds(source, first, rules, start, NOTHING, 1);
      OwnEndIsLedTo(source, first, rules, start, NOTHING, 1);
      OwnIsInPlace(source, first, rules, start, ExpressionEndFrom(source, start, 1), start, NOTHING, NOTHING);
    }
  }

  // ---- an interpolation cut short ----

  /** An interpolation whose regex holds a brace, with code after it. */
  const CUT_SHORT: Text := [BACKTICK, DOLLAR, OPEN, SLASH, CLOSE, SLASH, 0x2E, 0x78, CLOSE, BACKTICK]

  lemma CutShortTemplate()
    ensures TemplateFrom(CUT_SHORT, 1, false) == Template(10, [Span(3, 4)])
  {
    var source := CUT_SHORT;
    assert NestedEnd(source, 3) == None;
    ScanStep(source, 3, 1);
    ScanStep(source, 4, 1);
    assert ExpressionEndFrom(source, 3, 1) == 4;
    assert TemplateFrom(source, 9, false) == Template(10, []);
    TemplateStep(source, 8, false);
    TemplateStep(source, 7, false);
    TemplateStep(source, 6, false);
    TemplateStep(source, 5, false);
    assert TemplateFrom(source, 5, false) == Template(10, []);
  }

  lemma SlashAlone(first: int, rules: Rules)
    ensures LexFrom([SLASH], first, rules, 0, NOTHING) == NOTHING
  {
    var source: Text := [SLASH];
    assert RegexEnd(source, 1, false, false, rules.chars) == 1;
    assert Step(source, first, rules, 0, NOTHING) == Ahead(1, NOTHING);
  }

  /** It does happen: the brace in the regex ends the interpolation, and the code after the regex is taken
      for the template's own text. */
  lemma InterpolationIsCutShort(first: int, rules: Rules)
    ensures TemplateFrom(CUT_SHORT, 1, false) == Template(10, [Span(3, 4)])
    ensures LexFrom(CUT_SHORT, first, rules, 0, NOTHING) == NOTHING
    ensures !RegexesPass(CUT_SHORT, first, rules, 3, NOTHING, 1)
  {
    var source := CUT_SHORT;
    CutShortTemplate();
    SlashAlone(LineOf(source, first, 3), rules);
    assert source[3..4] == [SLASH];
    OneSpan(source, first, rules, Span(3, 4), NOTHING);
    JoinNothing(NOTHING);
    assert Step(source, first, rules, 0, NOTHING) == Ahead(10, NOTHING);
    RegexIsNotPassed(first, rules);
  }

  lemma RegexIsNotPassed(first: int, rules: Rules)
    ensures !RegexesPass(CUT_SHORT, first, rules, 3, NOTHING, 1)
  {
    var source := CUT_SHORT;
    var next := Step(source, first, rules, 3, NOTHING).next;
    assert next == RegexEnd(source, 4, false, false, rules.chars) >= 6;
    assert NestedEnd(source, 3) == None;
    assert DepthAt(source, 4, 1, next) == None;
    assert DepthAt(source, 3, 1, next) == None;
  }
}
