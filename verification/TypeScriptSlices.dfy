/** Cutting a text short after a construct does not change where the construct ends: every skip of the
    TypeScript scanner, read in a slice of the source that holds it, ends where it ends in the source. */
module TypeScriptSlices {
  import opened Common
  import opened Escapes
  import opened LineTracking
  import opened TypeScriptSkips

  /** `slice` is what `source` holds from `lo` on, as far as it goes. */
  ghost predicate Cut(source: Text, slice: Text, lo: nat) {
    lo + |slice| <= |source| && forall k :: 0 <= k < |slice| ==> slice[k] == source[k+lo]
  }

  lemma {:induction false} FindInSlice(source: Text, slice: Text, lo: nat, c: Rune, at: nat)
    requires Cut(source, slice, lo) && lo <= at && Find(source, c, at).Or(|source|) <= lo + |slice|
    ensures Find(slice, c, at - lo).Or(|slice|) == Find(source, c, at).Or(|source|) - lo
    decreases |source| - at
  {
    if at < lo + |slice| && source[at] != c {
      FindInSlice(source, slice, lo, c, at + 1);
    }
  }

  lemma BlockInSlice(source: Text, slice: Text, lo: nat, at: nat)
    requires Cut(source, slice, lo) && lo <= at && at + 2 <= lo + |slice| && BlockEnd(source, at) <= lo + |slice|
    ensures BlockEnd(slice, at - lo) == BlockEnd(source, at) - lo
  {
    assert forall k: nat :: ClosesAt(slice, k) <==> ClosesAt(source, k + lo) && k + 2 <= |slice|;
    var inner, outer := FindClose(slice, at - lo + 2), FindClose(source, at + 2);
    if outer.Some? {
      assert ClosesAt(slice, outer.value - lo);
    }
    if inner.Some? {
      assert ClosesAt(source, inner.value + lo);
    }
  }

  lemma {:induction false} QuotedEndInSlice(source: Text, slice: Text, lo: nat, at: nat, quote: Rune, escaped: bool)
    requires Cut(source, slice, lo) && lo <= at <= lo + |slice|
    requires QuotedEnd(source, at, quote, escaped) <= lo + |slice|
    ensures QuotedEnd(slice, at - lo, quote, escaped) == QuotedEnd(source, at, quote, escaped) - lo
    decreases |source| - at
  {
    if at < lo + |slice| {
      if escaped {
        QuotedEndInSlice(source, slice, lo, at + 1, quote, false);
      } else if source[at] == BACKSLASH {
        QuotedEndInSlice(source, slice, lo, at + 1, quote, true);
      } else if source[at] != quote {
        QuotedEndInSlice(source, slice, lo, at + 1, quote, false);
      }
    }
  }

  lemma {:induction false} RunInSlice(source: Text, slice: Text, lo: nat, at: nat, p: Rune -> bool)
    requires Cut(source, slice, lo) && lo <= at <= lo + |slice|
    requires RunEnd(source, at, p) <= lo + |slice|
    ensures RunEnd(slice, at - lo, p) == RunEnd(source, at, p) - lo
    decreases |source| - at
  {
    if at < lo + |slice| && p(source[at]) {
      RunInSlice(source, slice, lo, at + 1, p);
    }
  }

  /** A character that neither ends a regex nor its line. */
  predicate Inner(text: Text, at: nat, escaped: bool, inClass: bool)
    requires at < |text|
  {
    text[at] != LF && !(!escaped && !inClass && text[at] == SLASH)
  }

  function ClassAfter(c: Rune, escaped: bool, inClass: bool): bool {
    if escaped then inClass else if c == LEFT_BRACKET then true else if c == RIGHT_BRACKET then false else inClass
  }

  lemma RegexStep(text: Text, at: nat, escaped: bool, inClass: bool, chars: CharTables)
    requires at < |text| && Inner(text, at, escaped, inClass)
    ensures RegexEnd(text, at, escaped, inClass, chars)
         == RegexEnd(text, at + 1, !escaped && text[at] == BACKSLASH, ClassAfter(text[at], escaped, inClass), chars)
  {
  }

  lemma {:induction false} RegexInSlice(source: Text, slice: Text, lo: nat, at: nat, escaped: bool, inClass: bool,
                                        chars: CharTables)
    requires Cut(source, slice, lo) && lo <= at <= lo + |slice|
    requires RegexEnd(source, at, escaped, inClass, chars) <= lo + |slice|
    ensures RegexEnd(slice, at - lo, escaped, inClass, chars)
         == RegexEnd(source, at, escaped, inClass, chars) - lo
    decreases |source| - at
  {
    if at < lo + |slice| {
      var c := source[at];
      assert slice[at-lo] == c;
      if Inner(source, at, escaped, inClass) {
        RegexStep(source, at, escaped, inClass, chars);
        RegexStep(slice, at - lo, escaped, inClass, chars);
        RegexInSlice(source, slice, lo, at + 1, !escaped && c == BACKSLASH, ClassAfter(c, escaped, inClass), chars);
      } else {
        RegexStopInSlice(source, slice, lo, at, escaped, inClass, chars);
      }
    }
  }

  lemma RegexStopInSlice(source: Text, slice: Text, lo: nat, at: nat, escaped: bool, inClass: bool, chars: CharTables)
    requires Cut(source, slice, lo) && lo <= at < lo + |slice| && !Inner(source, at, escaped, inClass)
    requires RegexEnd(source, at, escaped, inClass, chars) <= lo + |slice|
    ensures RegexEnd(slice, at - lo, escaped, inClass, chars) == RegexEnd(source, at, escaped, inClass, chars) - lo
  {
    if source[at] != LF {
      RunInSlice(source, slice, lo, at + 1, chars.alpha);
    }
  }

  // ---- templates and interpolations ----

  predicate From(spans: seq<Span>, lo: nat) {
    forall k :: 0 <= k < |spans| ==> lo <= spans[k].start <= spans[k].end
  }

  function Back(spans: seq<Span>, lo: nat): seq<Span>
    requires From(spans, lo)
  {
    if spans == [] then [] else [Span(spans[0].start - lo, spans[0].end - lo)] + Back(spans[1..], lo)
  }

  lemma BackFirst(span: Span, rest: seq<Span>, lo: nat)
    requires lo <= span.start <= span.end && From(rest, lo)
    ensures From([span] + rest, lo)
    ensures Back([span] + rest, lo) == [Span(span.start - lo, span.end - lo)] + Back(rest, lo)
  {
    assert ([span] + rest)[1..] == rest;
  }

  predicate OpensAt(text: Text, at: nat) {
    at + 1 < |text| && text[at] == DOLLAR && text[at+1] == OPEN
  }

  lemma TemplateStep(text: Text, at: nat, escaped: bool)
    requires at < |text| && (escaped || (text[at] != BACKTICK && !OpensAt(text, at)))
    ensures TemplateFrom(text, at, escaped) == TemplateFrom(text, at + 1, !escaped && text[at] == BACKSLASH)
  {
  }

  lemma TemplateStop(text: Text, at: nat, escaped: bool)
    requires at <= |text| && (at == |text| || (!escaped && text[at] == BACKTICK))
    ensures TemplateFrom(text, at, escaped) == Template(After(text, at), [])
  {
  }

  lemma TemplateOpens(text: Text, at: nat)
    requires OpensAt(text, at)
    ensures var end := ExpressionEndFrom(text, at + 2, 1);
            var rest := TemplateFrom(text, After(text, end), false);
            TemplateFrom(text, at, false) == Template(rest.end, [Span(at + 2, end)] + rest.spans)
  {
  }

  /** The template read up to `at` goes on in the slice as in the source. */
  ghost predicate SameTemplate(source: Text, slice: Text, lo: nat, at: nat, escaped: bool)
    requires lo <= at <= |source| && at - lo <= |slice|
  {
    var t := TemplateFrom(source, at, escaped);
    From(t.spans, lo) && TemplateFrom(slice, at - lo, escaped) == Template(t.end - lo, Back(t.spans, lo))
  }

  lemma SamePlainly(source: Text, slice: Text, lo: nat, at: nat, escaped: bool)
    requires Cut(source, slice, lo) && lo <= at < lo + |slice|
    requires escaped || (source[at] != BACKTICK && !OpensAt(source, at))
    requires SameTemplate(source, slice, lo, at + 1, !escaped && source[at] == BACKSLASH)
    ensures SameTemplate(source, slice, lo, at, escaped)
  {
    TemplateStep(source, at, escaped);
    TemplateStep(slice, at - lo, escaped);
  }

  lemma {:induction false} TemplateInSlice(source: Text, slice: Text, lo: nat, at: nat, escaped: bool)
    requires Cut(source, slice, lo) && lo <= at <= lo + |slice|
    requires TemplateFrom(source, at, escaped).end <= lo + |slice|
    ensures SameTemplate(source, slice, lo, at, escaped)
    decreases |source| - at, 4
  {
    if at == lo + |slice| {
      CutTemplate(source, slice, lo, escaped);
    } else if !escaped && OpensAt(source, at) {
      SpanInSlice(source, slice, lo, at);
    } else if escaped || source[at] != BACKTICK {
      TemplateStep(source, at, escaped);
      TemplateInSlice(source, slice, lo, at + 1, !escaped && source[at] == BACKSLASH);
      SamePlainly(source, slice, lo, at, escaped);
    } else {
      TemplateStop(source, at, escaped);
      TemplateStop(slice, at - lo, escaped);
    }
  }

  /** A template that ends where the slice does has nothing left there. */
  lemma CutTemplate(source: Text, slice: Text, lo: nat, escaped: bool)
    requires Cut(source, slice, lo) && TemplateFrom(source, lo + |slice|, escaped).end <= lo + |slice|
    ensures var t := TemplateFrom(source, lo + |slice|, escaped);
            t.spans == [] && t.end == lo + |slice| && TemplateFrom(slice, |slice|, escaped) == Template(|slice|, [])
  {
    TemplateStop(slice, |slice|, escaped);
    TemplateAdvances(source, lo + |slice|, escaped);
    TemplateStop(source, lo + |slice|, escaped);
  }

  lemma TemplateAdvances(text: Text, at: nat, escaped: bool)
    requires at <= |text|
    ensures TemplateFrom(text, at, escaped).end <= at ==> at == |text|
  {
  }

  lemma SpanBounds(source: Text, at: nat)
    requires OpensAt(source, at)
    ensures var end := ExpressionEndFrom(source, at + 2, 1);
            at + 2 <= end && TemplateFrom(source, After(source, end), false).end == TemplateFrom(source, at, false).end
  {
    TemplateOpens(source, at);
  }

  /** The template's branch for an interpolation opening at `at`. */
  lemma {:induction false} SpanInSlice(source: Text, slice: Text, lo: nat, at: nat)
    requires Cut(source, slice, lo) && lo <= at && OpensAt(source, at)
    requires TemplateFrom(source, at, false).end <= lo + |slice|
    ensures at + 2 <= lo + |slice| && SameTemplate(source, slice, lo, at, false)
    decreases |source| - at, 3
  {
    var end := ExpressionEndFrom(source, at + 2, 1);
    SpanBounds(source, at);
    ExpressionInSlice(source, slice, lo, at + 2, 1);
    AfterInSlice(source, slice, lo, end);
    TemplateInSlice(source, slice, lo, After(source, end), false);
    assert OpensAt(slice, at - lo);
    SpansInSlice(source, slice, lo, at, end);
  }

  lemma SpansInSlice(source: Text, slice: Text, lo: nat, at: nat, end: nat)
    requires lo <= at && OpensAt(source, at) && OpensAt(slice, at - lo)
    requires at + 2 <= end <= |source| && end - lo <= |slice| && After(slice, end - lo) == After(source, end) - lo
    requires end == ExpressionEndFrom(source, at + 2, 1) && end - lo == ExpressionEndFrom(slice, at - lo + 2, 1)
    requires SameTemplate(source, slice, lo, After(source, end), false)
    ensures SameTemplate(source, slice, lo, at, false)
  {
    var rest := TemplateFrom(source, After(source, end), false);
    OpensAs(source, at, end, rest);
    OpensAs(slice, at - lo, end - lo, Template(rest.end - lo, Back(rest.spans, lo)));
    BackFirst(Span(at + 2, end), rest.spans, lo);
  }

  lemma OpensAs(text: Text, at: nat, end: nat, rest: Template)
    requires OpensAt(text, at) && end <= |text| && end == ExpressionEndFrom(text, at + 2, 1)
    requires rest == TemplateFrom(text, After(text, end), false)
    ensures TemplateFrom(text, at, false) == Template(rest.end, [Span(at + 2, end)] + rest.spans)
  {
    TemplateOpens(text, at);
  }

  lemma AfterInSlice(source: Text, slice: Text, lo: nat, end: nat)
    requires Cut(source, slice, lo) && lo <= end <= |source| && After(source, end) <= lo + |slice|
    ensures After(slice, end - lo) == After(source, end) - lo
  {
  }

  lemma CommentInSlice(source: Text, slice: Text, lo: nat, at: nat)
    requires Cut(source, slice, lo) && lo <= at < lo + |slice| && source[at] == SLASH
    requires NestedEnd(source, at).Or(at + 1) <= lo + |slice|
    ensures var outer, inner := NestedEnd(source, at), NestedEnd(slice, at - lo);
            inner == if outer.Some? then Some(outer.value - lo) else None
  {
    if at + 1 < |source| && source[at+1] == SLASH {
      FindInSlice(source, slice, lo, LF, at + 2);
    } else if at + 1 < |source| && source[at+1] == STAR {
      BlockInSlice(source, slice, lo, at);
    }
  }

  lemma {:induction false} NestedInSlice(source: Text, slice: Text, lo: nat, at: nat)
    requires Cut(source, slice, lo) && lo <= at < lo + |slice| && NestedEnd(source, at).Or(at + 1) <= lo + |slice|
    ensures var outer, inner := NestedEnd(source, at), NestedEnd(slice, at - lo);
            inner == if outer.Some? then Some(outer.value - lo) else None
    decreases |source| - at, 0
  {
    var c := source[at];
    if c == SLASH {
      CommentInSlice(source, slice, lo, at);
    } else if c == QUOTE || c == DOUBLE {
      QuotedEndInSlice(source, slice, lo, at + 1, c, false);
    } else if c == BACKTICK {
      TemplateInSlice(source, slice, lo, at + 1, false);
    }
  }

  /** One more brace open, or one less. */
  function Delta(c: Rune): int {
    if c == OPEN then 1 else if c == CLOSE then -1 else 0
  }

  /** The brace at `at` closes the interpolation. */
  predicate ClosesHere(text: Text, at: nat, depth: nat)
    requires at < |text|
  {
    text[at] == CLOSE && depth == 1
  }

  function ScanNext(text: Text, at: nat): (next: nat)
    requires at < |text|
    ensures at < next <= |text|
  {
    NestedEnd(text, at).Or(at + 1)
  }

  function ScanDepth(text: Text, at: nat, depth: nat): (after: nat)
    requires at < |text| && depth >= 1 && !ClosesHere(text, at, depth)
    ensures after >= 1
  {
    if NestedEnd(text, at).Some? then depth else depth + Delta(text[at])
  }

  /** One step of the scan for an interpolation's end. */
  lemma ScanStep(text: Text, at: nat, depth: nat)
    requires at < |text| && depth >= 1
    ensures ExpressionEndFrom(text, at, depth) ==
            if ClosesHere(text, at, depth) then at
            else ExpressionEndFrom(text, ScanNext(text, at), ScanDepth(text, at, depth))
  {
  }

  lemma {:induction false} ScanInSlice(source: Text, slice: Text, lo: nat, at: nat, depth: nat)
    requires Cut(source, slice, lo) && lo <= at < lo + |slice| && depth >= 1 && !ClosesHere(source, at, depth)
    requires ScanNext(source, at) <= lo + |slice|
    ensures ScanNext(slice, at - lo) == ScanNext(source, at) - lo
    ensures !ClosesHere(slice, at - lo, depth) && ScanDepth(slice, at - lo, depth) == ScanDepth(source, at, depth)
    decreases |source| - at, 1
  {
    NestedInSlice(source, slice, lo, at);
  }

  lemma {:induction false} ExpressionInSlice(source: Text, slice: Text, lo: nat, at: nat, depth: nat)
    requires Cut(source, slice, lo) && lo <= at <= lo + |slice| && depth >= 1
    requires ExpressionEndFrom(source, at, depth) <= lo + |slice|
    ensures ExpressionEndFrom(slice, at - lo, depth) == ExpressionEndFrom(source, at, depth) - lo
    decreases |source| - at, 2
  {
    if at < lo + |slice| {
      ScanStep(source, at, depth);
      ScanStep(slice, at - lo, depth);
      if !ClosesHere(source, at, depth) {
        ScanInSlice(source, slice, lo, at, depth);
        ExpressionInSlice(source, slice, lo, ScanNext(source, at), ScanDepth(source, at, depth));
      }
    }
  }
}
