/** The functions that step over comments, literals, regexes and templates while keeping the line state
    exact (scripts/check_test_isolation.py). */
module TypeScriptSkips {
  import opened Common
  import opened Escapes
  import opened LineTracking

  const SLASH: Rune := 0x2F
  const STAR: Rune := 0x2A
  const QUOTE: Rune := 0x27
  const DOUBLE: Rune := 0x22
  const BACKTICK: Rune := 0x60
  const DOLLAR: Rune := 0x24
  const UNDERSCORE: Rune := 0x5F
  const LEFT_BRACKET: Rune := 0x5B
  const RIGHT_BRACKET: Rune := 0x5D

  /** `str.isspace`, `str.isalpha` and `str.isalnum` of one character, whatever the Unicode tables say of
      the rest: a newline is no letter and no digit, and a quote, backtick, slash or brace is neither those nor
      a blank. */
  datatype RawTables = CharTables(space: Rune -> bool, alpha: Rune -> bool, alnum: Rune -> bool) {
    predicate Apart(c: Rune) {
      !space(c) && !alpha(c) && !alnum(c)
    }
  }
  type CharTables = t: RawTables |
    && !t.alpha(LF) && !t.alnum(LF)
    && t.Apart(QUOTE) && t.Apart(DOUBLE) && t.Apart(BACKTICK) && t.Apart(SLASH) && t.Apart(OPEN) && t.Apart(CLOSE)
    witness CharTables(_ => false, _ => false, _ => false)

  // ---- block comments ----

  predicate ClosesAt(source: Text, k: nat) {
    k + 1 < |source| && source[k] == STAR && source[k+1] == SLASH
  }

  /** `source.find("*" + "/", from)`. */
  function FindClose(source: Text, start: nat): (at: Option<nat>)
    ensures at.Some? ==>
              && start <= at.value && ClosesAt(source, at.value)
              && forall k :: start <= k < at.value ==> !ClosesAt(source, k)
    ensures at.None? ==> forall k :: start <= k ==> !ClosesAt(source, k)
    decreases |source| - start
  {
    if start + 1 >= |source| then None
    else if ClosesAt(source, start) then Some(start)
    else FindClose(source, start + 1)
  }

  /** The position after the comment that opens at `at`: past its close, else the end. */
  function BlockEnd(source: Text, at: nat): (end: nat)
    requires at + 2 <= |source|
    ensures at + 2 <= end <= |source|
  {
    match FindClose(source, at + 2)
    case None => |source|
    case Some(close) => close + 2
  }

  /** `text.rfind("\n")`, one past it; None if there is none. */
  function AfterLastNewline(text: Text): (after: Option<nat>)
    ensures after == if LineStart(text) == 0 then None else Some(LineStart(text))
  {
    if text == [] then None
    else if text[|text|-1] == LF then Some(|text|)
    else AfterLastNewline(text[..|text|-1])
  }

  method SkipBlockComment(source: Text, index: nat, line: int, lineStart: nat, ghost first: int)
    returns (index': nat, line': int, lineStart': nat)
    requires At(source, first, index, line, lineStart) && index + 2 <= |source|
    ensures index' == BlockEnd(source, index) && At(source, first, index', line', lineStart')
  {
    var close := FindClose(source, index + 2);
    var end := if close.None? then |source| - 2 else close.value;
    index' := if end + 2 < |source| then end + 2 else |source|;
    ConsumedLines(source, index, index');
    line' := line + Newlines(source[lineStart..index']);
    var after := AfterLastNewline(source[..index']);
    lineStart' := if after.Some? then after.value else lineStart;
  }

  /** Recounting from the start of the current line gives the newlines skipped over; and with no newline
      before the end there was none before the current line either. */
  lemma ConsumedLines(source: Text, index: nat, end: nat)
    requires index <= end <= |source|
    ensures var lineStart := LineStart(source[..index]);
            && Newlines(source[..end]) == Newlines(source[..index]) + Newlines(source[lineStart..end])
            && (LineStart(source[..end]) == 0 ==> lineStart == 0)
  {
    var text := source[..index];
    var lineStart := LineStart(text);
    LineStartIsOnLine(text);
    assert text[..lineStart] == source[..lineStart];
    assert source[..end] == source[..lineStart] + source[lineStart..end];
    NewlinesConcat(source[..lineStart], source[lineStart..end]);
    if lineStart > 0 {
      LineStartIsOnLine(source[..end]);
      assert source[..end][lineStart-1] == text[lineStart-1];
    }
  }

  // ---- quoted literals ----

  /** The position after the literal whose body begins at `at`: past its first unescaped quote, else the end. */
  function QuotedEnd(source: Text, at: nat, quote: Rune, escaped: bool): (end: nat)
    requires at <= |source|
    ensures at <= end <= |source|
    decreases |source| - at
  {
    if at == |source| then at
    else if escaped then QuotedEnd(source, at + 1, quote, false)
    else if source[at] == BACKSLASH then QuotedEnd(source, at + 1, quote, true)
    else if source[at] == quote then at + 1
    else QuotedEnd(source, at + 1, quote, false)
  }

  /** How many backslashes end just before `at`, from `lo` on. */
  function Backslashes(source: Text, lo: nat, at: nat): nat
    requires lo <= at <= |source|
    decreases at
  {
    if lo < at && source[at-1] == BACKSLASH then 1 + Backslashes(source, lo, at - 1) else 0
  }

  /** In text that begins at `lo`, an odd run of backslashes escapes what follows it. */
  predicate Escaped(source: Text, lo: nat, at: nat)
    requires lo <= at <= |source|
  {
    Backslashes(source, lo, at) % 2 == 1
  }

  lemma EscapedStep(source: Text, lo: nat, at: nat)
    requires lo <= at < |source|
    ensures Escaped(source, lo, at + 1) <==> source[at] == BACKSLASH && !Escaped(source, lo, at)
    ensures !Escaped(source, lo, lo)
  {
  }

  predicate Closing(source: Text, lo: nat, quote: Rune, k: nat) {
    lo <= k < |source| && source[k] == quote && !Escaped(source, lo, k)
  }

  /** An unescaped quote closes the literal whose body begins at `lo`. */
  ghost predicate Closes(source: Text, lo: nat, quote: Rune) {
    exists k :: Closing(source, lo, quote, k)
  }

  /** `end` is past the first unescaped quote from `at` on, or the end of the source if there is none. */
  ghost predicate PastQuote(source: Text, lo: nat, quote: Rune, at: nat, end: nat) {
    if at < end && Closing(source, lo, quote, end - 1)
    then forall k :: at <= k < end - 1 ==> !Closing(source, lo, quote, k)
    else end == |source| && forall k :: at <= k < end ==> !Closing(source, lo, quote, k)
  }

  lemma {:induction false} QuotedEndIsPastQuote(source: Text, lo: nat, quote: Rune, at: nat)
    requires lo <= at <= |source| && quote != BACKSLASH
    ensures PastQuote(source, lo, quote, at, QuotedEnd(source, at, quote, Escaped(source, lo, at)))
    decreases |source| - at
  {
    if at < |source| {
      EscapedStep(source, lo, at);
      if !Closing(source, lo, quote, at) {
        QuotedEndIsPastQuote(source, lo, quote, at + 1);
      }
    }
  }

  /** The scan of `SkipQuoted`, from the literal's body on. */
  method QuotedScan(source: Text, index: nat, line: int, lineStart: nat, quote: Rune, ghost first: int)
    returns (index': nat, line': int, lineStart': nat)
    requires At(source, first, index, line, lineStart)
    ensures index' == QuotedEnd(source, index, quote, false) && At(source, first, index', line', lineStart')
  {
    index', line', lineStart' := index, line, lineStart;
    var escaped := false;
    while index' < |source|
      invariant index <= index' && At(source, first, index', line', lineStart')
      invariant QuotedEnd(source, index', quote, escaped) == QuotedEnd(source, index, quote, false)
    {
      AtNext(source, first, index', line', lineStart');
      var c := source[index'];
      if c == LF {
        line' := line' + 1;
        lineStart' := index' + 1;
      }
      if escaped {
        escaped := false;
      } else if c == BACKSLASH {
        escaped := true;
      } else if c == quote {
        return index' + 1, line', lineStart';
      }
      index' := index' + 1;
    }
  }

  method SkipQuoted(source: Text, index: nat, line: int, lineStart: nat, quote: Rune, ghost first: int)
    returns (index': nat, line': int, lineStart': nat)
    requires At(source, first, index, line, lineStart) && index < |source| && source[index] != LF
    requires quote != BACKSLASH
    ensures index < index' <= |source| && At(source, first, index', line', lineStart')
    ensures index' == QuotedEnd(source, index + 1, quote, false)
    ensures PastQuote(source, index + 1, quote, index + 1, index')
  {
    AtNext(source, first, index, line, lineStart);
    QuotedEndIsPastQuote(source, index + 1, quote, index + 1);
    index', line', lineStart' := QuotedScan(source, index + 1, line, lineStart, quote, first);
  }

  // ---- regexes ----

  /** The end of the run from `at` of characters that satisfy `p`. */
  function RunEnd(source: Text, at: nat, p: Rune -> bool): (end: nat)
    requires at <= |source|
    ensures at <= end <= |source| && (forall k :: at <= k < end ==> p(source[k]))
    ensures end < |source| ==> !p(source[end])
    decreases |source| - at
  {
    if at < |source| && p(source[at]) then RunEnd(source, at + 1, p) else at
  }

  /** The end of a regex read up to `at`: past the flags of its first slash that is neither escaped nor in
      a class, or at the newline before any such slash, else the end. */
  function RegexEnd(source: Text, at: nat, escaped: bool, inClass: bool, chars: CharTables): (end: nat)
    requires at <= |source|
    ensures at <= end <= |source| && OneLine(source, at, end)
    decreases |source| - at
  {
    if at == |source| || source[at] == LF then at
    else if escaped then RegexEnd(source, at + 1, false, inClass, chars)
    else if source[at] == BACKSLASH then RegexEnd(source, at + 1, true, inClass, chars)
    else if source[at] == LEFT_BRACKET then RegexEnd(source, at + 1, false, true, chars)
    else if source[at] == RIGHT_BRACKET then RegexEnd(source, at + 1, false, false, chars)
    else if source[at] == SLASH && !inClass then RunEnd(source, at + 1, chars.alpha)
    else RegexEnd(source, at + 1, false, inClass, chars)
  }

  ghost predicate OpensClass(source: Text, lo: nat, k: nat) {
    lo <= k < |source| && source[k] == LEFT_BRACKET && !Escaped(source, lo, k)
  }

  ghost predicate ClosesClass(source: Text, lo: nat, k: nat) {
    lo <= k < |source| && source[k] == RIGHT_BRACKET && !Escaped(source, lo, k)
  }

  /** In a regex body that begins at `lo`, the last unescaped bracket before `at` opens a class. */
  ghost predicate InClass(source: Text, lo: nat, at: nat) {
    exists k :: lo <= k < at && OpensClass(source, lo, k) && forall m :: k < m < at ==> !ClosesClass(source, lo, m)
  }

  lemma InClassStep(source: Text, lo: nat, at: nat)
    requires lo <= at < |source|
    ensures InClass(source, lo, at + 1) <==>
              OpensClass(source, lo, at) || (InClass(source, lo, at) && !ClosesClass(source, lo, at))
  {
    if InClass(source, lo, at) && !ClosesClass(source, lo, at) {
      var k :| lo <= k < at && OpensClass(source, lo, k) && forall m :: k < m < at ==> !ClosesClass(source, lo, m);
      assert forall m :: k < m < at + 1 ==> !ClosesClass(source, lo, m);
    }
    if InClass(source, lo, at + 1) && !OpensClass(source, lo, at) {
      var k :| lo <= k < at + 1 && OpensClass(source, lo, k)
        && forall m :: k < m < at + 1 ==> !ClosesClass(source, lo, m);
      assert k < at && forall m :: k < m < at ==> !ClosesClass(source, lo, m);
    }
  }

  /** A slash that is neither escaped nor in a class. */
  ghost predicate Delimits(source: Text, lo: nat, k: nat) {
    lo <= k < |source| && source[k] == SLASH && !Escaped(source, lo, k) && !InClass(source, lo, k)
  }

  /** Position `k` is the first from `at` on with a delimiting slash or a newline; |source| if none is. */
  ghost predicate FirstStop(source: Text, lo: nat, at: nat, k: nat) {
    && at <= k <= |source|
    && (k < |source| ==> source[k] == LF || Delimits(source, lo, k))
    && forall j :: at <= j < k ==> source[j] != LF && !Delimits(source, lo, j)
  }

  ghost predicate StopsAt(source: Text, lo: nat, chars: CharTables, at: nat, end: nat, k: nat) {
    && FirstStop(source, lo, at, k)
    && end == if k < |source| && source[k] == SLASH then RunEnd(source, k + 1, chars.alpha) else k
  }

  /** `end` is past the flags of the regex's delimiting slash, or at the newline or end before it. */
  ghost predicate PastRegex(source: Text, lo: nat, chars: CharTables, at: nat, end: nat) {
    exists k: nat :: StopsAt(source, lo, chars, at, end, k)
  }

  lemma PastRegexStep(source: Text, lo: nat, chars: CharTables, at: nat, end: nat)
    requires lo <= at < |source| && source[at] != LF && !Delimits(source, lo, at)
    requires PastRegex(source, lo, chars, at + 1, end)
    ensures PastRegex(source, lo, chars, at, end)
  {
    var k: nat :| StopsAt(source, lo, chars, at + 1, end, k);
    assert StopsAt(source, lo, chars, at, end, k);
  }

  lemma {:induction false} RegexEndIsPastRegex(source: Text, lo: nat, chars: CharTables, at: nat)
    requires lo <= at <= |source|
    ensures PastRegex(source, lo, chars, at,
                      RegexEnd(source, at, Escaped(source, lo, at), InClass(source, lo, at), chars))
    decreases |source| - at
  {
    if at == |source| || source[at] == LF || Delimits(source, lo, at) {
      var end := RegexEnd(source, at, Escaped(source, lo, at), InClass(source, lo, at), chars);
      assert StopsAt(source, lo, chars, at, end, at);
    } else {
      EscapedStep(source, lo, at);
      InClassStep(source, lo, at);
      RegexEndIsPastRegex(source, lo, chars, at + 1);
      PastRegexStep(source, lo, chars, at,
                    RegexEnd(source, at + 1, Escaped(source, lo, at + 1), InClass(source, lo, at + 1), chars));
    }
  }

  method SkipFlags(source: Text, index: nat, chars: CharTables) returns (index': nat)
    requires index <= |source|
    ensures index' == RunEnd(source, index, chars.alpha)
  {
    index' := index;
    while index' < |source| && chars.alpha(source[index'])
      invariant index' <= |source| && RunEnd(source, index', chars.alpha) == RunEnd(source, index, chars.alpha)
    {
      index' := index' + 1;
    }
  }

  /** The scan of `SkipRegex`, which changes no line state. */
  method RegexScan(source: Text, index: nat, chars: CharTables) returns (index': nat)
    requires index <= |source|
    ensures index' == RegexEnd(source, index, false, false, chars)
  {
    index' := index;
    var escaped, inClass := false, false;
    while index' < |source|
      invariant index' <= |source|
      invariant RegexEnd(source, index', escaped, inClass, chars) == RegexEnd(source, index, false, false, chars)
    {
      var c := source[index'];
      if c == LF {
        return;
      }
      if escaped {
        escaped := false;
      } else if c == BACKSLASH {
        escaped := true;
      } else if c == LEFT_BRACKET {
        inClass := true;
      } else if c == RIGHT_BRACKET {
        inClass := false;
      } else if c == SLASH && !inClass {
        index' := SkipFlags(source, index' + 1, chars);
        return;
      }
      index' := index' + 1;
    }
  }

  method SkipRegex(source: Text, index: nat, line: int, lineStart: nat, chars: CharTables, ghost first: int)
    returns (index': nat, line': int, lineStart': nat)
    requires At(source, first, index, line, lineStart) && index < |source| && source[index] == SLASH
    ensures index' == RegexEnd(source, index + 1, false, false, chars) && At(source, first, index', line', lineStart')
    ensures PastRegex(source, index + 1, chars, index + 1, index')
  {
    RegexEndIsPastRegex(source, index + 1, chars, index + 1);
    index' := RegexScan(source, index + 1, chars);
    line', lineStart' := line, lineStart;
    SameLine(source, first, index, index', line, lineStart);
  }

  // ---- templates: where everything ends ----

  /** The text of one interpolation: [start, end). */
  datatype Span = Span(start: nat, end: nat)
  datatype Template = Template(end: nat, spans: seq<Span>)

  predicate Inside(spans: seq<Span>, lower: nat, upper: nat) {
    forall k :: 0 <= k < |spans| ==> lower + 2 <= spans[k].start <= spans[k].end <= upper
  }

  function After(source: Text, end: nat): nat
    requires end <= |source|
  {
    if end == |source| then end else end + 1
  }

  /** A template read up to `at`: where it ends and what it interpolates from there on. */
  function TemplateFrom(source: Text, at: nat, escaped: bool): (t: Template)
    requires at <= |source|
    ensures at <= t.end <= |source| && Inside(t.spans, at, t.end)
    decreases |source| - at, 2
  {
    if at == |source| then Template(at, [])
    else if escaped then TemplateFrom(source, at + 1, false)
    else if source[at] == BACKSLASH then TemplateFrom(source, at + 1, true)
    else if source[at] == BACKTICK then Template(at + 1, [])
    else if source[at] == DOLLAR && at + 1 < |source| && source[at+1] == OPEN then
      var end := ExpressionEndFrom(source, at + 2, 1);
      var rest := TemplateFrom(source, After(source, end), false);
      Template(rest.end, [Span(at + 2, end)] + rest.spans)
    else TemplateFrom(source, at + 1, false)
  }

  /** Where the literal, template or comment that begins at `at` ends, if one does. */
  function NestedEnd(source: Text, at: nat): (end: Option<nat>)
    requires at < |source|
    ensures end.Some? ==> at < end.value <= |source| && source[at] in {QUOTE, DOUBLE, BACKTICK, SLASH}
    decreases |source| - at, 0
  {
    var c := source[at];
    if c == QUOTE || c == DOUBLE then Some(QuotedEnd(source, at + 1, c, false))
    else if c == BACKTICK then Some(TemplateFrom(source, at + 1, false).end)
    else if c == SLASH && at + 1 < |source| && source[at+1] == SLASH then Some(Find(source, LF, at + 2).Or(|source|))
    else if c == SLASH && at + 1 < |source| && source[at+1] == STAR then Some(BlockEnd(source, at))
    else None
  }

  /** The brace that closes an interpolation read up to `at` with `depth` braces open, else the end. */
  function ExpressionEndFrom(source: Text, at: nat, depth: nat): (end: nat)
    requires at <= |source| && depth >= 1
    ensures at <= end <= |source| && (end == |source| || source[end] == CLOSE)
    decreases |source| - at, 1
  {
    if at == |source| then at
    else
      var nested := NestedEnd(source, at);
      if nested.Some? then ExpressionEndFrom(source, nested.value, depth)
      else if source[at] == OPEN then ExpressionEndFrom(source, at + 1, depth + 1)
      else if source[at] != CLOSE then ExpressionEndFrom(source, at + 1, depth)
      else if depth == 1 then at
      else ExpressionEndFrom(source, at + 1, depth - 1)
  }

  // ---- what is known of those ends ----

  /** Every span follows an opening, ends at a closing brace or the source's end, and begins after the one
      before it. */
  ghost predicate Opened(source: Text, spans: seq<Span>) {
    && (forall k :: 0 <= k < |spans| ==>
          && 2 <= spans[k].start <= spans[k].end <= |source|
          && source[spans[k].start-2] == 0x24 && source[spans[k].start-1] == 0x7B
          && (spans[k].end == |source| || source[spans[k].end] == 0x7D))
    && (forall j, k :: 0 <= j < k < |spans| ==> spans[j].end < spans[k].start)
  }

  lemma OpenedFirst(source: Text, span: Span, rest: seq<Span>)
    requires span.end <= |source| && Opened(source, [span]) && Opened(source, rest)
    requires Inside(rest, After(source, span.end), |source|)
    ensures Opened(source, [span] + rest)
  {
  }

  lemma {:induction false} TemplateSpansAreOpened(source: Text, at: nat, escaped: bool)
    requires at <= |source|
    ensures Opened(source, TemplateFrom(source, at, escaped).spans)
    decreases |source| - at
  {
    if at == |source| {
    } else if escaped || source[at] == BACKSLASH || source[at] == BACKTICK {
      TemplateSpansAreOpened(source, at + 1, !escaped && source[at] == BACKSLASH);
    } else if source[at] == DOLLAR && at + 1 < |source| && source[at+1] == OPEN {
      var end := ExpressionEndFrom(source, at + 2, 1);
      TemplateSpansAreOpened(source, After(source, end), false);
      OpenedFirst(source, Span(at + 2, end), TemplateFrom(source, After(source, end), false).spans);
    } else {
      TemplateSpansAreOpened(source, at + 1, false);
    }
  }

  /** In template text that begins at `lo`, position `k` ends it: an unescaped backtick, or an unescaped
      dollar sign before an opening brace. */
  ghost predicate EndsText(source: Text, lo: nat, k: nat) {
    && lo <= k < |source| && !Escaped(source, lo, k)
    && (source[k] == 0x60 || (source[k] == 0x24 && k + 1 < |source| && source[k+1] == 0x7B))
  }

  /** `end` is past what ends the text at `k`, the first position from `at` on that does; |source| if none. */
  ghost predicate TextEndsAt(source: Text, lo: nat, at: nat, end: nat, k: nat) {
    && at <= k <= |source| && (forall j :: at <= j < k ==> !EndsText(source, lo, j))
    && (if k == |source| then end == k
        else EndsText(source, lo, k) && end == if source[k] == 0x60 then k + 1 else k + 2)
  }

  ghost predicate PastText(source: Text, lo: nat, at: nat, end: nat) {
    exists k: nat :: TextEndsAt(source, lo, at, end, k)
  }

  lemma PastTextStep(source: Text, lo: nat, at: nat, end: nat)
    requires lo <= at < |source| && !EndsText(source, lo, at) && PastText(source, lo, at + 1, end)
    ensures PastText(source, lo, at, end)
  {
    var k: nat :| TextEndsAt(source, lo, at + 1, end, k);
    assert TextEndsAt(source, lo, at, end, k);
  }

  /** The text of a template read up to `at` runs to its first unescaped backtick or opening.  An opening
      begins the first interpolation, and after its end the template goes on as if read afresh. */
  lemma {:induction false} TextRunsToItsEnd(source: Text, lo: nat, at: nat)
    requires lo <= at <= |source|
    ensures var t := TemplateFrom(source, at, Escaped(source, lo, at));
            if t.spans == [] then PastText(source, lo, at, t.end)
            else
              && PastText(source, lo, at, t.spans[0].start) && t.spans[0].start <= t.spans[0].end <= |source|
              && TemplateFrom(source, After(source, t.spans[0].end), false) == Template(t.end, t.spans[1..])
    decreases |source| - at
  {
    if at == |source| {
      assert TextEndsAt(source, lo, at, at, at);
    } else {
      EscapedStep(source, lo, at);
      if EndsText(source, lo, at) {
        assert TextEndsAt(source, lo, at, if source[at] == 0x60 then at + 1 else at + 2, at);
      } else {
        TextRunsToItsEnd(source, lo, at + 1);
        var t := TemplateFrom(source, at, Escaped(source, lo, at));
        PastTextStep(source, lo, at, if t.spans == [] then t.end else t.spans[0].start);
      }
    }
  }

  // ---- templates: the scanner ----

  /** One interpolation: its source text and the line it starts on. */
  datatype Interpolation = Interpolation(text: Text, line: int)

  function Interpolations(source: Text, first: int, spans: seq<Span>): seq<Interpolation>
    requires Inside(spans, 0, |source|)
  {
    if spans == [] then []
    else [Interpolation(source[spans[0].start..spans[0].end], LineOf(source, first, spans[0].start))]
         + Interpolations(source, first, spans[1..])
  }

  lemma InterpolationsFirst(source: Text, first: int, span: Span, rest: seq<Span>)
    requires 2 <= span.start <= span.end <= |source| && Inside(rest, 0, |source|)
    ensures Interpolations(source, first, [span] + rest)
         == [Interpolation(source[span.start..span.end], LineOf(source, first, span.start))]
            + Interpolations(source, first, rest)
  {
    assert ([span] + rest)[1..] == rest;
  }

  /** A template scan at `at` that has found `found` so far goes on to end at `end` and find `all`. */
  ghost predicate Continues(source: Text, first: int, at: nat, escaped: bool, found: seq<Interpolation>,
                            end: nat, all: seq<Interpolation>)
  {
    && at <= |source| && TemplateFrom(source, at, escaped).end == end
    && found + Interpolations(source, first, TemplateFrom(source, at, escaped).spans) == all
  }

  lemma ContinuesFromStart(source: Text, first: int, at: nat)
    requires at <= |source|
    ensures var t := TemplateFrom(source, at, false);
            Continues(source, first, at, false, [], t.end, Interpolations(source, first, t.spans))
  {
  }

  lemma ContinuesPlainly(source: Text, first: int, at: nat, escaped: bool, found: seq<Interpolation>,
                         end: nat, all: seq<Interpolation>)
    requires Continues(source, first, at, escaped, found, end, all) && at < |source|
    requires !escaped ==> source[at] != BACKTICK && !(source[at] == DOLLAR && at + 1 < |source| && source[at+1] == OPEN)
    ensures Continues(source, first, at + 1, !escaped && source[at] == BACKSLASH, found, end, all)
  {
  }

  lemma ContinuesPastSpan(source: Text, first: int, at: nat, found: seq<Interpolation>,
                          end: nat, all: seq<Interpolation>)
    requires Continues(source, first, at, false, found, end, all) && at + 2 <= |source|
    requires source[at] == DOLLAR && source[at+1] == OPEN
    ensures var close := ExpressionEndFrom(source, at + 2, 1);
            Continues(source, first, After(source, close), false,
                      found + [Interpolation(source[at+2..close], LineOf(source, first, at + 2))], end, all)
  {
    var close := ExpressionEndFrom(source, at + 2, 1);
    var rest := TemplateFrom(source, After(source, close), false);
    var one := [Interpolation(source[at+2..close], LineOf(source, first, at + 2))];
    InterpolationsFirst(source, first, Span(at + 2, close), rest.spans);
    var later := Interpolations(source, first, rest.spans);
    assert found + (one + later) == found + one + later;
  }

  lemma ContinuesToEnd(source: Text, first: int, at: nat, escaped: bool, found: seq<Interpolation>,
                       end: nat, all: seq<Interpolation>)
    requires Continues(source, first, at, escaped, found, end, all)
    requires at == |source| || (!escaped && source[at] == BACKTICK)
    ensures found == all && end == After(source, at)
  {
  }

  /** `_typescript_template_expressions`: step over the template that begins at `index`. */
  method TemplateExpressions(source: Text, index: nat, line: int, lineStart: nat, ghost first: int)
    returns (index': nat, line': int, lineStart': nat, expressions: seq<Interpolation>)
    requires At(source, first, index, line, lineStart) && index < |source| && source[index] != LF
    ensures index' == TemplateFrom(source, index + 1, false).end && At(source, first, index', line', lineStart')
    ensures expressions == Interpolations(source, first, TemplateFrom(source, index + 1, false).spans)
    decreases |source| - index, 0
  {
    AtNext(source, first, index, line, lineStart);
    index', line', lineStart', expressions := index + 1, line, lineStart, [];
    var escaped := false;
    ghost var end := TemplateFrom(source, index + 1, false).end;
    ghost var all := Interpolations(source, first, TemplateFrom(source, index + 1, false).spans);
    ContinuesFromStart(source, first, index + 1);
    while index' < |source|
      invariant index < index' && At(source, first, index', line', lineStart')
      invariant Continues(source, first, index', escaped, expressions, end, all)
      decreases |source| - index'
    {
      var c := source[index'];
      if !escaped && c == DOLLAR && index' + 1 < |source| && source[index'+1] == OPEN {
        ContinuesPastSpan(source, first, index', expressions, end, all);
        var expression;
        index', line', lineStart', expression := OneInterpolation(source, index', line', lineStart', first);
        expressions := expressions + [expression];
        continue;
      }
      AtNext(source, first, index', line', lineStart');
      if c == LF {
        line' := line' + 1;
        lineStart' := index' + 1;
      }
      if !escaped && c == BACKTICK {
        ContinuesToEnd(source, first, index', escaped, expressions, end, all);
        return index' + 1, line', lineStart', expressions;
      }
      ContinuesPlainly(source, first, index', escaped, expressions, end, all);
      escaped := !escaped && c == BACKSLASH;
      index' := index' + 1;
    }
    ContinuesToEnd(source, first, index', escaped, expressions, end, all);
  }

  /** The template's branch for an interpolation opening at `index`. */
  method OneInterpolation(source: Text, index: nat, line: int, lineStart: nat, ghost first: int)
    returns (index': nat, line': int, lineStart': nat, expression: Interpolation)
    requires At(source, first, index, line, lineStart) && index + 2 <= |source|
    requires source[index] == DOLLAR && source[index+1] == OPEN
    ensures var close := ExpressionEndFrom(source, index + 2, 1);
            && index' == After(source, close) && At(source, first, index', line', lineStart')
            && expression == Interpolation(source[index+2..close], LineOf(source, first, index + 2))
    decreases |source| - index, 0
  {
    Advance(source, index);
    Advance(source, index + 1);
    var start := index + 2;
    var end;
    end, line', lineStart' := ExpressionEnd(source, start, line, lineStart, first);
    expression := Interpolation(source[start..end], line);
    index' := if end == |source| then end else end + 1;
    if end < |source| {
      Advance(source, end);
    }
  }

  /** Step over a literal, a nested template or a comment inside an interpolation. */
  method SkipNested(source: Text, index: nat, line: int, lineStart: nat, ghost first: int)
    returns (skipped: bool, index': nat, line': int, lineStart': nat)
    requires At(source, first, index, line, lineStart) && index < |source|
    ensures skipped == NestedEnd(source, index).Some? && index' == NestedEnd(source, index).Or(index)
    ensures At(source, first, index', line', lineStart')
    decreases |source| - index, 1
  {
    skipped, index', line', lineStart' := true, index, line, lineStart;
    var c := source[index];
    var following := if index + 1 < |source| then Some(source[index+1]) else None;
    if c == QUOTE || c == DOUBLE {
      index', line', lineStart' := SkipQuoted(source, index, line, lineStart, c, first);
    } else if c == BACKTICK {
      var found;
      index', line', lineStart', found := TemplateExpressions(source, index, line, lineStart, first);
    } else if c == SLASH && following == Some(SLASH) {
      var end := Find(source, LF, index + 2);
      index' := if end.None? then |source| else end.value;
      SameLine(source, first, index, index', line, lineStart);
    } else if c == SLASH && following == Some(STAR) {
      index', line', lineStart' := SkipBlockComment(source, index, line, lineStart, first);
    } else {
      skipped := false;
    }
  }

  /** `_typescript_expression_end`: the balanced brace that ends the interpolation begun at `index`. */
  method ExpressionEnd(source: Text, index: nat, line: int, lineStart: nat, ghost first: int)
    returns (index': nat, line': int, lineStart': nat)
    requires At(source, first, index, line, lineStart)
    ensures index' == ExpressionEndFrom(source, index, 1) && At(source, first, index', line', lineStart')
    decreases |source| - index, 2
  {
    index', line', lineStart' := index, line, lineStart;
    var depth := 1;
    while index' < |source|
      invariant index <= index' && At(source, first, index', line', lineStart') && depth >= 1
      invariant ExpressionEndFrom(source, index', depth) == ExpressionEndFrom(source, index, 1)
      decreases |source| - index'
    {
      var skipped;
      skipped, index', line', lineStart' := SkipNested(source, index', line', lineStart', first);
      if skipped {
        continue;
      }
      AtNext(source, first, index', line', lineStart');
      var c := source[index'];
      if c == LF {
        line' := line' + 1;
        lineStart' := index' + 1;
      } else if c == OPEN {
        depth := depth + 1;
      } else if c == CLOSE {
        depth := depth - 1;
        if depth == 0 {
          return;
        }
      }
      index' := index' + 1;
    }
  }
}
