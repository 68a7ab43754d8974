/** What the TypeScript lexer of the timer rule should find (`_TypeScriptLexer`,
    scripts/check_test_isolation.py): a lexer without line state, the parts it cuts a source into, and what
    that says about tokens, lines and comments however deep templates nest. */
module TypeScriptReference {
  import opened Common
  import opened Escapes
  import opened LineTracking
  import opened TypeScriptSkips

  datatype Token = Token(value: Text, line: int, quoted: bool)

  function Runes(s: string): Text {
    seq(|s|, i requires 0 <= i < |s| => s[i] as int)
  }

  /** The tokens after which a slash begins a regex. */
  const REGEX_OPENERS: set<string> :=
    {"(", "[", "{", "=", ",", ":", ";", "!", "&", "|", "?", "return", "case", "throw"}

  predicate RegexCanStart(tokens: seq<Token>) {
    tokens == [] || exists opener :: opener in REGEX_OPENERS && tokens[|tokens|-1].value == Runes(opener)
  }

  /** What lexing gives: the tokens, the exemption reason of each exempt line, and which of those lines
      are said to hold nothing else. */
  datatype Lexed = Lexed(tokens: seq<Token>, reasons: map<int, Text>, standalone: set<int>) {
    function Add(token: Token): Lexed {
      this.(tokens := tokens + [token])
    }

    function Join(inner: Lexed): Lexed {
      Lexed(tokens + inner.tokens, reasons + inner.reasons, standalone + inner.standalone)
    }
  }

  const NOTHING := Lexed([], map[], {})

  /** The character tables, the reason, stripped, that an exemption comment gives, and what a literal's
      body means. */
  datatype Rules = Rules(chars: CharTables, exemption: Text -> Option<Text>, cook: Text -> Text) {
    predicate Starts(c: Rune) {
      chars.alpha(c) || c == UNDERSCORE || c == DOLLAR
    }

    predicate Continues(c: Rune) {
      chars.alnum(c) || c == UNDERSCORE || c == DOLLAR
    }
  }

  // ---- the reference lexer ----

  /** Only blanks come before `at` on its line. */
  predicate Alone(source: Text, chars: CharTables, at: nat)
    requires at <= |source|
  {
    forall k :: LineStart(source[..at]) <= k < at ==> chars.space(source[k])
  }

  function WithComment(source: Text, first: int, rules: Rules, at: nat, end: nat, out: Lexed): Lexed
    requires at <= end <= |source|
  {
    match rules.exemption(source[at..end])
    case None => out
    case Some(reason) =>
      var line := LineOf(source, first, at);
      Lexed(out.tokens, out.reasons[line := reason],
            if Alone(source, rules.chars, at) then out.standalone + {line} else out.standalone)
  }

  predicate LineCommentAt(source: Text, at: nat) {
    at + 1 < |source| && source[at] == SLASH && source[at+1] == SLASH
  }

  /** Where the comment or regex that begins at `at` ends, if one does after `tokens`. */
  function SlashEnd(source: Text, chars: CharTables, at: nat, tokens: seq<Token>): (end: Option<nat>)
    requires at < |source|
    ensures end.Some? ==> at < end.value <= |source|
  {
    if source[at] != SLASH then None
    else if LineCommentAt(source, at) then Some(Find(source, LF, at + 2).Or(|source|))
    else if at + 1 < |source| && source[at+1] == STAR then Some(BlockEnd(source, at))
    else if RegexCanStart(tokens) then Some(RegexEnd(source, at + 1, false, false, chars))
    else None
  }

  /** The body a quoted token takes of the literal in [start, end): all after its first character, less
      the last if that is the quote. */
  function BodyTo(source: Text, start: nat, end: nat): Text
    requires start < end <= |source|
  {
    var stop := if source[end-1] == source[start] then end - 1 else end;
    if start + 1 <= stop then source[start+1..stop] else []
  }

  function QuotedToken(source: Text, first: int, rules: Rules, start: nat, end: nat): Token
    requires start < end <= |source|
  {
    Token(rules.cook(BodyTo(source, start, end)), LineOf(source, first, start), true)
  }

  function WordToken(source: Text, first: int, start: nat, end: nat): Token
    requires start < end <= |source|
  {
    Token(source[start..end], LineOf(source, first, start), false)
  }

  function WordEnd(source: Text, rules: Rules, at: nat): (end: nat)
    requires at < |source|
    ensures at < end <= |source|
  {
    if rules.Starts(source[at]) then RunEnd(source, at + 1, rules.Continues) else at + 1
  }

  datatype Ahead = Ahead(next: nat, out: Lexed)

  /** One step of the lexer, without any line state: every line is counted afresh. */
  function Step(source: Text, first: int, rules: Rules, at: nat, out: Lexed): (s: Ahead)
    requires at < |source|
    ensures at < s.next <= |source|
    decreases |source|, 1, 0
  {
    var c := source[at];
    var slash := SlashEnd(source, rules.chars, at, out.tokens);
    if c == LF || rules.chars.space(c) then Ahead(at + 1, out)
    else if slash.Some? then
      Ahead(slash.value,
            if LineCommentAt(source, at) then WithComment(source, first, rules, at, slash.value, out) else out)
    else if c == QUOTE || c == DOUBLE then
      var end := QuotedEnd(source, at + 1, c, false);
      Ahead(end, out.Add(QuotedToken(source, first, rules, at, end)))
    else if c == BACKTICK then
      var template := TemplateFrom(source, at + 1, false);
      Ahead(template.end, LexSpans(source, first, rules, template.spans, out))
    else
      var end := WordEnd(source, rules, at);
      Ahead(end, out.Add(WordToken(source, first, at, end)))
  }

  function LexFrom(source: Text, first: int, rules: Rules, at: nat, out: Lexed): Lexed
    requires at <= |source|
    decreases |source|, 2, |source| - at
  {
    if at == |source| then out
    else
      var s := Step(source, first, rules, at, out);
      LexFrom(source, first, rules, s.next, s.out)
  }

  /** Each interpolation is lexed as a source of its own. */
  function LexSpans(source: Text, first: int, rules: Rules, spans: seq<Span>, out: Lexed): Lexed
    requires Inside(spans, 0, |source|)
    decreases |source|, 0, |spans|
  {
    if spans == [] then out
    else LexSpans(source, first, rules, spans[1..], out.Join(LexSpan(source, first, rules, spans[0])))
  }

  function LexSpan(source: Text, first: int, rules: Rules, span: Span): Lexed
    requires 2 <= span.start <= span.end <= |source|
    decreases |source|, 0, 0
  {
    LexFrom(source[span.start..span.end], LineOf(source, first, span.start), rules, 0, NOTHING)
  }

  // ---- the parts of a source ----

  datatype Kind = Blank | LineComment | BlockComment | Regex | Literal | Word | TemplateText

  /** [start, end) of the source, lexed as a part of [within, until): the innermost interpolation around it,
      or the whole source outside any. */
  datatype Part = Part(kind: Kind, start: nat, end: nat, within: nat, until: nat)

  predicate Fits(part: Part, n: nat) {
    part.within <= part.start < part.end <= part.until <= n
  }

  predicate AllFit(parts: seq<Part>, n: nat) {
    forall i :: 0 <= i < |parts| ==> Fits(parts[i], n)
  }

  function Moved(part: Part, offset: nat): Part {
    Part(part.kind, part.start + offset, part.end + offset, part.within + offset, part.until + offset)
  }

  function Shift(parts: seq<Part>, offset: nat): (shifted: seq<Part>)
    ensures |shifted| == |parts|
    ensures forall i :: 0 <= i < |parts| ==> shifted[i] == Moved(parts[i], offset)
  {
    seq(|parts|, i requires 0 <= i < |parts| => Moved(parts[i], offset))
  }

  /** The spans lie in order between `lower` and `upper`, each after at least one other character. */
  predicate Apart(spans: seq<Span>, lower: nat, upper: nat) {
    if spans == [] then lower <= upper
    else lower < spans[0].start <= spans[0].end && 2 <= spans[0].start && Apart(spans[1..], spans[0].end, upper)
  }

  predicate BlockCommentAt(source: Text, at: nat) {
    at + 1 < |source| && source[at] == SLASH && source[at+1] == STAR
  }

  function SlashKind(source: Text, at: nat): Kind {
    if LineCommentAt(source, at) then LineComment else if BlockCommentAt(source, at) then BlockComment else Regex
  }

  /** The parts one step of the lexer takes. */
  function PartsAt(source: Text, first: int, rules: Rules, at: nat, out: Lexed): (parts: seq<Part>)
    requires at < |source|
    ensures AllFit(parts, |source|)
    decreases |source|, 1, 0
  {
    var c := source[at];
    var slash := SlashEnd(source, rules.chars, at, out.tokens);
    if c == LF || rules.chars.space(c) then [Part(Blank, at, at + 1, 0, |source|)]
    else if slash.Some? then [Part(SlashKind(source, at), at, slash.value, 0, |source|)]
    else if c == QUOTE || c == DOUBLE then [Part(Literal, at, QuotedEnd(source, at + 1, c, false), 0, |source|)]
    else if c == BACKTICK then
      var template := TemplateFrom(source, at + 1, false);
      TemplateIsApart(source, at);
      TemplateParts(source, first, rules, at, template.end, template.spans)
    else [Part(Word, at, WordEnd(source, rules, at), 0, |source|)]
  }

  function PartsFrom(source: Text, first: int, rules: Rules, at: nat, out: Lexed): (parts: seq<Part>)
    requires at <= |source|
    ensures AllFit(parts, |source|)
    decreases |source|, 2, |source| - at
  {
    if at == |source| then []
    else
      var s := Step(source, first, rules, at, out);
      PartsAt(source, first, rules, at, out) + PartsFrom(source, first, rules, s.next, s.out)
  }

  /** A template's own text around the parts of its interpolations. */
  function TemplateParts(source: Text, first: int, rules: Rules, at: nat, end: nat, spans: seq<Span>)
    : (parts: seq<Part>)
    requires end <= |source| && Apart(spans, at, end)
    ensures AllFit(parts, |source|)
    decreases |source|, 0, |spans|
  {
    if spans == [] then if at == end then [] else [Part(TemplateText, at, end, 0, |source|)]
    else
      ApartEnds(spans, at, end);
      [Part(TemplateText, at, spans[0].start, 0, |source|)]
      + Shift(SpanParts(source, first, rules, spans[0]), spans[0].start)
      + TemplateParts(source, first, rules, spans[0].end, end, spans[1..])
  }

  function SpanParts(source: Text, first: int, rules: Rules, span: Span): (parts: seq<Part>)
    requires 2 <= span.start <= span.end <= |source|
    ensures AllFit(parts, span.end - span.start)
    decreases |source|, 0, 0
  {
    PartsFrom(source[span.start..span.end], LineOf(source, first, span.start), rules, 0, NOTHING)
  }

  lemma {:induction false} ApartEnds(spans: seq<Span>, lower: nat, upper: nat)
    requires Apart(spans, lower, upper)
    ensures lower <= upper && Inside(spans, 0, upper)
  {
    if spans != [] {
      ApartEnds(spans[1..], spans[0].end, upper);
      assert forall k :: 0 < k < |spans| ==> spans[k] == spans[1..][k-1];
    }
  }

  lemma {:induction false} OpenedIsApart(source: Text, spans: seq<Span>, lower: nat, upper: nat)
    requires Opened(source, spans) && lower <= upper
    requires forall k :: 0 <= k < |spans| ==> lower < spans[k].start && spans[k].end <= upper
    ensures Apart(spans, lower, upper)
  {
    if spans != [] {
      var rest := spans[1..];
      assert forall k :: 0 <= k < |rest| ==> rest[k] == spans[k+1];
      OpenedIsApart(source, rest, spans[0].end, upper);
    }
  }

  lemma TemplateIsApart(source: Text, at: nat)
    requires at < |source|
    ensures var template := TemplateFrom(source, at + 1, false); Apart(template.spans, at, template.end)
  {
    var template := TemplateFrom(source, at + 1, false);
    TemplateSpansAreOpened(source, at + 1, false);
    OpenedIsApart(source, template.spans, at, template.end);
  }

  // ---- the parts tile the source ----

  /** One after another, from `lo` to `hi`, with no gap and no overlap. */
  predicate Tiles(parts: seq<Part>, lo: nat, hi: nat) {
    if parts == [] then lo == hi
    else parts[0].start == lo < parts[0].end && Tiles(parts[1..], parts[0].end, hi)
  }

  lemma {:induction false} TilesConcat(a: seq<Part>, b: seq<Part>, lo: nat, mid: nat, hi: nat)
    requires Tiles(a, lo, mid) && Tiles(b, mid, hi)
    ensures Tiles(a + b, lo, hi)
  {
    if a == [] {
      assert a + b == b;
    } else {
      assert (a + b)[1..] == a[1..] + b;
      TilesConcat(a[1..], b, a[0].end, mid, hi);
    }
  }

  lemma {:induction false} TilesShift(parts: seq<Part>, lo: nat, hi: nat, offset: nat)
    requires Tiles(parts, lo, hi)
    ensures Tiles(Shift(parts, offset), lo + offset, hi + offset)
  {
    if parts != [] {
      assert Shift(parts, offset)[1..] == Shift(parts[1..], offset);
      TilesShift(parts[1..], parts[0].end, hi, offset);
    }
  }

  /** What [start, end) of a text that was lexed as one is, as a part of each kind. */
  ghost predicate SoundIn(text: Text, rules: Rules, kind: Kind, start: nat, end: nat)
    requires start < end <= |text|
  {
    match kind
    case Blank => end == start + 1 && (text[start] == LF || rules.chars.space(text[start]))
    case LineComment => LineCommentAt(text, start) && OneLine(text, start, end) && (end < |text| ==> text[end] == LF)
    case BlockComment => BlockCommentAt(text, start) && EndsBlock(text, start, end)
    case Regex =>
      && text[start] == SLASH && !LineCommentAt(text, start) && !BlockCommentAt(text, start)
      && PastRegex(text, start + 1, rules.chars, start + 1, end)
    case Literal =>
      (text[start] == QUOTE || text[start] == DOUBLE) && PastQuote(text, start + 1, text[start], start + 1, end)
    case Word =>
      if rules.chars.alpha(text[start]) || text[start] == 0x5F || text[start] == 0x24 then
        && (forall k :: start < k < end ==> InIdentifier(rules.chars, text[k]))
        && (end < |text| ==> !InIdentifier(rules.chars, text[end]))
      else end == start + 1
    case TemplateText =>
      (text[start] == BACKTICK || text[start] == CLOSE) && PastText(text, start + 1, start + 1, end)
  }

  /** A letter or digit, an underscore or a dollar sign. */
  predicate InIdentifier(chars: CharTables, c: Rune) {
    chars.alnum(c) || c == 0x5F || c == 0x24
  }

  /** `end` is past the first close of the comment that opens at `start`, or the end if there is none. */
  ghost predicate EndsBlock(text: Text, start: nat, end: nat) {
    if start + 4 <= end && ClosesAt(text, end - 2)
    then forall k :: start + 2 <= k < end - 2 ==> !ClosesAt(text, k)
    else end == |text| && forall k :: start + 2 <= k ==> !ClosesAt(text, k)
  }

  /** A part is what its kind says in the text it was lexed in, which an opening precedes if that is an
      interpolation. */
  ghost predicate Sound(source: Text, rules: Rules, part: Part) {
    && Fits(part, |source|)
    && (part.within > 0 ==>
          part.within >= 2 && source[part.within-2] == DOLLAR && source[part.within-1] == OPEN)
    && SoundIn(source[part.within..part.until], rules, part.kind, part.start - part.within, part.end - part.within)
  }

  ghost predicate AllSound(source: Text, rules: Rules, parts: seq<Part>) {
    forall i :: 0 <= i < |parts| ==> Sound(source, rules, parts[i])
  }

  lemma SoundConcat(source: Text, rules: Rules, a: seq<Part>, b: seq<Part>)
    requires AllSound(source, rules, a) && AllSound(source, rules, b)
    ensures AllSound(source, rules, a + b)
  {
  }

  lemma SoundShift(source: Text, rules: Rules, start: nat, end: nat, parts: seq<Part>)
    requires 2 <= start <= end <= |source| && source[start-2] == DOLLAR && source[start-1] == OPEN
    requires AllSound(source[start..end], rules, parts)
    ensures AllSound(source, rules, Shift(parts, start))
  {
    var slice, shifted := source[start..end], Shift(parts, start);
    forall i | 0 <= i < |parts|
      ensures Sound(source, rules, shifted[i])
    {
      assert Sound(slice, rules, parts[i]);
      SliceOfSlice(source, start, end, parts[i].within, parts[i].until);
      if parts[i].within > 0 {
        assert slice[parts[i].within-1] == source[shifted[i].within-1];
        assert slice[parts[i].within-2] == source[shifted[i].within-2];
      }
    }
  }

  /** However deep templates nest and whatever is left unterminated, the parts of a source tile it and are
      what their kinds say. */
  lemma {:induction false} PartsTile(source: Text, first: int, rules: Rules, at: nat, out: Lexed)
    requires at <= |source|
    ensures var parts := PartsFrom(source, first, rules, at, out);
            Tiles(parts, at, |source|) && AllSound(source, rules, parts)
    decreases |source|, 2, |source| - at
  {
    if at < |source| {
      var s := Step(source, first, rules, at, out);
      StepTiles(source, first, rules, at, out);
      PartsTile(source, first, rules, s.next, s.out);
      var here, rest := PartsAt(source, first, rules, at, out), PartsFrom(source, first, rules, s.next, s.out);
      TilesConcat(here, rest, at, s.next, |source|);
      SoundConcat(source, rules, here, rest);
    }
  }

  lemma {:induction false} StepTiles(source: Text, first: int, rules: Rules, at: nat, out: Lexed)
    requires at < |source|
    ensures var parts := PartsAt(source, first, rules, at, out);
            Tiles(parts, at, Step(source, first, rules, at, out).next) && AllSound(source, rules, parts)
    decreases |source|, 1, 0
  {
    var c := source[at];
    var slash := SlashEnd(source, rules.chars, at, out.tokens);
    if c == BACKTICK {
      var template := TemplateFrom(source, at + 1, false);
      TemplateSpansAreOpened(source, at + 1, false);
      TemplateIsApart(source, at);
      TemplateTiles(source, first, rules, at, template.end, template.spans);
    } else {
      OneIsSound(source, first, rules, at, out);
      OneTile(PartsAt(source, first, rules, at, out)[0], at);
    }
  }

  /** A part of the whole source, outside any interpolation. */
  lemma SoundOutside(source: Text, rules: Rules, kind: Kind, start: nat, end: nat)
    requires start < end <= |source| && SoundIn(source, rules, kind, start, end)
    ensures Sound(source, rules, Part(kind, start, end, 0, |source|))
  {
    assert source[0..|source|] == source;
  }

  lemma CommentIsSound(source: Text, rules: Rules, at: nat)
    requires at < |source|
    ensures LineCommentAt(source, at) ==> SoundIn(source, rules, LineComment, at, Find(source, LF, at + 2).Or(|source|))
    ensures BlockCommentAt(source, at) ==> SoundIn(source, rules, BlockComment, at, BlockEnd(source, at))
  {
  }

  lemma RegexIsSound(source: Text, rules: Rules, at: nat)
    requires at < |source| && source[at] == SLASH && !LineCommentAt(source, at) && !BlockCommentAt(source, at)
    ensures SoundIn(source, rules, Regex, at, RegexEnd(source, at + 1, false, false, rules.chars))
  {
    RegexEndIsPastRegex(source, at + 1, rules.chars, at + 1);
  }

  lemma LiteralIsSound(source: Text, rules: Rules, at: nat)
    requires at < |source| && (source[at] == QUOTE || source[at] == DOUBLE)
    ensures SoundIn(source, rules, Literal, at, QuotedEnd(source, at + 1, source[at], false))
  {
    QuotedEndIsPastQuote(source, at + 1, source[at], at + 1);
  }

  lemma WordIsSound(source: Text, rules: Rules, at: nat)
    requires at < |source|
    ensures SoundIn(source, rules, Word, at, WordEnd(source, rules, at))
  {
  }

  /** The steps that take one part. */
  lemma OneIsSound(source: Text, first: int, rules: Rules, at: nat, out: Lexed)
    requires at < |source| && source[at] != BACKTICK
    ensures var parts, next := PartsAt(source, first, rules, at, out), Step(source, first, rules, at, out).next;
            |parts| == 1 && parts[0].start == at && parts[0].end == next && Sound(source, rules, parts[0])
  {
    var kind, next := PartsAt(source, first, rules, at, out)[0].kind, Step(source, first, rules, at, out).next;
    match kind {
      case Literal => LiteralIsSound(source, rules, at);
      case Regex => RegexIsSound(source, rules, at);
      case Word => WordIsSound(source, rules, at);
      case Blank =>
      case _ => CommentIsSound(source, rules, at);
    }
    SoundOutside(source, rules, kind, at, next);
  }

  lemma OneTile(part: Part, lo: nat)
    requires part.start == lo < part.end
    ensures Tiles([part], lo, part.end)
  {
    assert [part][1..] == [];
  }

  lemma OpenedRest(source: Text, spans: seq<Span>)
    requires Opened(source, spans) && spans != []
    ensures Opened(source, spans[1..])
    ensures source[spans[0].start-2] == DOLLAR && source[spans[0].start-1] == OPEN
    ensures spans[0].end < |source| ==> source[spans[0].end] == CLOSE
  {
    assert forall k :: 0 <= k < |spans[1..]| ==> spans[1..][k] == spans[k+1];
  }

  lemma JoinTiles(source: Text, rules: Rules, text: Part, inner: seq<Part>, later: seq<Part>, mid: nat, end: nat)
    requires text.start < text.end && Tiles(inner, text.end, mid) && Tiles(later, mid, end)
    requires Sound(source, rules, text) && AllSound(source, rules, inner) && AllSound(source, rules, later)
    ensures Tiles([text] + inner + later, text.start, end) && AllSound(source, rules, [text] + inner + later)
  {
    OneTile(text, text.start);
    TilesConcat([text], inner, text.start, text.end, mid);
    TilesConcat([text] + inner, later, text.start, mid, end);
  }

  /** At a backtick or closing brace, the rest of a template: it ends at `end` and interpolates `spans`. */
  ghost predicate GoesOn(source: Text, at: nat, end: nat, spans: seq<Span>) {
    if at >= |source| then at == |source| == end && spans == []
    else
      && (source[at] == BACKTICK || source[at] == CLOSE)
      && TemplateFrom(source, at + 1, false) == Template(end, spans)
  }

  lemma TextIsSound(source: Text, rules: Rules, at: nat, end: nat, spans: seq<Span>)
    requires GoesOn(source, at, end, spans) && end <= |source| && Apart(spans, at, end) && Opened(source, spans)
    ensures if spans == [] then at < end ==> SoundIn(source, rules, TemplateText, at, end)
            else
              && SoundIn(source, rules, TemplateText, at, spans[0].start)
              && GoesOn(source, spans[0].end, end, spans[1..])
  {
    if at < |source| {
      TextRunsToItsEnd(source, at + 1, at + 1);
    }
  }

  lemma {:induction false} TemplateTiles(source: Text, first: int, rules: Rules, at: nat, end: nat, spans: seq<Span>)
    requires end <= |source| && Apart(spans, at, end) && Opened(source, spans)
    requires GoesOn(source, at, end, spans)
    ensures var parts := TemplateParts(source, first, rules, at, end, spans);
            Tiles(parts, at, end) && AllSound(source, rules, parts)
    decreases |source|, 0, |spans|
  {
    ApartEnds(spans, at, end);
    TextIsSound(source, rules, at, end, spans);
    if spans == [] {
      if at < end {
        SoundOutside(source, rules, TemplateText, at, end);
        OneTile(Part(TemplateText, at, end, 0, |source|), at);
      }
    } else {
      var span, rest := spans[0], spans[1..];
      OpenedRest(source, spans);
      ApartEnds(rest, span.end, end);
      var text := Part(TemplateText, at, span.start, 0, |source|);
      var inner := Shift(SpanParts(source, first, rules, span), span.start);
      var later := TemplateParts(source, first, rules, span.end, end, rest);
      SoundOutside(source, rules, TemplateText, at, span.start);
      SpanTiles(source, first, rules, span);
      TemplateTiles(source, first, rules, span.end, end, rest);
      JoinTiles(source, rules, text, inner, later, span.end, end);
    }
  }

  lemma {:induction false} SpanTiles(source: Text, first: int, rules: Rules, span: Span)
    requires 2 <= span.start <= span.end <= |source|
    requires source[span.start-2] == DOLLAR && source[span.start-1] == OPEN
    ensures var parts := Shift(SpanParts(source, first, rules, span), span.start);
            Tiles(parts, span.start, span.end) && AllSound(source, rules, parts)
    decreases |source|, 0, 0
  {
    var slice := source[span.start..span.end];
    PartsTile(slice, LineOf(source, first, span.start), rules, 0, NOTHING);
    TilesShiftTo(SpanParts(source, first, rules, span), |slice|, span.start, span.end);
    SoundShift(source, rules, span.start, span.end, SpanParts(source, first, rules, span));
  }

  lemma TilesShiftTo(parts: seq<Part>, n: nat, start: nat, end: nat)
    requires Tiles(parts, 0, n) && start + n == end
    ensures Tiles(Shift(parts, start), start, end)
  {
    TilesShift(parts, 0, n, start);
  }

  ghost predicate Holds(part: Part, k: nat) {
    part.start <= k < part.end
  }

  lemma {:induction false} TilesHold(parts: seq<Part>, lo: nat, hi: nat, k: nat)
    requires Tiles(parts, lo, hi)
    ensures forall i :: 0 <= i < |parts| ==> lo <= parts[i].start
    ensures lo <= k < hi ==> exists i :: 0 <= i < |parts| && Holds(parts[i], k)
    ensures forall i, j :: 0 <= i < j < |parts| ==> parts[i].end <= parts[j].start
  {
    if parts != [] {
      var rest := parts[1..];
      TilesHold(rest, parts[0].end, hi, k);
      assert forall i :: 0 < i < |parts| ==> parts[i] == rest[i-1];
      if lo <= k < parts[0].end {
        assert Holds(parts[0], k);
      } else if lo <= k < hi {
        var i :| 0 <= i < |rest| && Holds(rest[i], k);
        assert Holds(parts[i+1], k);
      }
    }
  }

  /** Every position of every source is accounted for: it lies in exactly one part, and one that is not blank
      in a token, a literal, a comment, a regex or a template's own text. */
  lemma EveryPositionIsInOnePart(source: Text, first: int, rules: Rules, k: nat)
    requires k < |source|
    ensures var parts := PartsFrom(source, first, rules, 0, NOTHING);
            && (exists i :: 0 <= i < |parts| && Holds(parts[i], k))
            && (forall i, j :: 0 <= i < j < |parts| ==> !(Holds(parts[i], k) && Holds(parts[j], k)))
            && (source[k] != LF && !rules.chars.space(source[k]) ==>
                  forall i :: 0 <= i < |parts| && Holds(parts[i], k) ==> !parts[i].kind.Blank?)
  {
    var parts := PartsFrom(source, first, rules, 0, NOTHING);
    PartsTile(source, first, rules, 0, NOTHING);
    TilesHold(parts, 0, |source|, k);
    forall i | 0 <= i < |parts| && Holds(parts[i], k) && parts[i].kind.Blank?
      ensures source[k] == LF || rules.chars.space(source[k])
    {
      assert Sound(source, rules, parts[i]);
      assert source[parts[i].within..parts[i].until][parts[i].start-parts[i].within] == source[k];
    }
  }

  // ---- reading the parts off gives what the lexer finds ----

  /** What an interpolation that begins at `within` takes for standing alone: only blanks before `at` on
      its line, as far back as its own text goes. */
  predicate SaidAlone(source: Text, chars: CharTables, within: nat, at: nat)
    requires at <= |source|
  {
    forall k :: within <= k < at && LineStart(source[..at]) <= k ==> chars.space(source[k])
  }

  /** What a line comment adds: its line's reason, and the line itself if it is said to stand alone. */
  function ReadComment(source: Text, first: int, rules: Rules, part: Part): Lexed
    requires Fits(part, |source|)
  {
    match rules.exemption(source[part.start..part.end])
    case None => NOTHING
    case Some(reason) =>
      var line := LineOf(source, first, part.start);
      Lexed([], map[line := reason],
            if SaidAlone(source, rules.chars, part.within, part.start) then {line} else {})
  }

  function Read(source: Text, first: int, rules: Rules, part: Part): Lexed
    requires Fits(part, |source|)
  {
    match part.kind
    case Literal => Lexed([QuotedToken(source, first, rules, part.start, part.end)], map[], {})
    case Word => Lexed([WordToken(source, first, part.start, part.end)], map[], {})
    case LineComment => ReadComment(source, first, rules, part)
    case _ => NOTHING
  }

  function Summary(source: Text, first: int, rules: Rules, parts: seq<Part>): Lexed
    requires AllFit(parts, |source|)
  {
    if parts == [] then NOTHING
    else Read(source, first, rules, parts[0]).Join(Summary(source, first, rules, parts[1..]))
  }

  lemma JoinAssociates(a: Lexed, b: Lexed, c: Lexed)
    ensures a.Join(b).Join(c) == a.Join(b.Join(c))
  {
    assert a.tokens + b.tokens + c.tokens == a.tokens + (b.tokens + c.tokens);
    assert a.reasons + b.reasons + c.reasons == a.reasons + (b.reasons + c.reasons);
    assert a.standalone + b.standalone + c.standalone == a.standalone + (b.standalone + c.standalone);
  }

  lemma JoinNothing(a: Lexed)
    ensures a.Join(NOTHING) == a && NOTHING.Join(a) == a
  {
    assert a.reasons + map[] == a.reasons && map[] + a.reasons == a.reasons;
  }

  lemma {:induction false} SummaryConcat(source: Text, first: int, rules: Rules, a: seq<Part>, b: seq<Part>)
    requires AllFit(a, |source|) && AllFit(b, |source|)
    ensures AllFit(a + b, |source|)
    ensures Summary(source, first, rules, a + b)
         == Summary(source, first, rules, a).Join(Summary(source, first, rules, b))
  {
    if a == [] {
      assert a + b == b;
      JoinNothing(Summary(source, first, rules, b));
    } else {
      assert (a + b)[1..] == a[1..] + b;
      SummaryConcat(source, first, rules, a[1..], b);
      JoinAssociates(Read(source, first, rules, a[0]), Summary(source, first, rules, a[1..]),
                     Summary(source, first, rules, b));
    }
  }

  lemma SummaryOne(source: Text, first: int, rules: Rules, part: Part)
    requires Fits(part, |source|)
    ensures Summary(source, first, rules, [part]) == Read(source, first, rules, part)
  {
    JoinNothing(Read(source, first, rules, part));
    assert [part][1..] == [];
  }

  lemma SliceOfSlice(source: Text, start: nat, end: nat, lo: nat, hi: nat)
    requires start <= end <= |source| && lo <= hi <= end - start
    ensures source[start..end][lo..hi] == source[start+lo..start+hi]
  {
    var a, b := source[start..end][lo..hi], source[start+lo..start+hi];
    forall k | 0 <= k < hi - lo
      ensures a[k] == b[k]
    {
      assert a[k] == source[start..end][lo+k];
    }
    assert |a| == |b|;
  }

  lemma {:induction false} LineStartInSlice(source: Text, start: nat, end: nat, at: nat)
    requires start <= end <= |source| && at <= end - start
    ensures var lineStart := LineStart(source[..start+at]);
            LineStart(source[start..end][..at]) == if lineStart >= start then lineStart - start else 0
    decreases at
  {
    if at > 0 {
      Advance(source, start + at - 1);
      Advance(source[start..end], at - 1);
      LineStartInSlice(source, start, end, at - 1);
    }
  }

  lemma SaidAloneInSlice(source: Text, chars: CharTables, start: nat, end: nat, within: nat, at: nat)
    requires start <= end <= |source| && within <= at <= end - start
    ensures SaidAlone(source[start..end], chars, within, at) <==> SaidAlone(source, chars, start + within, start + at)
  {
    var slice := source[start..end];
    LineStartInSlice(source, start, end, at);
    if SaidAlone(slice, chars, within, at) {
      forall k | start + within <= k < start + at && LineStart(source[..start+at]) <= k
        ensures chars.space(source[k])
      {
        assert slice[k-start] == source[k];
      }
    }
    if SaidAlone(source, chars, start + within, start + at) {
      forall k | within <= k < at && LineStart(slice[..at]) <= k
        ensures chars.space(slice[k])
      {
        assert slice[k] == source[start+k];
      }
    }
  }

  lemma BodyInSlice(source: Text, start: nat, end: nat, lo: nat, hi: nat)
    requires start <= end <= |source| && lo < hi <= end - start
    ensures BodyTo(source[start..end], lo, hi) == BodyTo(source, start + lo, start + hi)
  {
    var slice := source[start..end];
    assert slice[lo] == source[start+lo] && slice[hi-1] == source[start+hi-1];
    var stop := if slice[hi-1] == slice[lo] then hi - 1 else hi;
    if lo + 1 <= stop {
      SliceOfSlice(source, start, end, lo + 1, stop);
      BodyUpTo(slice, lo, hi, stop);
      BodyUpTo(source, start + lo, start + hi, start + stop);
    }
  }

  lemma BodyUpTo(text: Text, start: nat, end: nat, stop: nat)
    requires start < end <= |text| && stop == (if text[end-1] == text[start] then end - 1 else end) >= start + 1
    ensures BodyTo(text, start, end) == text[start+1..stop]
  {
  }

  lemma WordInSlice(source: Text, first: int, start: nat, end: nat, part: Part)
    requires start <= end <= |source| && Fits(part, end - start)
    ensures WordToken(source[start..end], LineOf(source, first, start), part.start, part.end)
         == WordToken(source, first, part.start + start, part.end + start)
  {
    LineInSlice(source, first, start, end, part.start);
    SliceOfSlice(source, start, end, part.start, part.end);
  }

  lemma QuotedInSlice(source: Text, first: int, rules: Rules, start: nat, end: nat, part: Part)
    requires start <= end <= |source| && Fits(part, end - start)
    ensures QuotedToken(source[start..end], LineOf(source, first, start), rules, part.start, part.end)
         == QuotedToken(source, first, rules, part.start + start, part.end + start)
  {
    LineInSlice(source, first, start, end, part.start);
    BodyInSlice(source, start, end, part.start, part.end);
  }

  lemma CommentInSlice(source: Text, first: int, rules: Rules, start: nat, end: nat, part: Part)
    requires start <= end <= |source| && Fits(part, end - start)
    ensures ReadComment(source[start..end], LineOf(source, first, start), rules, part)
         == ReadComment(source, first, rules, Moved(part, start))
  {
    LineInSlice(source, first, start, end, part.start);
    SliceOfSlice(source, start, end, part.start, part.end);
    SaidAloneInSlice(source, rules.chars, start, end, part.within, part.start);
  }

  /** A part read inside an interpolation reads the same in the whole source. */
  lemma ReadInSlice(source: Text, first: int, rules: Rules, start: nat, end: nat, part: Part)
    requires start <= end <= |source| && Fits(part, end - start)
    ensures Read(source[start..end], LineOf(source, first, start), rules, part)
         == Read(source, first, rules, Moved(part, start))
  {
    match part.kind
    case LineComment => CommentInSlice(source, first, rules, start, end, part);
    case Word => WordInSlice(source, first, start, end, part);
    case Literal => QuotedInSlice(source, first, rules, start, end, part);
    case _ =>
  }

  lemma {:induction false} SummaryInSlice(source: Text, first: int, rules: Rules, start: nat, end: nat,
                                          parts: seq<Part>)
    requires start <= end <= |source| && AllFit(parts, end - start)
    ensures AllFit(Shift(parts, start), |source|)
    ensures Summary(source[start..end], LineOf(source, first, start), rules, parts)
         == Summary(source, first, rules, Shift(parts, start))
  {
    if parts != [] {
      ReadInSlice(source, first, rules, start, end, parts[0]);
      assert Shift(parts, start)[1..] == Shift(parts[1..], start);
      SummaryInSlice(source, first, rules, start, end, parts[1..]);
    }
  }

  /** A comment in no interpolation is said to stand alone exactly if it does. */
  lemma CommentIsRead(source: Text, first: int, rules: Rules, at: nat, end: nat, out: Lexed)
    requires at < end <= |source|
    ensures WithComment(source, first, rules, at, end, out)
         == out.Join(ReadComment(source, first, rules, Part(LineComment, at, end, 0, |source|)))
  {
    JoinNothing(out);
    assert Alone(source, rules.chars, at) <==> SaidAlone(source, rules.chars, 0, at);
  }

  lemma TokenIsRead(out: Lexed, token: Token)
    ensures out.Add(token) == out.Join(Lexed([token], map[], {}))
  {
    JoinNothing(out);
  }

  lemma {:induction false} StepIsSummary(source: Text, first: int, rules: Rules, at: nat, out: Lexed)
    requires at < |source|
    ensures Step(source, first, rules, at, out).out
         == out.Join(Summary(source, first, rules, PartsAt(source, first, rules, at, out)))
    decreases |source|, 1, 0
  {
    var c := source[at];
    var slash := SlashEnd(source, rules.chars, at, out.tokens);
    if c == BACKTICK {
      var template := TemplateFrom(source, at + 1, false);
      TemplateIsApart(source, at);
      TemplateIsSummary(source, first, rules, at, template.end, template.spans, out);
    } else {
      OneIsSummary(source, first, rules, at, out);
    }
  }

  /** The steps that take one part. */
  lemma OneIsSummary(source: Text, first: int, rules: Rules, at: nat, out: Lexed)
    requires at < |source| && |PartsAt(source, first, rules, at, out)| == 1
    requires source[at] != BACKTICK
    ensures Step(source, first, rules, at, out).out
         == out.Join(Summary(source, first, rules, PartsAt(source, first, rules, at, out)))
  {
    var part := PartsAt(source, first, rules, at, out)[0];
    assert PartsAt(source, first, rules, at, out) == [part];
    SummaryOne(source, first, rules, part);
    JoinNothing(out);
    match part.kind
    case LineComment => CommentIsRead(source, first, rules, at, part.end, out);
    case Literal => TokenIsRead(out, QuotedToken(source, first, rules, at, part.end));
    case Word => TokenIsRead(out, WordToken(source, first, at, part.end));
    case _ =>
  }

  lemma {:induction false} TemplateIsSummary(source: Text, first: int, rules: Rules, at: nat, end: nat,
                                             spans: seq<Span>, out: Lexed)
    requires end <= |source| && Apart(spans, at, end)
    ensures Inside(spans, 0, |source|)
    ensures LexSpans(source, first, rules, spans, out)
         == out.Join(Summary(source, first, rules, TemplateParts(source, first, rules, at, end, spans)))
    decreases |source|, 0, |spans|
  {
    ApartEnds(spans, at, end);
    if spans == [] {
      JoinNothing(out);
      if at < end {
        SummaryOne(source, first, rules, Part(TemplateText, at, end, 0, |source|));
      }
    } else {
      var span, rest := spans[0], spans[1..];
      var inner := LexSpan(source, first, rules, span);
      SpanIsSummary(source, first, rules, span);
      TemplateIsSummary(source, first, rules, span.end, end, rest, out.Join(inner));
      TextJoins(source, first, rules, Part(TemplateText, at, span.start, 0, |source|),
                Shift(SpanParts(source, first, rules, span), span.start),
                TemplateParts(source, first, rules, span.end, end, rest), out);
    }
  }

  /** Template text adds nothing, so joining around it is joining the rest in order. */
  lemma TextJoins(source: Text, first: int, rules: Rules, text: Part, inner: seq<Part>, later: seq<Part>, out: Lexed)
    requires Fits(text, |source|) && text.kind.TemplateText? && AllFit(inner, |source|) && AllFit(later, |source|)
    ensures AllFit([text] + inner + later, |source|)
    ensures out.Join(Summary(source, first, rules, [text] + inner + later))
         == out.Join(Summary(source, first, rules, inner)).Join(Summary(source, first, rules, later))
  {
    SummaryOne(source, first, rules, text);
    SummaryConcat(source, first, rules, [text], inner);
    SummaryConcat(source, first, rules, [text] + inner, later);
    JoinNothing(Summary(source, first, rules, inner));
    JoinAssociates(out, Summary(source, first, rules, inner), Summary(source, first, rules, later));
  }

  lemma {:induction false} SpanIsSummary(source: Text, first: int, rules: Rules, span: Span)
    requires 2 <= span.start <= span.end <= |source|
    ensures var parts := Shift(SpanParts(source, first, rules, span), span.start);
            AllFit(parts, |source|) && LexSpan(source, first, rules, span) == Summary(source, first, rules, parts)
    decreases |source|, 0, 0
  {
    var slice, line := source[span.start..span.end], LineOf(source, first, span.start);
    LexedIsSummary(slice, line, rules, 0, NOTHING);
    JoinNothing(Summary(slice, line, rules, SpanParts(source, first, rules, span)));
    SummaryInSlice(source, first, rules, span.start, span.end, SpanParts(source, first, rules, span));
  }

  /** The tokens, reasons and lines a lexer finds are exactly those its parts give, in source order, each
      read off the whole source at the part's own place. */
  lemma {:induction false} LexedIsSummary(source: Text, first: int, rules: Rules, at: nat, out: Lexed)
    requires at <= |source|
    ensures LexFrom(source, first, rules, at, out)
         == out.Join(Summary(source, first, rules, PartsFrom(source, first, rules, at, out)))
    decreases |source|, 2, |source| - at
  {
    if at == |source| {
      JoinNothing(out);
    } else {
      var s := Step(source, first, rules, at, out);
      var here, rest := PartsAt(source, first, rules, at, out), PartsFrom(source, first, rules, s.next, s.out);
      StepIsSummary(source, first, rules, at, out);
      LexedIsSummary(source, first, rules, s.next, s.out);
      SummaryConcat(source, first, rules, here, rest);
      JoinAssociates(out, Summary(source, first, rules, here), Summary(source, first, rules, rest));
    }
  }

  // ---- every token is where and what it says ----

  /** `value` is what the literal in [at, end) cooks to. */
  ghost predicate Quotes(source: Text, rules: Rules, at: nat, end: nat, value: Text) {
    at < end <= |source| && value == rules.cook(BodyTo(source, at, end))
  }

  /** The token at position `at`: on the line of that position, and either the text found there or the
      cooked body of the quoted literal that begins there. */
  ghost predicate TokenAt(source: Text, first: int, rules: Rules, token: Token, at: nat) {
    && at < |source| && token.line == LineOf(source, first, at)
    && if token.quoted then
         && (source[at] == QUOTE || source[at] == DOUBLE)
         && exists end :: Quotes(source, rules, at, end, token.value)
       else
         token.value != [] && at + |token.value| <= |source| && source[at..at+|token.value|] == token.value
  }

  /** Every token has its own position in [lo, hi), and tokens come in source order. */
  ghost predicate TokensAt(source: Text, first: int, rules: Rules, tokens: seq<Token>, positions: seq<nat>,
                           lo: nat, hi: nat)
  {
    && |positions| == |tokens|
    && (forall i :: 0 <= i < |tokens| ==>
          lo <= positions[i] < hi && TokenAt(source, first, rules, tokens[i], positions[i]))
    && (forall i, j :: 0 <= i < j < |tokens| ==> positions[i] < positions[j])
  }

  lemma TokensFirst(source: Text, first: int, rules: Rules, token: Token, at: nat, tokens: seq<Token>,
                    positions: seq<nat>, lo: nat, hi: nat)
    requires TokenAt(source, first, rules, token, at) && at < lo <= hi
    requires TokensAt(source, first, rules, tokens, positions, lo, hi)
    ensures TokensAt(source, first, rules, [token] + tokens, [at] + positions, at, hi)
  {
    var all, places := [token] + tokens, [at] + positions;
    forall i | 0 <= i < |all|
      ensures at <= places[i] < hi && TokenAt(source, first, rules, all[i], places[i])
    {
      if i > 0 {
        assert all[i] == tokens[i-1] && places[i] == positions[i-1];
      }
    }
  }

  lemma PartTokenAt(source: Text, first: int, rules: Rules, part: Part)
    requires Sound(source, rules, part)
    ensures part.kind.Word? ==>
              TokenAt(source, first, rules, WordToken(source, first, part.start, part.end), part.start)
    ensures part.kind.Literal? ==>
              TokenAt(source, first, rules, QuotedToken(source, first, rules, part.start, part.end), part.start)
  {
    assert source[part.within..part.until][part.start-part.within] == source[part.start];
    if part.kind.Literal? {
      var token := QuotedToken(source, first, rules, part.start, part.end);
      assert Quotes(source, rules, part.start, part.end, token.value);
    }
  }

  lemma TilesEnd(parts: seq<Part>, lo: nat, hi: nat)
    requires Tiles(parts, lo, hi)
    ensures lo <= hi
  {
    TilesHold(parts, lo, hi, 0);
    if parts != [] {
      TilesEnd(parts[1..], parts[0].end, hi);
    }
  }

  lemma {:induction false} PartTokensAt(source: Text, first: int, rules: Rules, parts: seq<Part>, lo: nat, hi: nat)
    returns (positions: seq<nat>)
    requires AllFit(parts, |source|) && AllSound(source, rules, parts) && Tiles(parts, lo, hi)
    ensures TokensAt(source, first, rules, Summary(source, first, rules, parts).tokens, positions, lo, hi)
  {
    if parts == [] {
      return [];
    }
    var part, rest := parts[0], parts[1..];
    assert forall i :: 0 <= i < |rest| ==> rest[i] == parts[i+1];
    var later := PartTokensAt(source, first, rules, rest, part.end, hi);
    var tokens := Summary(source, first, rules, rest).tokens;
    TilesEnd(rest, part.end, hi);
    PartTokenAt(source, first, rules, part);
    if part.kind.Word? {
      var token := WordToken(source, first, part.start, part.end);
      TokensFirst(source, first, rules, token, lo, tokens, later, part.end, hi);
      return [lo] + later;
    } else if part.kind.Literal? {
      var token := QuotedToken(source, first, rules, part.start, part.end);
      TokensFirst(source, first, rules, token, lo, tokens, later, part.end, hi);
      return [lo] + later;
    } else {
      assert Read(source, first, rules, part).tokens + tokens == tokens;
      return later;
    }
  }

  /** For every source, however deep its templates nest and whatever is left unterminated: each token is on
      the line its own position is on, with the text or literal found there, in source order. */
  lemma EveryTokenIsOnItsLine(source: Text, first: int, rules: Rules)
    ensures exists positions ::
              TokensAt(source, first, rules, LexFrom(source, first, rules, 0, NOTHING).tokens, positions, 0, |source|)
  {
    var parts := PartsFrom(source, first, rules, 0, NOTHING);
    PartsTile(source, first, rules, 0, NOTHING);
    LexedIsSummary(source, first, rules, 0, NOTHING);
    JoinNothing(Summary(source, first, rules, parts));
    var positions := PartTokensAt(source, first, rules, parts, 0, |source|);
  }

  // ---- which lines are exempt, and which stand alone ----

  /** The part is an exemption comment on this line. */
  ghost predicate Exempts(source: Text, first: int, rules: Rules, part: Part, line: int)
    requires Fits(part, |source|)
  {
    && part.kind.LineComment? && line == LineOf(source, first, part.start)
    && rules.exemption(source[part.start..part.end]).Some?
  }

  lemma ReadLines(source: Text, first: int, rules: Rules, part: Part, line: int)
    requires Fits(part, |source|)
    ensures var read, exempts := Read(source, first, rules, part), Exempts(source, first, rules, part, line);
            && (line in read.reasons <==> exempts)
            && (line in read.standalone <==> ExemptsAlone(source, first, rules, part, line))
  {
  }

  lemma {:induction false} SummaryReasons(source: Text, first: int, rules: Rules, parts: seq<Part>, line: int)
    requires AllFit(parts, |source|)
    ensures line in Summary(source, first, rules, parts).reasons <==>
              exists i :: 0 <= i < |parts| && Exempts(source, first, rules, parts[i], line)
  {
    if parts != [] {
      var rest := parts[1..];
      ReadLines(source, first, rules, parts[0], line);
      SummaryReasons(source, first, rules, rest, line);
      assert forall i :: 0 <= i < |rest| ==> rest[i] == parts[i+1];
      if line in Summary(source, first, rules, rest).reasons {
        var i :| 0 <= i < |rest| && Exempts(source, first, rules, rest[i], line);
        assert Exempts(source, first, rules, parts[i+1], line);
      }
    }
  }

  /** The part is an exemption comment on this line that is said to stand alone. */
  ghost predicate ExemptsAlone(source: Text, first: int, rules: Rules, part: Part, line: int)
    requires Fits(part, |source|)
  {
    Exempts(source, first, rules, part, line) && SaidAlone(source, rules.chars, part.within, part.start)
  }

  lemma {:induction false} SummaryStandalone(source: Text, first: int, rules: Rules, parts: seq<Part>, line: int)
    requires AllFit(parts, |source|)
    ensures line in Summary(source, first, rules, parts).standalone <==>
              exists i :: 0 <= i < |parts| && ExemptsAlone(source, first, rules, parts[i], line)
  {
    if parts != [] {
      var rest := parts[1..];
      ReadLines(source, first, rules, parts[0], line);
      SummaryStandalone(source, first, rules, rest, line);
      assert forall i :: 0 <= i < |rest| ==> rest[i] == parts[i+1];
      if line in Summary(source, first, rules, rest).standalone {
        var i :| 0 <= i < |rest| && ExemptsAlone(source, first, rules, rest[i], line);
        assert ExemptsAlone(source, first, rules, parts[i+1], line);
      }
    }
  }

  /** On the line its interpolation opens on, with only blanks since the opening. */
  predicate OpensItsLine(source: Text, chars: CharTables, part: Part)
    requires Fits(part, |source|)
  {
    && LineStart(source[..part.start]) < part.within
    && forall k :: part.within <= k < part.start ==> chars.space(source[k])
  }

  /** A comment is said to stand alone if it does, and also, wrongly, right after an opening. */
  lemma SaidAloneExactly(source: Text, rules: Rules, part: Part)
    requires Sound(source, rules, part)
    ensures var alone, opens := Alone(source, rules.chars, part.start), OpensItsLine(source, rules.chars, part);
            && (SaidAlone(source, rules.chars, part.within, part.start) <==> alone || opens)
            && !(alone && opens)
  {
    var lineStart := LineStart(source[..part.start]);
    if lineStart < part.within {
      assert lineStart <= part.within - 1 < part.start && !rules.chars.space(source[part.within-1]);
    }
  }

  /** Exactly the lines of exemption comments are exempt; exactly those are said to stand alone whose
      comment has only blanks before it on its line, or is on the line its interpolation opens on with only
      blanks since the opening; and only of the latter is that untrue. */
  lemma StandaloneExactly(source: Text, first: int, rules: Rules, line: int)
    ensures var lexed, parts := LexFrom(source, first, rules, 0, NOTHING), PartsFrom(source, first, rules, 0, NOTHING);
            && (line in lexed.reasons <==>
                  exists i :: 0 <= i < |parts| && Exempts(source, first, rules, parts[i], line))
            && (line in lexed.standalone <==>
                  exists i :: 0 <= i < |parts| && Exempts(source, first, rules, parts[i], line)
                    && (Alone(source, rules.chars, parts[i].start) || OpensItsLine(source, rules.chars, parts[i])))
            && (forall i :: 0 <= i < |parts| && OpensItsLine(source, rules.chars, parts[i]) ==>
                  !Alone(source, rules.chars, parts[i].start))
  {
    var parts := PartsFrom(source, first, rules, 0, NOTHING);
    PartsTile(source, first, rules, 0, NOTHING);
    LexedIsSummary(source, first, rules, 0, NOTHING);
    JoinNothing(Summary(source, first, rules, parts));
    SummaryReasons(source, first, rules, parts, line);
    SummaryStandalone(source, first, rules, parts, line);
    forall i | 0 <= i < |parts|
      ensures var alone, opens :=
                Alone(source, rules.chars, parts[i].start), OpensItsLine(source, rules.chars, parts[i]);
              && (SaidAlone(source, rules.chars, parts[i].within, parts[i].start) <==> alone || opens)
              && !(alone && opens)
    {
      SaidAloneExactly(source, rules, parts[i]);
    }
  }

  /** An interpolation that opens with a comment. */
  const OPENS_WITH_COMMENT: Text := [BACKTICK, DOLLAR, OPEN, SLASH, SLASH]

  lemma OpensWithCommentTemplate()
    ensures TemplateFrom(OPENS_WITH_COMMENT, 1, false) == Template(5, [Span(3, 5)])
  {
    var source := OPENS_WITH_COMMENT;
    assert Find(source, LF, 5) == None;
    assert NestedEnd(source, 3) == Some(5);
    assert ExpressionEndFrom(source, 5, 1) == 5;
    assert ExpressionEndFrom(source, 3, 1) == 5;
    assert TemplateFrom(source, 5, false) == Template(5, []);
  }

  lemma CommentStandsAlone(first: int, rules: Rules, reason: Text)
    requires rules.exemption([SLASH, SLASH]) == Some(reason)
    ensures LexFrom([SLASH, SLASH], first, rules, 0, NOTHING) == Lexed([], map[first := reason], {first})
  {
    var source: Text := [SLASH, SLASH];
    assert Find(source, LF, 2) == None;
    assert SlashEnd(source, rules.chars, 0, []) == Some(2);
    assert source[0..2] == source && source[..0] == [];
    assert LineOf(source, first, 0) == first;
    assert Step(source, first, rules, 0, NOTHING) == Ahead(2, Lexed([], map[first := reason], {first}));
  }

  /** Such a source: its comment comes right after the opening, so its line is said to stand alone. */
  lemma OpeningCommentStandsAlone(first: int, rules: Rules, reason: Text)
    requires rules.exemption([SLASH, SLASH]) == Some(reason)
    ensures LexFrom(OPENS_WITH_COMMENT, first, rules, 0, NOTHING).standalone == {first}
    ensures !Alone(OPENS_WITH_COMMENT, rules.chars, 3)
  {
    var source := OPENS_WITH_COMMENT;
    Advance(source, 0);
    Advance(source, 1);
    Advance(source, 2);
    assert LineStart(source[..3]) <= 2 < 3 && !rules.chars.space(source[2]);
    OpensWithCommentTemplate();
    CommentStandsAlone(first, rules, reason);
    assert source[3..5] == [SLASH, SLASH] && LineOf(source, first, 3) == first;
    OneSpan(source, first, rules, Span(3, 5), NOTHING);
    assert Step(source, first, rules, 0, NOTHING).next == 5;
    assert Step(source, first, rules, 0, NOTHING).out.standalone == {first};
  }

  lemma OneSpan(source: Text, first: int, rules: Rules, span: Span, out: Lexed)
    requires 2 <= span.start <= span.end <= |source|
    ensures LexSpans(source, first, rules, [span], out) == out.Join(LexSpan(source, first, rules, span))
  {
    assert [span][1..] == [];
  }
}
