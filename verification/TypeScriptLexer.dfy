/** The TypeScript lexer of the timer rule (`_TypeScriptLexer`, scripts/check_test_isolation.py): it carries
    its line state along and lexes each template interpolation with a lexer of its own, to any depth, and
    finds exactly what the reference lexer finds. */
module TypeScriptLexer {
  import opened Common
  import opened Escapes
  import opened LineTracking
  import opened TypeScriptReference
  import opened TypeScriptSkips

  class Lexer {
    const source: Text
    const first: int
    const chars: CharTables
    const exemption: Text -> Option<Text>   // the reason an exemption comment gives, stripped
    var index: nat
    var line: int
    var lineStart: nat
    var tokens: seq<Token>
    var reasons: map<int, Text>
    var standalone: set<int>

    function Reading(): Rules {
      Rules(chars, exemption, Cooked)
    }

    ghost predicate Valid()
      reads this
    {
      At(source, first, index, line, lineStart)
    }

    ghost function Found(): Lexed
      reads this
    {
      Lexed(tokens, reasons, standalone)
    }

    /** What the reference lexer still makes of the rest. */
    ghost function Outcome(): Lexed
      reads this
      requires Valid()
    {
      LexFrom(source, first, Reading(), index, Found())
    }

    /** Where the reference lexer's next step leads. */
    ghost function Next(): Ahead
      reads this
      requires Valid() && index < |source|
    {
      Step(source, first, Reading(), index, Found())
    }

    constructor (source: Text, startLine: int, chars: CharTables, exemption: Text -> Option<Text>)
      ensures Valid() && index == 0 && Found() == NOTHING
      ensures this.source == source && first == startLine && this.chars == chars && this.exemption == exemption
    {
      this.source, first, this.chars, this.exemption := source, startLine, chars, exemption;
      index, line, lineStart, tokens, reasons, standalone := 0, startLine, 0, [], map[], {};
    }

    /** `scan`: consumes the whole source, as the reference lexer does. */
    method Scan()
      requires Valid()
      modifies this
      ensures Valid() && index == |source| && Found() == old(Outcome())
      decreases |source|, 3
    {
      while index < |source|
        invariant Valid() && Outcome() == old(Outcome())
        decreases |source| - index
      {
        var c := source[index];
        LexStep(source, first, Reading(), index, Found());
        if c == LF {
          Newline();
        } else if chars.space(c) {
          Blank();
        } else {
          var taken := Slash();
          if taken {
            continue;
          } else if c == QUOTE || c == DOUBLE {
            Quoted(c);
          } else if c == BACKTICK {
            Template();
          } else if Reading().Starts(c) {
            Identifier();
          } else {
            Punctuation();
          }
        }
      }
    }

    method Newline()
      requires Valid() && index < |source| && source[index] == LF
      modifies this
      ensures Valid() && index == old(index) + 1 && Found() == old(Found())
      ensures Ahead(index, Found()) == old(Next())
    {
      Advance(source, index);
      line := line + 1;
      index := index + 1;
      lineStart := index;
    }

    method Blank()
      requires Valid() && index < |source| && source[index] != LF && chars.space(source[index])
      modifies this`index
      ensures Valid() && index == old(index) + 1
      ensures Ahead(index, Found()) == old(Next())
    {
      Advance(source, index);
      index := index + 1;
    }

    /** Nothing above claims the character here. */
    ghost predicate Ordinary()
      reads this
      requires Valid() && index < |source|
    {
      && source[index] !in {LF, QUOTE, DOUBLE, BACKTICK} && !chars.space(source[index])
      && SlashEnd(source, chars, index, tokens).None?
    }

    method Punctuation()
      requires Valid() && index < |source| && Ordinary() && !Reading().Starts(source[index])
      modifies this`tokens, this`index
      ensures Valid() && index == old(index) + 1
      ensures tokens == old(tokens) + [Token([source[old(index)]], line, false)]
      ensures Ahead(index, Found()) == old(Next())
    {
      Advance(source, index);
      assert source[index..index+1] == [source[index]];
      tokens := tokens + [Token([source[index]], line, false)];
      index := index + 1;
    }

    /** Consume the comment or regex that begins here, if this slash begins one. */
    method Slash() returns (taken: bool)
      requires Valid() && index < |source| && source[index] != LF && !chars.space(source[index])
      modifies this
      ensures Valid() && tokens == old(tokens)
      ensures taken <==> SlashEnd(source, chars, old(index), tokens).Some?
      ensures if taken then Ahead(index, Found()) == old(Next()) else unchanged(this)
    {
      if source[index] != SLASH {
        return false;
      }
      var following := if index + 1 < |source| then Some(source[index+1]) else None;
      if following == Some(SLASH) {
        LineComment();
      } else if following == Some(STAR) {
        index, line, lineStart := SkipBlockComment(source, index, line, lineStart, first);
      } else if RegexCanStart(tokens) {
        index, line, lineStart := SkipRegex(source, index, line, lineStart, chars, first);
      } else {
        return false;
      }
      return true;
    }

    method LineComment()
      requires Valid() && LineCommentAt(source, index)
      modifies this`index, this`reasons, this`standalone
      ensures Valid() && index == Find(source, LF, old(index) + 2).Or(|source|)
      ensures Found() == WithComment(source, first, Reading(), old(index), index, old(Found()))
    {
      var end := Find(source, LF, index + 2).Or(|source|);
      var reason := exemption(source[index..end]);
      if reason.Some? {
        reasons := reasons[line := reason.value];
        if forall k :: lineStart <= k < index ==> chars.space(source[k]) {
          standalone := standalone + {line};
        }
      }
      SameLine(source, first, index, end, line, lineStart);
      index := end;
    }

    /** Lex every interpolation of the template that begins here; the template's own text is data. */
    method Template()
      requires Valid() && index < |source| && source[index] == BACKTICK
      modifies this
      ensures Valid() && index > old(index)
      ensures Ahead(index, Found()) == old(Next())
      decreases |source|, 2
    {
      var end, endLine, endLineStart, expressions := TemplateExpressions(source, index, line, lineStart, first);
      InterpolateAll(expressions, TemplateFrom(source, index + 1, false).spans);
      index, line, lineStart := end, endLine, endLineStart;
    }

    method InterpolateAll(expressions: seq<Interpolation>, ghost spans: seq<Span>)
      requires Inside(spans, 0, |source|) && expressions == Interpolations(source, first, spans)
      modifies this`tokens, this`reasons, this`standalone
      ensures Found() == LexSpans(source, first, Reading(), spans, old(Found()))
      decreases |source|, 1
    {
      ghost var rest := spans;
      for k := 0 to |expressions|
        invariant Inside(rest, 0, |source|) && expressions[k..] == Interpolations(source, first, rest)
        invariant LexSpans(source, first, Reading(), rest, Found())
               == LexSpans(source, first, Reading(), spans, old(Found()))
      {
        assert expressions[k] == expressions[k..][0] && expressions[k+1..] == expressions[k..][1..];
        Interpolate(expressions[k], rest[0]);
        rest := rest[1..];
      }
    }

    /** Lex one interpolation with a lexer of its own and take over what it found. */
    method Interpolate(expression: Interpolation, ghost span: Span)
      requires 2 <= span.start <= span.end <= |source|
      requires expression == Interpolation(source[span.start..span.end], LineOf(source, first, span.start))
      modifies this`tokens, this`reasons, this`standalone
      ensures Found() == old(Found()).Join(LexSpan(source, first, Reading(), span))
      decreases |source|, 0
    {
      var inner := new Lexer(expression.text, expression.line, chars, exemption);
      inner.Scan();
      tokens := tokens + inner.tokens;
      reasons := reasons + inner.reasons;
      standalone := standalone + inner.standalone;
    }

    method Identifier()
      requires Valid() && index < |source| && Ordinary() && Reading().Starts(source[index])
      modifies this`tokens, this`index
      ensures Valid() && index == RunEnd(source, old(index) + 1, Reading().Continues)
      ensures tokens == old(tokens) + [Token(source[old(index)..index], line, false)]
      ensures Ahead(index, Found()) == old(Next())
    {
      var end := index + 1;
      while end < |source| && (chars.alnum(source[end]) || source[end] == UNDERSCORE || source[end] == DOLLAR)
        invariant index < end <= |source|
        invariant RunEnd(source, end, Reading().Continues) == RunEnd(source, index + 1, Reading().Continues)
      {
        end := end + 1;
      }
      SameLine(source, first, index, end, line, lineStart);
      tokens := tokens + [Token(source[index..end], line, false)];
      index := end;
    }

    /** Record a quoted literal as one token, without scanning its contents. */
    method Quoted(quote: Rune)
      requires Valid() && index < |source| && source[index] == quote && quote in {QUOTE, DOUBLE}
      modifies this
      ensures Valid() && index == QuotedEnd(source, old(index) + 1, quote, false) > old(index)
      ensures Found() == old(Found()).Add(Token(Cooked(BodyTo(source, old(index), index)), old(line), true))
      ensures Ahead(index, Found()) == old(Next())
    {
      var startLine := line;
      var cooked;
      index, line, lineStart, cooked := QuotedLiteral(source, index, line, lineStart, quote, first);
      tokens := tokens + [Token(cooked, startLine, true)];
    }
  }

  lemma LexStep(source: Text, first: int, rules: Rules, at: nat, out: Lexed)
    requires at < |source|
    ensures var s := Step(source, first, rules, at, out);
            LexFrom(source, first, rules, at, out) == LexFrom(source, first, rules, s.next, s.out)
  {
  }

  /** Step over the literal at `start` and cook its body. */
  method QuotedLiteral(source: Text, start: nat, line: int, lineStart: nat, quote: Rune, ghost first: int)
    returns (index': nat, line': int, lineStart': nat, cooked: Text)
    requires At(source, first, start, line, lineStart) && start < |source|
    requires source[start] == quote && quote in {QUOTE, DOUBLE}
    ensures start < index' <= |source| && At(source, first, index', line', lineStart')
    ensures index' == QuotedEnd(source, start + 1, quote, false) && cooked == Cooked(BodyTo(source, start, index'))
  {
    index', line', lineStart' := SkipQuoted(source, start, line, lineStart, quote, first);
    var closed := source[index'-1] == quote;
    var end := if closed then index' - 1 else index';
    var raw := if start + 1 <= end then source[start+1..end] else [];
    cooked := CookedString(raw);
  }

  /** `_typescript_tokens`: the lexer with its carried line state gives exactly what the reference lexer,
      which counts every line afresh, gives; so each token is on its line. */
  method TypeScriptTokens(source: Text, startLine: int, chars: CharTables, exemption: Text -> Option<Text>)
    returns (tokens: seq<Token>, reasons: map<int, Text>, standalone: set<int>)
    ensures var rules := Rules(chars, exemption, Cooked);
            && Lexed(tokens, reasons, standalone) == LexFrom(source, startLine, rules, 0, NOTHING)
            && exists positions :: TokensAt(source, startLine, rules, tokens, positions, 0, |source|)
  {
    var lexer := new Lexer(source, startLine, chars, exemption);
    lexer.Scan();
    EveryTokenIsOnItsLine(source, startLine, Rules(chars, exemption, Cooked));
    return lexer.tokens, lexer.reasons, lexer.standalone;
  }

  // ---- the body of a literal that is never closed ----

  /** The body a quoted token takes. */
  function RawBody(source: Text, start: nat): Text
    requires start < |source|
  {
    BodyTo(source, start, QuotedEnd(source, start + 1, source[start], false))
  }

  /** The text between the quotes, or up to the end of the source when nothing closes the literal. */
  ghost function Body(source: Text, start: nat): Text
    requires start < |source|
  {
    var quote, end := source[start], QuotedEnd(source, start + 1, source[start], false);
    if Closes(source, start + 1, quote) && start + 2 <= end then source[start+1..end-1] else source[start+1..end]
  }

  lemma ClosedEnd(source: Text, start: nat)
    requires start < |source| && source[start] != BACKSLASH
    ensures var quote, end := source[start], QuotedEnd(source, start + 1, source[start], false);
            if Closes(source, start + 1, quote) then start + 2 <= end && source[end-1] == quote else end == |source|
  {
    var quote, end := source[start], QuotedEnd(source, start + 1, source[start], false);
    QuotedEndIsPastQuote(source, start + 1, quote, start + 1);
    if Closes(source, start + 1, quote) {
      var k :| Closing(source, start + 1, quote, k);
      assert Closing(source, start + 1, quote, end - 1);
    }
  }

  /** A quoted token cooks the literal's own body exactly unless the literal is never closed and the
      source ends in an (escaped) quote after it, which is then taken for the closing one. */
  lemma RawBodyIsBody(source: Text, start: nat)
    requires start < |source| && source[start] != BACKSLASH
    ensures RawBody(source, start) == Body(source, start) <==>
              || Closes(source, start + 1, source[start])
              || start + 1 == |source|
              || source[|source|-1] != source[start]
  {
    ClosedEnd(source, start);
    var quote := source[start];
    if !Closes(source, start + 1, quote) && start + 1 < |source| && source[|source|-1] == quote {
      assert |RawBody(source, start)| == |Body(source, start)| - 1;
    }
  }

  /** Such a source: a quote, a backslash, a quote. */
  lemma UnclosedBodyLosesItsQuote()
    ensures RawBody([QUOTE, BACKSLASH, QUOTE], 0) != Body([QUOTE, BACKSLASH, QUOTE], 0)
  {
    var source: Text := [QUOTE, BACKSLASH, QUOTE];
    EscapedStep(source, 1, 1);
    assert |source| == 3 && source[1] == BACKSLASH;
    assert !Closing(source, 1, QUOTE, 1) && !Closing(source, 1, QUOTE, 2);
    assert forall k: nat :: Closing(source, 1, QUOTE, k) ==> k == 1 || k == 2;
    RawBodyIsBody(source, 0);
  }
}
