/** Which line a position is on, and the line state the TypeScript scanner carries along. */
module LineTracking {
  import opened Escapes

  /** Newlines in `text`. */
  function Newlines(text: Text): nat {
    if text == [] then 0
    else Newlines(text[..|text|-1]) + if text[|text|-1] == LF then 1 else 0
  }

  /** Where the line that `text` ends in begins. */
  function LineStart(text: Text): (start: nat)
    ensures start <= |text|
  {
    if text == [] then 0
    else if text[|text|-1] == LF then |text|
    else LineStart(text[..|text|-1])
  }

  /** The line of position `at`, when the source's first line is `first`. */
  function LineOf(source: Text, first: int, at: nat): int
    requires at <= |source|
  {
    first + Newlines(source[..at])
  }

  /** `line` and `lineStart` are what they should be at `index`. */
  predicate At(source: Text, first: int, index: nat, line: int, lineStart: nat) {
    index <= |source| && line == LineOf(source, first, index) && lineStart == LineStart(source[..index])
  }

  lemma Advance(source: Text, at: nat)
    requires at < |source|
    ensures Newlines(source[..at+1]) == Newlines(source[..at]) + if source[at] == LF then 1 else 0
    ensures LineStart(source[..at+1]) == if source[at] == LF then at + 1 else LineStart(source[..at])
  {
    assert source[..at+1][..at] == source[..at];
  }

  lemma AtNext(source: Text, first: int, at: nat, line: int, lineStart: nat)
    requires at < |source| && At(source, first, at, line, lineStart)
    ensures if source[at] == LF then At(source, first, at + 1, line + 1, at + 1)
            else At(source, first, at + 1, line, lineStart)
  {
    Advance(source, at);
  }

  lemma {:induction false} NewlinesConcat(a: Text, b: Text)
    ensures Newlines(a + b) == Newlines(a) + Newlines(b)
  {
    if b == [] {
      assert a + b == a;
    } else {
      assert (a + b)[..|a+b|-1] == a + b[..|b|-1];
      NewlinesConcat(a, b[..|b|-1]);
    }
  }

  ghost predicate OneLine(source: Text, lo: nat, hi: nat)
    requires hi <= |source|
  {
    forall k :: lo <= k < hi ==> source[k] != LF
  }

  /** Moving within a line changes neither the line nor where it starts. */
  lemma {:induction false} SameLine(source: Text, first: int, lo: nat, hi: nat, line: int, lineStart: nat)
    requires lo <= hi <= |source| && At(source, first, lo, line, lineStart)
    requires OneLine(source, lo, hi)
    ensures At(source, first, hi, line, lineStart)
    decreases hi
  {
    if lo < hi {
      SameLine(source, first, lo, hi - 1, line, lineStart);
      Advance(source, hi - 1);
    }
  }

  /** No newline lies between a line's start and a position on it. */
  lemma {:induction false} LineStartIsOnLine(text: Text)
    ensures forall k :: LineStart(text) <= k < |text| ==> text[k] != LF
    ensures LineStart(text) > 0 ==> text[LineStart(text)-1] == LF
    ensures Newlines(text[..LineStart(text)]) == Newlines(text)
  {
    if text != [] {
      if text[|text|-1] == LF {
        assert text[..|text|] == text;
      } else {
        var shorter := text[..|text|-1];
        LineStartIsOnLine(shorter);
        assert text[..LineStart(text)] == shorter[..LineStart(text)];
      }
    }
  }

  /** A position inside a slice has the line of that position in the whole. */
  lemma LineInSlice(source: Text, first: int, start: nat, end: nat, at: nat)
    requires start <= end <= |source| && at <= end - start
    ensures LineOf(source[start..end], LineOf(source, first, start), at) == LineOf(source, first, start + at)
  {
    assert source[..start+at] == source[..start] + source[start..end][..at];
    NewlinesConcat(source[..start], source[start..end][..at]);
  }
}
