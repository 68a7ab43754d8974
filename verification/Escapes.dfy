/** JavaScript string escapes as the TypeScript scanner decodes them (scripts/check_test_isolation.py;
    a subset of section 12.9.4 of ECMA-262).  Text is a sequence of code points, since an escape may name
    a lone surrogate. */
module Escapes {
  import opened Common

  const MAX_CODE_POINT := 0x10FFFF
  type Rune = c: int | 0 <= c <= MAX_CODE_POINT
  type Text = seq<Rune>

  const BACKSLASH: Rune := 0x5C
  const LF: Rune := 0xA
  const CR: Rune := 0xD
  const OPEN: Rune := 0x7B    // left brace
  const CLOSE: Rune := 0x7D   // right brace
  const X: Rune := 0x78       // x, which begins a two-digit escape
  const U: Rune := 0x75       // u, which begins a Unicode escape

  // ---- hexadecimal ----

  /** 0-9, a-f or A-F. */
  predicate IsHex(c: Rune) {
    0x30 <= c <= 0x39 || 0x61 <= c <= 0x66 || 0x41 <= c <= 0x46
  }

  function HexDigit(c: Rune): (v: nat)
    requires IsHex(c)
    ensures v < 16
  {
    if c <= 0x39 then c - 0x30
    else if c <= 0x46 then c - 0x41 + 10
    else c - 0x61 + 10
  }

  predicate AllHex(digits: Text) {
    forall i :: 0 <= i < |digits| ==> IsHex(digits[i])
  }

  /** `int(digits, 16)`. */
  function FromHex(digits: Text): (v: nat)
    requires AllHex(digits)
    ensures |digits| <= 1 ==> v < 0x10
    ensures |digits| <= 2 ==> v < 0x100
    ensures |digits| <= 3 ==> v < 0x1000
    ensures |digits| <= 4 ==> v < 0x10000
  {
    if digits == [] then 0
    else FromHex(digits[..|digits|-1]) * 16 + HexDigit(digits[|digits|-1])
  }

  // ---- one escape ----

  datatype Decoded = Malformed | Decoded(value: Text, next: nat)

  function Find(raw: Text, c: Rune, from: nat): (at: Option<nat>)
    ensures at.Some? ==>
              && from <= at.value < |raw| && raw[at.value] == c
              && forall k :: from <= k < at.value ==> raw[k] != c
    ensures at.None? ==> forall k :: from <= k < |raw| ==> raw[k] != c
    decreases |raw| - from
  {
    if from >= |raw| then None else if raw[from] == c then Some(from) else Find(raw, c, from + 1)
  }

  function HexEscape(raw: Text, start: nat, length: nat): Decoded
    requires length <= 4
  {
    if start + length > |raw| || !AllHex(raw[start..start+length]) then Malformed
    else Decoded([FromHex(raw[start..start+length])], start + length)
  }

  function UnicodeEscape(raw: Text, start: nat): Decoded {
    if start >= |raw| || raw[start] != OPEN then HexEscape(raw, start, 4)
    else
      match Find(raw, CLOSE, start + 1)
      case None => Malformed
      case Some(end) =>
        var digits := raw[start+1..end];
        if !(1 <= |digits| <= 6) || !AllHex(digits) || FromHex(digits) > MAX_CODE_POINT then Malformed
        else Decoded([FromHex(digits)], end + 1)
  }

  /** What a backslash before any one character but `x`, `u` and the line ends stands for. */
  function SimpleValue(c: Rune): Rune {
    if c == 0x62 then 0x8          // b
    else if c == 0x66 then 0xC     // f
    else if c == 0x6E then 0xA     // n
    else if c == 0x72 then 0xD     // r
    else if c == 0x74 then 0x9     // t
    else if c == 0x76 then 0xB     // v
    else if c == 0x30 then 0x0     // 0
    else c
  }

  /** Decode the escape whose backslash is at `slash`. */
  function CookedEscape(raw: Text, slash: nat): (d: Decoded)
    ensures d.Decoded? ==> slash + 2 <= d.next <= |raw| && |d.value| <= 1
  {
    if slash + 1 >= |raw| then Malformed
    else
      var c := raw[slash+1];
      if c == LF then Decoded([], slash + 2)
      else if c == CR then
        Decoded([], if slash + 2 < |raw| && raw[slash+2] == LF then slash + 3 else slash + 2)
      else if c == X then HexEscape(raw, slash + 2, 2)
      else if c == U then UnicodeEscape(raw, slash + 2)
      else Decoded([SimpleValue(c)], slash + 2)
  }

  // ---- a whole body ----

  /** The value of the body from `at` on; None once an escape is malformed. */
  function ValueFrom(raw: Text, at: nat): Option<Text>
    requires at <= |raw|
    decreases |raw| - at
  {
    if at == |raw| then Some([])
    else if raw[at] != BACKSLASH then
      match ValueFrom(raw, at + 1)
      case None => None
      case Some(rest) => Some([raw[at]] + rest)
    else
      match CookedEscape(raw, at)
      case Malformed => None
      case Decoded(value, next) =>
        match ValueFrom(raw, next)
        case None => None
        case Some(rest) => Some(value + rest)
  }

  function Cooked(raw: Text): Text {
    ValueFrom(raw, 0).Or(raw)
  }

  lemma Associate(a: Text, b: Text, rest: Option<Text>)
    ensures rest.Some? ==> a + (b + rest.value) == a + b + rest.value
  {
  }

  /** `_typescript_cooked_string`. */
  method CookedString(raw: Text) returns (cooked: Text)
    ensures cooked == Cooked(raw)
  {
    cooked := [];
    var index := 0;
    assert ValueFrom(raw, 0).Some? ==> cooked + ValueFrom(raw, 0).value == ValueFrom(raw, 0).value;
    while index < |raw|
      invariant index <= |raw|
      invariant ValueFrom(raw, 0) ==
                match ValueFrom(raw, index) { case None => None case Some(rest) => Some(cooked + rest) }
      decreases |raw| - index
    {
      if raw[index] != BACKSLASH {
        Associate(cooked, [raw[index]], ValueFrom(raw, index + 1));
        cooked := cooked + [raw[index]];
        index := index + 1;
        continue;
      }
      var decoded := CookedEscape(raw, index);
      if decoded.Malformed? {
        return raw;
      }
      Associate(cooked, decoded.value, ValueFrom(raw, decoded.next));
      cooked := cooked + decoded.value;
      index := decoded.next;
    }
    assert cooked + [] == cooked;
  }

  // ---- writing numbers in hexadecimal ----

  function HexChar(digit: nat, upper: bool): Rune
    requires digit < 16
  {
    if digit < 10 then 0x30 + digit else if upper then 0x41 + (digit - 10) else 0x61 + (digit - 10)
  }

  /** How many numbers `width` digits can write. */
  function Capacity(width: nat): nat {
    if width == 0 then 1 else 16 * Capacity(width - 1)
  }

  /** `v` in `|upper|` digits, each letter among them in the case chosen for it. */
  function ToHex(v: nat, upper: seq<bool>): (digits: Text)
    ensures |digits| == |upper|
  {
    if upper == [] then [] else ToHex(v / 16, upper[..|upper|-1]) + [HexChar(v % 16, upper[|upper|-1])]
  }

  lemma HexCharReads(digit: nat, upper: bool)
    requires digit < 16
    ensures IsHex(HexChar(digit, upper)) && HexDigit(HexChar(digit, upper)) == digit
  {
  }

  lemma FromHexStep(digits: Text, last: Rune)
    requires AllHex(digits) && IsHex(last)
    ensures AllHex(digits + [last]) && FromHex(digits + [last]) == FromHex(digits) * 16 + HexDigit(last)
  {
    assert (digits + [last])[..|digits|] == digits;
  }

  /** What is written in hexadecimal reads back. */
  lemma {:induction false} ToHexReads(v: nat, upper: seq<bool>)
    requires v < Capacity(|upper|)
    ensures AllHex(ToHex(v, upper)) && FromHex(ToHex(v, upper)) == v
    decreases |upper|
  {
    if upper != [] {
      var n := |upper| - 1;
      ToHexReads(v / 16, upper[..n]);
      HexCharReads(v % 16, upper[n]);
      FromHexStep(ToHex(v / 16, upper[..n]), HexChar(v % 16, upper[n]));
    }
  }

  /** Which digits are capital letters. */
  function Cases(digits: Text): (upper: seq<bool>)
    ensures |upper| == |digits|
  {
    seq(|digits|, i requires 0 <= i < |digits| => 0x41 <= digits[i] <= 0x46)
  }

  lemma CasesStep(digits: Text)
    requires digits != []
    ensures Cases(digits)[..|digits|-1] == Cases(digits[..|digits|-1])
  {
  }

  lemma HexDigitWrites(c: Rune)
    requires IsHex(c)
    ensures HexChar(HexDigit(c), 0x41 <= c <= 0x46) == c
  {
  }

  /** What reads as hexadecimal is how its number is written, in some choice of cases. */
  lemma {:induction false} FromHexWrites(digits: Text)
    requires AllHex(digits)
    ensures FromHex(digits) < Capacity(|digits|) && ToHex(FromHex(digits), Cases(digits)) == digits
  {
    if digits != [] {
      var n := |digits| - 1;
      var v := FromHex(digits[..n]);
      FromHexWrites(digits[..n]);
      HexDigitWrites(digits[n]);
      CasesStep(digits);
      QuotientAndRemainder(v, HexDigit(digits[n]));
      assert digits == digits[..n] + [digits[n]];
    }
  }

  lemma QuotientAndRemainder(v: nat, digit: nat)
    requires digit < 16
    ensures (v * 16 + digit) / 16 == v && (v * 16 + digit) % 16 == digit
  {
  }

  // ---- spelling: the inverse of cooking ----

  /** The characters that have a letter (or 0) of their own, and that letter. */
  function LetterOf(c: Rune): Option<Rune> {
    if c == 0x08 then Some(0x62)        // backspace, b
    else if c == 0x0C then Some(0x66)   // form feed, f
    else if c == 0x0A then Some(0x6E)   // line feed, n
    else if c == 0x0D then Some(0x72)   // carriage return, r
    else if c == 0x09 then Some(0x74)   // tab, t
    else if c == 0x0B then Some(0x76)   // vertical tab, v
    else if c == 0x00 then Some(0x30)   // null, 0
    else None
  }

  /** One piece of a string body: a character in one of its spellings, or a line continuation.  A character
      stands for itself, except a backslash; or after a backslash it is named by its letter, stands for
      itself if that is no letter of another and nothing else follows such a letter, or is written in
      hexadecimal, with a case for every digit. */
  datatype Piece =
    | Plain(c: Rune)
    | Letter(c: Rune)
    | Itself(c: Rune)
    | Hex(c: Rune, upper: seq<bool>)
    | Unicode(c: Rune, upper: seq<bool>)
    | Braced(c: Rune, upper: seq<bool>)
    | ContinueLf
    | ContinueCr
    | ContinueCrLf
  {
    predicate Proper() {
      match this
      case Plain(c) => c != 0x5C
      case Letter(c) => LetterOf(c).Some?
      case Itself(c) => c !in {0x0A, 0x0D, 0x78, 0x75, 0x62, 0x66, 0x6E, 0x72, 0x74, 0x76, 0x30}
      case Hex(c, upper) => |upper| == 2 && c < 0x100
      case Unicode(c, upper) => |upper| == 4 && c < 0x10000
      case Braced(c, upper) => 1 <= |upper| <= 6 && c < Capacity(|upper|)
      case _ => true
    }

    function Spelling(): Text
      requires Proper()
    {
      match this
      case Plain(c) => [c]
      case Letter(c) => [0x5C, LetterOf(c).value]
      case Itself(c) => [0x5C, c]
      case Hex(c, upper) => [0x5C, 0x78] + ToHex(c, upper)
      case Unicode(c, upper) => [0x5C, 0x75] + ToHex(c, upper)
      case Braced(c, upper) => [0x5C, 0x75, 0x7B] + ToHex(c, upper) + [0x7D]
      case ContinueLf => [0x5C, 0x0A]
      case ContinueCr => [0x5C, 0x0D]
      case ContinueCrLf => [0x5C, 0x0D, 0x0A]
    }

    /** The character it stands for, if any. */
    function Value(): Text {
      if ContinueLf? || ContinueCr? || ContinueCrLf? then [] else [c]
    }

    /** Whether this piece keeps its meaning before `rest`: a carriage return takes a line feed with it. */
    predicate Before(rest: Text) {
      ContinueCr? ==> rest == [] || rest[0] != 0x0A
    }
  }

  predicate AllProper(pieces: seq<Piece>) {
    forall i :: 0 <= i < |pieces| ==> pieces[i].Proper()
  }

  function Spell(pieces: seq<Piece>): Text
    requires AllProper(pieces)
  {
    if pieces == [] then [] else pieces[0].Spelling() + Spell(pieces[1..])
  }

  predicate Proper(pieces: seq<Piece>) {
    AllProper(pieces) && (pieces != [] ==> pieces[0].Before(Spell(pieces[1..])) && Proper(pieces[1..]))
  }

  function Meaning(pieces: seq<Piece>): Text {
    if pieces == [] then [] else pieces[0].Value() + Meaning(pieces[1..])
  }

  /** `spelling` stands in the body at `at`. */
  ghost predicate Stands(raw: Text, at: nat, spelling: Text) {
    at + |spelling| <= |raw| && forall k :: 0 <= k < |spelling| ==> raw[at+k] == spelling[k]
  }

  lemma StandsAt(raw: Text, at: nat, spelling: Text, rest: Text)
    requires at <= |raw| && raw[at..] == spelling + rest
    ensures Stands(raw, at, spelling)
  {
    assert |raw| - at == |spelling| + |rest|;
    forall k | 0 <= k < |spelling|
      ensures raw[at+k] == spelling[k]
    {
      assert raw[at..][k] == (spelling + rest)[k];
    }
  }

  lemma Digits(raw: Text, start: nat, digits: Text)
    requires start + |digits| <= |raw| && forall k :: 0 <= k < |digits| ==> raw[start+k] == digits[k]
    ensures raw[start..start+|digits|] == digits
  {
  }

  lemma HexDecodes(raw: Text, at: nat, digits: Text)
    requires |digits| == 2 && AllHex(digits) && Stands(raw, at, [BACKSLASH, X] + digits)
    ensures CookedEscape(raw, at) == Decoded([FromHex(digits)], at + 4)
  {
    var spelling := [BACKSLASH, X] + digits;
    assert raw[at+1] == spelling[1];
    assert forall k :: 0 <= k < 2 ==> raw[at+2+k] == spelling[2+k] == digits[k];
    Digits(raw, at + 2, digits);
  }

  lemma UnicodeDecodes(raw: Text, at: nat, digits: Text)
    requires |digits| == 4 && AllHex(digits) && Stands(raw, at, [BACKSLASH, U] + digits)
    ensures CookedEscape(raw, at) == Decoded([FromHex(digits)], at + 6)
  {
    var spelling := [BACKSLASH, U] + digits;
    assert raw[at+1] == spelling[1];
    assert forall k :: 0 <= k < 4 ==> raw[at+2+k] == spelling[2+k] == digits[k];
    Digits(raw, at + 2, digits);
    assert raw[at+2+0] == digits[0];
  }

  lemma UnicodeEscapeAt(raw: Text, at: nat)
    requires at + 1 < |raw| && raw[at+1] == U
    ensures CookedEscape(raw, at) == UnicodeEscape(raw, at + 2)
  {
  }

  lemma HexDigitsDoNotClose(raw: Text, start: nat, end: nat)
    requires start <= end < |raw| && AllHex(raw[start..end]) && raw[end] == CLOSE
    ensures Find(raw, CLOSE, start) == Some(end)
  {
    forall k | start <= k < end
      ensures raw[k] != CLOSE
    {
      assert IsHex(raw[start..end][k-start]);
    }
  }

  lemma BracedEscape(raw: Text, open: nat, end: nat)
    requires open + 1 < end < |raw| && end - open <= 7 && raw[open] == OPEN && raw[end] == CLOSE
    requires AllHex(raw[open+1..end]) && FromHex(raw[open+1..end]) <= MAX_CODE_POINT
    ensures UnicodeEscape(raw, open) == Decoded([FromHex(raw[open+1..end])], end + 1)
  {
    HexDigitsDoNotClose(raw, open + 1, end);
  }

  lemma BracedStands(raw: Text, at: nat, digits: Text, rest: Text)
    requires at <= |raw| && raw[at..] == [BACKSLASH, U, OPEN] + digits + [CLOSE] + rest
    ensures var end := at + 3 + |digits|;
            && end < |raw| && raw[at+1] == U && raw[at+2] == OPEN && raw[end] == CLOSE
            && raw[at+3..end] == digits
  {
    var body := raw[at..];
    var end := at + 3 + |digits|;
    assert raw[at+1] == body[1] && raw[at+2] == body[2] && raw[end] == body[3+|digits|];
    assert body[3..3+|digits|] == digits;
    assert raw[at+3..end] == body[3..3+|digits|];
  }

  lemma BracedAt(raw: Text, at: nat, end: nat, digits: Text)
    requires at + 3 < end < |raw| && end - at <= 9 && raw[at+1] == U && raw[at+2] == OPEN && raw[end] == CLOSE
    requires raw[at+3..end] == digits && AllHex(digits) && FromHex(digits) <= MAX_CODE_POINT
    ensures CookedEscape(raw, at) == Decoded([FromHex(digits)], end + 1)
  {
    UnicodeEscapeAt(raw, at);
    BracedEscape(raw, at + 2, end);
  }

  lemma BracedDecodes(raw: Text, at: nat, digits: Text, rest: Text)
    requires 1 <= |digits| <= 6 && AllHex(digits) && FromHex(digits) <= MAX_CODE_POINT
    requires at <= |raw| && raw[at..] == [BACKSLASH, U, OPEN] + digits + [CLOSE] + rest
    ensures CookedEscape(raw, at) == Decoded([FromHex(digits)], at + 4 + |digits|)
  {
    BracedStands(raw, at, digits, rest);
    BracedAt(raw, at, at + 3 + |digits|, digits);
  }

  lemma ShortDecodes(raw: Text, at: nat, piece: Piece, rest: Text)
    requires piece.Proper() && piece.Before(rest) && !piece.Plain? && !piece.Hex? && !piece.Unicode? && !piece.Braced?
    requires at <= |raw| && raw[at..] == piece.Spelling() + rest
    ensures CookedEscape(raw, at) == Decoded(piece.Value(), at + |piece.Spelling()|)
  {
    StandsAt(raw, at, piece.Spelling(), rest);
    assert raw[at+1] == piece.Spelling()[1];
    if piece.ContinueCr? {
      assert at + 2 < |raw| ==> raw[at+2] == raw[at..][2] == rest[0];
    } else if piece.ContinueCrLf? {
      assert raw[at+2] == piece.Spelling()[2];
    }
  }

  lemma HexPieceDecodes(raw: Text, at: nat, c: Rune, upper: seq<bool>, rest: Text)
    requires Hex(c, upper).Proper() && at <= |raw| && raw[at..] == Hex(c, upper).Spelling() + rest
    ensures CookedEscape(raw, at) == Decoded([c], at + 4)
  {
    ToHexReads(c, upper);
    StandsAt(raw, at, [BACKSLASH, X] + ToHex(c, upper), rest);
    HexDecodes(raw, at, ToHex(c, upper));
  }

  lemma UnicodePieceDecodes(raw: Text, at: nat, c: Rune, upper: seq<bool>, rest: Text)
    requires Unicode(c, upper).Proper() && at <= |raw| && raw[at..] == Unicode(c, upper).Spelling() + rest
    ensures CookedEscape(raw, at) == Decoded([c], at + 6)
  {
    ToHexReads(c, upper);
    StandsAt(raw, at, [BACKSLASH, U] + ToHex(c, upper), rest);
    UnicodeDecodes(raw, at, ToHex(c, upper));
  }

  lemma BracedPieceDecodes(raw: Text, at: nat, c: Rune, upper: seq<bool>, rest: Text)
    requires Braced(c, upper).Proper() && at <= |raw| && raw[at..] == Braced(c, upper).Spelling() + rest
    ensures CookedEscape(raw, at) == Decoded([c], at + 4 + |upper|)
  {
    ToHexReads(c, upper);
    BracedDecodes(raw, at, ToHex(c, upper), rest);
  }

  /** Decoding one piece, wherever in a body it stands. */
  lemma PieceDecodes(raw: Text, at: nat, piece: Piece, rest: Text)
    requires piece.Proper() && piece.Before(rest) && !piece.Plain?
    requires at <= |raw| && raw[at..] == piece.Spelling() + rest
    ensures CookedEscape(raw, at) == Decoded(piece.Value(), at + |piece.Spelling()|)
  {
    match piece
    case Hex(c, upper) => HexPieceDecodes(raw, at, c, upper, rest);
    case Unicode(c, upper) => UnicodePieceDecodes(raw, at, c, upper, rest);
    case Braced(c, upper) => BracedPieceDecodes(raw, at, c, upper, rest);
    case _ => ShortDecodes(raw, at, piece, rest);
  }

  lemma AfterSpelling(raw: Text, at: nat, spelling: Text, rest: Text)
    requires at <= |raw| && spelling != [] && raw[at..] == spelling + rest
    ensures at + |spelling| <= |raw| && raw[at+|spelling|..] == rest && raw[at] == spelling[0]
    ensures raw[at..at+|spelling|] == spelling
  {
    assert raw[at..at+|spelling|] == raw[at..][..|spelling|];
    assert |raw| - at == |spelling| + |rest|;
    assert (spelling + rest)[|spelling|..] == rest;
    assert raw[at+|spelling|..] == raw[at..][|spelling|..];
    assert raw[at] == raw[at..][0];
  }

  lemma {:induction false} SpellingDecodes(raw: Text, at: nat, pieces: seq<Piece>)
    requires Proper(pieces) && at <= |raw| && raw[at..] == Spell(pieces)
    ensures Spells(raw, at, pieces)
    decreases |pieces|
  {
    if pieces != [] {
      assert pieces == [pieces[0]] + pieces[1..];
      FirstPieceDecodes(raw, at, pieces[0], Spell(pieces[1..]));
      var next := at + |pieces[0].Spelling()|;
      SpellingDecodes(raw, next, pieces[1..]);
      if pieces[0].Plain? {
        PlainFirst(raw, at, pieces[1..]);
      } else {
        EscapeFirst(raw, at, pieces[0], next, pieces[1..]);
      }
    }
  }

  lemma FirstPieceDecodes(raw: Text, at: nat, piece: Piece, rest: Text)
    requires piece.Proper() && piece.Before(rest) && at <= |raw| && raw[at..] == piece.Spelling() + rest
    ensures var next := at + |piece.Spelling()|;
            && at < next <= |raw| && raw[next..] == rest
            && if piece.Plain? then raw[at] == piece.c else raw[at] == BACKSLASH && Spelled(raw, at, piece, next)
  {
    AfterSpelling(raw, at, piece.Spelling(), rest);
    if !piece.Plain? {
      PieceDecodes(raw, at, piece, rest);
    }
  }

  /** Cooking inverts spelling: however each character is written, plainly, by its single-character
      escape, or in any hexadecimal form, and wherever lines are continued, the body means that text. */
  lemma CookingInvertsSpelling(pieces: seq<Piece>)
    requires Proper(pieces)
    ensures Cooked(Spell(pieces)) == Meaning(pieces)
  {
    assert Spell(pieces)[0..] == Spell(pieces);
    SpellingDecodes(Spell(pieces), 0, pieces);
  }

  /** `piece` is what the escape at `at` spells, up to `next`. */
  ghost predicate Spelled(raw: Text, at: nat, piece: Piece, next: nat) {
    && at < next <= |raw| && piece.Proper() && raw[at..next] == piece.Spelling() && piece.Before(raw[next..])
    && CookedEscape(raw, at) == Decoded(piece.Value(), next)
  }

  lemma Slice2(raw: Text, at: nat, next: nat)
    requires at + 2 <= next <= |raw|
    ensures raw[at..next] == [raw[at], raw[at+1]] + raw[at+2..next]
  {
  }

  lemma SliceBraced(raw: Text, at: nat, end: nat)
    requires at + 3 <= end < |raw|
    ensures raw[at..end+1] == [raw[at], raw[at+1], raw[at+2]] + raw[at+3..end] + [raw[end]]
  {
    assert raw[at..end+1] == raw[at..at+3] + raw[at+3..end] + raw[end..end+1];
  }

  lemma HexIsAPiece(raw: Text, at: nat) returns (piece: Piece)
    requires at < |raw| && raw[at] == BACKSLASH && CookedEscape(raw, at).Decoded? && raw[at+1] == X
    ensures Spelled(raw, at, piece, at + 4)
  {
    Slice2(raw, at, at + 4);
    FromHexWrites(raw[at+2..at+4]);
    return Hex(FromHex(raw[at+2..at+4]), Cases(raw[at+2..at+4]));
  }

  lemma UnicodeIsAPiece(raw: Text, at: nat) returns (piece: Piece)
    requires at < |raw| && raw[at] == BACKSLASH && CookedEscape(raw, at).Decoded?
    requires raw[at+1] == U && raw[at+2] != OPEN
    ensures Spelled(raw, at, piece, at + 6)
  {
    Slice2(raw, at, at + 6);
    FromHexWrites(raw[at+2..at+6]);
    return Unicode(FromHex(raw[at+2..at+6]), Cases(raw[at+2..at+6]));
  }

  lemma BracedIsAPiece(raw: Text, at: nat) returns (piece: Piece, next: nat)
    requires at < |raw| && raw[at] == BACKSLASH && CookedEscape(raw, at).Decoded?
    requires raw[at+1] == U && raw[at+2] == OPEN
    ensures Spelled(raw, at, piece, next)
  {
    var end := Find(raw, CLOSE, at + 3).value;
    next := end + 1;
    piece := Braced(FromHex(raw[at+3..end]), Cases(raw[at+3..end]));
    FromHexWrites(raw[at+3..end]);
    SliceBraced(raw, at, end);
  }

  lemma ShortIsAPiece(raw: Text, at: nat) returns (piece: Piece, next: nat)
    requires at < |raw| && raw[at] == BACKSLASH && CookedEscape(raw, at).Decoded?
    requires raw[at+1] != X && raw[at+1] != U
    ensures Spelled(raw, at, piece, next)
  {
    var c := raw[at+1];
    next := at + 2;
    assert raw[at..at+2] == [raw[at], c];
    if c == LF {
      piece := ContinueLf;
    } else if c == CR && at + 2 < |raw| && raw[at+2] == LF {
      piece, next := ContinueCrLf, at + 3;
      assert raw[at..at+3] == [raw[at], c, raw[at+2]];
    } else if c == CR {
      piece := ContinueCr;
    } else {
      piece := if LetterOf(SimpleValue(c)) == Some(c) then Letter(SimpleValue(c)) else Itself(c);
    }
  }

  lemma EscapeIsAPiece(raw: Text, at: nat) returns (piece: Piece, next: nat)
    requires at < |raw| && raw[at] == BACKSLASH && CookedEscape(raw, at).Decoded?
    ensures Spelled(raw, at, piece, next)
  {
    if raw[at+1] == X {
      piece := HexIsAPiece(raw, at);
      next := at + 4;
    } else if raw[at+1] != U {
      piece, next := ShortIsAPiece(raw, at);
    } else if raw[at+2] == OPEN {
      piece, next := BracedIsAPiece(raw, at);
    } else {
      piece := UnicodeIsAPiece(raw, at);
      next := at + 6;
    }
  }

  lemma ConsPiece(piece: Piece, rest: seq<Piece>)
    requires Proper(rest) && piece.Proper() && piece.Before(Spell(rest))
    ensures AllProper([piece] + rest) && Proper([piece] + rest)
    ensures Spell([piece] + rest) == piece.Spelling() + Spell(rest)
    ensures Meaning([piece] + rest) == piece.Value() + Meaning(rest)
  {
    assert ([piece] + rest)[1..] == rest;
  }

  lemma SplitAt(raw: Text, at: nat, next: nat)
    requires at <= next <= |raw|
    ensures raw[at..] == raw[at..next] + raw[next..]
  {
  }

  /** `pieces` spell the body from `at` on, and mean what it cooks to. */
  ghost predicate Spells(raw: Text, at: nat, pieces: seq<Piece>)
    requires at <= |raw|
  {
    Proper(pieces) && Spell(pieces) == raw[at..] && ValueFrom(raw, at) == Some(Meaning(pieces))
  }

  lemma PlainFirst(raw: Text, at: nat, rest: seq<Piece>)
    requires at < |raw| && raw[at] != BACKSLASH && Spells(raw, at + 1, rest)
    ensures Spells(raw, at, [Plain(raw[at])] + rest)
  {
    ConsPiece(Plain(raw[at]), rest);
    SplitAt(raw, at, at + 1);
    assert raw[at..at+1] == [raw[at]];
  }

  lemma EscapeFirst(raw: Text, at: nat, piece: Piece, next: nat, rest: seq<Piece>)
    requires at < |raw| && raw[at] == BACKSLASH && Spelled(raw, at, piece, next) && Spells(raw, next, rest)
    ensures Spells(raw, at, [piece] + rest)
  {
    ConsPiece(piece, rest);
    SplitAt(raw, at, next);
  }

  lemma {:induction false} DecodedIsSpelled(raw: Text, at: nat) returns (pieces: seq<Piece>)
    requires at <= |raw| && ValueFrom(raw, at).Some?
    ensures Spells(raw, at, pieces)
    decreases |raw| - at
  {
    if at == |raw| {
      return [];
    }
    if raw[at] != BACKSLASH {
      var rest := DecodedIsSpelled(raw, at + 1);
      PlainFirst(raw, at, rest);
      return [Plain(raw[at])] + rest;
    }
    var piece, next := EscapeIsAPiece(raw, at);
    var rest := DecodedIsSpelled(raw, next);
    EscapeFirst(raw, at, piece, next, rest);
    return [piece] + rest;
  }

  /** `pieces` spell the whole body. */
  ghost predicate SpellBody(pieces: seq<Piece>, raw: Text) {
    Proper(pieces) && Spell(pieces) == raw
  }

  /** The decoder accepts exactly the bodies that spell something; any other body, one malformed escape
      being enough, is returned unchanged. */
  lemma CookedExactly(raw: Text)
    ensures ValueFrom(raw, 0).Some? <==> exists pieces :: SpellBody(pieces, raw)
    ensures forall pieces :: SpellBody(pieces, raw) ==> Cooked(raw) == Meaning(pieces)
    ensures (!exists pieces :: SpellBody(pieces, raw)) ==> Cooked(raw) == raw
  {
    assert raw[0..] == raw;
    if ValueFrom(raw, 0).Some? {
      var pieces := DecodedIsSpelled(raw, 0);
      assert SpellBody(pieces, raw);
    }
    forall pieces | SpellBody(pieces, raw)
      ensures ValueFrom(raw, 0) == Some(Meaning(pieces))
    {
      SpellingDecodes(raw, 0, pieces);
    }
  }
}
