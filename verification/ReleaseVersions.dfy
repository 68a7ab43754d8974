/** The two release spellings and the identity they share (packaging/release_versions.py): PEP 440
    `X.Y.Z` or `X.Y.ZrcN`, and npm `X.Y.Z` or `X.Y.Z-rc.N` (items 2 and 9 of Semantic Versioning 2.0.0).
    Digits are the ASCII ones. */
module ReleaseVersions {
  import opened Common

  datatype Identity = Identity(major: nat, minor: nat, patch: nat, rc: Option<nat>)

  // ---- numerals ----

  predicate IsDigit(c: char) {
    '0' <= c <= '9'
  }

  function DigitValue(c: char): (v: nat)
    requires IsDigit(c)
    ensures v < 10
  {
    c as int - '0' as int
  }

  function DigitChar(d: nat): (c: char)
    requires d < 10
    ensures IsDigit(c) && DigitValue(c) == d
  {
    (d + '0' as int) as char
  }

  predicate AllDigits(s: string) {
    forall i :: 0 <= i < |s| ==> IsDigit(s[i])
  }

  /** The group `(0|[1-9]\d*)`. */
  predicate IsNumeral(s: string) {
    s != [] && AllDigits(s) && (s[0] == '0' ==> |s| == 1)
  }

  /** `int(s)`. */
  function Value(s: string): nat
    requires AllDigits(s)
  {
    if s == [] then 0 else Value(s[..|s|-1]) * 10 + DigitValue(s[|s|-1])
  }

  /** The decimal spelling of a number. */
  function Numeral(n: nat): string {
    if n < 10 then [DigitChar(n)] else Numeral(n / 10) + [DigitChar(n % 10)]
  }

  lemma {:induction false} NumeralIsCanonical(n: nat)
    ensures IsNumeral(Numeral(n)) && Value(Numeral(n)) == n
    ensures n > 0 ==> Numeral(n)[0] != '0'
    decreases n
  {
    if n < 10 {
      var s := Numeral(n);
      assert s[..0] == [];
      assert Value(s[..0]) == 0;
    } else {
      var s := Numeral(n);
      NumeralIsCanonical(n / 10);
      assert s[..|s|-1] == Numeral(n / 10);
    }
  }

  lemma {:induction false} NumeralSpellsValue(s: string)
    requires IsNumeral(s)
    ensures Numeral(Value(s)) == s
  {
    var n := |s| - 1;
    if n == 0 {
      assert s[..0] == [];
      assert s == [s[0]];
      DigitRoundTrip(s[0]);
    } else {
      var head := s[..n];
      NumeralSpellsValue(head);
      assert s == head + [s[n]];
      PositiveValue(head);
      DigitRoundTrip(s[n]);
      assert Value(s) == Value(head) * 10 + DigitValue(s[n]);
      assert Value(s) / 10 == Value(head) && Value(s) % 10 == DigitValue(s[n]);
    }
  }

  lemma DigitRoundTrip(c: char)
    requires IsDigit(c)
    ensures DigitChar(DigitValue(c)) == c
  {
  }

  lemma {:induction false} PositiveValue(s: string)
    requires s != [] && AllDigits(s) && s[0] != '0'
    ensures Value(s) > 0
  {
    if |s| > 1 {
      PositiveValue(s[..|s|-1]);
    } else {
      assert s[..0] == [];
    }
  }

  // ---- matching ----

  function DigitsAhead(s: string): (n: nat)
    ensures n <= |s| && AllDigits(s[..n]) && (n < |s| ==> !IsDigit(s[n]))
  {
    if s == [] || !IsDigit(s[0]) then 0
    else
      var rest := DigitsAhead(s[1..]);
      assert s[..1+rest] == [s[0]] + s[1..][..rest];
      1 + rest
  }

  datatype Match<T> = NoMatch | Match(value: T, rest: string)

  function MatchNumber(s: string): Match<nat> {
    var n := DigitsAhead(s);
    if IsNumeral(s[..n]) then Match(Value(s[..n]), s[n..]) else NoMatch
  }

  predicate StartsWith(s: string, prefix: string) {
    prefix <= s
  }

  function MatchDotNumber(s: string): Match<nat> {
    if s != [] && s[0] == '.' then MatchNumber(s[1..]) else NoMatch
  }

  /** The optional release-candidate group, which must end the string. */
  function MatchTail(s: string, marker: string): Option<Option<nat>> {
    if s == [] then Some(None)
    else if !StartsWith(s, marker) then None
    else
      match MatchNumber(s[|marker|..])
      case NoMatch => None
      case Match(n, rest) => if rest == [] then Some(Some(n)) else None
  }

  /** `fullmatch` of either pattern, and the identity of what it matched. */
  function Parse(raw: string, marker: string): Option<Identity> {
    match MatchNumber(raw)
    case NoMatch => None
    case Match(major, afterMajor) =>
      match MatchDotNumber(afterMajor)
      case NoMatch => None
      case Match(minor, afterMinor) =>
        match MatchDotNumber(afterMinor)
        case NoMatch => None
        case Match(patch, afterPatch) =>
          match MatchTail(afterPatch, marker)
          case None => None
          case Some(rc) => Some(Identity(major, minor, patch, rc))
  }

  const PYTHON := "rc"
  const NPM := "-rc."

  function PythonReleaseIdentity(raw: string): Option<Identity> {
    Parse(raw, PYTHON)
  }

  function NpmReleaseIdentity(raw: string): Option<Identity> {
    Parse(raw, NPM)
  }

  // ---- printing ----

  function PrintTail(rc: Option<nat>, marker: string): string {
    if rc.None? then "" else marker + Numeral(rc.value)
  }

  function Print(id: Identity, marker: string): string {
    Numeral(id.major) + ("." + (Numeral(id.minor) + ("." + (Numeral(id.patch) + PrintTail(id.rc, marker)))))
  }

  predicate EndsNumber(rest: string) {
    rest == [] || !IsDigit(rest[0])
  }

  lemma {:induction false} DigitsAheadOf(digits: string, rest: string)
    requires AllDigits(digits) && EndsNumber(rest)
    ensures DigitsAhead(digits + rest) == |digits|
  {
    if digits == [] {
      assert digits + rest == rest;
    } else {
      assert (digits + rest)[1..] == digits[1..] + rest;
      DigitsAheadOf(digits[1..], rest);
    }
  }

  /** Matching a number takes exactly its one spelling off the front. */
  lemma MatchNumberExactly(s: string, n: nat, rest: string)
    ensures MatchNumber(s) == Match(n, rest) <==> s == Numeral(n) + rest && EndsNumber(rest)
  {
    if s == Numeral(n) + rest && EndsNumber(rest) {
      NumeralIsCanonical(n);
      DigitsAheadOf(Numeral(n), rest);
      assert s[..|Numeral(n)|] == Numeral(n) && s[|Numeral(n)|..] == rest;
    }
    if MatchNumber(s) == Match(n, rest) {
      var k := DigitsAhead(s);
      NumeralSpellsValue(s[..k]);
      assert s == s[..k] + s[k..];
    }
  }

  lemma MatchDotNumberExactly(s: string, n: nat, rest: string)
    ensures MatchDotNumber(s) == Match(n, rest) <==> s == "." + (Numeral(n) + rest) && EndsNumber(rest)
  {
    if s != [] && s[0] == '.' {
      MatchNumberExactly(s[1..], n, rest);
      assert s == "." + s[1..];
      assert ("." + (Numeral(n) + rest))[1..] == Numeral(n) + rest;
    }
  }

  /** A marker that cannot be mistaken for more digits. */
  predicate IsMarker(marker: string) {
    marker != [] && !IsDigit(marker[0])
  }

  lemma MatchTailExactly(s: string, marker: string, rc: Option<nat>)
    requires IsMarker(marker)
    ensures MatchTail(s, marker) == Some(rc) <==> s == PrintTail(rc, marker)
  {
    if rc.Some? {
      var printed := marker + Numeral(rc.value);
      assert printed[|marker|..] == Numeral(rc.value) == Numeral(rc.value) + [];
      if s != [] && StartsWith(s, marker) {
        MatchNumberExactly(s[|marker|..], rc.value, []);
        assert s == marker + s[|marker|..];
      }
    }
  }

  /** Each grammar is canonical: a string parses to an identity exactly when it is that identity's one
      spelling.  So printing gives back the input, and equal identities mean equal spellings. */
  lemma ParseExactly(raw: string, marker: string, id: Identity)
    requires IsMarker(marker)
    ensures Parse(raw, marker) == Some(id) <==> raw == Print(id, marker)
  {
    var tail := PrintTail(id.rc, marker);
    var afterMinor := "." + (Numeral(id.patch) + tail);
    var afterMajor := "." + (Numeral(id.minor) + afterMinor);
    MatchNumberExactly(raw, id.major, afterMajor);
    MatchDotNumberExactly(afterMajor, id.minor, afterMinor);
    MatchDotNumberExactly(afterMinor, id.patch, tail);
    MatchTailExactly(tail, marker, id.rc);
    if Parse(raw, marker) == Some(id) {
      var r1 := MatchNumber(raw).rest;
      var r2 := MatchDotNumber(r1).rest;
      var r3 := MatchDotNumber(r2).rest;
      MatchNumberExactly(raw, id.major, r1);
      MatchDotNumberExactly(r1, id.minor, r2);
      MatchDotNumberExactly(r2, id.patch, r3);
      MatchTailExactly(r3, marker, id.rc);
    }
  }

  lemma SameIdentitySameSpelling(a: string, b: string, marker: string)
    requires IsMarker(marker) && Parse(a, marker).Some? && Parse(a, marker) == Parse(b, marker)
    ensures a == b
  {
    ParseExactly(a, marker, Parse(a, marker).value);
    ParseExactly(b, marker, Parse(b, marker).value);
  }

  /** `npm` is the npm spelling of the Python spelling `python`: the same text but for the marker. */
  ghost predicate Translation(python: string, npm: string) {
    exists stem, rc: Option<nat> :: Spelled(stem, rc, python, npm)
  }

  ghost predicate Spelled(stem: string, rc: Option<nat>, python: string, npm: string) {
    && IsStem(stem)
    && match rc
       case None => python == stem && npm == stem
       case Some(n) => python == stem + "rc" + Numeral(n) && npm == stem + "-rc." + Numeral(n)
  }

  lemma SpelledTails(stem: string, rc: Option<nat>, python: string, npm: string)
    ensures Spelled(stem, rc, python, npm) <==>
              IsStem(stem) && python == stem + PrintTail(rc, PYTHON) && npm == stem + PrintTail(rc, NPM)
  {
    assert stem + "" == stem;
    if rc.Some? {
      assert stem + "rc" + Numeral(rc.value) == stem + ("rc" + Numeral(rc.value));
      assert stem + "-rc." + Numeral(rc.value) == stem + ("-rc." + Numeral(rc.value));
    }
  }

  /** `X.Y.Z` in canonical numerals. */
  ghost predicate IsStem(stem: string) {
    exists major, minor, patch :: stem == Print(Identity(major, minor, patch, None), PYTHON)
  }

  lemma StemAndTail(id: Identity, marker: string)
    ensures Print(id, marker) == Print(id.(rc := None), PYTHON) + PrintTail(id.rc, marker)
  {
    var a, b, c, tail := Numeral(id.major), Numeral(id.minor), Numeral(id.patch), PrintTail(id.rc, marker);
    assert c + "" == c;
    assert a + ("." + (b + ("." + (c + tail)))) == a + ("." + (b + ("." + c))) + tail;
  }

  /** A Python and an npm version have the same identity exactly when one translates to the other. */
  lemma IdentitiesAgreeAcrossEcosystems(python: string, npm: string)
    ensures PythonReleaseIdentity(python).Some? && PythonReleaseIdentity(python) == NpmReleaseIdentity(npm)
            <==> Translation(python, npm)
  {
    if PythonReleaseIdentity(python).Some? && PythonReleaseIdentity(python) == NpmReleaseIdentity(npm) {
      var id := PythonReleaseIdentity(python).value;
      ParseExactly(python, PYTHON, id);
      ParseExactly(npm, NPM, id);
      StemAndTail(id, PYTHON);
      StemAndTail(id, NPM);
      assert IsStem(Print(id.(rc := None), PYTHON)) by {
        assert id.(rc := None) == Identity(id.major, id.minor, id.patch, None);
      }
      SpelledTails(Print(id.(rc := None), PYTHON), id.rc, python, npm);
    }
    if Translation(python, npm) {
      var stem, rc: Option<nat> :| Spelled(stem, rc, python, npm);
      SpelledTails(stem, rc, python, npm);
      var major, minor, patch :| stem == Print(Identity(major, minor, patch, None), PYTHON);
      var id := Identity(major, minor, patch, rc);
      StemAndTail(id, PYTHON);
      StemAndTail(id, NPM);
      ParseExactly(python, PYTHON, id);
      ParseExactly(npm, NPM, id);
    }
  }
}
