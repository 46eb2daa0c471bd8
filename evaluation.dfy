/**
  The grading primitives of the evaluation script: text normalisation,
  extraction of the first number literal, grading of one prediction, and the
  counting loop that scores an agent over a data set.
*/
module Evaluation {
  import opened TextPrims

  // ---------------------------------------------------------------------------
  // normalize_text
  // ---------------------------------------------------------------------------

  /** `normalize_text(s)`: None is read as "", then the text is lower-cased,
      trimmed, and its words are joined by single spaces. The result is
      lower-case, trimmed and single-spaced, it is empty exactly when the
      input is None or blank, and it has the same words as the lower-cased
      input. */
  function NormalizeText(s: Option<string>): (r: string)
    ensures IsTrimmed(r) && SingleSpaced(r) && IsLowerCase(r)
    ensures r == [] <==> s.None? || IsBlank(s.value)
    ensures Words(r) == Words(Lower(if s.None? then "" else s.value))
  {
    var t := if s.None? then "" else s.value;
    NormalizedShape(t);
    NormalizedEmpty(t);
    NormalizedLowerCase(t);
    WordsOfStrip(Lower(t));
    WordsOfJoin(Words(Strip(Lower(t))));
    JoinSpace(Words(Strip(Lower(t))))
  }

  /** The joined words of the trimmed, lower-cased text are trimmed and
      single-spaced. */
  lemma NormalizedShape(t: string)
    ensures var r := JoinSpace(Words(Strip(Lower(t))));
      IsTrimmed(r) && SingleSpaced(r)
  {
    JoinSpaceShape(Words(Strip(Lower(t))));
  }

  /** The joined words are empty exactly when the text is blank. */
  lemma NormalizedEmpty(t: string)
    ensures JoinSpace(Words(Strip(Lower(t)))) == [] <==> IsBlank(t)
  {
    var low := Lower(t);
    var stripped := Strip(low);
    var ws := Words(stripped);
    LowerKeepsBlank(t);
    assert IsBlank(stripped) <==> IsBlank(low);
    assert ws == [] <==> IsBlank(stripped);
    JoinSpaceShape(ws);
    WordsOfJoin(ws);
  }

  /** The joined words of the lower-cased text hold no upper-case letter. */
  lemma NormalizedLowerCase(t: string)
    ensures IsLowerCase(JoinSpace(Words(Strip(Lower(t)))))
  {
    var stripped := Strip(Lower(t));
    assert IsLowerCase(stripped) by {
      LowerIsLowerCase(t);
      StripKeepsChars(Lower(t));
    }
    JoinedWordsLowerCase(stripped);
  }

  /** Splitting a lower-case text and joining its words again keeps it
      lower-case. */
  lemma JoinedWordsLowerCase(s: string)
    requires IsLowerCase(s)
    ensures IsLowerCase(JoinSpace(Words(s)))
  {
    var ws := Words(s);
    WordsOfLowerCase(s);
    assert forall k, c :: 0 <= k < |ws| && c in ws[k] ==> !IsUpper(c) by {
      forall k, c | 0 <= k < |ws| && c in ws[k]
        ensures !IsUpper(c)
      {
        assert IsLowerCase(ws[k]);
      }
    }
    JoinSpaceChars(ws, c => !IsUpper(c));
  }

  /** Lower-casing neither creates nor removes whitespace. */
  lemma LowerKeepsBlank(t: string)
    ensures IsBlank(Lower(t)) <==> IsBlank(t)
  {
    if IsBlank(Lower(t)) {
      forall k | 0 <= k < |t| ensures IsSpace(t[k]) {
        assert IsSpace(Lower(t)[k]);
      }
    }
  }

  /** Normalising twice is normalising once. */
  lemma NormalizeIdempotent(s: Option<string>)
    ensures NormalizeText(Some(NormalizeText(s))) == NormalizeText(s)
  {
    var r := NormalizeText(s);
    var t := if s.None? then "" else s.value;
    LowerOfLowerCase(r);
    WordsOfStrip(Lower(t));
    WordsOfLowerCaseJoin(s);
    assert Strip(Lower(r)) == r;
    WordsOfJoin(Words(r));
  }

  /** The normalised text is the join of its own words. */
  lemma WordsOfLowerCaseJoin(s: Option<string>)
    ensures JoinSpace(Words(NormalizeText(s))) == NormalizeText(s)
  {
    var t := if s.None? then "" else s.value;
    var ws := Words(Strip(Lower(t)));
    WordsOfJoin(ws);
  }

  /** Reference definition: normalising is joining the words of the
      lower-cased text with single spaces (the `strip` step is subsumed). */
  lemma NormalizeIsJoinedWords(s: string)
    ensures NormalizeText(Some(s)) == JoinSpace(Words(Lower(s)))
  {
    WordsOfStrip(Lower(s));
  }

  // ---------------------------------------------------------------------------
  // extract_number: `re.search(r"[-+]?\d+(\.\d+)?", s)`
  // ---------------------------------------------------------------------------

  predicate IsDigit(c: char)
  {
    '0' <= c <= '9'
  }

  predicate IsSign(c: char)
  {
    c == '+' || c == '-'
  }

  predicate HasDigit(s: string)
  {
    exists k :: 0 <= k < |s| && IsDigit(s[k])
  }

  /** The pattern can match starting at position p: a digit, or a sign
      immediately followed by a digit. */
  predicate MatchStartsAt(s: string, p: int)
  {
    0 <= p < |s| && (IsDigit(s[p]) || (IsSign(s[p]) && p + 1 < |s| && IsDigit(s[p + 1])))
  }

  /** A '.' at i followed by at least one digit: the optional fraction group
      matches there. */
  predicate FractionAt(s: string, i: int)
  {
    0 <= i && i + 1 < |s| && s[i] == '.' && IsDigit(s[i + 1])
  }

  /** Position of the first digit of a match starting at p. */
  function IntStart(s: string, p: int): int
    requires 0 <= p < |s|
  {
    if IsSign(s[p]) then p + 1 else p
  }

  /** End of the digit run starting at i (`\d+` is greedy). */
  function DigitRunEnd(s: string, i: nat): (j: nat)
    requires i <= |s|
    ensures i <= j <= |s|
    ensures forall k :: i <= k < j ==> IsDigit(s[k])
    ensures j == |s| || !IsDigit(s[j])
    decreases |s| - i
  {
    if i < |s| && IsDigit(s[i]) then DigitRunEnd(s, i + 1) else i
  }

  /** A match: s[start..end] is the matched text and s[start..intEnd] its
      signed integer part. */
  datatype Span = Span(start: nat, intEnd: nat, end: nat)

  /** The specification of `re.search` for this pattern: the match starts at
      the leftmost position where the pattern can start, the integer digit
      run is maximal, and the fraction is taken exactly when a '.' followed by
      a digit comes next, with its digit run maximal too. */
  predicate IsLeftmostGreedy(s: string, m: Span)
  {
    && m.start < m.intEnd <= m.end <= |s|
    && MatchStartsAt(s, m.start)
    && (forall k :: 0 <= k < m.start ==> !MatchStartsAt(s, k))
    && (forall k :: IntStart(s, m.start) <= k < m.intEnd ==> IsDigit(s[k]))
    && IntStart(s, m.start) < m.intEnd
    && (m.intEnd == |s| || !IsDigit(s[m.intEnd]))
    && (if m.end == m.intEnd then !FractionAt(s, m.intEnd)
        else
          && FractionAt(s, m.intEnd)
          && m.intEnd + 1 < m.end
          && (forall k :: m.intEnd < k < m.end ==> IsDigit(s[k]))
          && (m.end == |s| || !IsDigit(s[m.end])))
  }

  /** The greedy match that starts at p. */
  function MatchAt(s: string, p: nat): (m: Span)
    requires MatchStartsAt(s, p)
    ensures m.start == p
  {
    var e := DigitRunEnd(s, IntStart(s, p));
    if FractionAt(s, e) then Span(p, e, DigitRunEnd(s, e + 1)) else Span(p, e, e)
  }

  /** The first position at or after p where a match can start. */
  function FirstMatchFrom(s: string, p: nat): (r: Option<nat>)
    requires p <= |s|
    ensures r.Some? ==> p <= r.value && MatchStartsAt(s, r.value)
    ensures r.Some? ==> forall k :: p <= k < r.value ==> !MatchStartsAt(s, k)
    ensures r.None? ==> forall k :: p <= k < |s| ==> !MatchStartsAt(s, k)
    decreases |s| - p
  {
    if p == |s| then None
    else if MatchStartsAt(s, p) then Some(p)
    else FirstMatchFrom(s, p + 1)
  }

  /** `re.search`: the leftmost greedy match, if there is one; there is one
      exactly when the string holds a digit. */
  function Search(s: string): (r: Option<Span>)
    ensures r.Some? ==> IsLeftmostGreedy(s, r.value)
    ensures r.None? <==> !HasDigit(s)
  {
    match FirstMatchFrom(s, 0)
    case None =>
      assert !HasDigit(s) by {
        if HasDigit(s) {
          var k :| 0 <= k < |s| && IsDigit(s[k]);
          assert MatchStartsAt(s, k);
        }
      }
      None
    case Some(p) =>
      assert HasDigit(s) by {
        assert IsDigit(s[IntStart(s, p)]);
      }
      Some(MatchAt(s, p))
  }

  /** `extract_number(s)`: None for None, and otherwise the text of the
      leftmost greedy match, which exists exactly when `s` holds a digit. */
  function ExtractNumber(s: Option<string>): (r: Option<string>)
    ensures r.None? <==> s.None? || !HasDigit(s.value)
    ensures r.Some? ==>
      && Search(s.value).Some?
      && r.value == s.value[Search(s.value).value.start..Search(s.value).value.end]
  {
    if s.None? || Strip(s.value) == "" then None
    else
      match Search(s.value)
      case None => None
      case Some(m) => Some(s.value[m.start..m.end])
  }

  /** The blank-input guard of `extract_number` changes nothing: a blank
      string has no digit. */
  lemma BlankHasNoNumber(s: string)
    requires IsBlank(s)
    ensures ExtractNumber(Some(s)) == None
  {
    if HasDigit(s) {
      var k :| 0 <= k < |s| && IsDigit(s[k]);
      assert IsSpace(s[k]);
    }
  }

  /** The leftmost greedy match is unique: its specification determines it. */
  lemma LeftmostGreedyIsUnique(s: string, m1: Span, m2: Span)
    requires IsLeftmostGreedy(s, m1) && IsLeftmostGreedy(s, m2)
    ensures m1 == m2
  {
  }

  // An independent reading of the pattern: the strings it matches in full.

  predicate AllDigits(t: string)
  {
    forall k :: 0 <= k < |t| ==> IsDigit(t[k])
  }

  /** `\d+(\.\d+)?` matches t in full. */
  predicate IsUnsignedLiteral(t: string)
  {
    || (t != [] && AllDigits(t))
    || exists d :: 0 < d < |t| - 1 && t[d] == '.' && AllDigits(t[..d]) && AllDigits(t[d + 1..])
  }

  /** `[-+]?\d+(\.\d+)?` matches t in full. */
  predicate IsNumberLiteral(t: string)
  {
    IsUnsignedLiteral(t) || (t != [] && IsSign(t[0]) && IsUnsignedLiteral(t[1..]))
  }

  /** A dotted literal has exactly one non-digit, its '.', and a digit
      follows it. */
  lemma DottedShape(v: string, d: nat, a: nat)
    requires 0 < d < |v| - 1 && v[d] == '.' && AllDigits(v[..d]) && AllDigits(v[d + 1..])
    requires a < |v| && !IsDigit(v[a])
    ensures a == d && IsDigit(v[a + 1])
    ensures forall b :: 0 <= b < |v| && b != a ==> IsDigit(v[b])
  {
    forall b | 0 <= b < |v| && b != d ensures IsDigit(v[b]) {
      if b < d {
        assert v[..d][b] == v[b];
      } else {
        assert v[d + 1..][b - d - 1] == v[b];
      }
    }
    assert v[d + 1..][0] == v[d + 1];
  }

  /** An unsigned literal holds only digits and at most one '.', which is
      neither its first nor its last character. */
  lemma UnsignedShape(v: string, a: nat)
    requires IsUnsignedLiteral(v)
    requires a < |v| && !IsDigit(v[a])
    ensures v[a] == '.' && 0 < a && a + 1 < |v| && IsDigit(v[a + 1])
    ensures forall b :: 0 <= b < |v| && b != a ==> IsDigit(v[b])
  {
    if !(v != [] && AllDigits(v)) {
      var d :| 0 < d < |v| - 1 && v[d] == '.' && AllDigits(v[..d]) && AllDigits(v[d + 1..]);
      DottedShape(v, d, a);
    }
  }

  /** Past its first character a literal holds only digits and at most one
      '.', which is followed by a digit. */
  lemma LiteralShape(u: string, a: nat)
    requires IsNumberLiteral(u)
    requires 0 < a < |u| && !IsDigit(u[a])
    ensures u[a] == '.' && a + 1 < |u| && IsDigit(u[a + 1])
    ensures forall b :: 0 < b < |u| && b != a ==> IsDigit(u[b])
  {
    if IsUnsignedLiteral(u) {
      UnsignedShape(u, a);
    } else {
      var v := u[1..];
      assert v[a - 1] == u[a];
      UnsignedShape(v, a - 1);
      forall b | 0 < b < |u| && b != a ensures IsDigit(u[b]) {
        assert u[b] == v[b - 1];
      }
      assert u[a + 1] == v[a];
    }
  }

  /** The text of the match is a literal of the pattern. */
  lemma MatchIsLiteral(s: string, m: Span)
    requires IsLeftmostGreedy(s, m)
    ensures IsNumberLiteral(s[m.start..m.end])
  {
    var i0 := IntStart(s, m.start);
    var u := s[m.start..m.end];
    var v := s[i0..m.end];
    MatchIsUnsigned(s, m);
    if i0 == m.start + 1 {
      assert u[1..] == v;
    } else {
      assert u == v;
    }
  }

  /** The match minus its sign is an unsigned literal. */
  lemma MatchIsUnsigned(s: string, m: Span)
    requires IsLeftmostGreedy(s, m)
    ensures IsUnsignedLiteral(s[IntStart(s, m.start)..m.end])
  {
    var i0 := IntStart(s, m.start);
    var v := s[i0..m.end];
    if m.end == m.intEnd {
      forall k | 0 <= k < |v|
        ensures IsDigit(v[k])
      {
        assert v[k] == s[i0 + k];
      }
    } else {
      var ie := m.intEnd - i0;
      assert v[ie] == s[m.intEnd];
      forall k | 0 <= k < ie
        ensures IsDigit(v[..ie][k])
      {
        assert v[..ie][k] == s[i0 + k];
      }
      var w := v[ie + 1..];
      forall k | 0 <= k < |w|
        ensures IsDigit(w[k])
      {
        assert w[k] == s[m.intEnd + 1 + k];
      }
      assert AllDigits(v[..ie]) && AllDigits(w);
    }
  }

  /** No longer literal starts where the match starts. */
  lemma MatchIsLongest(s: string, m: Span, j: nat)
    requires IsLeftmostGreedy(s, m)
    requires m.end < j <= |s|
    ensures !IsNumberLiteral(s[m.start..j])
  {
    var u := s[m.start..j];
    var a := m.intEnd - m.start;
    assert u[a] == s[m.intEnd];
    if m.end == m.intEnd {
      if a + 1 < |u| {
        assert u[a + 1] == s[m.intEnd + 1];
      }
      NotLiteralAtBadChar(u, a);
    } else {
      assert u[m.end - m.start] == s[m.end];
      NotLiteralTwoNonDigits(u, a, m.end - m.start);
    }
  }

  /** A non-digit past the first character that is not a '.' followed by a
      digit rules out a literal. */
  lemma NotLiteralAtBadChar(u: string, a: nat)
    requires 0 < a < |u| && !IsDigit(u[a])
    requires u[a] != '.' || a + 1 == |u| || !IsDigit(u[a + 1])
    ensures !IsNumberLiteral(u)
  {
    if IsNumberLiteral(u) {
      LiteralShape(u, a);
    }
  }

  /** Two non-digits past the first character rule out a literal. */
  lemma NotLiteralTwoNonDigits(u: string, a: nat, b: nat)
    requires 0 < a < b < |u| && !IsDigit(u[a]) && !IsDigit(u[b])
    ensures !IsNumberLiteral(u)
  {
    if IsNumberLiteral(u) {
      LiteralShape(u, a);
    }
  }

  /** No literal at all starts before the match. */
  lemma NoEarlierLiteral(s: string, i: nat, j: nat)
    requires i <= j <= |s|
    requires IsNumberLiteral(s[i..j])
    ensures MatchStartsAt(s, i)
  {
    var u := s[i..j];
    if IsUnsignedLiteral(u) {
      if !(u != [] && AllDigits(u)) {
        var d :| 0 < d < |u| - 1 && u[d] == '.' && AllDigits(u[..d]) && AllDigits(u[d + 1..]);
        assert u[..d][0] == u[0];
      }
      assert u[0] == s[i];
    } else {
      var v := u[1..];
      if !(v != [] && AllDigits(v)) {
        var d :| 0 < d < |v| - 1 && v[d] == '.' && AllDigits(v[..d]) && AllDigits(v[d + 1..]);
        assert v[..d][0] == v[0];
      }
      assert u[0] == s[i] && v[0] == s[i + 1];
    }
  }

  /** Reference characterisation of `extract_number`: it returns the longest
      literal of the pattern that starts leftmost in the string, and None
      exactly when no substring is a literal. */
  lemma ExtractNumberIsLeftmostLongest(s: string)
    ensures ExtractNumber(Some(s)).None? <==>
      forall i, j :: 0 <= i <= j <= |s| ==> !IsNumberLiteral(s[i..j])
    ensures ExtractNumber(Some(s)).Some? ==>
      exists i, j :: 0 <= i <= j <= |s| && ExtractNumber(Some(s)).value == s[i..j] &&
        IsNumberLiteral(s[i..j]) &&
        (forall j' :: j < j' <= |s| ==> !IsNumberLiteral(s[i..j'])) &&
        (forall i', j' :: 0 <= i' < i && i' <= j' <= |s| ==> !IsNumberLiteral(s[i'..j']))
  {
    match Search(s)
    case None =>
      forall i, j | 0 <= i <= j <= |s| ensures !IsNumberLiteral(s[i..j]) {
        if IsNumberLiteral(s[i..j]) {
          NoEarlierLiteral(s, i, j);
        }
      }
    case Some(m) =>
      MatchIsLiteral(s, m);
      forall j' | m.end < j' <= |s| ensures !IsNumberLiteral(s[m.start..j']) {
        MatchIsLongest(s, m, j');
      }
      forall i', j' | 0 <= i' < m.start && i' <= j' <= |s|
        ensures !IsNumberLiteral(s[i'..j'])
      {
        if IsNumberLiteral(s[i'..j']) {
          NoEarlierLiteral(s, i', j');
        }
      }
      assert 0 <= m.start <= m.end <= |s|;
  }

  // ---------------------------------------------------------------------------
  // grade
  // ---------------------------------------------------------------------------

  /** `grade(expected, got, kind)`. Numerically, a prediction is correct only
      when both strings hold a number and the first number literals are the
      same text; otherwise it is correct exactly when both texts have the
      same words up to case. */
  function Grade(expected: string, got: string, kind: string): (r: bool)
    ensures kind == "numeric" ==>
      (r <==> HasDigit(expected) && ExtractNumber(Some(expected)) == ExtractNumber(Some(got)))
    ensures kind == "numeric" && r ==> HasDigit(got)
    ensures kind != "numeric" ==> (r <==> Words(Lower(expected)) == Words(Lower(got)))
  {
    if kind == "numeric" then
      var exp := ExtractNumber(Some(expected));
      var pred := ExtractNumber(Some(got));
      exp.Some? && pred == exp
    else
      var a := NormalizeText(Some(expected));
      var b := NormalizeText(Some(got));
      WordsOfLowerCaseJoin(Some(expected));
      WordsOfLowerCaseJoin(Some(got));
      a == b
  }

  /** Text grading is an equivalence: reflexive, symmetric and transitive. */
  lemma TextGradeIsEquivalence(a: string, b: string, c: string, kind: string)
    requires kind != "numeric"
    ensures Grade(a, a, kind)
    ensures Grade(a, b, kind) == Grade(b, a, kind)
    ensures Grade(a, b, kind) && Grade(b, c, kind) ==> Grade(a, c, kind)
  {
  }

  /** Text grading ignores case, surrounding whitespace and runs of
      whitespace: a prediction equal to the normalised expected answer is
      correct. */
  lemma TextGradeAcceptsNormalized(e: string, kind: string)
    requires kind != "numeric"
    ensures Grade(e, NormalizeText(Some(e)), kind)
  {
    NormalizeIdempotent(Some(e));
  }

  /** A span meeting the specification is what `extract_number` returns. */
  lemma ExtractNumberBySpan(s: string, m: Span)
    requires IsLeftmostGreedy(s, m)
    ensures ExtractNumber(Some(s)) == Some(s[m.start..m.end])
  {
    assert IsDigit(s[IntStart(s, m.start)]);
    LeftmostGreedyIsUnique(s, m, Search(s).value);
  }

  /** A text without digits holds no number. */
  lemma NoDigitNoNumber(s: string)
    requires !HasDigit(s)
    ensures ExtractNumber(Some(s)) == None
  {
  }

  /** In "The total is -12.5 items" the match is the span of "-12.5": no
      character before the sign can start a match. */
  lemma SignedDecimalSpan(s: string)
    requires s == "The total is -12.5 items"
    ensures IsLeftmostGreedy(s, Span(13, 16, 18)) && s[13..18] == "-12.5"
  {
    forall k | 0 <= k < 13
      ensures !MatchStartsAt(s, k)
    {
      assert !IsDigit(s[k]) && !IsSign(s[k]);
    }
  }

  /** A signed decimal inside running text is extracted with its sign and
      its fraction. */
  lemma SignedDecimalExample(s: string)
    requires s == "The total is -12.5 items"
    ensures ExtractNumber(Some(s)) == Some("-12.5")
  {
    SignedDecimalSpan(s);
    ExtractNumberBySpan(s, Span(13, 16, 18));
  }

  /** A text without digits holds no number, even when it is not blank. */
  lemma NoDigitsExample(t: string)
    requires t == "no digits here"
    ensures ExtractNumber(Some(t)) == None
  {
    NoDigitNoNumber(t);
  }

  /** The matches in three short texts. */
  lemma ShortSpans(a: string, b: string, c: string)
    requires a == "5" && b == "5.0" && c == "x = 5"
    ensures IsLeftmostGreedy(a, Span(0, 1, 1)) && a[0..1] == "5"
    ensures IsLeftmostGreedy(b, Span(0, 1, 3)) && b[0..3] == "5.0"
    ensures IsLeftmostGreedy(c, Span(4, 5, 5)) && c[4..5] == "5"
  {
  }

  /** Numeric grading compares literal texts, not values: "5" and "5.0"
      differ, while the "5" inside "x = 5" matches. */
  lemma NumericGradeComparesText(a: string, b: string, c: string)
    requires a == "5" && b == "5.0" && c == "x = 5"
    ensures !Grade(a, b, "numeric")
    ensures Grade(a, c, "numeric")
  {
    ShortSpans(a, b, c);
    ExtractNumberBySpan(a, Span(0, 1, 1));
    ExtractNumberBySpan(b, Span(0, 1, 3));
    ExtractNumberBySpan(c, Span(4, 5, 5));
  }

  // ---------------------------------------------------------------------------
  // evaluate_agent
  // ---------------------------------------------------------------------------

  /** One grading record: the question, the expected answer and the optional
      domain label. */
  datatype Item = Item(input: string, output: string, domain: Option<string>)

  /** The agent under evaluation: question and domain to predicted answer. */
  type Agent = (string, Option<string>) -> string

  /** The grading mode: numeric when the domain is present, non-empty and
      contains "math". The non-emptiness test is subsumed: the mode is numeric
      exactly when the domain contains "math". */
  function GradingKind(domain: Option<string>): (kind: string)
    ensures kind == "numeric" || kind == "text"
    ensures kind == "numeric" <==> domain.Some? && Contains(domain.value, "math")
  {
    if domain.Some? && domain.value != "" && Contains(domain.value, "math") then "numeric" else "text"
  }

  predicate IsCorrect(agent: Agent, item: Item)
  {
    Grade(item.output, agent(item.input, item.domain), GradingKind(item.domain))
  }

  /** Number of items the agent answers correctly. */
  function CorrectCount(agent: Agent, items: seq<Item>): (n: nat)
    ensures n <= |items|
  {
    if items == [] then 0
    else CorrectCount(agent, items[..|items| - 1]) + (if IsCorrect(agent, items[|items| - 1]) then 1 else 0)
  }

  /** The test "graded correct", and its negation, as functions on items. */
  function CorrectFor(agent: Agent): Item -> bool
  {
    item => IsCorrect(agent, item)
  }

  function WrongFor(agent: Agent): Item -> bool
  {
    item => !IsCorrect(agent, item)
  }

  predicate AllCorrect(agent: Agent, items: seq<Item>)
  {
    All(items, CorrectFor(agent))
  }

  predicate NoneCorrect(agent: Agent, items: seq<Item>)
  {
    All(items, WrongFor(agent))
  }

  /** The score is full exactly when every item is graded correct, and zero
      exactly when none is. */
  lemma {:induction false} CorrectCountExtremes(agent: Agent, items: seq<Item>)
    ensures CorrectCount(agent, items) == |items| <==> AllCorrect(agent, items)
    ensures CorrectCount(agent, items) == 0 <==> NoneCorrect(agent, items)
  {
    if items != [] {
      CorrectCountExtremes(agent, items[..|items| - 1]);
      AllSnoc(items, CorrectFor(agent));
      AllSnoc(items, WrongFor(agent));
    }
  }

  /** The number of items evaluated: all of them, or `max_examples` when it is
      given and smaller (a negative limit evaluates nothing). */
  function EvaluatedCount(size: nat, maxExamples: Option<int>): (n: nat)
    ensures n <= size
    ensures maxExamples.None? ==> n == size
    ensures maxExamples.Some? && 0 <= maxExamples.value ==>
      n == if maxExamples.value < size then maxExamples.value else size
    ensures maxExamples.Some? && maxExamples.value < 0 ==> n == 0
  {
    if maxExamples.Some? && maxExamples.value < size then
      (if maxExamples.value < 0 then 0 else maxExamples.value)
    else size
  }

  /** `evaluate_agent(agent, data, max_examples)`: grades the first n items
      in order and returns the printed score `(num_correct, total)`. */
  method EvaluateAgent(agent: Agent, data: seq<Item>, maxExamples: Option<int>)
    returns (numCorrect: nat, total: nat)
    ensures total == EvaluatedCount(|data|, maxExamples)
    ensures numCorrect == CorrectCount(agent, data[..total])
    ensures numCorrect <= total
  {
    var n: int := |data|;
    if maxExamples.Some? && maxExamples.value < n {
      n := maxExamples.value;
    }
    total, numCorrect := 0, 0;
    // `range(n)` is empty when n is negative.
    for i := 0 to if n < 0 then 0 else n
      invariant total == i
      invariant numCorrect == CorrectCount(agent, data[..i])
    {
      var item := data[i];
      var kind := GradingKind(item.domain);
      var pred := agent(item.input, item.domain);
      var correct := Grade(item.output, pred, kind);
      CorrectCountStep(agent, data, i);
      total := total + 1;
      numCorrect := numCorrect + (if correct then 1 else 0);
    }
  }

  /** Counting one more item adds one exactly when it is graded correct. */
  lemma CorrectCountStep(agent: Agent, data: seq<Item>, i: nat)
    requires i < |data|
    ensures CorrectCount(agent, data[..i + 1]) ==
      CorrectCount(agent, data[..i]) + if IsCorrect(agent, data[i]) then 1 else 0
  {
    assert data[..i + 1][..i] == data[..i];
  }
}
