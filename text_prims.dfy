/**
  The Python string builtins that the evaluation script and the answer
  extractor rely on (`str.strip`, `str.lower`, `str.split()`, `" ".join`,
  `str.splitlines`, `in` and `str.split(sep, 1)`), restricted to ASCII:
  whitespace is the ASCII part of `str.isspace`, case mapping is A-Z to a-z,
  and lines are separated by '\n' only.
*/
module TextPrims {

  datatype Option<+T> = None | Some(value: T)

  // ---------------------------------------------------------------------------
  // Characters
  // ---------------------------------------------------------------------------

  /** The ASCII characters for which Python's `str.isspace` holds:
      space, \t \n \v \f \r and the separators \x1c-\x1f. */
  predicate IsSpace(c: char)
  {
    c == ' ' || ('\t' <= c <= '\r') || ('\U{1C}' <= c <= '\U{1F}')
  }

  predicate IsUpper(c: char)
  {
    'A' <= c <= 'Z'
  }

  /** `c.lower()` on ASCII. */
  function LowerChar(c: char): (r: char)
    ensures !IsUpper(r)
    ensures IsSpace(r) <==> IsSpace(c)
    ensures !IsUpper(c) ==> r == c
  {
    if IsUpper(c) then (c as int + 32) as char else c
  }

  // ---------------------------------------------------------------------------
  // Blank and trimmed strings
  // ---------------------------------------------------------------------------

  /** Every character is whitespace (this includes the empty string). */
  predicate IsBlank(s: string)
  {
    forall k :: 0 <= k < |s| ==> IsSpace(s[k])
  }

  /** No leading and no trailing whitespace. */
  predicate IsTrimmed(s: string)
  {
    s == [] || (!IsSpace(s[0]) && !IsSpace(s[|s| - 1]))
  }

  /** `s.lstrip()`: drops the leading whitespace run. */
  function LStrip(s: string): (r: string)
    ensures |r| <= |s| && r == s[|s| - |r|..]
    ensures forall k :: 0 <= k < |s| - |r| ==> IsSpace(s[k])
    ensures r == [] || !IsSpace(r[0])
    decreases |s|
  {
    if s != [] && IsSpace(s[0]) then LStrip(s[1..]) else s
  }

  /** `s.rstrip()`: drops the trailing whitespace run. */
  function RStrip(s: string): (r: string)
    ensures |r| <= |s| && r == s[..|r|]
    ensures forall k :: |r| <= k < |s| ==> IsSpace(s[k])
    ensures r == [] || !IsSpace(r[|r| - 1])
    decreases |s|
  {
    if s != [] && IsSpace(s[|s| - 1]) then RStrip(s[..|s| - 1]) else s
  }

  /** `s.strip()`: the result is `s` without its leading and trailing
      whitespace; it is empty exactly when `s` is blank, and a string
      that is already trimmed is returned unchanged. */
  function Strip(s: string): (r: string)
    ensures var t := LStrip(s);
      && t == s[|s| - |t|..] && IsBlank(s[..|s| - |t|])
      && r <= t && IsBlank(t[|r|..])
    ensures IsTrimmed(r)
    ensures r == [] <==> IsBlank(s)
    ensures IsTrimmed(s) ==> r == s
  {
    LStripDropsBlank(s);
    RStripDropsBlank(LStrip(s));
    StripShape(s);
    RStrip(LStrip(s))
  }

  /** `lstrip` drops a blank head. */
  lemma LStripDropsBlank(s: string)
    ensures IsBlank(s[..|s| - |LStrip(s)|])
  {
    var head := s[..|s| - |LStrip(s)|];
    assert forall k :: 0 <= k < |head| ==> head[k] == s[k];
  }

  /** `rstrip` drops a blank tail. */
  lemma RStripDropsBlank(t: string)
    ensures IsBlank(t[|RStrip(t)|..])
  {
    var tail := t[|RStrip(t)|..];
    assert forall k :: 0 <= k < |tail| ==> tail[k] == t[|RStrip(t)| + k];
  }

  /** The stripped text is trimmed, empty exactly for blank input, and a
      trimmed input is kept as it is. */
  lemma StripShape(s: string)
    ensures var l := LStrip(s); var r := RStrip(l);
      && IsTrimmed(r)
      && (r == [] <==> IsBlank(s))
      && (IsTrimmed(s) ==> r == s)
  {
    var l := LStrip(s);
    var r := RStrip(l);
    assert r != [] ==> r[0] == l[0];
    assert r == [] ==> IsBlank(s) by {
      if r == [] {
        assert l == [];
      }
    }
    assert IsBlank(s) && s != [] ==> l == [];
  }

  /** Stripping only removes characters. */
  lemma StripKeepsChars(s: string)
    ensures forall c :: c in Strip(s) ==> c in s
  {
    var l := LStrip(s);
    assert forall c :: c in RStrip(l) ==> c in l;
  }

  // ---------------------------------------------------------------------------
  // Case
  // ---------------------------------------------------------------------------

  /** `s.lower()` on ASCII: only upper-case letters change, none is left,
      and whitespace stays where it was. */
  function Lower(s: string): (r: string)
    ensures |r| == |s|
    ensures forall k :: 0 <= k < |s| ==> r[k] == LowerChar(s[k])
    ensures forall k :: 0 <= k < |s| ==>
      && !IsUpper(r[k])
      && (IsUpper(s[k]) || r[k] == s[k])
      && (IsSpace(r[k]) <==> IsSpace(s[k]))
  {
    seq(|s|, k requires 0 <= k < |s| => LowerChar(s[k]))
  }

  /** No upper-case ASCII letter occurs in `s`. */
  predicate IsLowerCase(s: string)
  {
    forall c :: c in s ==> !IsUpper(c)
  }

  /** Lower-casing leaves no upper-case letter. */
  lemma LowerIsLowerCase(s: string)
    ensures IsLowerCase(Lower(s))
  {
    forall c | c in Lower(s) ensures !IsUpper(c) {
      var k :| 0 <= k < |s| && Lower(s)[k] == c;
    }
  }

  /** Lower-casing leaves a lower-case string unchanged. */
  lemma LowerOfLowerCase(s: string)
    requires IsLowerCase(s)
    ensures Lower(s) == s
  {
    forall k | 0 <= k < |s| ensures Lower(s)[k] == s[k] {
      assert s[k] in s;
    }
  }

  // ---------------------------------------------------------------------------
  // Words: `s.split()` and `" ".join(words)`
  // ---------------------------------------------------------------------------

  /** A word as `str.split()` yields it: non-empty, no whitespace. */
  predicate IsWord(w: string)
  {
    w != [] && forall k :: 0 <= k < |w| ==> !IsSpace(w[k])
  }

  /** Length of the leading run of non-whitespace characters. */
  function WordLen(s: string): (n: nat)
    ensures n <= |s|
    ensures forall k :: 0 <= k < n ==> !IsSpace(s[k])
    ensures n == |s| || IsSpace(s[n])
    decreases |s|
  {
    if s == [] || IsSpace(s[0]) then 0 else 1 + WordLen(s[1..])
  }

  /** `s.split()`: the maximal whitespace-free runs of `s`, in order. */
  function Words(s: string): (ws: seq<string>)
    ensures forall k :: 0 <= k < |ws| ==> IsWord(ws[k])
    ensures ws == [] <==> IsBlank(s)
    decreases |s|
  {
    if s == [] then []
    else if IsSpace(s[0]) then
      assert IsBlank(s) <==> IsBlank(s[1..]) by {
        assert forall k :: 0 < k < |s| ==> s[k] == s[1..][k - 1];
      }
      Words(s[1..])
    else
      var n := WordLen(s);
      [s[..n]] + Words(s[n..])
  }

  /** The positions at which the words of `s` start. */
  function WordStarts(s: string): seq<nat>
    decreases |s|
  {
    if s == [] then []
    else if IsSpace(s[0]) then Shift(WordStarts(s[1..]), 1)
    else
      var n := WordLen(s);
      [0] + Shift(WordStarts(s[n..]), n)
  }

  function Shift(ps: seq<nat>, d: nat): seq<nat>
  {
    seq(|ps|, i requires 0 <= i < |ps| => ps[i] + d)
  }

  /** `w` occurs at `p` in `s` as a whole run: whitespace or an end of `s`
      on either side. */
  predicate WordAt(s: string, w: string, p: nat)
  {
    && p + |w| <= |s| && s[p..p + |w|] == w
    && (p == 0 || IsSpace(s[p - 1]))
    && (p + |w| == |s| || IsSpace(s[p + |w|]))
  }

  /** Each word `ws[k]` occurs as a whole run at position `ps[k]`. */
  predicate Placed(s: string, ws: seq<string>, ps: seq<nat>)
  {
    |ps| == |ws| && forall k :: 0 <= k < |ws| ==> WordAt(s, ws[k], ps[k])
  }

  /** The runs come in order, each ending before the next one starts. */
  predicate Ordered(ws: seq<string>, ps: seq<nat>)
  {
    |ps| == |ws| && forall k :: 0 <= k < |ws| - 1 ==> ps[k] + |ws[k]| < ps[k + 1]
  }

  /** Every non-whitespace character of `s` lies in one of the runs. */
  predicate Covers(s: string, ws: seq<string>, ps: seq<nat>)
  {
    |ps| == |ws| &&
    forall j :: 0 <= j < |s| && !IsSpace(s[j]) ==>
      exists k :: 0 <= k < |ws| && ps[k] <= j < ps[k] + |ws[k]|
  }

  /** The words `ws` are the maximal whitespace-free runs of `s`, found at
      the increasing positions `ps`. */
  predicate RunsAt(s: string, ws: seq<string>, ps: seq<nat>)
  {
    Placed(s, ws, ps) && Ordered(ws, ps) && Covers(s, ws, ps)
  }

  /** `s.split()` yields the maximal whitespace-free runs of `s`, in order. */
  lemma {:induction false} WordsAreRuns(s: string)
    ensures RunsAt(s, Words(s), WordStarts(s))
    decreases |s|
  {
    if s != [] {
      if IsSpace(s[0]) {
        WordsAreRuns(s[1..]);
        RunsAfterSpace(s);
      } else {
        WordsAreRuns(s[WordLen(s)..]);
        RunsAfterWord(s);
      }
    }
  }

  /** Leading whitespace moves every run on by one. */
  lemma RunsAfterSpace(s: string)
    requires s != [] && IsSpace(s[0])
    requires RunsAt(s[1..], Words(s[1..]), WordStarts(s[1..]))
    ensures RunsAt(s, Words(s), WordStarts(s))
  {
    var ws, ps := Words(s[1..]), WordStarts(s[1..]);
    assert Words(s) == ws && WordStarts(s) == Shift(ps, 1);
    ShiftPlaced(s, 1, ws, ps);
    ShiftOrdered(ws, ps, 1);
    CoversAfterSpace(s, ws, ps);
  }

  /** Moving every run on by the same amount keeps them ordered. */
  lemma ShiftOrdered(ws: seq<string>, ps: seq<nat>, d: nat)
    requires Ordered(ws, ps)
    ensures Ordered(ws, Shift(ps, d))
  {
    var qs := Shift(ps, d);
    forall k | 0 <= k < |ws| - 1
      ensures qs[k] + |ws[k]| < qs[k + 1]
    {
      assert qs[k] == ps[k] + d && qs[k + 1] == ps[k + 1] + d;
    }
  }

  /** A leading whitespace character needs no run: the runs of the rest,
      moved on by one, cover `s`. */
  lemma CoversAfterSpace(s: string, ws: seq<string>, ps: seq<nat>)
    requires s != [] && IsSpace(s[0]) && Covers(s[1..], ws, ps)
    ensures Covers(s, ws, Shift(ps, 1))
  {
    ShiftCovers(s, 1, ws, ps);
  }

  /** A leading word is the first run, at 0, in front of the runs of the
      rest moved on by the word's length. */
  lemma RunsAfterWord(s: string)
    requires s != [] && !IsSpace(s[0])
    requires RunsAt(s[WordLen(s)..], Words(s[WordLen(s)..]), WordStarts(s[WordLen(s)..]))
    ensures RunsAt(s, Words(s), WordStarts(s))
  {
    var n := WordLen(s);
    var ws, ps := Words(s[n..]), WordStarts(s[n..]);
    assert Words(s) == [s[..n]] + ws && WordStarts(s) == [0] + Shift(ps, n);
    LeadingWordRun(s, n, ws, ps);
  }

  /** The run-level step behind `RunsAfterWord`: a leading whitespace-free
      run of length n, ended by whitespace or the end of `s`, and the runs
      of `s[n..]` make up the runs of `s`. */
  lemma LeadingWordRun(s: string, n: nat, ws: seq<string>, ps: seq<nat>)
    requires 0 < n <= |s| && (n == |s| || IsSpace(s[n]))
    requires forall k :: 0 <= k < |ws| ==> IsWord(ws[k])
    requires RunsAt(s[n..], ws, ps)
    ensures RunsAt(s, [s[..n]] + ws, [0] + Shift(ps, n))
  {
    var qs := Shift(ps, n);
    NoRunAtStart(s[n..], ws, ps);
    assert Placed(s, [s[..n]] + ws, [0] + qs) by {
      ShiftPlaced(s, n, ws, ps);
      PlacedAfterWord(s, n, ws, qs);
    }
    assert Ordered([s[..n]] + ws, [0] + qs) by {
      ShiftOrdered(ws, ps, n);
      assert forall k :: 0 <= k < |qs| ==> n < qs[k];
      OrderedAfterWord(s[..n], ws, qs);
    }
    assert Covers(s, [s[..n]] + ws, [0] + qs) by {
      ShiftCovers(s, n, ws, ps);
      CoversAfterWord(s, n, ws, qs);
    }
  }

  /** A text that starts with whitespace has no run at position 0. */
  lemma NoRunAtStart(t: string, ws: seq<string>, ps: seq<nat>)
    requires Placed(t, ws, ps) && forall k :: 0 <= k < |ws| ==> IsWord(ws[k])
    requires t == [] || IsSpace(t[0])
    ensures forall k :: 0 <= k < |ps| ==> 0 < ps[k]
  {
    forall k | 0 <= k < |ps|
      ensures 0 < ps[k]
    {
      assert WordAt(t, ws[k], ps[k]);
      assert t[ps[k]] == ws[k][0];
    }
  }

  /** Runs of the suffix `s[d..]` are runs of `s`, moved on by `d`. */
  lemma ShiftPlaced(s: string, d: nat, ws: seq<string>, ps: seq<nat>)
    requires 0 < d <= |s| && Placed(s[d..], ws, ps)
    requires forall k :: 0 <= k < |ps| && ps[k] == 0 ==> IsSpace(s[d - 1])
    ensures Placed(s, ws, Shift(ps, d))
  {
    var t := s[d..];
    forall k | 0 <= k < |ws|
      ensures WordAt(s, ws[k], Shift(ps, d)[k])
    {
      var p := ps[k];
      assert WordAt(t, ws[k], p);
      assert s[p + d..p + d + |ws[k]|] == t[p..p + |ws[k]|];
      assert p > 0 ==> s[p + d - 1] == t[p - 1];
      assert p + |ws[k]| < |t| ==> s[p + d + |ws[k]|] == t[p + |ws[k]|];
    }
  }

  /** Every non-whitespace character of `s` from `d` on lies in a run of the
      suffix `s[d..]`, moved on by `d`. */
  lemma ShiftCovers(s: string, d: nat, ws: seq<string>, ps: seq<nat>)
    requires d <= |s| && Covers(s[d..], ws, ps)
    ensures forall j :: d <= j < |s| && !IsSpace(s[j]) ==>
      exists k :: 0 <= k < |ws| && Shift(ps, d)[k] <= j < Shift(ps, d)[k] + |ws[k]|
  {
    var t := s[d..];
    forall j | d <= j < |s| && !IsSpace(s[j])
      ensures exists k :: 0 <= k < |ws| && Shift(ps, d)[k] <= j < Shift(ps, d)[k] + |ws[k]|
    {
      assert t[j - d] == s[j];
      var k :| 0 <= k < |ws| && ps[k] <= j - d < ps[k] + |ws[k]|;
      assert Shift(ps, d)[k] == ps[k] + d;
    }
  }

  /** A leading word of length n, ended by whitespace or by the end of `s`,
      is placed at 0 in front of the runs placed after it. */
  lemma PlacedAfterWord(s: string, n: nat, ws: seq<string>, qs: seq<nat>)
    requires 0 < n <= |s| && (n == |s| || IsSpace(s[n]))
    requires Placed(s, ws, qs)
    ensures Placed(s, [s[..n]] + ws, [0] + qs)
  {
    var ws', qs' := [s[..n]] + ws, [0] + qs;
    forall k | 0 <= k < |ws'|
      ensures WordAt(s, ws'[k], qs'[k])
    {
      if k > 0 {
        assert ws'[k] == ws[k - 1] && qs'[k] == qs[k - 1];
      }
    }
  }

  /** A word in front of ordered runs that all start after it keeps them
      ordered. */
  lemma OrderedAfterWord(w: string, ws: seq<string>, qs: seq<nat>)
    requires Ordered(ws, qs) && forall k :: 0 <= k < |qs| ==> |w| < qs[k]
    ensures Ordered([w] + ws, [0] + qs)
  {
    var ws', qs' := [w] + ws, [0] + qs;
    forall k | 0 <= k < |ws'| - 1
      ensures qs'[k] + |ws'[k]| < qs'[k + 1]
    {
      if k > 0 {
        assert ws'[k] == ws[k - 1] && qs'[k] == qs[k - 1];
      }
    }
  }

  /** The leading word covers the characters before n; the runs after it
      cover the rest. */
  lemma CoversAfterWord(s: string, n: nat, ws: seq<string>, qs: seq<nat>)
    requires 0 < n <= |s| && |qs| == |ws|
    requires forall j :: n <= j < |s| && !IsSpace(s[j]) ==>
      exists k :: 0 <= k < |ws| && qs[k] <= j < qs[k] + |ws[k]|
    ensures Covers(s, [s[..n]] + ws, [0] + qs)
  {
    var ws', qs' := [s[..n]] + ws, [0] + qs;
    forall j | 0 <= j < |s| && !IsSpace(s[j])
      ensures exists k :: 0 <= k < |ws'| && qs'[k] <= j < qs'[k] + |ws'[k]|
    {
      if j < n {
        assert qs'[0] <= j < qs'[0] + |ws'[0]|;
      } else {
        var k :| 0 <= k < |ws| && qs[k] <= j < qs[k] + |ws[k]|;
        assert qs'[k + 1] <= j < qs'[k + 1] + |ws'[k + 1]|;
      }
    }
  }

  /** The words of a lower-case string are lower-case. */
  lemma {:induction false} WordsOfLowerCase(s: string)
    requires IsLowerCase(s)
    ensures forall k :: 0 <= k < |Words(s)| ==> IsLowerCase(Words(s)[k])
    decreases |s|
  {
    if s != [] {
      if IsSpace(s[0]) {
        assert IsLowerCase(s[1..]) by {
          assert forall c :: c in s[1..] ==> c in s;
        }
        WordsOfLowerCase(s[1..]);
      } else {
        var n := WordLen(s);
        assert IsLowerCase(s[n..]) && IsLowerCase(s[..n]) by {
          assert forall c :: c in s[n..] ==> c in s;
          assert forall c :: c in s[..n] ==> c in s;
        }
        WordsOfLowerCase(s[n..]);
      }
    }
  }

  /** Total length of the strings in `ws`. */
  function TotalLen(ws: seq<string>): nat
  {
    if ws == [] then 0 else |ws[0]| + TotalLen(ws[1..])
  }

  /** `" ".join(ws)`: the strings and one separator for each gap between
      two of them. */
  function JoinSpace(ws: seq<string>): (r: string)
    ensures ws == [] ==> r == []
    ensures ws != [] ==> |r| == TotalLen(ws) + |ws| - 1
  {
    if ws == [] then ""
    else if |ws| == 1 then ws[0]
    else ws[0] + " " + JoinSpace(ws[1..])
  }

  predicate AllWords(ws: seq<string>)
  {
    forall k :: 0 <= k < |ws| ==> IsWord(ws[k])
  }

  /** Whitespace occurs only as a single ' ' between two non-whitespace
      characters. */
  predicate SingleSpaced(s: string)
  {
    forall k :: 0 <= k < |s| && IsSpace(s[k]) ==>
      s[k] == ' ' && 0 < k < |s| - 1 && !IsSpace(s[k - 1]) && !IsSpace(s[k + 1])
  }

  /** Joining words with single spaces gives a trimmed, single-spaced string
      that is empty exactly when there are no words. */
  lemma {:induction false} JoinSpaceShape(ws: seq<string>)
    requires AllWords(ws)
    ensures var r := JoinSpace(ws);
      IsTrimmed(r) && SingleSpaced(r) && (r == [] <==> ws == [])
    decreases |ws|
  {
    if |ws| > 1 {
      var tail := JoinSpace(ws[1..]);
      JoinSpaceShape(ws[1..]);
      var r := ws[0] + " " + tail;
      assert r == JoinSpace(ws);
      var n := |ws[0]|;
      forall k | 0 <= k < |r| && IsSpace(r[k])
        ensures r[k] == ' ' && 0 < k < |r| - 1 && !IsSpace(r[k - 1]) && !IsSpace(r[k + 1])
      {
        if k < n {
          assert false;
        } else if k > n {
          assert r[k] == tail[k - n - 1];
          if k - n - 1 == 0 {
            assert false;
          }
          assert r[k - 1] == tail[k - n - 2];
          assert r[k + 1] == tail[k - n];
        } else {
          assert r[k - 1] == ws[0][n - 1];
          assert r[k + 1] == tail[0];
        }
      }
      assert r[|r| - 1] == tail[|tail| - 1];
      assert r[0] == ws[0][0];
    }
  }

  /** Every character of the joined string is a space or comes from a word;
      so a property of all the words' characters that ' ' also has carries
      over to the joined string. */
  lemma {:induction false} JoinSpaceChars(ws: seq<string>, P: char -> bool)
    requires P(' ')
    requires forall k, c :: 0 <= k < |ws| && c in ws[k] ==> P(c)
    ensures forall c :: c in JoinSpace(ws) ==> P(c)
    decreases |ws|
  {
    if |ws| > 1 {
      JoinSpaceChars(ws[1..], P);
      assert forall c :: c in ws[0] ==> P(c);
    } else if |ws| == 1 {
      assert forall c :: c in ws[0] ==> P(c);
    }
  }

  lemma WordLenOfWord(w: string, t: string)
    requires IsWord(w)
    requires t == [] || IsSpace(t[0])
    ensures WordLen(w + t) == |w|
  {
    assert forall k :: 0 <= k < |w| ==> (w + t)[k] == w[k];
    assert |w| < |w + t| ==> (w + t)[|w|] == t[0];
  }

  /** `s.split()` recovers the words that `" ".join` put together: the join is
      injective on word lists. */
  lemma {:induction false} WordsOfJoin(ws: seq<string>)
    requires AllWords(ws)
    ensures Words(JoinSpace(ws)) == ws
    decreases |ws|
  {
    if |ws| == 1 {
      WordsOfWord(ws[0]);
    } else if |ws| > 1 {
      WordsOfJoin(ws[1..]);
      WordsOfWordThenSpace(ws[0], JoinSpace(ws[1..]));
      assert JoinSpace(ws) == ws[0] + (" " + JoinSpace(ws[1..]));
    }
  }

  /** A single word splits into itself. */
  lemma WordsOfWord(w: string)
    requires IsWord(w)
    ensures Words(w) == [w]
  {
    WordLenOfWord(w, "");
    assert w + "" == w;
    assert w[|w|..] == [];
  }

  /** A word followed by a space contributes itself and then the words of
      what follows. */
  lemma WordsOfWordThenSpace(w: string, tail: string)
    requires IsWord(w)
    ensures Words(w + (" " + tail)) == [w] + Words(tail)
  {
    var s := w + (" " + tail);
    WordLenOfWord(w, " " + tail);
    assert s[..|w|] == w;
    assert s[|w|..] == " " + tail;
    assert (" " + tail)[1..] == tail;
  }

  /** Leading whitespace does not change the words. */
  lemma {:induction false} WordsOfLStrip(s: string)
    ensures Words(LStrip(s)) == Words(s)
    decreases |s|
  {
    if s != [] && IsSpace(s[0]) {
      WordsOfLStrip(s[1..]);
    }
  }

  lemma {:induction false} BlankHasNoWords(s: string)
    requires IsBlank(s)
    ensures Words(s) == []
    decreases |s|
  {
    if s != [] {
      BlankHasNoWords(s[1..]);
    }
  }

  /** Trailing whitespace does not change the words. */
  lemma {:induction false} WordsOfBlankSuffix(s: string, t: string)
    requires IsBlank(t)
    ensures Words(s + t) == Words(s)
    decreases |s|
  {
    if s == [] {
      assert s + t == t;
      BlankHasNoWords(t);
    } else if IsSpace(s[0]) {
      assert (s + t)[1..] == s[1..] + t;
      WordsOfBlankSuffix(s[1..], t);
    } else {
      var n := WordLen(s);
      WordLenOfWord(s[..n], s[n..] + t);
      assert s + t == s[..n] + (s[n..] + t);
      assert (s + t)[..n] == s[..n];
      assert (s + t)[n..] == s[n..] + t;
      WordsOfBlankSuffix(s[n..], t);
    }
  }

  /** Trailing whitespace does not change the words. */
  lemma WordsOfRStrip(l: string)
    ensures Words(RStrip(l)) == Words(l)
  {
    var r := RStrip(l);
    var t := l[|r|..];
    assert IsBlank(t);
    assert l == r + t;
    WordsOfBlankSuffix(r, t);
  }

  /** `s.strip().split() == s.split()`. */
  lemma WordsOfStrip(s: string)
    ensures Words(Strip(s)) == Words(s)
  {
    WordsOfLStrip(s);
    WordsOfRStrip(LStrip(s));
  }

  // ---------------------------------------------------------------------------
  // Substring search: `pat in s` and `s.split(pat, 1)`
  // ---------------------------------------------------------------------------

  predicate OccursAt(s: string, pat: string, k: int)
  {
    0 <= k && k + |pat| <= |s| && s[k..k + |pat|] == pat
  }

  /** `s.find(pat)`: the index of the first occurrence of `pat`, if any. */
  function Find(s: string, pat: string): (r: Option<nat>)
    ensures r.Some? ==> OccursAt(s, pat, r.value)
    ensures r.Some? ==> forall k :: 0 <= k < r.value ==> !OccursAt(s, pat, k)
    ensures r.None? ==> forall k :: 0 <= k <= |s| - |pat| ==> !OccursAt(s, pat, k)
    decreases |s|
  {
    if |s| < |pat| then None
    else if s[..|pat|] == pat then Some(0)
    else
      var r := Find(s[1..], pat);
      forall k | 1 <= k <= |s| - |pat|
        ensures OccursAt(s, pat, k) <==> OccursAt(s[1..], pat, k - 1)
      {
        assert s[1..][k - 1..k - 1 + |pat|] == s[k..k + |pat|];
      }
      if r.None? then None else Some(r.value + 1)
  }

  /** `pat in s`. */
  predicate Contains(s: string, pat: string)
  {
    Find(s, pat).Some?
  }

  // ---------------------------------------------------------------------------
  // Lines: `s.splitlines()` for '\n'-separated text
  // ---------------------------------------------------------------------------

  /** The index of the first '\n', if any. */
  function FindNewline(s: string): (r: Option<nat>)
    ensures r.Some? ==> r.value < |s| && s[r.value] == '\n'
    ensures r.Some? ==> forall k :: 0 <= k < r.value ==> s[k] != '\n'
    ensures r.None? ==> forall k :: 0 <= k < |s| ==> s[k] != '\n'
    decreases |s|
  {
    if s == [] then None
    else if s[0] == '\n' then Some(0)
    else
      var r := FindNewline(s[1..]);
      if r.None? then None else Some(r.value + 1)
  }

  /** `s.splitlines()`: the pieces between line breaks; a final line break
      does not start an extra empty line, and "" has no lines. */
  function SplitLines(s: string): (ls: seq<string>)
    ensures forall k :: 0 <= k < |ls| ==> '\n' !in ls[k]
    ensures s != [] ==> ls != []
    decreases |s|
  {
    if s == [] then []
    else
      match FindNewline(s)
      case None => [s]
      case Some(i) => [s[..i]] + SplitLines(s[i + 1..])
  }

  /** Every line followed by one '\n': the inverse of `SplitLines`. */
  function Terminated(ls: seq<string>): string
  {
    if ls == [] then "" else ls[0] + "\n" + Terminated(ls[1..])
  }

  /** Splitting into lines loses nothing but the line breaks: writing every
      line back with a '\n' after it gives the text, with a '\n' added at the
      end when the text had none. */
  lemma {:induction false} SplitLinesRoundTrip(s: string)
    ensures Terminated(SplitLines(s)) ==
      if s == [] || s[|s| - 1] == '\n' then s else s + "\n"
    decreases |s|
  {
    if s != [] {
      match FindNewline(s)
      case None =>
        assert SplitLines(s) == [s];
        TerminatedCons(s, []);
      case Some(i) =>
        var rest := s[i + 1..];
        SplitLinesRoundTrip(rest);
        assert SplitLines(s) == [s[..i]] + SplitLines(rest);
        TerminatedCons(s[..i], SplitLines(rest));
        LineBreakJoin(s, i);
    }
  }

  /** Writing back a first line and then the rest. */
  lemma TerminatedCons(line: string, ls: seq<string>)
    ensures Terminated([line] + ls) == line + "\n" + Terminated(ls)
  {
    assert ([line] + ls)[1..] == ls;
  }

  /** Cutting the text at a line break and writing the rest back with its
      final '\n' added when missing gives the text with its final '\n'
      added when missing. */
  lemma LineBreakJoin(s: string, i: nat)
    requires i < |s| && s[i] == '\n'
    ensures var rest := s[i + 1..];
      s[..i] + "\n" + (if rest == [] || rest[|rest| - 1] == '\n' then rest else rest + "\n")
      == if s[|s| - 1] == '\n' then s else s + "\n"
  {
    var rest := s[i + 1..];
    assert s == s[..i] + "\n" + rest;
    if rest != [] {
      assert s[|s| - 1] == rest[|rest| - 1];
    }
  }

  /** A character of the text that is not a line break belongs to some line. */
  lemma {:induction false} SplitLinesKeepsChars(s: string, p: nat)
    requires p < |s| && s[p] != '\n'
    ensures exists k :: 0 <= k < |SplitLines(s)| && s[p] in SplitLines(s)[k]
    decreases |s|
  {
    var ls := SplitLines(s);
    match FindNewline(s)
    case None =>
      assert ls == [s];
      assert s[p] in ls[0];
    case Some(i) =>
      var rest := s[i + 1..];
      assert ls == [s[..i]] + SplitLines(rest);
      if p < i {
        assert s[p] == s[..i][p];
        assert s[p] in ls[0];
      } else {
        assert p > i;
        assert s[p] == rest[p - i - 1];
        SplitLinesKeepsChars(rest, p - i - 1);
        var k :| 0 <= k < |SplitLines(rest)| && s[p] in SplitLines(rest)[k];
        assert ls[k + 1] == SplitLines(rest)[k];
        assert s[p] in ls[k + 1];
      }
  }

  // ---------------------------------------------------------------------------
  // Linear search
  // ---------------------------------------------------------------------------

  /** Linear search from the front: the first index whose element
      satisfies P. */
  function FirstWhere<T>(xs: seq<T>, P: T -> bool): (r: Option<nat>)
    ensures r.Some? ==> r.value < |xs| && P(xs[r.value])
    ensures r.Some? ==> forall k :: 0 <= k < r.value ==> !P(xs[k])
    ensures r.None? ==> forall k :: 0 <= k < |xs| ==> !P(xs[k])
  {
    if xs == [] then None
    else if P(xs[0]) then Some(0)
    else
      var r := FirstWhere(xs[1..], P);
      if r.None? then None else Some(r.value + 1)
  }

  /** Linear search from the back: the last index whose element satisfies P. */
  function LastWhere<T>(xs: seq<T>, P: T -> bool): (r: Option<nat>)
    ensures r.Some? ==> r.value < |xs| && P(xs[r.value])
    ensures r.Some? ==> forall k :: r.value < k < |xs| ==> !P(xs[k])
    ensures r.None? ==> forall k :: 0 <= k < |xs| ==> !P(xs[k])
  {
    if xs == [] then None
    else if P(xs[|xs| - 1]) then Some(|xs| - 1)
    else
      var r := LastWhere(xs[..|xs| - 1], P);
      assert forall k :: 0 <= k < |xs| - 1 ==> xs[k] == xs[..|xs| - 1][k];
      r
  }

  /** The front search finds k when k satisfies P and nothing before it does. */
  lemma FirstWhereIs<T>(xs: seq<T>, P: T -> bool, k: nat)
    requires k < |xs| && P(xs[k])
    requires forall j :: 0 <= j < k ==> !P(xs[j])
    ensures FirstWhere(xs, P) == Some(k)
  {
    var r := FirstWhere(xs, P);
    assert r.Some?;
    assert !(r.value < k) && !(k < r.value);
  }

  /** The back search finds k when k satisfies P and nothing after it does. */
  lemma LastWhereIs<T>(xs: seq<T>, P: T -> bool, k: nat)
    requires k < |xs| && P(xs[k])
    requires forall j :: k < j < |xs| ==> !P(xs[j])
    ensures LastWhere(xs, P) == Some(k)
  {
    var r := LastWhere(xs, P);
    assert r.Some?;
    assert !(r.value < k) && !(k < r.value);
  }

  /** Every element satisfies `P`. */
  predicate All<T>(xs: seq<T>, P: T -> bool)
  {
    forall k :: 0 <= k < |xs| ==> P(xs[k])
  }

  /** All elements satisfy `P` exactly when all but the last do and the last
      one does. */
  lemma AllSnoc<T>(xs: seq<T>, P: T -> bool)
    requires xs != []
    ensures All(xs, P) <==> All(xs[..|xs| - 1], P) && P(xs[|xs| - 1])
  {
    var init := xs[..|xs| - 1];
    assert forall k :: 0 <= k < |init| ==> init[k] == xs[k];
  }
}
