/** The scoring of `fuzzy_match` (`f_fuzzy_match` in src/api/system.rs): a
    string is scored against a pattern position by position, after leading
    white space is trimmed from both.  A character that matches the pattern
    character at the same position, ignoring case, extends the current run and
    earns ten points per character already in the run, less one when the case
    differs; any other character, including one past the end of the pattern,
    costs ten points and ends the run.  A pattern longer than the string has no
    score; otherwise the byte length of the trimmed string is taken off. */
module FuzzyMatch {
  import opened Bytes

  datatype Option<T> = None | Some(value: T)

  /** The Unicode White_Space property, the set `str::trim_start` removes. */
  predicate IsWhitespace(c: char)
  {
    ('\t' <= c <= '\r') || c == ' ' || c == '\U{0085}' || c == '\U{00A0}' || c == '\U{1680}' ||
    ('\U{2000}' <= c <= '\U{200A}') || c == '\U{2028}' || c == '\U{2029}' || c == '\U{202F}' ||
    c == '\U{205F}' || c == '\U{3000}'
  }

  /** `str::trim_start`: the string without its longest all-white-space prefix. */
  function TrimStart(s: seq<char>): (t: seq<char>)
    ensures |t| <= |s| && t == s[|s| - |t|..]
    ensures t == [] || !IsWhitespace(t[0])
  {
    if s != [] && IsWhitespace(s[0]) then TrimStart(s[1..]) else s
  }

  /** What `trim_start` removes is white space, and nothing else. */
  lemma {:induction false} TrimStartRemovesWhitespace(s: seq<char>)
    ensures forall i :: 0 <= i < |s| - |TrimStart(s)| ==> IsWhitespace(s[i])
  {
    if s != [] && IsWhitespace(s[0]) {
      TrimStartRemovesWhitespace(s[1..]);
      forall i | 0 <= i < |s| - |TrimStart(s)|
        ensures IsWhitespace(s[i])
      {
        if i > 0 {
          assert s[i] == s[1..][i - 1];
        }
      }
    }
  }

  /** Leading white space, however much, is trimmed away. */
  lemma {:induction false} TrimStartSkips(w: seq<char>, s: seq<char>)
    requires forall i :: 0 <= i < |w| ==> IsWhitespace(w[i])
    ensures TrimStart(w + s) == TrimStart(s)
    decreases |w|
  {
    if w != [] {
      assert (w + s)[1..] == w[1..] + s;
      TrimStartSkips(w[1..], s);
    } else {
      assert w + s == s;
    }
  }

  /** A case map in the manner of `char::to_lowercase`, which never yields an
      empty sequence.  The Unicode tables themselves are not part of this
      model: the map is a parameter. */
  predicate CaseMapOk(lower: char -> seq<char>)
  {
    forall c :: lower(c) != []
  }

  /** The ASCII part of `to_lowercase`, a case map for the examples. */
  function AsciiLower(c: char): (r: seq<char>)
    ensures |r| == 1
    ensures 'A' <= c <= 'Z' ==> r[0] != c && r[0] as int == c as int + 32
    ensures !('A' <= c <= 'Z') ==> r == [c]
  {
    if 'A' <= c <= 'Z' then [(c as int + 32) as char] else [c]
  }

  /** The running `score` and `run` of the loop. */
  datatype Tally = Tally(score: int, run: int)

  /** One iteration: string character c against the pattern character at the
      same position, if the pattern still has one. */
  function Step(t: Tally, c: char, p: Option<char>, lower: char -> seq<char>): (r: Tally)
    ensures r.run == 0 || r.run == t.run + 1
    ensures t.run >= 0 ==> (r.run > 0 <==> p.Some? && lower(c) == lower(p.value))
  {
    match p
    case Some(q) =>
      if lower(c) == lower(q) then Tally(t.score + t.run * 10 - (if c != q then 1 else 0), t.run + 1)
      else Tally(t.score - 10, 0)
    case None => Tally(t.score - 10, 0)
  }

  /** The pattern character at position i, once the pattern has run out none. */
  function PatternAt(p: seq<char>, i: int): Option<char>
    requires 0 <= i
  {
    if i < |p| then Some(p[i]) else None
  }

  /** The tally after the loop has consumed every character of s. */
  function Tallied(s: seq<char>, p: seq<char>, lower: char -> seq<char>): (r: Tally)
    ensures p == [] ==> r == Tally(-10 * |s|, 0)
  {
    if s == [] then Tally(0, 0)
    else Step(Tallied(s[..|s| - 1], p, lower), s[|s| - 1], PatternAt(p, |s| - 1), lower)
  }

  /** Tallying one more character is one more step. */
  lemma TalliedStep(s: seq<char>, p: seq<char>, lower: char -> seq<char>, i: nat)
    requires i < |s|
    ensures Tallied(s[..i + 1], p, lower) == Step(Tallied(s[..i], p, lower), s[i], PatternAt(p, i), lower)
  {
    assert s[..i + 1][..i] == s[..i];
  }

  /** The score of an already trimmed string s against a trimmed pattern p. */
  function TrimmedScore(s: seq<char>, p: seq<char>, lower: char -> seq<char>): Option<int>
  {
    if |p| > |s| then None else Some(Tallied(s, p, lower).score - ByteLength(s))
  }

  /** The value `fuzzy_match(str, ptn)` returns to the script, if any. */
  function Score(str: seq<char>, ptn: seq<char>, lower: char -> seq<char>): (r: Option<int>)
    ensures r.None? <==> |TrimStart(ptn)| > |TrimStart(str)|
  {
    TrimmedScore(TrimStart(str), TrimStart(ptn), lower)
  }

  /** The loop of `f_fuzzy_match` over an already trimmed string s and pattern
      p, advancing the pattern iterator once per character of s. */
  method MatchTrimmed(s: seq<char>, p: seq<char>, lower: char -> seq<char>) returns (result: Option<int>)
    requires CaseMapOk(lower)
    ensures result == TrimmedScore(s, p, lower)
  {
    var score, run := 0, 0;
    var next := 0;
    var i := 0;
    while i < |s|
      invariant 0 <= i <= |s| && next == if i < |p| then i else |p|
      invariant Tally(score, run) == Tallied(s[..i], p, lower)
    {
      var c := s[i];
      var q: Option<char> := None;
      if next < |p| {
        q := Some(p[next]);
        next := next + 1;
      }
      var folded := if q.Some? then lower(q.value) else [];
      if lower(c) == folded {
        score := score + run * 10 - (if c != q.value then 1 else 0);
        run := run + 1;
      } else {
        score := score - 10;
        run := 0;
      }
      TalliedStep(s, p, lower, i);
      i := i + 1;
    }
    assert s[..i] == s;
    if next < |p| {
      return None;
    }
    result := Some(score - ByteLength(s));
  }

  /** `f_fuzzy_match` without the script-host plumbing: both arguments are
      trimmed, then the string is scored against the pattern. */
  method FuzzyMatch(str: seq<char>, ptn: seq<char>, lower: char -> seq<char>) returns (result: Option<int>)
    requires CaseMapOk(lower)
    ensures result == Score(str, ptn, lower)
    ensures result.None? <==> |TrimStart(ptn)| > |TrimStart(str)|
  {
    var s := TrimStart(str);
    var p := TrimStart(ptn);
    result := MatchTrimmed(s, p, lower);
  }

  /** Leading white space of the string or of the pattern does not change the score. */
  lemma LeadingWhitespaceIgnored(w: seq<char>, str: seq<char>, ptn: seq<char>, lower: char -> seq<char>)
    requires forall i :: 0 <= i < |w| ==> IsWhitespace(w[i])
    ensures Score(w + str, ptn, lower) == Score(str, ptn, lower)
    ensures Score(str, w + ptn, lower) == Score(str, ptn, lower)
  {
    TrimStartSkips(w, str);
    TrimStartSkips(w, ptn);
  }

  /** Scoring a string against itself: every position matches exactly, so the
      run grows by one per character and the score is 10 * (0 + 1 + ... + (n-1)). */
  lemma {:induction false} TalliedSelf(s: seq<char>, p: seq<char>, lower: char -> seq<char>)
    requires |s| <= |p| && s == p[..|s|]
    ensures Tallied(s, p, lower) == Tally(5 * |s| * (|s| - 1), |s|)
  {
    if s != [] {
      var n := |s|;
      TalliedSelf(s[..n - 1], p, lower);
      assert 5 * n * (n - 1) == 5 * (n - 1) * (n - 2) + (n - 1) * 10;
    }
  }

  /** Any pattern scores at least -10 and at most 10 * (run so far) per
      character: the tally of n characters lies between -10n and 5n(n-1), and
      the run never exceeds n. */
  lemma {:induction false} TalliedBounds(s: seq<char>, p: seq<char>, lower: char -> seq<char>)
    ensures 0 <= Tallied(s, p, lower).run <= |s|
    ensures -10 * |s| <= Tallied(s, p, lower).score <= 5 * |s| * (|s| - 1)
  {
    if s != [] {
      var n := |s|;
      var t := Tallied(s[..n - 1], p, lower);
      TalliedBounds(s[..n - 1], p, lower);
      assert t.run * 10 <= (n - 1) * 10;
      assert 5 * n * (n - 1) == 5 * (n - 1) * (n - 2) + (n - 1) * 10;
      assert t.score + t.run * 10 - 1 >= -10 * n;
    }
  }

  /** A perfect match: a string scored against itself gets 5n(n-1) less its
      byte length, n being its length after trimming. */
  lemma PerfectMatch(str: seq<char>, lower: char -> seq<char>)
    ensures var s := TrimStart(str);
      Score(str, str, lower) == Some(5 * |s| * (|s| - 1) - ByteLength(s))
  {
    var s := TrimStart(str);
    TalliedSelf(s, s, lower);
  }

  /** No pattern scores better against a string than the string itself. */
  lemma ExactMatchIsBest(str: seq<char>, ptn: seq<char>, lower: char -> seq<char>)
    requires Score(str, ptn, lower).Some?
    ensures Score(str, ptn, lower).value <= Score(str, str, lower).value
  {
    var s := TrimStart(str);
    TalliedBounds(s, TrimStart(ptn), lower);
    PerfectMatch(str, lower);
  }

  /** Matching is positional, not by subsequence: the pattern [q] is not found
      in [c, q] when c differs from q, and both characters cost ten points. */
  lemma PositionalMiss(c: char, q: char, lower: char -> seq<char>)
    requires !IsWhitespace(c) && !IsWhitespace(q) && lower(c) != lower(q)
    ensures Score([c, q], [q], lower) == Some(-20 - CharLength(c) - CharLength(q))
  {
    var s := [c, q];
    assert TrimStart(s) == s && TrimStart([q]) == [q];
    assert s[..1] == [c] && [c][..0] == [];
    assert Tallied([c], [q], lower) == Tally(-10, 0);
    assert Tallied(s, [q], lower) == Tally(-20, 0);
    assert ByteLength([c]) == CharLength(c);
    assert ByteLength(s) == CharLength(c) + CharLength(q);
  }

  /** One character against one: no points for a match (the run was empty),
      one point off for a difference of case only, ten off for a miss; then
      the character's UTF-8 length is taken off. */
  lemma SingleCharacter(c: char, q: char, lower: char -> seq<char>)
    requires !IsWhitespace(c) && !IsWhitespace(q)
    ensures Score([c], [q], lower) ==
      Some((if lower(c) != lower(q) then -10 else if c != q then -1 else 0) - CharLength(c))
  {
    assert TrimStart([c]) == [c] && TrimStart([q]) == [q];
    assert [c][..0] == [];
    assert Tallied([c], [q], lower) == Step(Tally(0, 0), c, Some(q), lower);
    assert ByteLength([c]) == CharLength(c);
  }
}
