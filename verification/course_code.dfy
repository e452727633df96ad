/** `_extract_course_code`: the catalog code of a course, read from its
    display name by `re.search(r'([A-Z]{2,4})\s+(\d{5})', name)`, falling
    back to the text before the first `" - "`, and then to the name itself.

    The regular expression is modelled by hand. `MatchAt` is the declarative
    meaning of one match; `Search` is the scan `re.search` performs, trying
    each start position from the left. At a fixed start there is at most one
    match (`MatchAtUnique`), so backtracking order inside the pattern cannot
    change which match is found. */
module CourseCode {
  import opened Wrappers
  import opened Text

  /** The separator whose first occurrence ends the fallback code. */
  const Separator: string := " - "

  /** A match of `([A-Z]{2,4})\s+(\d{5})` in `s` starting at `start`, whose
      first group has `letters` characters and whose `\s+` consumes `gap`. */
  ghost predicate MatchAt(s: string, start: int, letters: int, gap: int) {
    && 0 <= start
    && 2 <= letters <= 4
    && 1 <= gap
    && start + letters + gap + 5 <= |s|
    && (forall i :: start <= i < start + letters ==> IsUpper(s[i]))
    && (forall i :: start + letters <= i < start + letters + gap ==> IsSpace(s[i]))
    && (forall i :: start + letters + gap <= i < start + letters + gap + 5 ==> IsDigit(s[i]))
  }

  /** The pattern matches somewhere starting at `start`. */
  ghost predicate MatchesFrom(s: string, start: int) {
    exists letters, gap :: MatchAt(s, start, letters, gap)
  }

  /** The pattern matches somewhere in `s`: `re.search` returns a match. */
  ghost predicate HasMatch(s: string) {
    exists start :: MatchesFrom(s, start)
  }

  /** Where a match sits in the searched string. */
  datatype Span = Span(start: nat, letters: nat, gap: nat) {
    /** The end of the letters, where `\s+` begins. */
    function LettersEnd(): nat { start + letters }
    /** The start of the five digits. */
    function DigitsStart(): nat { start + letters + gap }
  }

  /** `[A-Z]`, `\s` and `\d` are pairwise disjoint. */
  lemma ClassesDisjoint(c: char)
    ensures !(IsUpper(c) && IsSpace(c))
    ensures !(IsDigit(c) && IsSpace(c))
    ensures !(IsUpper(c) && IsDigit(c))
  {
  }

  /** The number of consecutive characters of `s` satisfying `p`, from `from`:
      how far a greedy `p+` or `p{…}` can reach. */
  function Run(s: string, from: nat, p: char -> bool): (n: nat)
    requires from <= |s|
    ensures from + n <= |s|
    ensures forall i :: from <= i < from + n ==> p(s[i])
    ensures from + n == |s| || !p(s[from + n])
    decreases |s| - from
  {
    if from < |s| && p(s[from]) then 1 + Run(s, from + 1, p) else 0
  }

  /** A run is determined by where it stops: if `n` characters satisfy `p`
      and the next one does not (or the string ends), `Run` is `n`. */
  lemma {:induction false} RunStopsAt(s: string, from: nat, p: char -> bool, n: nat)
    requires from + n <= |s|
    requires forall i :: from <= i < from + n ==> p(s[i])
    requires from + n == |s| || !p(s[from + n])
    ensures Run(s, from, p) == n
    decreases n
  {
    if n > 0 {
      RunStopsAt(s, from + 1, p, n - 1);
    }
  }

  /** The five characters at `at` are digits. */
  predicate FiveDigitsAt(s: string, at: nat) {
    at + 5 <= |s| && Run(s, at, IsDigit) >= 5
  }

  /** The regular expression tried at one start position: the greedy
      `[A-Z]{2,4}` can only be followed by whitespace if it took the whole
      run of capitals, and `\s+` can only be followed by a digit if it took
      the whole run of whitespace. */
  function MatchHere(s: string, start: nat): (m: Option<Span>)
    requires start <= |s|
    ensures m.Some? ==> m.value.start == start
    ensures m.Some? ==> MatchAt(s, start, m.value.letters, m.value.gap)
    ensures m.None? ==> !MatchesFrom(s, start)
  {
    MatchFollowsRuns(s, start);
    var letters := Run(s, start, IsUpper);
    if letters < 2 || 4 < letters || start + letters == |s| then None
    else
      var gap := Run(s, start + letters, IsSpace);
      if gap == 0 || !FiveDigitsAt(s, start + letters + gap) then None
      else Some(Span(start, letters, gap))
  }

  /** Why `MatchHere` may give up: any match at `start` takes exactly the run
      of capitals, then exactly the run of whitespace, then five digits. */
  lemma MatchFollowsRuns(s: string, start: nat)
    requires start <= |s|
    ensures forall k, w :: MatchAt(s, start, k, w) ==>
              && Run(s, start, IsUpper) == k
              && Run(s, start + k, IsSpace) == w
              && FiveDigitsAt(s, start + k + w)
  {
    forall k, w | MatchAt(s, start, k, w)
      ensures Run(s, start, IsUpper) == k
      ensures Run(s, start + k, IsSpace) == w
      ensures FiveDigitsAt(s, start + k + w)
    {
      ClassesDisjoint(s[start + k]);
      RunStopsAt(s, start, IsUpper, k);
      ClassesDisjoint(s[start + k + w]);
      RunStopsAt(s, start + k, IsSpace, w);
      DigitsRun(s, start + k + w);
    }
  }

  /** Five digits make a digit run of at least five. */
  lemma DigitsRun(s: string, at: nat)
    requires at + 5 <= |s|
    requires forall i :: at <= i < at + 5 ==> IsDigit(s[i])
    ensures FiveDigitsAt(s, at)
  {
  }

  /** A run of five capitals never starts a match: `[A-Z]{2,4}` must stop
      before whitespace, and the fifth capital is not whitespace. */
  lemma NoMatchInCapitalRun(s: string, start: nat)
    requires start + 5 <= |s|
    requires forall i :: start <= i < start + 5 ==> IsUpper(s[i])
    ensures !MatchesFrom(s, start)
  {
    if MatchesFrom(s, start) {
      var k, w :| MatchAt(s, start, k, w);
      ClassesDisjoint(s[start + k]);
    }
  }

  /** A name in which no two capitals are adjacent has no match. */
  lemma NoMatchWithoutCapitalPair(s: string)
    requires forall i :: 0 <= i < |s| - 1 ==> !IsUpper(s[i]) || !IsUpper(s[i + 1])
    ensures !HasMatch(s)
  {
    if HasMatch(s) {
      var j :| MatchesFrom(s, j);
      var k, w :| MatchAt(s, j, k, w);
      MatchStartsWithCapitalPair(s, j, k, w);
      assert false;
    }
  }

  /** Every match starts with two adjacent capitals. */
  lemma MatchStartsWithCapitalPair(s: string, start: int, letters: int, gap: int)
    requires MatchAt(s, start, letters, gap)
    ensures start + 1 < |s| && IsUpper(s[start]) && IsUpper(s[start + 1])
  {
  }

  /** The middle character of an occurrence of the separator is its dash. */
  lemma SeparatorHasDash(s: string, j: int)
    requires OccursAt(s, Separator, j)
    ensures s[j + 1] == '-'
  {
    assert s[j..j + 3][1] == Separator[1];
  }

  /** At a fixed start the pattern matches in at most one way. */
  lemma MatchAtUnique(s: string, start: int, k1: int, w1: int, k2: int, w2: int)
    requires MatchAt(s, start, k1, w1) && MatchAt(s, start, k2, w2)
    ensures k1 == k2 && w1 == w2
  {
    if k1 < k2 {
      ClassesDisjoint(s[start + k1]);
    } else if k2 < k1 {
      ClassesDisjoint(s[start + k2]);
    } else if w1 < w2 {
      ClassesDisjoint(s[start + k1 + w1]);
    } else if w2 < w1 {
      ClassesDisjoint(s[start + k1 + w2]);
    }
  }

  /** `re.search` from position `from`: the leftmost start at or after
      `from` where the pattern matches. */
  function SearchFrom(s: string, from: nat): (m: Option<Span>)
    requires from <= |s|
    ensures m.Some? ==> from <= m.value.start
    ensures m.Some? ==> MatchAt(s, m.value.start, m.value.letters, m.value.gap)
    ensures m.Some? ==> forall j :: from <= j < m.value.start ==> !MatchesFrom(s, j)
    ensures m.None? ==> forall j :: from <= j ==> !MatchesFrom(s, j)
    decreases |s| - from
  {
    match MatchHere(s, from)
    case Some(span) => Some(span)
    case None => if from == |s| then None else SearchFrom(s, from + 1)
  }

  /** `re.search(pattern, s)`: the leftmost match, or `None` when the pattern
      matches nowhere. */
  function Search(s: string): (m: Option<Span>)
    ensures m.Some? <==> HasMatch(s)
    ensures m.Some? ==> MatchAt(s, m.value.start, m.value.letters, m.value.gap)
    ensures m.Some? ==> forall j :: 0 <= j < m.value.start ==> !MatchesFrom(s, j)
  {
    var m := SearchFrom(s, 0);
    assert m.Some? ==> MatchesFrom(s, m.value.start);
    assert HasMatch(s) ==> m.Some? by {
      if HasMatch(s) {
        var j :| MatchesFrom(s, j);
        var k, w :| MatchAt(s, j, k, w);
      }
    }
    m
  }

  /** `f"{match.group(1)} {match.group(2)}"`. */
  function Render(s: string, m: Span): string
    requires MatchAt(s, m.start, m.letters, m.gap)
  {
    s[m.start..m.LettersEnd()] + " " + s[m.DigitsStart()..m.DigitsStart() + 5]
  }

  /** A rendered code: two to four capitals, one space, five digits. */
  ghost predicate IsRenderedCode(c: string) {
    |c| >= 8 && MatchAt(c, 0, |c| - 6, 1) && c[|c| - 6] == ' '
  }

  /** `_extract_course_code(name)`. The result is never longer than the name,
      and is either a rendered code or a prefix of the name. */
  function ExtractCourseCode(name: string): (code: string)
    ensures |code| <= |name|
    ensures IsRenderedCode(code) || code <= name
  {
    match Search(name)
    case Some(m) =>
      RenderIsRenderedCode(name, m);
      Render(name, m)
    case None =>
      match Find(name, Separator)
      case Some(i) => name[..i]
      case None => name
  }

  /** `re.search` returns the leftmost match, and at its start the only one. */
  lemma SearchFindsLeftmost(s: string, start: nat, letters: nat, gap: nat)
    requires MatchAt(s, start, letters, gap)
    requires forall j :: 0 <= j < start ==> !MatchesFrom(s, j)
    ensures Search(s) == Some(Span(start, letters, gap))
  {
    assert MatchesFrom(s, start);
    var m := Search(s).value;
    assert MatchesFrom(s, m.start);
    MatchAtUnique(s, start, m.letters, m.gap, letters, gap);
  }

  /** When the pattern matches, the code is the leftmost match rendered as
      letters, one space, digits: any run of whitespace collapses to one
      space and digits after the fifth are ignored. */
  lemma CodeFromPattern(name: string, start: nat, letters: nat, gap: nat)
    requires MatchAt(name, start, letters, gap)
    requires forall j :: 0 <= j < start ==> !MatchesFrom(name, j)
    ensures ExtractCourseCode(name)
            == name[start..start + letters] + " "
               + name[start + letters + gap..start + letters + gap + 5]
  {
    SearchFindsLeftmost(name, start, letters, gap);
    assert ExtractCourseCode(name) == Render(name, Span(start, letters, gap));
  }

  /** Without a pattern match, a name containing `" - "` yields exactly the
      text before the first `" - "`. */
  lemma CodeFromSeparator(name: string, i: nat)
    requires !HasMatch(name)
    requires OccursAt(name, Separator, i)
    requires forall j :: 0 <= j < i ==> !OccursAt(name, Separator, j)
    ensures ExtractCourseCode(name) == name[..i]
  {
    var f := Find(name, Separator);
    assert f.Some? by { assert Contains(name, Separator); }
    if f.value < i {
    } else if f.value > i {
    }
  }

  /** With neither a pattern match nor `" - "`, the name is its own code. */
  lemma CodeUnchanged(name: string)
    requires !HasMatch(name)
    requires !Contains(name, Separator)
    ensures ExtractCourseCode(name) == name
  {
  }

  /** Every part of a prefix is part of the whole: a match or a separator in
      a prefix of `s` is one in `s`. */
  lemma PrefixMatches(s: string, n: nat, start: int, letters: int, gap: int)
    requires n <= |s|
    requires MatchAt(s[..n], start, letters, gap)
    ensures MatchAt(s, start, letters, gap)
  {
    var p := s[..n];
    forall i | start <= i < start + letters + gap + 5
      ensures p[i] == s[i]
    {
    }
  }

  /** A rendered code is found at position 0 and renders to itself. */
  lemma RenderedCodeIsFixed(c: string)
    requires IsRenderedCode(c)
    ensures ExtractCourseCode(c) == c
  {
    var k := |c| - 6;
    var rendered := c[0..k] + " " + c[k + 1..k + 6];
    assert rendered == c by {
      assert c == c[0..k] + [c[k]] + c[k + 1..k + 6];
    }
    CodeFromPattern(c, 0, k, 1);
  }

  /** What `Render` produces is a rendered code. */
  lemma RenderIsRenderedCode(s: string, m: Span)
    requires MatchAt(s, m.start, m.letters, m.gap)
    ensures IsRenderedCode(Render(s, m))
  {
    var code := Render(s, m);
    assert |code| == m.letters + 6;
    forall i | 0 <= i < m.letters ensures IsUpper(code[i]) {
      assert code[i] == s[m.start + i];
    }
    forall i | m.letters + 1 <= i < m.letters + 6 ensures IsDigit(code[i]) {
      assert code[i] == s[m.DigitsStart() + i - m.letters - 1];
    }
  }

  /** The text before the first separator of a name without a pattern match
      has neither a match nor a separator. */
  lemma PrefixBeforeSeparatorIsFixed(name: string, i: nat)
    requires !HasMatch(name)
    requires Find(name, Separator) == Some(i)
    ensures ExtractCourseCode(name[..i]) == name[..i]
  {
    var code := name[..i];
    assert !HasMatch(code) by {
      if HasMatch(code) {
        var j, k, w :| MatchAt(code, j, k, w);
        PrefixMatches(name, i, j, k, w);
        assert MatchesFrom(name, j);
        assert false;
      }
    }
    assert !Contains(code, Separator) by {
      if Contains(code, Separator) {
        var j :| OccursAt(code, Separator, j);
        assert name[j..j + 3] == code[j..j + 3];
        assert OccursAt(name, Separator, j);
        assert false;
      }
    }
    CodeUnchanged(code);
  }

  /** `_extract_course_code` is idempotent. */
  lemma {:induction false} ExtractCourseCodeIdempotent(name: string)
    ensures ExtractCourseCode(ExtractCourseCode(name)) == ExtractCourseCode(name)
  {
    match Search(name)
    case Some(m) =>
      RenderIsRenderedCode(name, m);
      RenderedCodeIsFixed(Render(name, m));
    case None =>
      match Find(name, Separator)
      case Some(i) =>
        PrefixBeforeSeparatorIsFixed(name, i);
      case None =>
  }
}
