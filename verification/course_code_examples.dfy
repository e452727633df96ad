/** Worked instances of `_extract_course_code`: the example in the source's
    comment and the less obvious consequences of the regular expression.
    Each lemma takes its name as a parameter fixed by `requires` and gets its
    character facts from a separate lemma, because stating them on a string
    literal directly makes the verifier unfold every function on it at once,
    which is too costly. */
module CourseCodeExamples {
  import opened Text
  import opened CourseCode

  /** The example in the source's comment. */
  lemma ExampleSourceComment(name: string)
    requires name == "CS 18000 - Problem Solving"
    ensures ExtractCourseCode(name) == "CS 18000"
  {
    SourceCommentMatches(name);
    SourceCommentRendered(name);
    CodeFromPattern(name, 0, 2, 1);
  }

  /** The code of the source's example, once rendered. */
  lemma SourceCommentRendered(name: string)
    requires name == "CS 18000 - Problem Solving"
    ensures name[0..2] + " " + name[3..8] == "CS 18000"
  {
  }

  /** The code of the source's example sits at the front of the name. */
  lemma SourceCommentMatches(name: string)
    requires name == "CS 18000 - Problem Solving"
    ensures MatchAt(name, 0, 2, 1)
  {
  }

  /** Whitespace collapses to one space; a sixth digit is ignored. */
  lemma ExampleExtraDigit(name: string)
    requires name == "MATH  165001"
    ensures ExtractCourseCode(name) == "MATH 16500"
  {
    ExtraDigitFacts(name);
    CodeFromPattern(name, 0, 4, 2);
  }

  /** The character facts `ExampleExtraDigit` rests on. */
  lemma ExtraDigitFacts(name: string)
    requires name == "MATH  165001"
    ensures MatchAt(name, 0, 4, 2)
    ensures name[0..4] + " " + name[6..11] == "MATH 16500"
  {
  }

  /** Five capitals: the leftmost start that matches is the second one. */
  lemma ExampleFiveCapitals(name: string)
    requires name == "ABCDE 12345"
    ensures ExtractCourseCode(name) == "BCDE 12345"
  {
    FiveCapitalsFacts(name);
    NoMatchInCapitalRun(name, 0);
    CodeFromPattern(name, 1, 4, 1);
  }

  /** The character facts `ExampleFiveCapitals` rests on. */
  lemma FiveCapitalsFacts(name: string)
    requires name == "ABCDE 12345"
    ensures forall i :: 0 <= i < 5 ==> IsUpper(name[i])
    ensures MatchAt(name, 1, 4, 1)
    ensures name[1..5] + " " + name[6..11] == "BCDE 12345"
  {
  }

  /** Without a catalog code the text before `" - "` is the code. */
  lemma ExampleSeparator(name: string)
    requires name == "Data Structures - Section A"
    ensures ExtractCourseCode(name) == "Data Structures"
  {
    SeparatorFacts(name);
    NoMatchWithoutCapitalPair(name);
    CodeFromSeparator(name, 15);
  }

  /** The character facts `ExampleSeparator` rests on. */
  lemma SeparatorFacts(name: string)
    requires name == "Data Structures - Section A"
    ensures forall i :: 0 <= i < |name| - 1 ==> !IsUpper(name[i]) || !IsUpper(name[i + 1])
    ensures OccursAt(name, Separator, 15)
    ensures forall j :: 0 <= j < 15 ==> !OccursAt(name, Separator, j)
    ensures name[..15] == "Data Structures"
  {
    assert forall i :: 0 <= i < |name| && name[i] == '-' ==> i == 16;
    forall j | OccursAt(name, Separator, j) ensures name[j + 1] == '-' {
      SeparatorHasDash(name, j);
    }
  }

  /** With neither, the name is its own code. */
  lemma ExampleUnchanged(name: string)
    requires name == "Senior Design"
    ensures ExtractCourseCode(name) == name
  {
    UnchangedFacts(name);
    NoMatchWithoutCapitalPair(name);
    CodeUnchanged(name);
  }

  /** The character facts `ExampleUnchanged` rests on. */
  lemma UnchangedFacts(name: string)
    requires name == "Senior Design"
    ensures forall i :: 0 <= i < |name| - 1 ==> !IsUpper(name[i]) || !IsUpper(name[i + 1])
    ensures !Contains(name, Separator)
  {
    assert forall i :: 0 <= i < |name| ==> name[i] != '-';
    forall j | OccursAt(name, Separator, j) ensures name[j + 1] == '-' {
      SeparatorHasDash(name, j);
    }
  }
}
