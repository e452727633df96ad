/** `_extract_course_from_url`: the course that assignments belong to,
    read from the `course_url` argument of `get_assignments` as the first `/`-separated segment whose
    lower-case form contains `"course"`, or the sentinel `"Unknown Course"`. */
module CourseUrl {
  import opened Wrappers
  import opened Text

  /** The value returned when no segment names a course. */
  const UnknownCourse: string := "Unknown Course"

  /** The substring that marks a course segment, compared in lower case. */
  const Marker: string := "course"

  /** `'course' in part.lower()`. */
  predicate MentionsCourse(part: string) {
    Find(Lower(part), Marker).Some?
  }

  /** The index of the first part that mentions a course, if any. */
  function FirstMention(parts: seq<string>): (r: Option<nat>)
    ensures r.Some? ==> r.value < |parts| && MentionsCourse(parts[r.value])
    ensures r.Some? ==> forall j :: 0 <= j < r.value ==> !MentionsCourse(parts[j])
    ensures r.None? ==> forall j :: 0 <= j < |parts| ==> !MentionsCourse(parts[j])
  {
    if |parts| == 0 then None
    else if MentionsCourse(parts[0]) then Some(0)
    else match FirstMention(parts[1..])
      case Some(i) => Some(i + 1)
      case None => None
  }

  /** `_extract_course_from_url(url)`. Whatever it returns is a single path
      segment, free of `/`, that mentions a course: the sentinel does too. */
  function ExtractCourseFromUrl(url: string): (r: string)
    ensures '/' !in r
    ensures MentionsCourse(r)
  {
    var parts := Split(url, '/');
    match FirstMention(parts)
    case Some(i) => parts[i]
    case None => SentinelMentionsCourse(); UnknownCourse
  }

  /** The sentinel is itself a course segment: `"unknown course"` contains
      `"course"`, so a caller cannot tell it from a URL segment by content. */
  lemma SentinelMentionsCourse()
    ensures MentionsCourse(UnknownCourse)
    ensures '/' !in UnknownCourse
  {
    var lowered := Lower(UnknownCourse);
    assert lowered[8..14] == Marker;
    assert OccursAt(lowered, Marker, 8);
  }

  /** The result is the first segment that mentions a course. */
  lemma CourseFromFirstMention(url: string, i: nat)
    requires i < |Split(url, '/')|
    requires MentionsCourse(Split(url, '/')[i])
    requires forall j :: 0 <= j < i ==> !MentionsCourse(Split(url, '/')[j])
    ensures ExtractCourseFromUrl(url) == Split(url, '/')[i]
  {
    var parts := Split(url, '/');
    var f := FirstMention(parts);
    assert f.Some?;
    if f.value < i {
    } else if f.value > i {
    }
  }

  /** When no segment mentions a course, the result is the sentinel. */
  lemma CourseFromNoMention(url: string)
    requires forall j :: 0 <= j < |Split(url, '/')| ==> !MentionsCourse(Split(url, '/')[j])
    ensures ExtractCourseFromUrl(url) == UnknownCourse
  {
  }

  /** A segment found in the URL is a substring of the URL. */
  lemma FoundSegmentOccursInUrl(url: string)
    requires FirstMention(Split(url, '/')).Some?
    ensures Contains(url, ExtractCourseFromUrl(url))
  {
    var parts := Split(url, '/');
    JoinSplit(url, '/');
    PieceOccursInJoin(parts, '/', FirstMention(parts).value);
  }

  /** A URL with no `course` in any letter case gives the sentinel. */
  lemma NoCourseInUrl(url: string)
    requires !Contains(Lower(url), Marker)
    ensures ExtractCourseFromUrl(url) == UnknownCourse
  {
    var parts := Split(url, '/');
    var f := FirstMention(parts);
    if f.Some? {
      FoundSegmentOccursInUrl(url);
      var p :| OccursAt(url, parts[f.value], p);
      MentionInsideMentions(url, parts[f.value], p);
    }
  }

  /** A string that has a course-mentioning substring mentions a course. */
  lemma MentionInsideMentions(s: string, part: string, p: nat)
    requires OccursAt(s, part, p)
    requires MentionsCourse(part)
    ensures Contains(Lower(s), Marker)
  {
    var q := Find(Lower(part), Marker).value;
    LowerOccurs(s, part, p);
    OccursWithin(Lower(s), Lower(part), Marker, p, q);
  }

  /** An occurrence inside an occurrence is an occurrence. */
  lemma OccursWithin(s: string, part: string, pat: string, p: nat, q: nat)
    requires OccursAt(s, part, p)
    requires OccursAt(part, pat, q)
    ensures OccursAt(s, pat, p + q)
  {
    forall k | 0 <= k < |pat| ensures s[p + q + k] == pat[k] {
      assert s[p..p + |part|][q + k] == part[q + k];
      assert part[q..q + |pat|][k] == pat[k];
    }
    assert s[p + q..p + q + |pat|] == pat;
  }

  /** Lower-casing commutes with taking a substring. */
  lemma LowerOccurs(s: string, part: string, p: nat)
    requires OccursAt(s, part, p)
    ensures OccursAt(Lower(s), Lower(part), p)
  {
    var ls := Lower(s);
    forall k | 0 <= k < |part| ensures ls[p + k] == Lower(part)[k] {
      assert s[p + k] == part[k];
    }
    assert ls[p..p + |part|] == Lower(part);
  }
}
