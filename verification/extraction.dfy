/** `get_courses` and `get_assignments`: load a page, then build one record
    per matching element, skipping an element whose processing raises
    without giving up on the others; any failure before the loop gives the
    empty list.

    `Collect` is that loop as a fold. Its lemmas are the resilience policy:
    the result holds exactly the records of the elements that succeeded, in
    their order, and a failing element changes nothing about the rest. */
module Extraction {
  import opened Wrappers
  import opened Text
  import opened CourseCode
  import opened CourseUrl
  import opened Records

  /** A page after navigation and the waits before the loop: either one of
      them raised or timed out, or the elements `query_selector_all` found. */
  datatype Page<+T> = Unreachable | Loaded(elements: seq<Element<T>>)

  /** What one element contributes to the output list. */
  function Kept<T, E>(r: Result<T, E>): seq<T> {
    match r
    case Success(v) => [v]
    case Failure(_) => []
  }

  /** The tolerant loop over `xs`: the successful results of `build`, in
      order; failures are dropped. */
  function Collect<X, T, E>(xs: seq<X>, build: X -> Result<T, E>): (out: seq<T>)
    ensures |out| <= |xs|
  {
    if |xs| == 0 then []
    else Collect(xs[..|xs| - 1], build) + Kept(build(xs[|xs| - 1]))
  }

  /** The positions of the elements that succeeded, in increasing order,
      each paired with the record at the same place in `Collect`: the
      output is exactly the successful elements, as an ordered subsequence. */
  function KeptIndices<X, T, E>(xs: seq<X>, build: X -> Result<T, E>): (idx: seq<nat>)
    ensures |idx| == |Collect(xs, build)|
    ensures forall j :: 0 <= j < |idx| ==>
              idx[j] < |xs| && build(xs[idx[j]]) == Success(Collect(xs, build)[j])
    ensures forall j, k :: 0 <= j < k < |idx| ==> idx[j] < idx[k]
    ensures forall i :: 0 <= i < |xs| && build(xs[i]).Success? ==> i in idx
  {
    if |xs| == 0 then []
    else
      var n := |xs| - 1;
      var front := xs[..n];
      assert forall i :: 0 <= i < n ==> front[i] == xs[i];
      KeptIndices(front, build) + (if build(xs[n]).Success? then [n] else [])
  }

  /** One more element extends the loop's output by what it contributes. */
  lemma CollectStep<X, T, E>(xs: seq<X>, i: nat, build: X -> Result<T, E>)
    requires i < |xs|
    ensures Collect(xs[..i + 1], build) == Collect(xs[..i], build) + Kept(build(xs[i]))
  {
    assert xs[..i + 1][..i] == xs[..i];
  }

  /** The loop over a concatenation is the concatenation of the loops. */
  lemma {:induction false} CollectAppend<X, T, E>(a: seq<X>, b: seq<X>, build: X -> Result<T, E>)
    ensures Collect(a + b, build) == Collect(a, build) + Collect(b, build)
    decreases |b|
  {
    if |b| > 0 {
      var n := |b| - 1;
      assert (a + b)[..|a + b| - 1] == a + b[..n];
      CollectAppend(a, b[..n], build);
    } else {
      assert a + b == a;
    }
  }

  /** Failure isolation: an element whose processing raises is skipped, and
      the elements before and after it are kept as if it were not there. */
  lemma CollectSkipsFailure<X, T, E>(a: seq<X>, x: X, b: seq<X>, build: X -> Result<T, E>)
    requires build(x).Failure?
    ensures Collect(a + [x] + b, build) == Collect(a, build) + Collect(b, build)
  {
    CollectAppend(a + [x], b, build);
    assert (a + [x])[..|a|] == a;
    assert Collect(a + [x], build) == Collect(a, build);
  }

  /** When every element succeeds, the output has one record per element,
      in the same order. */
  lemma {:induction false} CollectAllSucceed<X, T, E>(xs: seq<X>, build: X -> Result<T, E>)
    requires forall i :: 0 <= i < |xs| ==> build(xs[i]).Success?
    ensures |Collect(xs, build)| == |xs|
    ensures forall i :: 0 <= i < |xs| ==> build(xs[i]) == Success(Collect(xs, build)[i])
    decreases |xs|
  {
    if |xs| > 0 {
      var n := |xs| - 1;
      CollectAllSucceed(xs[..n], build);
    }
  }

  /** N elements of which only element `k` raises give N-1 records: those of
      the other elements, in their order. */
  lemma CollectOneFailure<X, T, E>(xs: seq<X>, k: nat, build: X -> Result<T, E>)
    requires k < |xs|
    requires build(xs[k]).Failure?
    requires forall i :: 0 <= i < |xs| && i != k ==> build(xs[i]).Success?
    ensures |Collect(xs, build)| == |xs| - 1
    ensures forall i :: 0 <= i < k ==> build(xs[i]) == Success(Collect(xs, build)[i])
    ensures forall i :: k < i < |xs| ==> build(xs[i]) == Success(Collect(xs, build)[i - 1])
  {
    var a, b := xs[..k], xs[k + 1..];
    assert xs == a + [xs[k]] + b;
    CollectSkipsFailure(a, xs[k], b, build);
    CollectAllSucceed(a, build);
    CollectAllSucceed(b, build);
    CollectAppend(a, b, build);
  }

  /** A record is in the output exactly when some element built it. */
  lemma CollectMembership<X, T, E>(xs: seq<X>, build: X -> Result<T, E>, y: T)
    ensures y in Collect(xs, build) <==> exists i :: 0 <= i < |xs| && build(xs[i]) == Success(y)
  {
    var out := Collect(xs, build);
    var idx := KeptIndices(xs, build);
    if y in out {
      var j :| 0 <= j < |out| && out[j] == y;
      assert build(xs[idx[j]]) == Success(y);
    }
    if exists i :: 0 <= i < |xs| && build(xs[i]) == Success(y) {
      var i :| 0 <= i < |xs| && build(xs[i]) == Success(y);
      assert i in idx;
      var j :| 0 <= j < |idx| && idx[j] == i;
      assert out[j] == y;
    }
  }

  /** The per-element `for` loop with its `try`/`except ... continue`: each
      element's record is appended when building it succeeds, and the
      element is skipped when building it raises. */
  method TolerantLoop<X, T, E>(xs: seq<X>, build: X -> Result<T, E>) returns (out: seq<T>)
    ensures out == Collect(xs, build)
  {
    out := [];
    var i := 0;
    while i < |xs|
      invariant i <= |xs|
      invariant out == Collect(xs[..i], build)
    {
      CollectStep(xs, i, build);
      match build(xs[i]) {
        case Success(record) =>
          out := out + [record];
        case Failure(_) =>
      }
      i := i + 1;
    }
    assert xs[..|xs|] == xs;
  }

  /** `get_courses()` on a page. */
  method GetCourses(page: Page<Node>) returns (courses: seq<Course>)
    ensures page.Unreachable? ==> courses == []
    ensures page.Loaded? ==> courses == Collect(page.elements, BuildCourse)
  {
    match page
    case Unreachable =>
      courses := [];
    case Loaded(elements) =>
      courses := TolerantLoop(elements, BuildCourse);
  }

  /** Every course `get_courses` returns has no instructor and the code of
      its own name, and it comes from one element: its name is that
      element's stripped text and its url that element's `href`, or `""`
      when there is none. */
  lemma CoursesDerivedFields(elements: seq<Element<Node>>, c: Course)
    requires c in Collect(elements, BuildCourse)
    ensures c.instructor == ""
    ensures c.code == ExtractCourseCode(c.name)
    ensures |c.code| <= |c.name|
    ensures exists i :: 0 <= i < |elements| && elements[i].Readable?
                        && elements[i].view.text.Some?
                        && c.name == Strip(elements[i].view.text.value)
                        && c.url == elements[i].view.href.GetOr("")
  {
    CollectMembership(elements, BuildCourse, c);
  }

  /** `get_assignments(course_url)` on the page it reaches from `course_url`,
      after clicking the assignments link when there is one. */
  method GetAssignments(courseUrl: string, page: Page<Row>) returns (assignments: seq<Assignment>)
    ensures page.Unreachable? ==> assignments == []
    ensures page.Loaded? ==> assignments == Collect(page.elements, AssignmentBuilder(courseUrl))
    ensures forall a :: a in assignments ==> a.course == ExtractCourseFromUrl(courseUrl)
  {
    match page
    case Unreachable =>
      assignments := [];
    case Loaded(elements) =>
      var build := AssignmentBuilder(courseUrl);
      assignments := TolerantLoop(elements, build);
      forall a | a in assignments
        ensures a.course == ExtractCourseFromUrl(courseUrl)
      {
        CollectMembership(elements, build, a);
      }
  }
}
