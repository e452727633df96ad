/** The records the scraper produces and how one DOM element becomes one
    record. The browser is not modelled: an element is given by what reading
    it yields, and any exception raised while reading it is one outcome. */
module Records {
  import opened Wrappers
  import opened Text
  import opened CourseCode
  import opened CourseUrl

  /** A course as the scraper reports it. */
  datatype Course = Course(name: string, code: string, instructor: string, url: string)

  /** An assignment as the scraper reports it. `url` is `None` where Python
      stores the `None` that `get_attribute("href")` returns for a title
      element without an `href`. */
  datatype Assignment = Assignment(
    title: string,
    dueDate: string,
    course: string,
    status: string,
    url: Option<string>)

  /** What reading a DOM element yields: `text_content()`, which is `None`
      for some nodes, and `get_attribute("href")`. */
  datatype Node = Node(text: Option<string>, href: Option<string>)

  /** One element handle returned by `query_selector_all`, seen from the body
      of the per-element loop: either touching it raises (a detached or
      stale handle, a browser error), or it can be read. */
  datatype Element<+T> = Raises | Readable(view: T)

  /** An `.assignment-row` element: the result of its three nested
      `query_selector` calls, each of which may find nothing. */
  datatype Row = Row(title: Option<Node>, dueDate: Option<Node>, status: Option<Node>)

  /** Why one element was skipped. */
  datatype SkipReason =
    | ElementRaised   // the browser raised while the element was read
    | NoTextContent   // `text_content()` gave `None`, so `.strip()` raised

  /** Sentinel for a missing title or status. */
  const Unknown: string := "Unknown"

  /** Sentinel for a missing due date. */
  const NoDueDate: string := "No due date"

  /** `node.text_content().strip()`. */
  function ReadText(node: Node): (r: Result<string, SkipReason>)
    ensures r.Success? <==> node.text.Some?
    ensures r.Failure? ==> r.error == NoTextContent
    ensures r.Success? ==> r.value == Strip(node.text.value)
  {
    match node.text
    case Some(t) => Success(Strip(t))
    case None => Failure(NoTextContent)
  }

  /** `node.text_content().strip() if node else sentinel`. */
  function FieldText(node: Option<Node>, sentinel: string): Result<string, SkipReason>
  {
    match node
    case None => Success(sentinel)
    case Some(n) => ReadText(n)
  }

  /** The body of the `get_courses` loop for one `.course-title` element. */
  function BuildCourse(e: Element<Node>): (r: Result<Course, SkipReason>)
    ensures r.Success? <==> e.Readable? && e.view.text.Some?
    ensures r.Success? ==>
              && r.value.name == Strip(e.view.text.value)
              && r.value.code == ExtractCourseCode(r.value.name)
              && r.value.instructor == ""
              && r.value.url == e.view.href.GetOr("")
  {
    match e
    case Raises => Failure(ElementRaised)
    case Readable(node) =>
      match ReadText(node)
      case Failure(why) => Failure(why)
      case Success(name) =>
        Success(Course(name, ExtractCourseCode(name), "", node.href.GetOr("")))
  }

  /** The body of the `get_assignments` loop for one `.assignment-row`
      element of the page reached from `courseUrl`, after clicking the
      assignments link when there is one. The row is skipped when a nested
      element it found has no text. Otherwise each field depends only on its
      own nested element: a missing one gives the field's sentinel, a present
      one its stripped text; the title element alone decides the URL, and
      the `course_url` argument alone decides the course. */
  function BuildAssignment(courseUrl: string, e: Element<Row>): (r: Result<Assignment, SkipReason>)
    ensures r.Success? <==>
              && e.Readable?
              && (e.view.title.Some? ==> e.view.title.value.text.Some?)
              && (e.view.dueDate.Some? ==> e.view.dueDate.value.text.Some?)
              && (e.view.status.Some? ==> e.view.status.value.text.Some?)
    ensures r.Success? ==>
              var row, a := e.view, r.value;
              && (row.title.None? ==> a.title == Unknown && a.url == Some(""))
              && (row.title.Some? ==> a.title == Strip(row.title.value.text.value)
                                      && a.url == row.title.value.href)
              && (row.dueDate.None? ==> a.dueDate == NoDueDate)
              && (row.dueDate.Some? ==> a.dueDate == Strip(row.dueDate.value.text.value))
              && (row.status.None? ==> a.status == Unknown)
              && (row.status.Some? ==> a.status == Strip(row.status.value.text.value))
              && a.course == ExtractCourseFromUrl(courseUrl)
  {
    match e
    case Raises => Failure(ElementRaised)
    case Readable(row) =>
      match FieldText(row.title, Unknown)
      case Failure(why) => Failure(why)
      case Success(title) =>
        match FieldText(row.dueDate, NoDueDate)
        case Failure(why) => Failure(why)
        case Success(dueDate) =>
          match FieldText(row.status, Unknown)
          case Failure(why) => Failure(why)
          case Success(status) =>
            var url := match row.title
              case Some(node) => node.href
              case None => Some("");
            Success(Assignment(title, dueDate, ExtractCourseFromUrl(courseUrl), status, url))
  }

  /** The per-element builder of one `get_assignments(courseUrl)` call. */
  function AssignmentBuilder(courseUrl: string): Element<Row> -> Result<Assignment, SkipReason> {
    e => BuildAssignment(courseUrl, e)
  }
}
