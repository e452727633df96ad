# Brightspace scraper: verified model of the text-to-record rules

The scraper logs into a Brightspace portal with a browser-automation
library, reads course and assignment listings from the rendered pages and
writes them to JSON. Almost all of it drives the browser. The part that can
be modelled is small: a few pure rules that turn element text into records,
all in `brightspace_api.py`. This project models them in Dafny and proves
what they guarantee:

- **Course code** (`_extract_course_code`). A course's code is taken from
  its display name by `re.search(r'([A-Z]{2,4})\s+(\d{5})', name)` and
  rendered as letters, one space, digits. Without a match, the code is the
  text before the first `" - "`. Without that either, it is the whole name.
  The regular expression is modelled by hand. `CourseCode.MatchAt` says
  what one match is. `CourseCode.Search` is the left-to-right scan that
  `re.search` performs. At a given start position there is at most one way
  to match, so the model does not need the engine's backtracking order.
- **Course segment of a URL** (`_extract_course_from_url`). The URL is split
  on `/`. The result is the first segment whose lower-case form contains
  `"course"`, or the sentinel `"Unknown Course"` when no segment has it.
- **Records and the tolerant loop** (`get_courses`, `get_assignments`).
  Each matching DOM element becomes a `Course` or an `Assignment`. An
  element whose processing raises is skipped, and the loop carries on with
  the rest. A failure before the loop gives the empty list.
  `Extraction.Collect` is this loop as a fold. `Extraction.TolerantLoop` is
  the loop itself.

The browser is not modelled. A page is either `Unreachable` (navigation, a
wait, `query_selector` or `query_selector_all`, or the click on the
assignments link raised) or `Loaded` with its
element handles. Each handle either raises when it is touched, or reads as
an optional text and an optional `href`. `text_content()` can return
`None`; calling `.strip()` on it then raises, and the element is skipped.

Modules: `Wrappers` (`Option`, `Result`), `Text` (the string primitives),
`CourseCode`, `CourseCodeExamples`, `CourseUrl`, `Records`, `Extraction`.

Observations the proofs make precise:
- The match is the leftmost one, and there is no word boundary. So
  `"MATH  165001"` gives `"MATH 16500"`, because the extra whitespace
  collapses and the sixth digit is dropped. `"ABCDE 12345"` gives
  `"BCDE 12345"`, because a run of five capitals cannot start a match but
  the run of four after it can.
- The sentinel `"Unknown Course"` itself contains `"course"` once lowered.
  So from the returned value alone, a caller cannot tell the sentinel from
  a URL segment that happens to read the same.
- When the title element exists but has no `href`, line 180 stores the
  `None` that `get_attribute("href")` returns, although the `Assignment`
  dataclass declares `url: str` (line 28). The model's `Assignment.url` is
  therefore an `Option`.
- The comment on line 194 gives only codes with a single space, such as
  `"CS 18000"`. The pattern `\s+` on line 196 accepts any run of
  whitespace between the letters and the digits, and the model follows the
  pattern.

## Model

| member | source | states |
|---|---|---|
| `Text.Lower` | brightspace_api.py:206 | `part.lower()` keeps the length and maps each character on its own, changing only ASCII capitals |
| `Text.Find` | brightspace_api.py:199 | `' - ' in name` holds exactly when `Find` returns a position; that position holds an occurrence, and no earlier position does, which makes it where `split(' - ')[0]` ends |
| `Text.Strip` | brightspace_api.py:120 | `.strip()` returns the infix of the text after its leading whitespace, whatever is cut from the end is whitespace, and the result neither starts nor ends with whitespace |
| `Text.Split` | brightspace_api.py:204 | `url.split('/')` always yields at least one piece, and no piece contains `/` |
| `Text.JoinSplit` | brightspace_api.py:204 | joining the pieces of `url.split('/')` with `/` gives back the URL, so splitting loses nothing |
| `Text.SplitJoin` | brightspace_api.py:204 | splitting a `/`-join of `/`-free pieces gives back exactly those pieces, so the pieces are determined by the URL |
| `CourseCode.MatchHere` | brightspace_api.py:196 | trying the pattern at one start position finds a match exactly when one exists there, and what it finds is a match |
| `CourseCode.MatchAtUnique` | brightspace_api.py:196 | at a fixed start position the pattern matches in at most one way, in the letters taken and in the whitespace taken |
| `CourseCode.NoMatchInCapitalRun` | brightspace_api.py:196 | five capitals in a row never start a match, because `[A-Z]{2,4}` must be followed by whitespace |
| `CourseCode.Search` | brightspace_api.py:196 | `re.search` finds a match exactly when the pattern matches somewhere, and what it finds is a match with none further left |
| `CourseCode.ExtractCourseCode` | brightspace_api.py:192-199 | the code is never longer than the name, and it is either two to four capitals, one space and five digits, or a prefix of the name |
| `CourseCode.CodeFromPattern` | brightspace_api.py:196-198 | when the pattern matches, the code is the leftmost match's letters, one space, and its five digits, whatever whitespace separated them |
| `CourseCode.CodeFromSeparator` | brightspace_api.py:199 | without a match, a name containing `" - "` gives exactly the text before the first `" - "` |
| `CourseCode.CodeUnchanged` | brightspace_api.py:199 | with neither a match nor `" - "`, the code is the name unchanged |
| `CourseCode.ExtractCourseCodeIdempotent` | brightspace_api.py:196-199 | extracting the code of a code gives the same code |
| `CourseCodeExamples.ExampleSourceComment` | brightspace_api.py:194-198 | `"CS 18000 - Problem Solving"` gives `"CS 18000"` |
| `CourseCodeExamples.ExampleExtraDigit` | brightspace_api.py:196-198 | `"MATH  165001"` gives `"MATH 16500"`: whitespace collapses and a sixth digit is ignored |
| `CourseCodeExamples.ExampleFiveCapitals` | brightspace_api.py:196-198 | `"ABCDE 12345"` gives `"BCDE 12345"`: the leftmost start that matches is the second capital |
| `CourseCodeExamples.ExampleSeparator` | brightspace_api.py:199 | `"Data Structures - Section A"` gives `"Data Structures"` |
| `CourseCodeExamples.ExampleUnchanged` | brightspace_api.py:199 | `"Senior Design"` is its own code |
| `CourseUrl.FirstMention` | brightspace_api.py:205-207 | the loop over the segments stops at the first one whose lower-case form contains `"course"`, and reports no segment only when none has it |
| `CourseUrl.ExtractCourseFromUrl` | brightspace_api.py:201-208 | the result never contains `/`, and its lower-case form always contains `"course"`, the sentinel included |
| `CourseUrl.SentinelMentionsCourse` | brightspace_api.py:208 | `"Unknown Course"` contains `"course"` once lowered and has no `/` |
| `CourseUrl.CourseFromFirstMention` | brightspace_api.py:204-207 | if segment `i` mentions a course and no earlier segment does, the result is segment `i` |
| `CourseUrl.CourseFromNoMention` | brightspace_api.py:208 | if no segment mentions a course, the result is `"Unknown Course"` |
| `CourseUrl.FoundSegmentOccursInUrl` | brightspace_api.py:204-207 | a segment that was found is a substring of the URL |
| `CourseUrl.NoCourseInUrl` | brightspace_api.py:204-208 | a URL with no `course` in any letter case gives `"Unknown Course"` |
| `Records.ReadText` | brightspace_api.py:120 | `text_content().strip()` succeeds exactly when the text is present, gives its stripped form, and otherwise fails as the `.strip()` call on `None` does |
| `Records.BuildCourse` | brightspace_api.py:118-131 | an element yields a course exactly when it is readable and has text; the course's name is the stripped text, its code the name's code, its instructor `""`, and its url the `href` or `""` when absent |
| `Records.BuildAssignment` | brightspace_api.py:165-181 | a row yields an assignment exactly when it is readable and each nested element it found has text; each field defaults on its own (`"Unknown"`, `"No due date"`, `"Unknown"`); the url is the title's `href`, possibly `None`, or `""` without a title; the course comes from the `course_url` argument |
| `Extraction.Collect` | brightspace_api.py:115-136 | the loop never returns more records than there are elements |
| `Extraction.KeptIndices` | brightspace_api.py:118-134 | the records returned are those of the elements that succeeded, at strictly increasing positions, and every element that succeeded is among them: an ordered subsequence, with nothing missing |
| `Extraction.CollectAppend` | brightspace_api.py:118-134 | the loop over two runs of elements is the loop over the first followed by the loop over the second |
| `Extraction.CollectSkipsFailure` | brightspace_api.py:132-134 | an element whose processing raises is dropped, and the elements on either side are kept as if it were not there |
| `Extraction.CollectAllSucceed` | brightspace_api.py:118-134 | when every element succeeds there is one record per element, in element order |
| `Extraction.CollectOneFailure` | brightspace_api.py:118-136 | N elements of which only element k raises give N-1 records: those of the others, in their order |
| `Extraction.CollectMembership` | brightspace_api.py:118-136 | a record is returned exactly when some element built it |
| `Extraction.TolerantLoop` | brightspace_api.py:118-134 | the `for`/`try`/`except: continue` loop computes `Collect` |
| `Extraction.GetCourses` | brightspace_api.py:107-140 | an unreachable page gives `[]`; a loaded page gives the records of its elements under the tolerant loop |
| `Extraction.CoursesDerivedFields` | brightspace_api.py:120-131 | every course returned has instructor `""`, the code of its own name (no longer than the name), and comes from one readable element whose stripped text is its name and whose `href`, or `""` when it has none, is its url |
| `Extraction.GetAssignments` | brightspace_api.py:152-190 | an unreachable page gives `[]`; a loaded page gives the tolerant loop's records; every assignment of one call has the same course, the course segment of the `course_url` argument |

## Left out

- The session lifecycle (`__enter__`/`__exit__`, lines 39-54) is not modelled: it launches and stops a browser process.
- `login` (lines 56-98) is not modelled: every step is navigation, a selector wait with a timeout, or an out-of-band second-factor approval.
- The DOM calls (`goto`, `wait_for_selector`, `query_selector`, `query_selector_all`, `click`, `wait_for_load_state`, `text_content`, `get_attribute`) are inputs. A page is `Unreachable` or the list of element handles, and a handle reads as optional text and an optional `href`, or raises. The three nested `query_selector` calls of an assignment row are the row's three optional nodes.
- `GetCourses`: the wait for `.course-title` guarantees at least one element when it is waited for, but the list is queried again afterwards; the model does not assume it is non-empty.
- `save_data` (lines 210-217) and `main` (lines 220-263) are not modelled: they do file I/O, JSON serialisation, printing and reading the clock.
- Printed log messages are not modelled; a skipped element is a `Failure` carrying its reason.
- Character classes are ASCII only: `\d` is `0-9`; `\s` and `strip()` use the characters below 128 that Python treats as whitespace (9-13, 28-31, 32). `lower()` changes only `A-Z`. Python's Unicode digits, whitespace and case mappings are left out.
- `Text.Split` models `split` for a one-character separator only, the one use in the source. The `split(' - ')[0]` on line 199 is modelled by the first occurrence that `Text.Find` returns.
- setup.py and testing/playwright_trial.py are not part of this model: they install packages, write files and drive a browser.
