/** The list pages and the course selection list, as the DOM state the page
    script overwrites: the rows of a table body and the options of the
    course select. The network is not modelled; the reply a `fetch` would
    produce is a parameter. */
module Tables {
  import opened Rows

  /** The body of a successful response, once `response.json()` has run. */
  datatype Payload =
    | Unparseable                // `response.json()` rejects
    | Items(items: seq<Record>)  // a JSON array of objects
    | NoLength                   // any other value without a positive `length`: `null`, a number, `''`, ...
    | LengthNoForEach            // a non-array value with a positive `length`, such as a non-empty string

  /** What `fetch` settles to: a network error, or a response with its `ok`
      flag (status 200-299) and body. */
  datatype FetchReply = NetworkFailure | Answer(ok: bool, payload: Payload)

  /** The three kinds of single placeholder row. A failure row carries the
      "Try Again" button that reloads the page. */
  datatype Placeholder = Loading | Empty | Failure

  /** A table row: one cell per column, or a placeholder spanning all
      columns. */
  datatype Row = DataRow(cells: seq<string>) | StateRow(state: Placeholder, colspan: nat, message: string)

  /** The two list pages. */
  datatype ListPage = CourseList | StudentList

  /** The reply yields no JSON value: a network error, a status outside
      200-299, or a body that is not JSON. */
  predicate Unread(reply: FetchReply) {
    match reply
    case NetworkFailure => true
    case Answer(ok, payload) => !ok || payload.Unparseable?
  }

  /** The reply leads a list page to the error placeholder: it yields no
      JSON value, or a value that passes the `length > 0` test and has no
      `forEach`. */
  predicate Failed(reply: FetchReply) {
    Unread(reply) || reply.payload.LengthNoForEach?
  }

  /** The records of a reply; a non-array body has none. */
  function Records(reply: FetchReply): seq<Record> {
    if reply.Answer? && reply.payload.Items? then reply.payload.items else []
  }

  function Columns(page: ListPage): nat {
    match page
    case CourseList => 4
    case StudentList => 3
  }

  function EmptyMessage(page: ListPage): string {
    match page
    case CourseList => "No courses available at the moment."
    case StudentList => "No enrolled students found."
  }

  function FailureMessage(page: ListPage): string {
    match page
    case CourseList => "Failed to load courses. Please check your connection and try again."
    case StudentList => "Failed to load enrolled students. Please check your connection and try again."
  }

  /** The row `createCourseRow` or `createStudentRow` builds for a record. */
  function RowOf(page: ListPage, rec: Record): (row: Row) {
    match page
    case CourseList => DataRow(CourseRow(rec))
    case StudentList => DataRow(StudentRow(rec))
  }

  /** A data row has one cell per column: as many as the placeholder rows of
      the same page span. */
  lemma RowOfWidth(page: ListPage, rec: Record)
    ensures RowOf(page, rec).DataRow? && |RowOf(page, rec).cells| == Columns(page)
  {
  }

  /** `f` applied to each element of `xs`, in order, built by appending at
      the end as `forEach` does. */
  function MapSeq<A, B>(f: A -> B, xs: seq<A>): seq<B> {
    if xs == [] then []
    else MapSeq(f, xs[..|xs| - 1]) + [f(xs[|xs| - 1])]
  }

  /** One result per element, the `i`-th computed from the `i`-th. */
  lemma {:induction false} MapSeqIndex<A, B>(f: A -> B, xs: seq<A>)
    ensures |MapSeq(f, xs)| == |xs|
    ensures forall i :: 0 <= i < |xs| ==> MapSeq(f, xs)[i] == f(xs[i])
  {
    if xs != [] {
      var init := xs[..|xs| - 1];
      MapSeqIndex(f, init);
      forall i | 0 <= i < |init| ensures MapSeq(f, xs)[i] == f(xs[i]) {
        assert xs[i] == init[i];
      }
    }
  }

  /** The rows `forEach` appends for `records`, in order. */
  function RowsOf(page: ListPage, records: seq<Record>): seq<Row> {
    MapSeq(rec => RowOf(page, rec), records)
  }

  /** One row per record, the `i`-th built from the `i`-th record. */
  lemma RowsOfRecords(page: ListPage, records: seq<Record>)
    ensures |RowsOf(page, records)| == |records|
    ensures forall i :: 0 <= i < |records| ==> RowsOf(page, records)[i] == RowOf(page, records[i])
  {
    MapSeqIndex(rec => RowOf(page, rec), records);
  }

  const LoadingMessage := "Loading data..."

  class TableBody {
    var rows: seq<Row>

    constructor ()
      ensures rows == []
    {
      rows := [];
    }

    /** `showLoadingState`: the table holds only the loading row. */
    method ShowLoadingState(colspan: nat)
      modifies this
      ensures rows == [StateRow(Loading, colspan, LoadingMessage)]
    {
      rows := [StateRow(Loading, colspan, LoadingMessage)];
    }

    /** `showEmptyState`: the table holds only the "no data" row. */
    method ShowEmptyState(colspan: nat, message: string)
      modifies this
      ensures rows == [StateRow(Empty, colspan, message)]
    {
      rows := [StateRow(Empty, colspan, message)];
    }

    /** `showErrorState`: the table holds only the error row with its reload
        button. */
    method ShowErrorState(colspan: nat, message: string)
      modifies this
      ensures rows == [StateRow(Failure, colspan, message)]
    {
      rows := [StateRow(Failure, colspan, message)];
    }

    /** The table after a successful fetch: one data row per record, in
        order, or the "no data" row when there are none. */
    method ShowRecords(page: ListPage, records: seq<Record>)
      modifies this
      ensures records == [] ==> rows == [StateRow(Empty, Columns(page), EmptyMessage(page))]
      ensures records != [] ==> rows == RowsOf(page, records)
    {
      if |records| > 0 {
        var built: seq<Row> := [];
        var i := 0;
        while i < |records|
          invariant 0 <= i <= |records|
          invariant built == RowsOf(page, records[..i])
        {
          assert records[..i + 1][..i] == records[..i];
          built := built + [RowOf(page, records[i])];  // appendChild
          i := i + 1;
        }
        assert records[..i] == records;
        rows := built;
      } else {
        ShowEmptyState(Columns(page), EmptyMessage(page));
      }
    }

    /** The shared body of the two list loaders, from the loading row to the
        final content. Whatever the table held before is gone: a failure
        leaves one error row, a success with no records one "no data" row,
        and a success with N records exactly N data rows in the order
        received. */
    method Render(page: ListPage, reply: FetchReply)
      modifies this
      ensures Failed(reply) ==> rows == [StateRow(Failure, Columns(page), FailureMessage(page))]
      ensures !Failed(reply) && Records(reply) == [] ==> rows == [StateRow(Empty, Columns(page), EmptyMessage(page))]
      ensures !Failed(reply) && Records(reply) != [] ==>
        |rows| == |Records(reply)|
        && forall i :: 0 <= i < |rows| ==> rows[i] == RowOf(page, Records(reply)[i])
    {
      ShowLoadingState(Columns(page));
      if Failed(reply) {
        ShowErrorState(Columns(page), FailureMessage(page));
      } else {
        ShowRecords(page, Records(reply));
        RowsOfRecords(page, Records(reply));
      }
    }

    /** `loadAvailableCourses` once its fetch has settled with `reply`. */
    method LoadAvailableCourses(reply: FetchReply)
      modifies this
      ensures Failed(reply) ==> rows == [StateRow(Failure, 4, FailureMessage(CourseList))]
      ensures !Failed(reply) && Records(reply) == [] ==> rows == [StateRow(Empty, 4, EmptyMessage(CourseList))]
      ensures !Failed(reply) && Records(reply) != [] ==>
        |rows| == |Records(reply)|
        && forall i :: 0 <= i < |rows| ==> rows[i] == DataRow(CourseRow(Records(reply)[i]))
    {
      Render(CourseList, reply);
    }

    /** `loadEnrolledStudents` once its fetch has settled with `reply`. */
    method LoadEnrolledStudents(reply: FetchReply)
      modifies this
      ensures Failed(reply) ==> rows == [StateRow(Failure, 3, FailureMessage(StudentList))]
      ensures !Failed(reply) && Records(reply) == [] ==> rows == [StateRow(Empty, 3, EmptyMessage(StudentList))]
      ensures !Failed(reply) && Records(reply) != [] ==>
        |rows| == |Records(reply)|
        && forall i :: 0 <= i < |rows| ==> rows[i] == DataRow(StudentRow(Records(reply)[i]))
    {
      Render(StudentList, reply);
    }
  }

  /** The options `courseSelect.querySelector('option[value=""]')` finds and
      keeps: the first option whose value is empty, if there is one. */
  function Placeholders(options: seq<SelectOption>): (kept: seq<SelectOption>)
    ensures |kept| <= 1
    ensures kept == [] <==> forall k :: 0 <= k < |options| ==> options[k].value != []
    ensures kept != [] ==> kept[0].value == []
    ensures kept != [] ==>
      exists k :: 0 <= k < |options| && options[k] == kept[0] && forall j :: 0 <= j < k ==> options[j].value != []
  {
    if options == [] then []
    else if options[0].value == [] then [options[0]]
    else Placeholders(options[1..])
  }

  class CourseSelect {
    var options: seq<SelectOption>

    constructor (initial: seq<SelectOption>)
      ensures options == initial
    {
      options := initial;
    }

    /** `populateCourseOptions` once its fetch has settled with `reply`. A
        network error, a status outside 200-299 or a body that is not JSON
        leaves the options as they were. Otherwise the options are cleared
        down to the empty-valued placeholder option; a JSON array then adds
        one option per course, in order, while any other JSON value makes
        `forEach` throw with the list already cleared. */
    method PopulateCourseOptions(reply: FetchReply)
      modifies this
      ensures Unread(reply) ==> options == old(options)
      ensures !Unread(reply) ==> options == Placeholders(old(options)) + MapSeq(CourseOption, Records(reply))
    {
      if Unread(reply) {
        return;
      }
      var kept := Placeholders(options);
      var courses := Records(reply);
      var added: seq<SelectOption> := [];
      var i := 0;
      while i < |courses|
        invariant 0 <= i <= |courses|
        invariant added == MapSeq(CourseOption, courses[..i])
      {
        assert courses[..i + 1][..i] == courses[..i];
        added := added + [CourseOption(courses[i])];  // appendChild
        i := i + 1;
      }
      assert courses[..i] == courses;
      options := kept + added;
    }
  }

  /** The placeholder kept is kept again: after options with non-empty
      values are appended to it, the search finds the same placeholder. */
  lemma PlaceholdersStable(options: seq<SelectOption>, added: seq<SelectOption>)
    requires forall k :: 0 <= k < |added| ==> added[k].value != []
    ensures Placeholders(Placeholders(options) + added) == Placeholders(options)
  {
    var kept := Placeholders(options);
    if kept == [] {
      assert kept + added == added;
    } else {
      assert (kept + added)[0] == kept[0];
    }
  }

  /** Populating again with the same courses leaves the options as they
      are, provided every course gives a non-empty option value. */
  lemma RepopulateIsStable(options: seq<SelectOption>, courses: seq<Record>)
    requires forall k :: 0 <= k < |courses| ==> CourseOption(courses[k]).value != []
    ensures var once := Placeholders(options) + MapSeq(CourseOption, courses);
      Placeholders(once) + MapSeq(CourseOption, courses) == once
  {
    var added := MapSeq(CourseOption, courses);
    MapSeqIndex(CourseOption, courses);
    PlaceholdersStable(options, added);
  }
}
