/** The cell texts of the two list tables. Each cell reads a field of a
    record from the server, falls back to alternate spellings of the field
    and then to `N/A` with JavaScript's `||`, converts the chosen value to
    text with `String` and escapes it for HTML. The registration form's
    course options are built from the same records. */
module Rows {
  import opened Html

  /** A JSON value as the page script reads it from a parsed response; a
      property that is absent reads as `Undefined`. A nested object is
      `Obj`: the cells only ever convert it to text, which does not depend
      on its properties. */
  datatype JsValue = Undefined | Null | Bool(b: bool) | Num(n: int) | Str(s: string) | Obj

  /** A parsed JSON object: property name to value. */
  type Record = map<string, JsValue>

  /** `record.key`. */
  function Get(rec: Record, key: string): (v: JsValue)
    ensures key !in rec ==> v == Undefined
  {
    if key in rec then rec[key] else Undefined
  }

  /** JavaScript truthiness: `undefined`, `null`, `false`, `0` and `''` are
      falsy, everything else, objects included, is truthy. */
  predicate Truthy(v: JsValue) {
    match v
    case Undefined => false
    case Null => false
    case Bool(b) => b
    case Num(n) => n != 0
    case Str(s) => s != []
    case Obj => true
  }

  /** `a || b`: one of its operands, truthy when either is. */
  function Or(a: JsValue, b: JsValue): (r: JsValue)
    ensures r == a || r == b
    ensures Truthy(a) ==> r == a
    ensures !Truthy(a) ==> r == b
  {
    if Truthy(a) then a else b
  }

  /** The fallback every cell ends with. */
  const NotAvailable: JsValue := Str("N/A")

  function Digit(d: nat): (c: char)
    requires d < 10
    ensures '0' <= c <= '9'
  {
    "0123456789"[d]
  }

  /** The decimal digits of `n`, most significant first. */
  function Digits(n: nat): (s: string)
    ensures s != [] && forall i :: 0 <= i < |s| ==> '0' <= s[i] <= '9'
  {
    if n < 10 then [Digit(n)] else Digits(n / 10) + [Digit(n % 10)]
  }

  /** `String(v)`. Only the empty string converts to empty text; a string
      converts to itself. */
  function ToString(v: JsValue): (t: string)
    ensures v.Str? ==> t == v.s
    ensures t == [] <==> v == Str([])
  {
    match v
    case Undefined => "undefined"
    case Null => "null"
    case Bool(b) => if b then "true" else "false"
    case Num(n) => if n < 0 then "-" + Digits(-n) else Digits(n)
    case Str(s) => s
    case Obj => "[object Object]"
  }

  /** Only a string value can carry markup: every other value converts to
      text that escaping leaves as it is. */
  lemma NonStringNeedsNoEscape(v: JsValue)
    requires !v.Str?
    ensures NoSpecials(ToString(v))
    ensures EscapeHtml(ToString(v)) == ToString(v)
  {
    var t := ToString(v);
    assert NoSpecials(t) by {
      if v.Num? {
        NumberTextPlain(v.n);
      }
    }
    EscapeHtmlLength(t);
  }

  /** The text of a number is digits, after a minus sign when negative. */
  lemma NumberTextPlain(n: int)
    ensures NoSpecials(ToString(Num(n)))
  {
    var t := ToString(Num(n));
    var d := Digits(if n < 0 then -n else n);
    assert t == if n < 0 then "-" + d else d;
    forall i | 0 <= i < |t| ensures !IsSpecial(t[i]) {
      if n < 0 && i > 0 {
        assert t[i] == d[i - 1];
      }
    }
  }

  /** The value a cell shows when its field may be spelled in several ways:
      the value of the first alternate, in order, that is truthy, or `N/A`
      when none is. The reference definition of a chain of `||`. */
  function Pick(rec: Record, keys: seq<string>): (v: JsValue)
    ensures Truthy(v)
  {
    if keys == [] then NotAvailable
    else if Truthy(Get(rec, keys[0])) then Get(rec, keys[0])
    else Pick(rec, keys[1..])
  }

  /** `Pick` returns the first truthy alternate, and `N/A` when no
      alternate is truthy. */
  lemma {:induction false} PickIsFirstTruthy(rec: Record, keys: seq<string>, j: nat)
    requires j <= |keys|
    requires forall i :: 0 <= i < j ==> !Truthy(Get(rec, keys[i]))
    ensures j < |keys| && Truthy(Get(rec, keys[j])) ==> Pick(rec, keys) == Get(rec, keys[j])
    ensures j == |keys| ==> Pick(rec, keys) == NotAvailable
  {
    if j > 0 {
      PickIsFirstTruthy(rec, keys[1..], j - 1);
    }
  }

  /** The display text of a chosen value, escaped for HTML. */
  function Cell(v: JsValue): string {
    EscapeHtml(ToString(v))
  }

  /** A cell is safe markup that decodes back to the value's text. */
  lemma CellMeaning(v: JsValue)
    ensures Safe(Cell(v)) && Unescape(Cell(v)) == ToString(v)
  {
    EscapeIsSafe(ToString(v));
    UnescapeEscape(ToString(v));
  }

  /** `s` ends with `suffix`. */
  predicate EndsWith(s: string, suffix: string) {
    |suffix| <= |s| && s[|s| - |suffix|..] == suffix
  }

  /** `rec.key || 'N/A'` is `Pick` over the one spelling. */
  lemma OrPicksOne(rec: Record, key: string)
    ensures Or(Get(rec, key), NotAvailable) == Pick(rec, [key])
  {
    assert [key][1..] == [];
  }

  /** `rec.first || rec.second || 'N/A'` is `Pick` over the two spellings,
      in order. */
  lemma OrPicksTwo(rec: Record, first: string, second: string)
    ensures Or(Or(Get(rec, first), Get(rec, second)), NotAvailable) == Pick(rec, [first, second])
  {
    assert [first, second][1..] == [second];
    if !Truthy(Get(rec, first)) {
      OrPicksOne(rec, second);
    }
  }

  /** What follows the escaped length in the fourth cell. */
  function WeeksTail(weeks: bool): string {
    " " + (if weeks then "weeks" else "")
  }

  lemma DurationTextSafe(duration: string, weeks: bool)
    ensures Safe(EscapeHtml(duration) + WeeksTail(weeks))
  {
    EscapeIsSafe(duration);
    SafePlain(WeeksTail(weeks));
    SafeAppend(EscapeHtml(duration), WeeksTail(weeks));
  }

  lemma DurationTextDecodes(duration: string, weeks: bool)
    ensures Unescape(EscapeHtml(duration) + WeeksTail(weeks)) == duration + WeeksTail(weeks)
  {
    UnescapeEscapeAppend(duration, WeeksTail(weeks));
    UnescapePlain(WeeksTail(weeks));
  }

  lemma DurationTextEnding(text: string, weeks: bool)
    ensures EndsWith(text + WeeksTail(weeks), "weeks") <==> weeks
  {
    var tail := WeeksTail(weeks);
    var t := text + tail;
    if weeks {
      assert tail == " weeks";
      assert t[|t| - 5..] == tail[1..] == "weeks";
    } else {
      assert tail == " ";
      assert t[|t| - 1] == ' ';
      assert |t| >= 5 ==> t[|t| - 5..][4] == t[|t| - 1];
    }
  }

  /** The fourth cell of a course row: the escaped length, a space, and
      `weeks` when `durationInWeeks` is truthy. */
  function DurationCell(course: Record): (t: string) {
    var weeks := Get(course, "durationInWeeks");
    EscapeHtml(ToString(Or(Or(weeks, Get(course, "duration")), NotAvailable))) + WeeksTail(Truthy(weeks))
  }

  /** The duration cell is safe markup that decodes to the length (first
      truthy of `durationInWeeks`, `duration`, else `N/A`) followed by a
      space and, exactly when `durationInWeeks` is truthy, `weeks`. */
  lemma DurationCellMeaning(course: Record)
    ensures Safe(DurationCell(course))
    ensures Unescape(DurationCell(course))
      == ToString(Pick(course, ["durationInWeeks", "duration"])) + WeeksTail(Truthy(Get(course, "durationInWeeks")))
    ensures EndsWith(DurationCell(course), "weeks") <==> Truthy(Get(course, "durationInWeeks"))
  {
    var weeks := Truthy(Get(course, "durationInWeeks"));
    var duration := ToString(Or(Or(Get(course, "durationInWeeks"), Get(course, "duration")), NotAvailable));
    OrPicksTwo(course, "durationInWeeks", "duration");
    DurationTextSafe(duration, weeks);
    DurationTextDecodes(duration, weeks);
    DurationTextEnding(EscapeHtml(duration), weeks);
  }

  /** The cells `createCourseRow` writes: id, name, trainer (or instructor)
      and duration in weeks (or duration). */
  function CourseRow(course: Record): (cells: seq<string>)
    ensures |cells| == 4
  {
    [ Cell(Or(Get(course, "courseId"), NotAvailable)),
      Cell(Or(Get(course, "courseName"), NotAvailable)),
      Cell(Or(Or(Get(course, "trainer"), Get(course, "instructor")), NotAvailable)),
      DurationCell(course) ]
  }

  /** Every cell of a course row is safe markup; each decodes to the first
      truthy of its alternate spellings, in order, or `N/A`; the duration
      cell ends in `weeks` exactly when `durationInWeeks` is truthy. */
  lemma CourseRowMeaning(course: Record)
    ensures forall k :: 0 <= k < 4 ==> Safe(CourseRow(course)[k])
    ensures Unescape(CourseRow(course)[0]) == ToString(Pick(course, ["courseId"]))
    ensures Unescape(CourseRow(course)[1]) == ToString(Pick(course, ["courseName"]))
    ensures Unescape(CourseRow(course)[2]) == ToString(Pick(course, ["trainer", "instructor"]))
    ensures Unescape(CourseRow(course)[3])
      == ToString(Pick(course, ["durationInWeeks", "duration"])) + WeeksTail(Truthy(Get(course, "durationInWeeks")))
    ensures EndsWith(CourseRow(course)[3], "weeks") <==> Truthy(Get(course, "durationInWeeks"))
  {
    var cells := CourseRow(course);
    var id, name, trainer := Or(Get(course, "courseId"), NotAvailable), Or(Get(course, "courseName"), NotAvailable),
      Or(Or(Get(course, "trainer"), Get(course, "instructor")), NotAvailable);
    assert cells == [Cell(id), Cell(name), Cell(trainer), DurationCell(course)];
    CellMeaning(id);
    CellMeaning(name);
    CellMeaning(trainer);
    OrPicksOne(course, "courseId");
    OrPicksOne(course, "courseName");
    OrPicksTwo(course, "trainer", "instructor");
    DurationCellMeaning(course);
    forall k | 0 <= k < 4 ensures Safe(cells[k]) {
      if k == 0 { assert cells[k] == Cell(id); }
      else if k == 1 { assert cells[k] == Cell(name); }
      else if k == 2 { assert cells[k] == Cell(trainer); }
    }
  }

  /** The cells `createStudentRow` writes: name, e-mail and course name. */
  function StudentRow(student: Record): (cells: seq<string>)
    ensures |cells| == 3
  {
    [ Cell(Or(Get(student, "name"), NotAvailable)),
      Cell(Or(Or(Get(student, "emailId"), Get(student, "email")), NotAvailable)),
      Cell(Or(Get(student, "courseName"), NotAvailable)) ]
  }

  /** Every cell of a student row is safe markup and decodes to the first
      truthy of its alternate spellings (`emailId` before `email`), or
      `N/A`. */
  lemma StudentRowMeaning(student: Record)
    ensures forall k :: 0 <= k < 3 ==> Safe(StudentRow(student)[k])
    ensures Unescape(StudentRow(student)[0]) == ToString(Pick(student, ["name"]))
    ensures Unescape(StudentRow(student)[1]) == ToString(Pick(student, ["emailId", "email"]))
    ensures Unescape(StudentRow(student)[2]) == ToString(Pick(student, ["courseName"]))
  {
    var cells := StudentRow(student);
    var name, email, course := Or(Get(student, "name"), NotAvailable),
      Or(Or(Get(student, "emailId"), Get(student, "email")), NotAvailable), Or(Get(student, "courseName"), NotAvailable);
    assert cells == [Cell(name), Cell(email), Cell(course)];
    CellMeaning(name);
    CellMeaning(email);
    CellMeaning(course);
    OrPicksOne(student, "name");
    OrPicksTwo(student, "emailId", "email");
    OrPicksOne(student, "courseName");
    forall k | 0 <= k < 3 ensures Safe(cells[k]) {
      if k == 0 { assert cells[k] == Cell(name); }
      else if k == 1 { assert cells[k] == Cell(email); }
      else { assert cells[k] == Cell(course); }
    }
  }

  /** An entry of the course selection list: the submitted value and the
      visible label. */
  datatype SelectOption = SelectOption(value: string, text: string)

  /** The option `populateCourseOptions` builds for one course: the value is
      the course name, or the id when the name is falsy; the label reads
      `name (durationInWeeks weeks)` with no fallback for either field. */
  function CourseOption(course: Record): (o: SelectOption)
    ensures o.value == [] <==> !Truthy(Get(course, "courseName")) && Get(course, "courseId") == Str([])
  {
    SelectOption(
      ToString(Or(Get(course, "courseName"), Get(course, "courseId"))),
      ToString(Get(course, "courseName")) + " (" + ToString(Get(course, "durationInWeeks")) + " weeks)")
  }

  /** A course that gives its length as `duration` alone: the duration
      cell of its row shows that length, followed by the space and no
      `weeks`. */
  lemma RowWithoutWeeks(course: Record)
    requires Get(course, "durationInWeeks") == Undefined && Truthy(Get(course, "duration"))
    ensures Unescape(DurationCell(course)) == ToString(Get(course, "duration")) + " "
  {
    var keys := ["durationInWeeks", "duration"];
    assert !Truthy(Get(course, keys[0]));
    PickIsFirstTruthy(course, keys, 1);
    DurationCellMeaning(course);
    assert WeeksTail(false) == " ";
  }

  /** The option label reads only the `durationInWeeks` spelling: without
      it, the label says `undefined weeks` whatever `duration` holds. */
  lemma OptionLabelIgnoresDuration(course: Record)
    requires Get(course, "durationInWeeks") == Undefined
    ensures CourseOption(course).text == ToString(Get(course, "courseName")) + " (undefined weeks)"
  {
    var name := ToString(Get(course, "courseName"));
    calc {
      CourseOption(course).text;
      name + " (" + "undefined" + " weeks)";
      { assert " (" + "undefined" + " weeks)" == " (undefined weeks)"; }
      name + " (undefined weeks)";
    }
  }
}
