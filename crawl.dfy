/** The crawl of one department's search results as a function of the parser's
    state: rows of a page, pages of a search, and the 300-hit guard. */
module Crawl {
  import opened Text
  import opened Patterns
  import opened Fields
  import opened Assembly

  /** The parser's mutable state: the working record, the cancelled flag and
      the records handed to the ingestor so far. */
  datatype State = State(fields: Record, cancelled: bool, log: seq<Emitted>)

  /** One result row: whether it carries the cancelled marker, the onclick
      handler of its class-section cell (None: the row has no such cell), and
      the detail page the server returns for its class number. */
  datatype Row = Row(cancelled: bool, onclick: Option<string>, detail: Detail)

  /** The value parse_course or parse_page_of_courses returns: the integer 0
      for a page without rows, otherwise the class number string of a row. */
  datatype RowId = NoRows | Number(digits: string)

  /** A state after a step, the row id the step returned, and the exception
      that escaped it, if any. */
  datatype Parsed = Parsed(st: State, id: RowId, raised: Option<Exc>)

  /** The state after assembling a course's records, and the escaping exception. */
  datatype Step = Step(st: State, raised: Option<Exc>)

  // ---------------------------------------------------------------------------
  // One course: create_section(create_course()) and create_offerings
  // ---------------------------------------------------------------------------

  /** The records of a course whose details have been read. A cancelled row
      emits its course alone and resets the flag; otherwise the section follows
      the course, then its meetings; int() may fail after the course is out. */
  function Assemble(env: Env, deps: map<string, string>, st: State): (r: Step)
    ensures r.st.fields == st.fields && !r.st.cancelled
    ensures r.raised.Some? ==> r.raised == Some(TypeError) || r.raised == Some(ValueError)
  {
    Emit(st, CourseRecord(env, deps, st.fields), SectionRecord(st.fields, |st.log|), Offerings(st.fields, |st.log| + 1))
  }

  /** The order in which a course's records reach the log, given the course
      record, the section record or the int() failure, and the meetings. */
  function Emit(st: State, course: Emitted, section: Result<Emitted>, meetings: seq<Emitted>): (r: Step)
    ensures r.st.fields == st.fields && !r.st.cancelled
    ensures r.raised.Some? ==> !st.cancelled && section.Err? && r.raised == Some(section.error)
  {
    var log := st.log + [course];
    if st.cancelled then Step(State(st.fields, false, log), None)
    else
      match section
      case Err(e) => Step(State(st.fields, false, log), Some(e))
      case Ok(sec) => Step(State(st.fields, false, log + [sec] + meetings), None)
  }

  /** Emitting keeps the record, always puts the course first and leaves the
      flag down. A cancelled row emits nothing more and raises nothing; for
      any other row a failed section stops right after the course, and
      otherwise the section and then the meetings follow. */
  lemma EmitShape(st: State, course: Emitted, section: Result<Emitted>, meetings: seq<Emitted>)
    ensures var r := Emit(st, course, section, meetings);
      && r.st.fields == st.fields && !r.st.cancelled
      && Prefix(st.log + [course], r.st.log)
      && (st.cancelled ==> r.raised.None? && r.st.log == st.log + [course])
      && (!st.cancelled ==> (r.raised.Some? <==> section.Err?))
      && (!st.cancelled && r.raised.Some? ==> r.st.log == st.log + [course])
      && (!st.cancelled && r.raised.None? ==> r.st.log == st.log + [course, section.value] + meetings)
  {
    var log := st.log + [course];
    assert log[..|log|] == log;
    if !st.cancelled && section.Ok? {
      var full := log + [section.value] + meetings;
      assert full[..|log|] == log;
      assert full == st.log + [course, section.value] + meetings;
    }
  }

  /** Assembling keeps the record, always emits the course first and leaves the
      flag down. A cancelled row emits nothing more and raises nothing; for
      any other row an int() failure stops right after the course, and
      otherwise the section and then its meetings follow. */
  lemma AssembleShape(env: Env, deps: map<string, string>, st: State)
    ensures var r := Assemble(env, deps, st); var course := CourseRecord(env, deps, st.fields);
      && r.st.fields == st.fields && !r.st.cancelled
      && Prefix(st.log + [course], r.st.log)
      && (st.cancelled ==> r.raised.None? && r.st.log == st.log + [course])
      && (!st.cancelled ==> (r.raised.Some? <==> SectionRecord(st.fields, |st.log|).Err?))
      && (!st.cancelled && r.raised.Some? ==> r.st.log == st.log + [course])
      && (!st.cancelled && r.raised.None? ==>
            r.st.log == st.log + [course, SectionRecord(st.fields, |st.log|).value] + Offerings(st.fields, |st.log| + 1))
  {
    EmitShape(st, CourseRecord(env, deps, st.fields), SectionRecord(st.fields, |st.log|), Offerings(st.fields, |st.log| + 1));
  }

  /** The records a non-cancelled row emits are linked: the section names the
      course just before it, and every meeting names that section. */
  lemma EmitLinks(st: State, course: Emitted, section: Emitted, meetings: seq<Emitted>)
    requires !st.cancelled && course.CourseRec? && section.SectionRec? && section.course == |st.log|
    requires forall i :: 0 <= i < |meetings| ==> meetings[i].MeetingRec? && meetings[i].ofSection == |st.log| + 1
    ensures var log := Emit(st, course, Ok(section), meetings).st.log; var c := |st.log|;
      && |log| == c + 2 + |meetings|
      && log[c].CourseRec? && log[c + 1].SectionRec? && log[c + 1].course == c
      && forall i :: c + 2 <= i < |log| ==> log[i].MeetingRec? && log[i].ofSection == c + 1
  {
    var log := Emit(st, course, Ok(section), meetings).st.log;
    var c := |st.log|;
    assert log == st.log + [course] + [section] + meetings;
    forall i | c + 2 <= i < |log| ensures log[i].MeetingRec? && log[i].ofSection == c + 1 {
      assert log[i] == meetings[i - c - 2];
    }
  }

  /** The section of a row that is not cancelled names the course emitted just
      before it, and every meeting names that section. */
  lemma AssembleLinks(env: Env, deps: map<string, string>, st: State)
    requires !st.cancelled && Assemble(env, deps, st).raised.None?
    ensures var log := Assemble(env, deps, st).st.log; var c := |st.log|;
      && |log| >= c + 2
      && log[c].CourseRec? && log[c + 1].SectionRec? && log[c + 1].course == c
      && forall i :: c + 2 <= i < |log| ==> log[i].MeetingRec? && log[i].ofSection == c + 1
  {
    var c := |st.log|;
    var course := CourseRecord(env, deps, st.fields);
    var section := SectionRecord(st.fields, c);
    var ms := Offerings(st.fields, c + 1);
    CourseRecordFields(env, deps, st.fields);
    SectionRecordCases(st.fields, c);
    OfferingsPerDay(st.fields, c + 1);
    EmitLinks(st, course, section.value, ms);
  }

  // ---------------------------------------------------------------------------
  // One row: parse_course
  // ---------------------------------------------------------------------------

  /** parse_course: read the class number from the row's handler, read the
      details into the record, emit the course's records and clear the record.
      A ParseError skips the course and keeps the record; any other exception
      escapes. */
  function CourseStep(env: Env, deps: map<string, string>, st: State, row: Row): (r: Parsed)
    ensures r.raised != Some(ParseError)
    ensures r.raised.Some? ==> r.id == NoRows
    ensures row.onclick.None? ==> r == Parsed(st, NoRows, Some(TypeError))
    ensures row.onclick.Some? && ClassSearch(row.onclick.value).None? ==> r == Parsed(st, NoRows, Some(AttributeError))
  {
    match row.onclick
    case None => Parsed(st, NoRows, Some(TypeError))
    case Some(handler) =>
      match ClassSearch(handler)
      case None => Parsed(st, NoRows, Some(AttributeError))
      case Some(number) => AfterDetails(env, deps, st, number, Details(env, st.fields, row.detail))
  }

  /** The rest of parse_course once the details have been read into `o`. */
  function AfterDetails(env: Env, deps: map<string, string>, st: State, number: string, o: Outcome): (r: Parsed)
    ensures r.raised != Some(ParseError)
    ensures r.raised.Some? ==> r.id == NoRows
    ensures o.raised == Some(ParseError) ==> r == Parsed(st, Number(number), None)
    ensures o.raised.Some? && o.raised != Some(ParseError) ==>
      r.raised == o.raised && r.st.fields == o.fields && r.st.log == st.log
    ensures o.raised.None? ==> var a := Assemble(env, deps, State(o.fields, st.cancelled, st.log));
      && r.raised == a.raised && r.st.log == a.st.log
      && (a.raised.None? ==> r.st.fields == map[] && !r.st.cancelled && r.id == Number(number))
  {
    if o.raised == Some(ParseError) then Parsed(st, Number(number), None)
    else if o.raised.Some? then Parsed(State(o.fields, st.cancelled, st.log), NoRows, o.raised)
    else
      var a := Assemble(env, deps, State(o.fields, st.cancelled, st.log));
      if a.raised.Some? then Parsed(a.st, NoRows, a.raised)
      else Parsed(State(map[], false, a.st.log), Number(number), None)
  }

  /** The class number a row's handler yields, as parse_course returns it. */
  function RowNumber(row: Row): (r: RowId)
    ensures r.Number? ==> row.onclick.Some? && ClassSearch(row.onclick.value) == Some(r.digits)
  {
    match row.onclick
    case None => NoRows
    case Some(handler) => match ClassSearch(handler) case None => NoRows case Some(n) => Number(n)
  }

  /** After the details, the log only grows; returning yields the class
      number, and either keeps the state (a ParseError in the details skips
      the course) or clears the record and the flag (the course was emitted). */
  lemma AfterDetailsShape(env: Env, deps: map<string, string>, st: State, number: string, o: Outcome)
    ensures var r := AfterDetails(env, deps, st, number, o);
      && Prefix(st.log, r.st.log)
      && (r.raised.None? ==> r.id == Number(number))
      && (r.raised.None? ==> r.st == st || (r.st.fields == map[] && !r.st.cancelled))
      && (r.raised.None? && r.st.cancelled ==> r.st == st)
      && (r.raised.None? && o.raised == Some(ParseError) ==> r.st == st)
      && (r.raised.None? && o.raised != Some(ParseError) ==> r.st.fields == map[] && !r.st.cancelled)
  {
    if o.raised.None? {
      AssembleShape(env, deps, State(o.fields, st.cancelled, st.log));
      var a := Assemble(env, deps, State(o.fields, st.cancelled, st.log));
      PrefixTrans(st.log, st.log + [CourseRecord(env, deps, o.fields)], a.st.log);
    } else {
      assert st.log[..|st.log|] == st.log;
    }
  }

  /** What one row does: the log only grows; a row that returns returns its
      class number, and either keeps the state (a ParseError in the details
      skips the course) or clears the record; the flag survives only a
      skipped course. */
  lemma CourseStepShape(env: Env, deps: map<string, string>, st: State, row: Row)
    ensures var r := CourseStep(env, deps, st, row);
      && Prefix(st.log, r.st.log)
      && (r.raised.None? ==> r.id == RowNumber(row) && r.id.Number?)
      && (r.raised.None? ==> r.st == st || (r.st.fields == map[] && !r.st.cancelled))
      && (r.raised.None? && r.st.cancelled ==> r.st == st)
      && (r.raised.None? && Details(env, st.fields, row.detail).raised == Some(ParseError) ==> r.st == st)
      && (r.raised.None? && Details(env, st.fields, row.detail).raised != Some(ParseError) ==>
            r.st.fields == map[] && !r.st.cancelled)
  {
    if row.onclick.Some? && ClassSearch(row.onclick.value).Some? {
      AfterDetailsShape(env, deps, st, ClassSearch(row.onclick.value).value, Details(env, st.fields, row.detail));
    } else {
      assert st.log[..|st.log|] == st.log;
    }
  }

  /** A cancelled row whose details are read emits its course and nothing else,
      and leaves the flag down and the record empty. */
  lemma CancelledRowEmitsCourseOnly(env: Env, deps: map<string, string>, st: State, row: Row)
    requires st.cancelled
    requires row.onclick.Some? && ClassSearch(row.onclick.value).Some?
    requires Details(env, st.fields, row.detail).raised.None?
    ensures var r := CourseStep(env, deps, st, row);
      && r.raised.None?
      && r.st == State(map[], false, st.log + [CourseRecord(env, deps, Details(env, st.fields, row.detail).fields)])
  {
    var o := Details(env, st.fields, row.detail);
    AssembleShape(env, deps, State(o.fields, st.cancelled, st.log));
  }

  /** A row that is not cancelled, whose details are read and whose section
      fields are integers, emits its course, its section and the section's
      meetings in that order, and leaves the flag down and the record empty. */
  lemma OrdinaryRowEmitsAll(env: Env, deps: map<string, string>, st: State, row: Row)
    requires !st.cancelled
    requires row.onclick.Some? && ClassSearch(row.onclick.value).Some?
    requires Details(env, st.fields, row.detail).raised.None?
    requires SectionRecord(Details(env, st.fields, row.detail).fields, |st.log|).Ok?
    ensures var r := CourseStep(env, deps, st, row); var f := Details(env, st.fields, row.detail).fields;
      && r.raised.None? && r.id == RowNumber(row)
      && r.st == State(map[], false, st.log + [CourseRecord(env, deps, f), SectionRecord(f, |st.log|).value]
                                          + Offerings(f, |st.log| + 1))
  {
    var o := Details(env, st.fields, row.detail);
    AssembleShape(env, deps, State(o.fields, st.cancelled, st.log));
  }

  // ---------------------------------------------------------------------------
  // One page: parse_page_of_courses
  // ---------------------------------------------------------------------------

  /** A parser of one row, from a state to the state after the row. */
  type RowParser = (State, Row) -> Parsed

  /** parse_course as a row parser. */
  function ParseRow(env: Env, deps: map<string, string>): RowParser {
    (st: State, row: Row) => CourseStep(env, deps, st, row)
  }

  /** How the id a row returns follows from the row. */
  type RowIds = Row -> RowId

  /** What the page walk needs of a row parser: it only appends to the log,
      and a row it returns from yields the id `num` assigns to the row. */
  ghost predicate RowParserOk(step: RowParser, num: RowIds) {
    forall st: State, row: Row ::
      Prefix(st.log, step(st, row).st.log) && (step(st, row).raised.None? ==> step(st, row).id == num(row))
  }

  lemma ParseRowOk(env: Env, deps: map<string, string>)
    ensures RowParserOk(ParseRow(env, deps), RowNumber)
  {
    forall st: State, row: Row
      ensures Prefix(st.log, ParseRow(env, deps)(st, row).st.log)
      ensures ParseRow(env, deps)(st, row).raised.None? ==> ParseRow(env, deps)(st, row).id == RowNumber(row)
    {
      CourseStepShape(env, deps, st, row);
    }
  }

  /** The rows of a page from the current one, `last` being the id returned
      so far; a cancelled marker raises the flag before the row is parsed,
      and the first exception ends the page. */
  function PageFrom(step: RowParser, st: State, rows: seq<Row>, last: RowId): (r: Parsed)
    decreases |rows|
  {
    if rows == [] then Parsed(st, last, None)
    else
      var st1 := if rows[0].cancelled then st.(cancelled := true) else st;
      var p := step(st1, rows[0]);
      if p.raised.Some? then p else PageFrom(step, p.st, rows[1..], p.id)
  }

  /** parse_page_of_courses: 0 for a page without rows, else the last row's id. */
  function Page(env: Env, deps: map<string, string>, st: State, rows: seq<Row>): (r: Parsed)
  {
    PageFrom(ParseRow(env, deps), st, rows, NoRows)
  }

  /** The id a page reports when it raises nothing: its last row's class number,
      0 when it has no rows. */
  function PageId(rows: seq<Row>): RowId
  {
    if rows == [] then NoRows else RowNumber(rows[|rows| - 1])
  }

  /** The outcome of a page with rows is the parse of one of its rows, from
      some state; of its last row when nothing escapes. */
  lemma {:induction false} PageFromOutcome(step: RowParser, st: State, rows: seq<Row>, last: RowId)
    requires rows != []
    ensures var r := PageFrom(step, st, rows, last);
      exists s: State, i :: 0 <= i < |rows| && r == step(s, rows[i]) && (r.raised.None? ==> i == |rows| - 1)
    decreases |rows|
  {
    var r := PageFrom(step, st, rows, last);
    var st1 := if rows[0].cancelled then st.(cancelled := true) else st;
    var p := step(st1, rows[0]);
    if p.raised.Some? {
      assert r == step(st1, rows[0]);
    } else if |rows| == 1 {
      assert rows[1..] == [];
      assert r == PageFrom(step, p.st, [], p.id) == Parsed(p.st, p.id, None) == step(st1, rows[0]);
    } else {
      PageFromOutcome(step, p.st, rows[1..], p.id);
      var s, i :| 0 <= i < |rows| - 1 && r == step(s, rows[1..][i]) && (r.raised.None? ==> i == |rows| - 2);
      assert rows[1..][i] == rows[i + 1];
      assert r == step(s, rows[i + 1]);
    }
  }

  /** ParseError never escapes a page, and a page without rows returns 0 and
      keeps the state. */
  lemma PageRaises(env: Env, deps: map<string, string>, st: State, rows: seq<Row>)
    ensures Page(env, deps, st, rows).raised != Some(ParseError)
    ensures rows == [] ==> Page(env, deps, st, rows) == Parsed(st, NoRows, None)
  {
    if rows != [] {
      PageFromOutcome(ParseRow(env, deps), st, rows, NoRows);
      var s, i :| 0 <= i < |rows| && Page(env, deps, st, rows) == ParseRow(env, deps)(s, rows[i]);
      assert Page(env, deps, st, rows) == CourseStep(env, deps, s, rows[i]);
    }
  }

  /** A page walk only appends to the log, and one that raises nothing
      returns its last row's id. */
  lemma {:induction false} PageFromShape(step: RowParser, num: RowIds, st: State, rows: seq<Row>, last: RowId)
    requires RowParserOk(step, num)
    ensures var r := PageFrom(step, st, rows, last);
      && Prefix(st.log, r.st.log)
      && (r.raised.None? ==> r.id == if rows == [] then last else num(rows[|rows| - 1]))
    decreases |rows|
  {
    if rows != [] {
      var st1 := if rows[0].cancelled then st.(cancelled := true) else st;
      var p := step(st1, rows[0]);
      assert st1.log == st.log;
      if p.raised.None? {
        PageFromShape(step, num, p.st, rows[1..], p.id);
        PrefixTrans(st.log, p.st.log, PageFrom(step, p.st, rows[1..], p.id).st.log);
        if rows[1..] != [] {
          assert rows[1..][|rows[1..]| - 1] == rows[|rows| - 1];
        }
      }
    }
  }

  /** A parser of a whole page of rows. */
  type PageParser = (State, seq<Row>) -> Parsed

  /** parse_page_of_courses as a page parser. */
  function ParsePage(env: Env, deps: map<string, string>): PageParser {
    (st: State, rows: seq<Row>) => Page(env, deps, st, rows)
  }

  /** A page parser that only appends to the log. */
  ghost predicate PageGrows(page: PageParser) {
    forall st: State, rows: seq<Row> :: Prefix(st.log, page(st, rows).st.log)
  }

  /** How the id of a page follows from its rows. */
  type PageIds = seq<Row> -> RowId

  /** A page parser that, when it raises nothing, returns the id `id` assigns
      to the page: what the paging loop compares from one page to the next. */
  ghost predicate PageReports(page: PageParser, id: PageIds) {
    forall st: State, rows: seq<Row> :: page(st, rows).raised.None? ==> page(st, rows).id == id(rows)
  }

  lemma ParsePageOk(env: Env, deps: map<string, string>)
    ensures PageGrows(ParsePage(env, deps)) && PageReports(ParsePage(env, deps), PageId)
  {
    ParseRowOk(env, deps);
    forall st: State, rows: seq<Row>
      ensures Prefix(st.log, ParsePage(env, deps)(st, rows).st.log)
      ensures ParsePage(env, deps)(st, rows).raised.None? ==> ParsePage(env, deps)(st, rows).id == PageId(rows)
    {
      PageFromShape(ParseRow(env, deps), RowNumber, st, rows, NoRows);
    }
  }

  /** A row whose details raise ParseError is skipped: the state is kept as
      it was, the row's class number is returned and nothing escapes. */
  lemma SkippedRow(env: Env, deps: map<string, string>, st: State, row: Row)
    requires row.onclick.Some? && ClassSearch(row.onclick.value).Some?
    requires Details(env, st.fields, row.detail).raised == Some(ParseError)
    ensures CourseStep(env, deps, st, row) == Parsed(st, RowNumber(row), None)
  {
  }

  /** Every exception other than ParseError escapes parse_course: one from the
      details keeps the record the details left and adds nothing to the log,
      and one from assembling the records is the one parse_course raises. */
  lemma EscapingRow(env: Env, deps: map<string, string>, st: State, row: Row)
    requires row.onclick.Some? && ClassSearch(row.onclick.value).Some?
    ensures var o := Details(env, st.fields, row.detail); var r := CourseStep(env, deps, st, row);
      && (o.raised.Some? && o.raised != Some(ParseError) ==>
            r.raised == o.raised && r.id == NoRows && r.st.fields == o.fields && r.st.log == st.log)
      && (o.raised.None? ==> r.raised == Assemble(env, deps, State(o.fields, st.cancelled, st.log)).raised)
  {
  }

  /** A row whose heading reads but whose header and panel counts differ is
      not skipped: parse_course raises the AssertionError. */
  lemma MismatchIsFatal(env: Env, deps: map<string, string>, st: State, row: Row)
    requires row.onclick.Some? && ClassSearch(row.onclick.value).Some?
    requires ApplyHeader(st.fields, row.detail.heading).raised.None?
    requires |row.detail.headers| != |row.detail.panels|
    ensures CourseStep(env, deps, st, row).raised == Some(AssertionError)
    ensures CourseStep(env, deps, st, row).st.log == st.log
  {
  }

  /** Two rows: the first is parsed after its marker is seen, and the second,
      if the first raised nothing, from the state the first left. */
  lemma PageOfTwo(step: RowParser, st: State, r1: Row, r2: Row)
    ensures var p1 := step(if r1.cancelled then st.(cancelled := true) else st, r1);
      var p2 := step(if r2.cancelled then p1.st.(cancelled := true) else p1.st, r2);
      PageFrom(step, st, [r1, r2], NoRows) == if p1.raised.Some? then p1 else p2
  {
    var p1 := step(if r1.cancelled then st.(cancelled := true) else st, r1);
    assert [r1, r2][1..] == [r2];
    assert [r2][1..] == [];
    if p1.raised.None? {
      var p2 := step(if r2.cancelled then p1.st.(cancelled := true) else p1.st, r2);
      assert PageFrom(step, st, [r1, r2], NoRows) == PageFrom(step, p1.st, [r2], p1.id);
      if p2.raised.None? {
        assert PageFrom(step, p1.st, [r2], p1.id) == PageFrom(step, p2.st, [], p2.id);
        assert Parsed(p2.st, p2.id, None) == p2;
      }
    }
  }

  /** A cancelled row whose details raise ParseError is skipped without
      clearing the record, so its flag is still up for the next row: that row,
      though not marked, emits its course and no section. */
  lemma CancelledFlagCarriesOver(env: Env, deps: map<string, string>, st: State, r1: Row, r2: Row)
    requires r1.cancelled && !r2.cancelled
    requires r1.onclick.Some? && ClassSearch(r1.onclick.value).Some?
    requires Details(env, st.fields, r1.detail).raised == Some(ParseError)
    requires r2.onclick.Some? && ClassSearch(r2.onclick.value).Some?
    requires Details(env, st.fields, r2.detail).raised.None?
    ensures var r := Page(env, deps, st, [r1, r2]);
      && r.raised.None?
      && r.st.log == st.log + [CourseRecord(env, deps, Details(env, st.fields, r2.detail).fields)]
  {
    var st1 := st.(cancelled := true);
    PageOfTwo(ParseRow(env, deps), st, r1, r2);
    SkippedRow(env, deps, st1, r1);
    CancelledRowEmitsCourseOnly(env, deps, st1, r2);
  }

  // ---------------------------------------------------------------------------
  // Pages of a search: parse_set_of_courses
  // ---------------------------------------------------------------------------

  /** The id page p reports; before page 1 it is the initial 0. */
  function IdAt(id: PageIds, pages: nat -> seq<Row>, p: nat): RowId
  {
    if p == 0 then NoRows else id(pages(p))
  }

  /** Page p reports the same id as the page before it (for page 1: 0). */
  predicate RepeatsBy(id: PageIds, pages: nat -> seq<Row>, p: nat) {
    p >= 1 && IdAt(id, pages, p) == IdAt(id, pages, p - 1)
  }

  /** Page p of a department's search repeats its predecessor's PageId. */
  predicate Repeats(pages: nat -> seq<Row>, p: nat) {
    RepeatsBy(PageId, pages, p)
  }

  /** The outcome of the paging loop and the page numbers it requested. */
  datatype Run = Run(out: Parsed, requested: seq<nat>)

  /** The paging loop from page p on, prev being the id of page p - 1: the
      loop goes on while a page returns without exception an id other than
      its predecessor's. It has no bound of its own: `stop` is a page at or
      after p that repeats its predecessor's id, without which it would not end. */
  function SetFrom(page: PageParser, id: PageIds, st: State, pages: nat -> seq<Row>,
                   p: nat, prev: RowId, ghost stop: nat): (r: Run)
    requires PageReports(page, id)
    requires 1 <= p <= stop && RepeatsBy(id, pages, stop)
    requires prev == IdAt(id, pages, p - 1)
    ensures p + |r.requested| <= stop
    decreases stop - p
  {
    var o := page(st, pages(p));
    if o.raised.Some? || o.id == prev then Run(o, [])
    else
      assert o.id == IdAt(id, pages, p);
      assert p < stop;
      var r := SetFrom(page, id, o.st, pages, p + 1, o.id, stop);
      Run(r.out, [p + 1] + r.requested)
  }

  /** The pages requested after p are p + 1, p + 2, ... up to at most stop;
      none of p and the pages requested before the last repeats its
      predecessor's id, and when nothing escapes the last one does. */
  lemma {:induction false} SetFromShape(page: PageParser, id: PageIds, st: State, pages: nat -> seq<Row>,
                                        p: nat, prev: RowId, stop: nat)
    requires PageGrows(page) && PageReports(page, id)
    requires 1 <= p <= stop && RepeatsBy(id, pages, stop)
    requires prev == IdAt(id, pages, p - 1)
    ensures var r := SetFrom(page, id, st, pages, p, prev, stop);
      && (forall i :: 0 <= i < |r.requested| ==> r.requested[i] == p + 1 + i)
      && p + |r.requested| <= stop
      && (r.out.raised.None? ==> RepeatsBy(id, pages, p + |r.requested|))
      && (forall q :: p <= q < p + |r.requested| ==> !RepeatsBy(id, pages, q))
      && Prefix(st.log, r.out.st.log)
    decreases stop - p
  {
    var r := SetFrom(page, id, st, pages, p, prev, stop);
    var o := page(st, pages(p));
    if o.raised.Some? || o.id == prev {
      assert r == Run(o, []);
    } else {
      assert o.id == IdAt(id, pages, p);
      var r' := SetFrom(page, id, o.st, pages, p + 1, o.id, stop);
      assert r == Run(r'.out, [p + 1] + r'.requested);
      SetFromShape(page, id, o.st, pages, p + 1, o.id, stop);
      PrefixTrans(st.log, o.st.log, r.out.st.log);
      assert !RepeatsBy(id, pages, p);
    }
  }

  /** The pages walked so far: pages 1 .. |sts| - 1 were parsed in turn from
      sts[0], sts[1], ..., each raised nothing, left the next state and
      returned an id other than its predecessor's; prev is the id of the last
      of them (0 before page 1). */
  ghost predicate Walked(page: PageParser, id: PageIds, pages: nat -> seq<Row>, sts: seq<State>, prev: RowId) {
    && |sts| >= 1
    && prev == IdAt(id, pages, |sts| - 1)
    && forall k :: 0 <= k < |sts| - 1 ==>
         var o := page(sts[k], pages(k + 1));
         o.raised.None? && o.st == sts[k + 1] && o.id != IdAt(id, pages, k)
  }

  /** A page that goes on extends the walk by one page, and lies before `stop`. */
  lemma WalkOn(page: PageParser, id: PageIds, pages: nat -> seq<Row>, sts: seq<State>, prev: RowId, o: Parsed, stop: nat)
    requires PageReports(page, id) && RepeatsBy(id, pages, stop) && |sts| <= stop
    requires Walked(page, id, pages, sts, prev)
    requires o == page(sts[|sts| - 1], pages(|sts|))
    requires o.raised.None? && o.id != prev
    ensures |sts| < stop
    ensures Walked(page, id, pages, sts + [o.st], o.id)
  {
    var n := |sts|;
    var sts' := sts + [o.st];
    assert o.id == IdAt(id, pages, n);
    forall k | 0 <= k < |sts'| - 1
      ensures var q := page(sts'[k], pages(k + 1)); q.raised.None? && q.st == sts'[k + 1] && q.id != IdAt(id, pages, k)
    {
      if k == n - 1 {
        assert sts'[k] == sts[n - 1] && sts'[k + 1] == o.st;
      } else {
        assert sts'[k] == sts[k] && sts'[k + 1] == sts[k + 1];
      }
    }
  }

  /** A walk that ends on a page raising or repeating its predecessor's id is
      the whole paging loop: its last outcome, and pages 2 .. |sts| requested. */
  lemma WalkedRun(page: PageParser, id: PageIds, pages: nat -> seq<Row>, sts: seq<State>, prev: RowId, o: Parsed, stop: nat)
    requires PageReports(page, id) && RepeatsBy(id, pages, stop) && |sts| <= stop
    requires Walked(page, id, pages, sts, prev)
    requires o == page(sts[|sts| - 1], pages(|sts|))
    requires o.raised.Some? || o.id == prev
    ensures var r := SetFrom(page, id, sts[0], pages, 1, NoRows, stop);
      && r.out == o && |r.requested| == |sts| - 1
      && forall i :: 0 <= i < |r.requested| ==> r.requested[i] == i + 2
  {
    WalkedFrom(page, id, pages, sts, prev, o, stop, 0);
  }

  lemma {:induction false} WalkedFrom(page: PageParser, id: PageIds, pages: nat -> seq<Row>, sts: seq<State>,
                                      prev: RowId, o: Parsed, stop: nat, j: nat)
    requires PageReports(page, id) && RepeatsBy(id, pages, stop) && |sts| <= stop
    requires Walked(page, id, pages, sts, prev)
    requires o == page(sts[|sts| - 1], pages(|sts|))
    requires o.raised.Some? || o.id == prev
    requires j < |sts|
    ensures var r := SetFrom(page, id, sts[j], pages, j + 1, IdAt(id, pages, j), stop);
      && r.out == o && |r.requested| == |sts| - 1 - j
      && forall i :: 0 <= i < |r.requested| ==> r.requested[i] == i + j + 2
    decreases |sts| - j
  {
    var r := SetFrom(page, id, sts[j], pages, j + 1, IdAt(id, pages, j), stop);
    if j < |sts| - 1 {
      var q := page(sts[j], pages(j + 1));
      assert q.raised.None? && q.st == sts[j + 1] && q.id != IdAt(id, pages, j);
      assert q.id == IdAt(id, pages, j + 1);
      WalkedFrom(page, id, pages, sts, prev, o, stop, j + 1);
      var r' := SetFrom(page, id, sts[j + 1], pages, j + 2, IdAt(id, pages, j + 1), stop);
      assert r == Run(r'.out, [j + 2] + r'.requested);
    } else {
      assert r == Run(o, []);
    }
  }

  /** The paging loop from page 1, before which the id is 0. */
  function Paging(page: PageParser, id: PageIds, st: State, pages: nat -> seq<Row>, ghost stop: nat): (r: Run)
    requires PageReports(page, id)
    requires 1 <= stop && RepeatsBy(id, pages, stop)
    ensures |r.requested| < stop
  {
    SetFrom(page, id, st, pages, 1, NoRows, stop)
  }

  /** From page 1, the pages requested are 2, 3, ...; when nothing escapes,
      the loop ends on the first page whose id repeats its predecessor's. */
  lemma PagingShape(page: PageParser, id: PageIds, st: State, pages: nat -> seq<Row>, stop: nat)
    requires PageGrows(page) && PageReports(page, id)
    requires 1 <= stop && RepeatsBy(id, pages, stop)
    ensures var r := Paging(page, id, st, pages, stop); var n := |r.requested|;
      && (forall i :: 0 <= i < n ==> r.requested[i] == i + 2)
      && (r.out.raised.None? ==> RepeatsBy(id, pages, n + 1))
      && (forall q :: 1 <= q <= n ==> !RepeatsBy(id, pages, q))
      && Prefix(st.log, r.out.st.log)
  {
    SetFromShape(page, id, st, pages, 1, NoRows, stop);
  }

  /** parse_set_of_courses: page 1 is the department's listing itself. */
  function SetOfCourses(env: Env, deps: map<string, string>, st: State, pages: nat -> seq<Row>, ghost stop: nat): (r: Run)
    requires 1 <= stop && Repeats(pages, stop)
    ensures |r.requested| < stop
  {
    ParsePageOk(env, deps);
    Paging(ParsePage(env, deps), PageId, st, pages, stop)
  }

  /** The pages requested are 2, 3, ... in order, and when nothing escapes the
      loop ends on the first page that repeats its predecessor's id. */
  lemma SetOfCoursesPages(env: Env, deps: map<string, string>, st: State, pages: nat -> seq<Row>, stop: nat)
    requires 1 <= stop && Repeats(pages, stop)
    ensures var r := SetOfCourses(env, deps, st, pages, stop); var n := |r.requested|;
      && (forall i :: 0 <= i < n ==> r.requested[i] == i + 2)
      && (r.out.raised.None? ==> Repeats(pages, n + 1))
      && (forall q :: 1 <= q <= n ==> !Repeats(pages, q))
      && Prefix(st.log, r.out.st.log)
  {
    ParsePageOk(env, deps);
    PagingShape(ParsePage(env, deps), PageId, st, pages, stop);
  }

  /** WalkOn for the department's pages as parse_page_of_courses reads them. */
  lemma WalkOnPage(env: Env, deps: map<string, string>, pages: nat -> seq<Row>, sts: seq<State>, prev: RowId, o: Parsed, stop: nat)
    requires Repeats(pages, stop) && |sts| <= stop
    requires Walked(ParsePage(env, deps), PageId, pages, sts, prev)
    requires o == Page(env, deps, sts[|sts| - 1], pages(|sts|))
    requires o.raised.None? && o.id != prev
    ensures |sts| < stop
    ensures Walked(ParsePage(env, deps), PageId, pages, sts + [o.st], o.id)
  {
    ParsePageOk(env, deps);
    WalkOn(ParsePage(env, deps), PageId, pages, sts, prev, o, stop);
  }

  /** WalkedRun for the department's pages: a walk that ends on a raising or
      repeating page is parse_set_of_courses from the walk's first state. */
  lemma WalkedSetOfCourses(env: Env, deps: map<string, string>, pages: nat -> seq<Row>, sts: seq<State>, prev: RowId, o: Parsed,
                           requested: seq<nat>, stop: nat)
    requires 1 <= stop && Repeats(pages, stop) && |sts| <= stop
    requires Walked(ParsePage(env, deps), PageId, pages, sts, prev)
    requires o == Page(env, deps, sts[|sts| - 1], pages(|sts|))
    requires o.raised.Some? || o.id == prev
    requires |requested| == |sts| - 1 && forall i :: 0 <= i < |requested| ==> requested[i] == i + 2
    ensures SetOfCourses(env, deps, sts[0], pages, stop) == Run(o, requested)
  {
    ParsePageOk(env, deps);
    WalkedRun(ParsePage(env, deps), PageId, pages, sts, prev, o, stop);
    SetOfCoursesFromFirst(env, deps, sts[0], pages, stop);
    var r := SetFrom(ParsePage(env, deps), PageId, sts[0], pages, 1, NoRows, stop);
    assert r.requested == requested;
  }

  /** parse_set_of_courses is the paging loop from page 1 over parse_page_of_courses. */
  lemma SetOfCoursesFromFirst(env: Env, deps: map<string, string>, st: State, pages: nat -> seq<Row>, stop: nat)
    requires 1 <= stop && Repeats(pages, stop)
    requires PageReports(ParsePage(env, deps), PageId)
    ensures SetOfCourses(env, deps, st, pages, stop) == SetFrom(ParsePage(env, deps), PageId, st, pages, 1, NoRows, stop)
  {
  }

  /** A department whose first page has no rows stops after that page, with
      nothing requested and nothing emitted. */
  lemma EmptyFirstPage(env: Env, deps: map<string, string>, st: State, pages: nat -> seq<Row>)
    requires pages(1) == []
    ensures Repeats(pages, 1)
    ensures SetOfCourses(env, deps, st, pages, 1) == Run(Parsed(st, NoRows, None), [])
  {
    assert Page(env, deps, st, []) == Parsed(st, NoRows, None);
  }

  // ---------------------------------------------------------------------------
  // One department: parse_courses_in_department
  // ---------------------------------------------------------------------------

  const HitCap := 300

  /** The number of hits the listing reports: 0 when it reports none; int('')
      raises ValueError when the count is empty. */
  function Hits(listing: string): (r: Result<nat>)
    ensures CountSearch(listing).None? ==> r == Ok(0)
    ensures CountSearch(listing).Some? && CountSearch(listing).value == [] ==> r == Err(ValueError)
    ensures CountSearch(listing).Some? && CountSearch(listing).value != [] ==> r == Ok(DigitsValue(CountSearch(listing).value))
  {
    match CountSearch(listing)
    case None => Ok(0)
    case Some(ds) => if ds == [] then Err(ValueError) else Ok(DigitsValue(ds))
  }

  /** parse_courses_in_department: exactly 300 hits is refused with
      CourseParseError before any page is parsed; otherwise the pages are walked. */
  function Department(env: Env, deps: map<string, string>, st: State, listing: string,
                      pages: nat -> seq<Row>, ghost stop: nat): (r: Run)
    requires 1 <= stop && Repeats(pages, stop)
    ensures Hits(listing) == Ok(HitCap) ==> r == Run(Parsed(st, NoRows, Some(CourseParseError)), [])
    ensures Hits(listing).Ok? && Hits(listing).value != HitCap ==> r == SetOfCourses(env, deps, st, pages, stop)
    ensures Hits(listing).Err? ==> r == Run(Parsed(st, NoRows, Some(Hits(listing).error)), [])
  {
    match Hits(listing)
    case Err(e) => Run(Parsed(st, NoRows, Some(e)), [])
    case Ok(n) =>
      if n == HitCap then Run(Parsed(st, NoRows, Some(CourseParseError)), [])
      else SetOfCourses(env, deps, st, pages, stop)
  }

  /** A listing that reports "totalRecords: 300," (the first count in it)
      raises CourseParseError and leaves the state as it was. */
  lemma CapRefused(env: Env, deps: map<string, string>, st: State, pre: string, post: string,
                   pages: nat -> seq<Row>, stop: nat)
    requires 1 <= stop && Repeats(pages, stop)
    requires forall q :: 0 <= q < |pre| ==> !CountAt(pre + TotalLabel + "300," + post, q)
    ensures Department(env, deps, st, pre + TotalLabel + "300," + post, pages, stop)
      == Run(Parsed(st, NoRows, Some(CourseParseError)), [])
  {
    CapHits(pre, post);
  }

  /** "totalRecords: 300," as the first count of a listing reports 300 hits. */
  lemma CapHits(pre: string, post: string)
    requires forall q :: 0 <= q < |pre| ==> !CountAt(pre + TotalLabel + "300," + post, q)
    ensures Hits(pre + TotalLabel + "300," + post) == Ok(HitCap)
  {
    var ds := "300";
    assert AllDigits(ds);
    assert pre + TotalLabel + "300," + post == pre + TotalLabel + ds + "," + post;
    CountSearchAt(pre, ds, post);
    ThreeHundred();
  }

  lemma ThreeHundred()
    ensures DigitsValue("300") == 300
  {
    var ds := "300";
    assert AllDigits(ds);
    assert ds[..2] == "30" && "30"[..1] == "3" && "3"[..0] == "";
    assert DigitsValue("") == 0;
    assert DigitsValue("3") == 3;
    assert DigitsValue("30") == 30;
  }

  /** A listing that reports no count is searched as if it had 0 hits. */
  lemma NoCountProceeds(env: Env, deps: map<string, string>, st: State, listing: string, pages: nat -> seq<Row>, stop: nat)
    requires 1 <= stop && Repeats(pages, stop)
    requires forall q :: 0 <= q ==> !CountAt(listing, q)
    ensures Department(env, deps, st, listing, pages, stop) == SetOfCourses(env, deps, st, pages, stop)
  {
  }
}
