/** The Vanderbilt course parser as an object: its working record, its
    cancelled flag and the records it has handed to the ingestor are fields
    that its methods update in place. Every method is proved to leave the
    state the functions of Fields, Assembly and Crawl describe. */
module Vandy {
  import opened Text
  import opened Patterns
  import opened Fields
  import opened Assembly
  import opened Crawl

  class Parser {
    /** float(), str(float) and the 12-hour to 24-hour time conversion. */
    const env: Env
    /** Department code to department name. */
    const departments: map<string, string>
    /** The working record of the course being read. */
    var course: Record
    /** Whether the row being parsed carries the cancelled marker. */
    var cancelled: bool
    /** The records handed to the ingestor, in order. */
    var log: seq<Emitted>

    /** The state the functional model works on. */
    function Snapshot(): State
      reads this
    {
      State(course, cancelled, log)
    }

    /** A fresh parser: an empty description, no cancelled marker, nothing emitted. */
    constructor (env: Env, departments: map<string, string>)
      ensures this.env == env && this.departments == departments
      ensures course == map["description" := ""] && !cancelled && log == []
    {
      this.env := env;
      this.departments := departments;
      course := map["description" := ""];
      cancelled := false;
      log := [];
    }

    /** update_current_course: the value is stored stripped under its label. */
    method UpdateCurrentCourse(field: string, value: string)
      modifies this
      ensures course == Put(old(course), field, value)
      ensures cancelled == old(cancelled) && log == old(log)
    {
      course := course[field := Strip(value)];
    }

    // -------------------------------------------------------------------------
    // Panel extractors
    // -------------------------------------------------------------------------

    /** parse_days */
    method ParseDays(value: string)
      modifies this
      ensures course == DaysField(old(course), value)
      ensures cancelled == old(cancelled) && log == old(log)
    {
      if value == "TBA" || value == "" {
        UpdateCurrentCourse("days", "");
      } else {
        UpdateCurrentCourse("days", value);
      }
    }

    /** parse_time_range; a value that is not a range is only reported. */
    method ParseTimeRange(value: string)
      modifies this
      ensures course == TimeField(env, old(course), value)
      ensures cancelled == old(cancelled) && log == old(log)
    {
      if value == "TBA" || value == "" {
        UpdateCurrentCourse("days", "");
        UpdateCurrentCourse("time_start", "");
        UpdateCurrentCourse("time_end", "");
      } else {
        var search := TimeRange(value);
        if search.Some? {
          UpdateCurrentCourse("time_start", env.time12to24(search.value.0));
          UpdateCurrentCourse("time_end", env.time12to24(search.value.1));
        }
      }
    }

    /** extract_instructors: the lines of the cell, each cut in place before
        its last " (Primary)". */
    static method ExtractInstructors(s: string) returns (instructors: seq<string>)
      ensures instructors == Instructors(s)
    {
      instructors := SplitLines(s);
      ghost var lines := instructors;
      for i := 0 to |instructors|
        invariant |instructors| == |lines|
        invariant forall k :: 0 <= k < i ==> instructors[k] == PrimaryCut(lines[k])
        invariant forall k :: i <= k < |lines| ==> instructors[k] == lines[k]
      {
        assert '\n' !in lines[i] by {
          assert NoLineBreak(lines[i]);
          assert IsLineBreak('\n');
        }
        var search := FindLast(instructors[i], PrimaryMark);
        if search.Some? {
          instructors := instructors[i := instructors[i][..search.value]];
        }
      }
    }

    /** parse_notes; the heading always writes a description before any panel. */
    method ParseNotes(text: string)
      requires "description" in course
      modifies this
      ensures course == Notes(old(course), text)
      ensures cancelled == old(cancelled) && log == old(log)
    {
      UpdateCurrentCourse("description", course["description"] + NotesMark + NotesText(text));
    }

    /** parse_description */
    method ParseDescription(text: string)
      modifies this
      ensures course == Description(old(course), text)
      ensures cancelled == old(cancelled) && log == old(log)
    {
      UpdateCurrentCourse("description", Strip(text));
    }

    /** parse_attributes */
    method ParseAttributes(items: seq<string>)
      modifies this
      ensures course == Attributes(old(course), items)
      ensures cancelled == old(cancelled) && log == old(log)
    {
      UpdateCurrentCourse("Attributes", Join(", ", StripAll(items)));
    }

    /** parse_labeled_table: each label with a value cell writes one field;
        an "Hours" label without value lines raises IndexError. */
    method ParseLabeledTable(cells: seq<LabelCell>) returns (raised: Option<Exc>)
      modifies this
      ensures Outcome(course, raised) == LabeledTable(env, old(course), cells)
      ensures cancelled == old(cancelled) && log == old(log)
    {
      for i := 0 to |cells|
        invariant LabeledTable(env, old(course), cells) == LabeledTable(env, course, cells[i..])
        invariant cancelled == old(cancelled) && log == old(log)
      {
        assert cells[i..][1..] == cells[i + 1..];
        raised := ParseLabeledCell(cells[i]);
        if raised.Some? {
          return;
        }
      }
      return None;
    }

    /** One label of parse_labeled_table and the first sibling of its cell. */
    method ParseLabeledCell(cell: LabelCell) returns (raised: Option<Exc>)
      modifies this
      ensures Outcome(course, raised) == LabeledCell(env, old(course), cell)
      ensures cancelled == old(cancelled) && log == old(log)
    {
      if cell.value.None? {
        return None;
      }
      var key := Strip(DropLast(cell.caption));
      var values := CellValues(cell.value.value);
      if key == "Books" {
        values := [BooksPlaceholder];
      } else if key == "Hours" {
        if values == [] {
          return Some(IndexError);
        }
        assert values[0 := env.floatText(CastFloat(env, Some(values[0])))]
          == [env.floatText(CastFloat(env, Some(values[0])))] + values[1..];
        values := values[0 := env.floatText(CastFloat(env, Some(values[0])))];
      }
      UpdateCurrentCourse(key, Join(", ", values));
      return None;
    }

    /** parse_meeting_times: the labels of the header row and the cells of the
        row after it, pairwise. */
    method ParseMeetingTimes(labels: seq<string>, row: TimesRow) returns (raised: Option<Exc>)
      modifies this
      ensures Outcome(course, raised) == MeetingTimes(env, old(course), labels, row)
      ensures cancelled == old(cancelled) && log == old(log)
    {
      var values: seq<string> := [];
      if |labels| > 0 {
        if row.NoHeaderRow? {
          return Some(AttributeError);
        } else if row.NoNextRow? {
          return Some(IndexError);
        }
        values := row.cells;
      } else {
        UpdateCurrentCourse("days", "");
        UpdateCurrentCourse("time_start", "");
        UpdateCurrentCourse("time_end", "");
      }
      if |labels| != |values| {
        return Some(AssertionError);
      }
      ghost var start := course;
      for i := 0 to |labels|
        invariant course == MeetingCells(env, start, labels, values, i)
        invariant cancelled == old(cancelled) && log == old(log)
      {
        var caption := Strip(labels[i]);
        var value := Strip(values[i]);
        if |caption| > 0 && |value| > 0 {
          if caption == "Instructor(s)" {
            var names := ExtractInstructors(value);
            UpdateCurrentCourse(caption, Join(", ", names));
          } else if caption == "Time" {
            ParseTimeRange(value);
          } else if caption == "Days" {
            ParseDays(value);
          } else {
            UpdateCurrentCourse(caption, value);
          }
        }
      }
      return None;
    }

    /** parse_course_details: the heading, then every header/panel pair. */
    method ParseCourseDetails(d: Detail) returns (raised: Option<Exc>)
      modifies this
      ensures Outcome(course, raised) == Details(env, old(course), d)
      ensures cancelled == old(cancelled) && log == old(log)
    {
      raised := ParseHeading(d.heading);
      if raised.Some? {
        return;
      }
      if |d.headers| != |d.panels| {
        return Some(AssertionError);
      }
      ghost var start := course;
      for i := 0 to |d.headers|
        invariant "description" in course
        invariant Panels(env, start, d.headers, d.panels) == Panels(env, course, d.headers[i..], d.panels[i..])
        invariant cancelled == old(cancelled) && log == old(log)
      {
        assert d.headers[i..][1..] == d.headers[i + 1..];
        assert d.panels[i..][1..] == d.panels[i + 1..];
        var r := ParsePanel(d.headers[i], d.panels[i]);
        if r.Some? {
          return r;
        }
      }
      return None;
    }

    /** One header/panel pair of parse_course_details: the header picks the
        extractor that fills the record from the panel. */
    method ParsePanel(header: string, panel: Panel) returns (raised: Option<Exc>)
      requires "description" in course
      modifies this
      ensures Outcome(course, raised) == ApplyPanel(env, old(course), header, panel)
      ensures cancelled == old(cancelled) && log == old(log)
    {
      var h := Strip(header);
      raised := None;
      if h == "Details" || h == "Availability" {
        raised := ParseLabeledTable(panel.cells);
      } else if h == "Description" {
        ParseDescription(panel.text);
      } else if h == "Notes" {
        ParseNotes(panel.text);
      } else if h == "Meeting Times" {
        raised := ParseMeetingTimes(panel.timeLabels, panel.timeRow);
      } else if h == "Attributes" {
        ParseAttributes(panel.items);
      }
    }

    /** The first part of parse_course_details: the heading's name and
        abbreviation are written into the record. */
    method ParseHeading(heading: string) returns (raised: Option<Exc>)
      modifies this
      ensures Outcome(course, raised) == ApplyHeader(old(course), heading)
      ensures cancelled == old(cancelled) && log == old(log)
    {
      var search := HeaderSearch(heading);
      if search.None? {
        return Some(AttributeError);
      }
      var (abbr, name) := search.value;
      var title := AbbrMatch(abbr);
      if title.None? {
        return Some(ParseError);
      }
      var (dept, catalog, section) := title.value;
      UpdateCurrentCourse("name", name);
      UpdateCurrentCourse("code", dept + "-" + catalog);
      UpdateCurrentCourse("department", dept);
      UpdateCurrentCourse("Catalog ID", catalog);
      UpdateCurrentCourse("section", "(" + Strip(section) + ")");
      UpdateCurrentCourse("description", "");
      return None;
    }

    // -------------------------------------------------------------------------
    // Records for the ingestor
    // -------------------------------------------------------------------------

    /** create_course: the course record is handed to the ingestor and its log
        position is the handle returned. */
    method CreateCourse() returns (created: nat)
      modifies this
      ensures log == old(log) + [CourseRecord(env, departments, course)]
      ensures created == |old(log)|
      ensures course == old(course) && cancelled == old(cancelled)
    {
      created := |log|;
      log := log + [CourseRecord(env, departments, course)];
    }

    /** create_section: a cancelled row resets the flag and emits no section;
        otherwise int() of the capacity, then of the enrolment, may raise, and
        the section of course `created` is emitted and its handle returned. */
    method CreateSection(created: nat) returns (section: Option<nat>, raised: Option<Exc>)
      modifies this
      ensures course == old(course) && !cancelled
      ensures old(cancelled) ==> section.None? && raised.None? && log == old(log)
      ensures !old(cancelled) ==> match SectionRecord(course, created)
        case Err(e) => raised == Some(e) && section.None? && log == old(log)
        case Ok(rec) => raised.None? && section == Some(|old(log)|) && log == old(log) + [rec]
    {
      if cancelled {
        cancelled := false;
        return None, None;
      }
      var size := IntField(course, "Class Capacity");
      if size.Err? {
        return None, Some(size.error);
      }
      var enrolment := IntField(course, "Total Enrolled");
      if enrolment.Err? {
        return None, Some(enrolment.error);
      }
      section := Some(|log|);
      log := log + [SectionRec(created, Get(course, "section"), GetOr(course, "Instructor(s)", ""), size.value, enrolment.value)];
      raised := None;
    }

    /** create_offerings: one meeting of section `created` per day letter. */
    method CreateOfferings(created: nat)
      modifies this
      ensures log == old(log) + Offerings(course, created)
      ensures course == old(course) && cancelled == old(cancelled)
    {
      if "days" in course && course["days"] != "" {
        var days := course["days"];
        var start, end, location := Get(course, "time_start"), Get(course, "time_end"), Get(course, "Location");
        for k := 0 to |days|
          invariant |log| == |old(log)| + k
          invariant log[..|old(log)|] == old(log)
          invariant forall j :: 0 <= j < k ==> log[|old(log)| + j] == MeetingRec(created, days[j], start, end, location)
          invariant course == old(course) && cancelled == old(cancelled)
        {
          log := log + [MeetingRec(created, days[k], start, end, location)];
        }
        assert log == old(log) + Meetings(days, created, start, end, location);
      }
    }

    // -------------------------------------------------------------------------
    // Rows, pages and searches
    // -------------------------------------------------------------------------

    /** parse_course: the class number from the row's handler, the details,
        the course's records, and a cleared record; a ParseError skips the
        course and is not raised further. */
    method ParseCourse(row: Row) returns (id: RowId, raised: Option<Exc>)
      modifies this
      ensures Parsed(Snapshot(), id, raised) == CourseStep(env, departments, old(Snapshot()), row)
    {
      if row.onclick.None? {
        return NoRows, Some(TypeError);
      }
      var search := ClassSearch(row.onclick.value);
      if search.None? {
        return NoRows, Some(AttributeError);
      }
      var number := search.value;
      raised := ParseCourseDetails(row.detail);
      if raised == Some(ParseError) {
        return Number(number), None;
      }
      if raised.Some? {
        return NoRows, raised;
      }
      raised := CreateAll();
      if raised.Some? {
        return NoRows, raised;
      }
      course := map[];
      return Number(number), None;
    }

    /** create_section(create_course()), then create_offerings when a section
        was created: the records of the course just read. */
    method CreateAll() returns (raised: Option<Exc>)
      modifies this
      ensures Step(Snapshot(), raised) == Assemble(env, departments, old(Snapshot()))
    {
      var created := CreateCourse();
      var section;
      section, raised := CreateSection(created);
      if raised.Some? {
        return;
      }
      if section.Some? {
        CreateOfferings(section.value);
      }
    }

    /** parse_page_of_courses: each row in turn, its cancelled marker raising
        the flag first; the class number of the last row, 0 without rows. */
    method ParsePageOfCourses(rows: seq<Row>) returns (last: RowId, raised: Option<Exc>)
      modifies this
      ensures Parsed(Snapshot(), last, raised) == Page(env, departments, old(Snapshot()), rows)
    {
      last := NoRows;
      for i := 0 to |rows|
        invariant Page(env, departments, old(Snapshot()), rows) == PageFrom(ParseRow(env, departments), Snapshot(), rows[i..], last)
      {
        assert rows[i..][1..] == rows[i + 1..];
        if rows[i].cancelled {
          cancelled := true;
        }
        last, raised := ParseCourse(rows[i]);
        if raised.Some? {
          return;
        }
      }
      raised := None;
    }

    /** parse_set_of_courses: page 1 is the listing; page after page is
        requested until one returns the id of the page before it. */
    method ParseSetOfCourses(pages: nat -> seq<Row>, ghost stop: nat) returns (requested: seq<nat>, raised: Option<Exc>)
      requires 1 <= stop && Repeats(pages, stop)
      modifies this
      ensures var r := SetOfCourses(env, departments, old(Snapshot()), pages, stop);
        Snapshot() == r.out.st && raised == r.out.raised && requested == r.requested
    {
      var prev;
      ghost var sts, o;
      requested, raised, prev, sts, o := WalkPages(pages, stop);
      WalkedSetOfCourses(env, departments, pages, sts, prev, o, requested, stop);
    }

    /** The loop of parse_set_of_courses. It returns the walk it made: the
        state before each page, the id of the last page that went on, and
        the outcome of the page it stopped on. */
    method WalkPages(pages: nat -> seq<Row>, ghost stop: nat)
      returns (requested: seq<nat>, raised: Option<Exc>, prev: RowId, ghost sts: seq<State>, ghost o: Parsed)
      requires 1 <= stop && Repeats(pages, stop)
      modifies this
      ensures 1 <= |sts| <= stop && sts[0] == old(Snapshot())
      ensures Walked(ParsePage(env, departments), PageId, pages, sts, prev)
      ensures o == Page(env, departments, sts[|sts| - 1], pages(|sts|))
      ensures o.st == Snapshot() && o.raised == raised && (o.raised.Some? || o.id == prev)
      ensures |requested| == |sts| - 1 && forall i :: 0 <= i < |requested| ==> requested[i] == i + 2
    {
      prev := NoRows;
      var pageCount: nat := 1;
      var html := pages(1);
      requested := [];
      sts := [Snapshot()];
      while true
        invariant 1 <= pageCount <= stop && html == pages(pageCount)
        invariant |sts| == pageCount && sts[0] == old(Snapshot()) && sts[pageCount - 1] == Snapshot()
        invariant Walked(ParsePage(env, departments), PageId, pages, sts, prev)
        invariant |requested| == pageCount - 1 && forall i :: 0 <= i < |requested| ==> requested[i] == i + 2
        decreases stop - pageCount
      {
        ghost var before := Snapshot();
        var last;
        last, raised := ParsePageOfCourses(html);
        o := Parsed(Snapshot(), last, raised);
        if raised.Some? || last == prev {
          return;
        }
        WalkOnPage(env, departments, pages, sts, prev, o, stop);
        sts := sts + [Snapshot()];
        pageCount := pageCount + 1;
        html := pages(pageCount);
        requested := requested + [pageCount];
        prev := last;
      }
    }

    /** parse_courses_in_department: a listing reporting exactly 300 hits is
        refused; otherwise its pages are parsed. */
    method ParseCoursesInDepartment(listing: string, pages: nat -> seq<Row>, ghost stop: nat)
      returns (requested: seq<nat>, raised: Option<Exc>)
      requires 1 <= stop && Repeats(pages, stop)
      modifies this
      ensures var r := Department(env, departments, old(Snapshot()), listing, pages, stop);
        Snapshot() == r.out.st && raised == r.out.raised && requested == r.requested
    {
      var search := CountSearch(listing);
      var hits: nat := 0;
      if search.Some? {
        if search.value == [] {
          return [], Some(ValueError);
        }
        hits := DigitsValue(search.value);
      }
      if hits == HitCap {
        return [], Some(CourseParseError);
      }
      requested, raised := ParseSetOfCourses(pages, stop);
    }
  }
}
