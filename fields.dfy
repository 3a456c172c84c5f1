/** The field extractors of the Vanderbilt parser as functions on the working
    record: what each panel of a course's detail dialog writes into it. */
module Fields {
  import opened Text
  import opened Patterns

  /** The Python exceptions a parsing step can let escape. */
  datatype Exc =
    | ParseError        // malformed course abbreviation; the course is skipped
    | CourseParseError  // a department search hit the 300-result cap
    | AssertionError    // header/panel or label/value counts differ
    | AttributeError    // a regular expression or an element lookup found nothing
    | IndexError        // "Hours" with no value lines
    | TypeError         // int(None): a section without its capacity or enrolment
    | ValueError        // int() of a malformed number

  /** A value, or the exception raised instead of it. */
  datatype Result<+T> = Ok(value: T) | Err(error: Exc)

  /** Collaborators the parser calls but does not define: float(), str(float)
      and the extractor's 12-hour to 24-hour time conversion. */
  datatype Env = Env(parseFloat: string -> Option<real>, floatText: real -> string, time12to24: string -> string)

  /** float() reads back what str() writes for every value float() can yield
      and for the default 0.0, once it is stripped, as Python's shortest
      round-tripping float repr guarantees. */
  ghost predicate FloatTextReads(env: Env) {
    && env.parseFloat(Strip(env.floatText(0.0))) == Some(0.0)
    && forall s :: env.parseFloat(s).Some? ==>
         env.parseFloat(Strip(env.floatText(env.parseFloat(s).value))) == env.parseFloat(s)
  }

  /** Some environment meets FloatTextReads: one whose float() reads only "0.0". */
  lemma FloatTextReadsMet()
    ensures FloatTextReads(Env(s => if s == "0.0" then Some(0.0) else None, x => "0.0", t => t))
  {
    var env := Env(s => if s == "0.0" then Some(0.0) else None, x => "0.0", t => t);
    assert Strip("0.0") == "0.0" by { NoSpaceStripped("0.0"); }
    assert env.parseFloat(Strip(env.floatText(0.0))) == Some(0.0);
  }

  /** The working record: field label to field value. */
  type Record = map<string, string>

  /** The record after a step and the exception the step raised, if any. */
  datatype Outcome = Outcome(fields: Record, raised: Option<Exc>)

  /** update_current_course: the value is stored stripped and no other field changes. */
  function Put(m: Record, key: string, value: string): (r: Record)
    ensures key in r && r[key] == Strip(value)
    ensures r.Keys == m.Keys + {key}
    ensures forall k :: k in m && k != key ==> r[k] == m[k]
  {
    m[key := Strip(value)]
  }

  /** safe_cast(value, float, default=0.): the float, or 0.0 for a missing value
      or one float() rejects. */
  function CastFloat(env: Env, value: Option<string>): (x: real)
    ensures value.None? ==> x == 0.0
    ensures value.Some? && env.parseFloat(value.value).None? ==> x == 0.0
    ensures value.Some? && env.parseFloat(value.value).Some? ==> x == env.parseFloat(value.value).value
  {
    match value
    case None => 0.0
    case Some(v) => match env.parseFloat(v) case Some(x) => x case None => 0.0
  }

  // ---------------------------------------------------------------------------
  // Dialog header
  // ---------------------------------------------------------------------------

  /** The fields parse_course_details writes from the dialog heading. */
  const HeaderKeys: set<string> := {"name", "code", "department", "Catalog ID", "section", "description"}

  /** The record once the heading's parts are written: name, code D-C,
      department D, catalog id C, section (S) and an empty description. */
  function HeaderRecord(m: Record, name: string, d: string, c: string, s: string): (r: Record)
    ensures r.Keys == m.Keys + HeaderKeys
    ensures forall k :: k in m && k !in HeaderKeys ==> r[k] == m[k]
  {
    // six update_current_course writes, each Put's stripped store
    m["name" := Strip(name)]["code" := Strip(d + "-" + c)]["department" := Strip(d)]
     ["Catalog ID" := Strip(c)]["section" := Strip("(" + Strip(s) + ")")]["description" := Strip("")]
  }

  /** parse_course_details up to its panels: the heading's abbreviation and name
      go into the record, or the record is left untouched and an exception is raised. */
  function ApplyHeader(m: Record, heading: string): (o: Outcome)
    ensures o.raised.Some? ==> o.fields == m
    ensures o.raised == Some(AttributeError) <==> HeaderSearch(heading).None?
    ensures o.raised == Some(ParseError) <==> HeaderSearch(heading).Some? && AbbrMatch(HeaderSearch(heading).value.0).None?
    ensures o.raised.None? ==> o.fields.Keys == m.Keys + HeaderKeys
  {
    match HeaderSearch(heading)
    case None => Outcome(m, Some(AttributeError))
    case Some((abbr, name)) =>
      match AbbrMatch(abbr)
      case None => Outcome(m, Some(ParseError))
      case Some((d, c, s)) => Outcome(HeaderRecord(m, name, d, c, s), None)
  }

  /** With whitespace-free parts every field the heading writes holds its part
      exactly, the name stripped and the description empty. */
  lemma HeaderRecordValues(m: Record, name: string, d: string, c: string, s: string)
    requires NoSpace(d) && NoSpace(c) && NoSpace(s)
    ensures var r := HeaderRecord(m, name, d, c, s);
      && r["code"] == d + "-" + c && r["department"] == d && r["Catalog ID"] == c
      && r["section"] == "(" + s + ")" && r["name"] == Strip(name) && r["description"] == ""
  {
    NoSpaceStripped(d);
    NoSpaceStripped(c);
    NoSpaceStripped(s);
    var code := d + "-" + c;
    assert Strip(code) == code by {
      assert Stripped(code) by {
        if d != [] { assert code[0] == d[0]; }
        if c != [] { assert code[|code| - 1] == c[|c| - 1]; }
      }
    }
    var sec := "(" + s + ")";
    assert Strip(sec) == sec by {
      assert Stripped(sec) by { assert sec[0] == '(' && sec[|sec| - 1] == ')'; }
    }
  }

  /** The heading "D-C-S:...", then the course name on the next line, with the
      parts free of whitespace and the catalog id and section free of hyphens,
      is read into exactly those parts. */
  lemma HeaderParts(d: string, c: string, s: string, rest: string, name: string, tail: string)
    requires NoSpace(d) && NoSpace(c) && NoSpace(s) && '-' !in c && '-' !in s
    requires '\n' !in rest && ':' !in rest && '\n' !in name
    requires tail == [] || tail[0] == '\n'
    ensures var h := HeaderSearch(d + "-" + c + "-" + s + ":" + rest + "\n" + name + tail);
      h == Some((d + "-" + c + "-" + s, name)) && AbbrMatch(h.value.0) == Some((d, c, s))
  {
    var abbr := d + "-" + c + "-" + s;
    assert '\n' !in abbr by {
      NoSpaceJoin(d, c, s);
      assert forall i :: 0 <= i < |abbr| ==> abbr[i] != '\n';
    }
    assert abbr + ":" + rest + "\n" + name + tail == d + "-" + c + "-" + s + ":" + rest + "\n" + name + tail;
    HeaderOfLines(abbr, rest, name, tail);
    assert abbr == abbr + [];
    AbbrOfParts(d, c, s, []);
  }

  /** A heading "D-C-S:..." followed by the course name on the next line gives
      code D-C, department D, catalog id C, section (S), the stripped name and
      an empty description. */
  lemma HeaderSplit(m: Record, d: string, c: string, s: string, rest: string, name: string, tail: string)
    requires NoSpace(d) && NoSpace(c) && NoSpace(s) && '-' !in c && '-' !in s
    requires '\n' !in rest && ':' !in rest && '\n' !in name
    requires tail == [] || tail[0] == '\n'
    ensures var o := ApplyHeader(m, d + "-" + c + "-" + s + ":" + rest + "\n" + name + tail);
      && o.raised.None?
      && o.fields["code"] == d + "-" + c && o.fields["department"] == d && o.fields["Catalog ID"] == c
      && o.fields["section"] == "(" + s + ")" && o.fields["name"] == Strip(name) && o.fields["description"] == ""
  {
    var heading := d + "-" + c + "-" + s + ":" + rest + "\n" + name + tail;
    HeaderParts(d, c, s, rest, name, tail);
    assert ApplyHeader(m, heading) == Outcome(HeaderRecord(m, name, d, c, s), None);
    HeaderRecordValues(m, name, d, c, s);
  }

  lemma NoSpaceStripped(s: string)
    requires NoSpace(s)
    ensures Strip(s) == s
  {
  }

  // ---------------------------------------------------------------------------
  // Details / Availability: labelled table
  // ---------------------------------------------------------------------------

  /** A label cell and the text of its first following sibling (None: no sibling). */
  datatype LabelCell = LabelCell(caption: string, value: Option<string>)

  const BooksPlaceholder := "<long bn url>"

  /** label.text[:-1]: the label without its last character (the trailing ':'). */
  function DropLast(s: string): (r: string)
    ensures |s| > 0 ==> s == r + [s[|s| - 1]]
    ensures |s| == 0 ==> r == ""
  {
    if |s| == 0 then "" else s[..|s| - 1]
  }

  /** The cleaned value lines of a labelled cell. */
  function CellValues(text: string): (vs: seq<string>)
  {
    NonBlank(SplitLines(text))
  }

  /** One label cell of parse_labeled_table: at most the cell's own key is
      written, and an exception (IndexError only) leaves the record as it was. */
  function LabeledCell(env: Env, m: Record, cell: LabelCell): (o: Outcome)
    ensures m.Keys <= o.fields.Keys <= m.Keys + {Strip(DropLast(cell.caption))}
    ensures forall k :: k in m && k != Strip(DropLast(cell.caption)) ==> o.fields[k] == m[k]
    ensures o.raised.Some? ==> o.raised == Some(IndexError) && o.fields == m
  {
    match cell.value
    case None => Outcome(m, None)
    case Some(text) =>
      var key := Strip(DropLast(cell.caption));
      var values := CellValues(text);
      if key == "Books" then Outcome(Put(m, key, Join(", ", [BooksPlaceholder])), None)
      else if key == "Hours" then
        if values == [] then Outcome(m, Some(IndexError))
        else Outcome(Put(m, key, Join(", ", [env.floatText(CastFloat(env, Some(values[0])))] + values[1..])), None)
      else Outcome(Put(m, key, Join(", ", values)), None)
  }

  /** parse_labeled_table over the cells: each cell in turn, and the first
      exception ends the table with the record as it then was. */
  function LabeledTable(env: Env, m: Record, cells: seq<LabelCell>): (o: Outcome)
    ensures m.Keys <= o.fields.Keys
    ensures o.raised.Some? ==> o.raised == Some(IndexError)
    decreases |cells|
  {
    if cells == [] then Outcome(m, None)
    else
      var o := LabeledCell(env, m, cells[0]);
      if o.raised.Some? then o else LabeledTable(env, o.fields, cells[1..])
  }

  /** A table of one cell is that cell. */
  lemma LabeledTableOne(env: Env, m: Record, cell: LabelCell)
    ensures LabeledTable(env, m, [cell]) == LabeledCell(env, m, cell)
  {
    var o := LabeledCell(env, m, cell);
    if o.raised.None? {
      assert [cell][1..] == [];
    }
  }

  /** A table split in two: the first part, then, unless it raised, the
      second part from the record the first part left; an exception in the
      first part ends the table. */
  lemma {:induction false} LabeledTableAppend(env: Env, m: Record, xs: seq<LabelCell>, ys: seq<LabelCell>)
    ensures var o := LabeledTable(env, m, xs);
      LabeledTable(env, m, xs + ys) == if o.raised.Some? then o else LabeledTable(env, o.fields, ys)
    decreases |xs|
  {
    if xs == [] {
      assert xs + ys == ys;
    } else {
      assert (xs + ys)[0] == xs[0];
      assert (xs + ys)[1..] == xs[1..] + ys;
      var o := LabeledCell(env, m, xs[0]);
      if o.raised.None? {
        LabeledTableAppend(env, o.fields, xs[1..], ys);
      }
    }
  }

  /** An ordinary label stores its non-blank stripped lines joined with ", ",
      exactly; a label without a value cell changes nothing; a "Books" label
      stores the placeholder; an "Hours" label without lines raises IndexError. */
  lemma LabeledCellStores(env: Env, m: Record, cell: LabelCell)
    ensures cell.value.None? ==> LabeledCell(env, m, cell) == Outcome(m, None)
    ensures cell.value.Some? ==> var key := Strip(DropLast(cell.caption)); var o := LabeledCell(env, m, cell);
      && (key != "Books" && key != "Hours" ==> o.raised.None? && o.fields == m[key := Join(", ", CellValues(cell.value.value))])
      && (key == "Books" ==> o.raised.None? && o.fields == m[key := BooksPlaceholder])
      && (key == "Hours" ==> (o.raised.Some? <==> CellValues(cell.value.value) == []))
      && (key == "Hours" && CellValues(cell.value.value) != [] ==> var vs := CellValues(cell.value.value);
            o.fields == m[key := Strip(Join(", ", [env.floatText(CastFloat(env, Some(vs[0])))] + vs[1..]))])
  {
    if cell.value.Some? {
      var values := CellValues(cell.value.value);
      JoinStripped(", ", values);
      assert Stripped(BooksPlaceholder) by {
        assert BooksPlaceholder[0] == '<';
        assert BooksPlaceholder[|BooksPlaceholder| - 1] == '>';
      }
    }
  }

  // ---------------------------------------------------------------------------
  // Meeting Times
  // ---------------------------------------------------------------------------

  /** parse_days: "TBA" or nothing means no days. */
  function DaysField(m: Record, value: string): (r: Record)
    ensures r.Keys == m.Keys + {"days"}
    ensures forall k :: k in m && k != "days" ==> r[k] == m[k]
    ensures value == "TBA" || value == "" ==> r["days"] == ""
    ensures value != "TBA" && value != "" && Stripped(value) ==> r["days"] == value
  {
    if value == "TBA" || value == "" then Put(m, "days", "") else Put(m, "days", value)
  }

  /** Empty time slots: days, start and end all blank. */
  function NoTimes(m: Record): (r: Record)
    ensures r.Keys == m.Keys + {"days", "time_start", "time_end"}
    ensures r["days"] == "" && r["time_start"] == "" && r["time_end"] == ""
    ensures forall k :: k in m && k !in {"days", "time_start", "time_end"} ==> r[k] == m[k]
  {
    Put(Put(Put(m, "days", ""), "time_start", ""), "time_end", "")
  }

  /** parse_time_range: "TBA" or nothing blanks days and both times; "A - B"
      stores both ends converted to 24-hour form; anything else is only reported. */
  function TimeField(env: Env, m: Record, value: string): (r: Record)
    ensures value == "TBA" || value == "" ==> r == NoTimes(m)
    ensures value != "TBA" && value != "" ==> match TimeRange(value)
      case None => r == m
      case Some((a, b)) =>
        && r.Keys == m.Keys + {"time_start", "time_end"}
        && r["time_start"] == Strip(env.time12to24(a)) && r["time_end"] == Strip(env.time12to24(b))
        && forall k :: k in m && k !in {"time_start", "time_end"} ==> r[k] == m[k]
  {
    if value == "TBA" || value == "" then NoTimes(m)
    else
      match TimeRange(value)
      case None => m
      case Some((a, b)) => Put(Put(m, "time_start", env.time12to24(a)), "time_end", env.time12to24(b))
  }

  /** extract_instructors: each line of the cell, cut before " (Primary)";
      every instructor is an initial part of its line. */
  function Instructors(value: string): (r: seq<string>)
    ensures |r| == |SplitLines(value)|
    ensures forall i :: 0 <= i < |r| ==> Prefix(r[i], SplitLines(value)[i])
  {
    var lines := SplitLines(value);
    seq(|lines|, i requires 0 <= i < |lines| => PrimaryCut(lines[i]))
  }

  /** There is one instructor per line; a line that mentions " (Primary)" is
      cut before its last mention and every other line is kept whole. */
  lemma InstructorsPerLine(value: string)
    ensures |Instructors(value)| == |SplitLines(value)|
    ensures forall i :: 0 <= i < |SplitLines(value)| ==>
      var line := SplitLines(value)[i];
      Instructors(value)[i] == match FindLast(line, PrimaryMark) case Some(j) => line[..j] case None => line
  {
    var lines := SplitLines(value);
    forall i | 0 <= i < |lines| ensures '\n' !in lines[i] {
      assert NoLineBreak(lines[i]);
      assert IsLineBreak('\n');
    }
  }

  /** One label/value pair of the meeting-times row: it writes its own label
      or, for "Time" and "Days", the time fields, and keeps everything else. */
  function MeetingCell(env: Env, m: Record, caption: string, value: string): (r: Record)
    ensures m.Keys <= r.Keys
    ensures forall k :: k in m && k != Strip(caption) && k !in {"days", "time_start", "time_end"} ==> r[k] == m[k]
  {
    var l := Strip(caption);
    var v := Strip(value);
    if |l| > 0 && |v| > 0 then
      if l == "Instructor(s)" then Put(m, l, Join(", ", Instructors(v)))
      else if l == "Time" then TimeField(env, m, v)
      else if l == "Days" then DaysField(m, v)
      else Put(m, l, v)
    else m
  }

  /** The first n label/value pairs of the row, in order. */
  function MeetingCells(env: Env, m: Record, labels: seq<string>, values: seq<string>, n: nat): (r: Record)
    requires n <= |labels| == |values|
    ensures m.Keys <= r.Keys
  {
    if n == 0 then m else MeetingCell(env, MeetingCells(env, m, labels, values, n - 1), labels[n - 1], values[n - 1])
  }

  /** The cells of a meeting-times row keep every field that none of their
      labels names, other than days, time_start and time_end. */
  lemma {:induction false} MeetingCellsKeep(env: Env, m: Record, labels: seq<string>, values: seq<string>, n: nat, k: string)
    requires n <= |labels| == |values|
    requires k in m && k !in {"days", "time_start", "time_end"}
    requires forall j :: 0 <= j < n ==> k != Strip(labels[j])
    ensures k in MeetingCells(env, m, labels, values, n) && MeetingCells(env, m, labels, values, n)[k] == m[k]
  {
    if n > 0 {
      MeetingCellsKeep(env, m, labels, values, n - 1, k);
    }
  }

  /** What follows the header row of a meeting-times table: no header row at
      all, a header row with no row after it, or the cells of the next row. */
  datatype TimesRow = NoHeaderRow | NoNextRow | NextRow(cells: seq<string>)

  /** parse_meeting_times: with no labels the three time fields are blanked;
      otherwise the row after the header row supplies one value per label. */
  function MeetingTimes(env: Env, m: Record, labels: seq<string>, row: TimesRow): (o: Outcome)
    ensures o.raised.Some? ==> o.fields == m
    ensures |labels| == 0 ==> o == Outcome(NoTimes(m), None)
    ensures |labels| > 0 && row.NoHeaderRow? ==> o.raised == Some(AttributeError)
    ensures |labels| > 0 && row.NoNextRow? ==> o.raised == Some(IndexError)
    ensures |labels| > 0 && row.NextRow? && |row.cells| != |labels| ==> o.raised == Some(AssertionError)
    ensures |labels| > 0 && row.NextRow? && |row.cells| == |labels| ==>
      o == Outcome(MeetingCells(env, m, labels, row.cells, |labels|), None)
  {
    if |labels| == 0 then Outcome(NoTimes(m), None)
    else
      match row
      case NoHeaderRow => Outcome(m, Some(AttributeError))
      case NoNextRow => Outcome(m, Some(IndexError))
      case NextRow(values) =>
        if |values| != |labels| then Outcome(m, Some(AssertionError))
        else Outcome(MeetingCells(env, m, labels, values, |labels|), None)
  }

  /** A row of the two labels "Days" and "Time", with days such as "MWF" and a
      range such as "10:00 AM - 10:50 AM", stores the days verbatim and both
      ends of the range in 24-hour form. */
  lemma MeetingTimesDaysAndTime(env: Env, m: Record, days: string, a: string, b: string)
    requires days != "" && days != "TBA" && Stripped(days)
    requires a != [] && b != [] && Stripped(a) && Stripped(b)
    requires '\n' !in a && '\n' !in b && '-' !in b
    ensures var o := MeetingTimes(env, m, ["Days", "Time"], NextRow([days, a + RangeDash + b]));
      && o.raised.None?
      && {"days", "time_start", "time_end"} <= o.fields.Keys
      && o.fields["days"] == days
      && o.fields["time_start"] == Strip(env.time12to24(a))
      && o.fields["time_end"] == Strip(env.time12to24(b))
  {
    var range := a + RangeDash + b;
    assert Stripped(range) by { assert range[0] == a[0] && range[|range| - 1] == b[|b| - 1]; }
    DaysThenTime(env, m, days, range);
    assert MeetingTimes(env, m, ["Days", "Time"], NextRow([days, range]))
      == Outcome(MeetingCells(env, m, ["Days", "Time"], [days, range], 2), None);
    TimeRangeOf(a, b);
  }

  /** A "Days" cell and then a "Time" cell, both already stripped and non-empty,
      store the days and then the time range. */
  lemma DaysThenTime(env: Env, m: Record, days: string, range: string)
    requires days != "" && Stripped(days) && range != "" && Stripped(range)
    ensures MeetingCells(env, m, ["Days", "Time"], [days, range], 2) == TimeField(env, DaysField(m, days), range)
  {
    var labels := ["Days", "Time"];
    var values := [days, range];
    var m1 := MeetingCells(env, m, labels, values, 1);
    assert m1 == MeetingCell(env, m, "Days", days) by {
      assert MeetingCells(env, m, labels, values, 0) == m;
    }
    DaysCell(env, m, days);
    assert MeetingCells(env, m, labels, values, 2) == MeetingCell(env, m1, "Time", range);
    TimeCell(env, m1, range);
  }

  lemma DaysCell(env: Env, m: Record, days: string)
    requires days != "" && Stripped(days)
    ensures MeetingCell(env, m, "Days", days) == DaysField(m, days)
  {
    assert Strip("Days") == "Days" by { assert Stripped("Days"); }
  }

  lemma TimeCell(env: Env, m: Record, range: string)
    requires range != "" && Stripped(range)
    ensures MeetingCell(env, m, "Time", range) == TimeField(env, m, range)
  {
    assert Strip("Time") == "Time" by { assert Stripped("Time"); }
  }

  /** What one cell stores: nothing when its label or value is blank; for
      "Instructor(s)" the instructors of the value joined by ", "; for "Time"
      and "Days" what parse_time_range and parse_days store; for every other
      label its stripped value. */
  lemma MeetingCellStores(env: Env, m: Record, caption: string, value: string)
    ensures var l := Strip(caption); var v := Strip(value); var r := MeetingCell(env, m, caption, value);
      && (l == "" || v == "" ==> r == m)
      && (l != "" && v != "" && l == "Instructor(s)" ==> r == m[l := Strip(Join(", ", Instructors(v)))])
      && (l != "" && v != "" && l == "Time" ==> r == TimeField(env, m, v))
      && (l != "" && v != "" && l == "Days" ==> r == DaysField(m, v))
      && (l != "" && v != "" && l !in {"Instructor(s)", "Time", "Days"} ==> r == m[l := v])
  {
  }

  // ---------------------------------------------------------------------------
  // Notes, Description, Attributes
  // ---------------------------------------------------------------------------

  const NotesMark := "\nNotes: "

  /** The notes text: all non-blank lines, stripped and joined by single spaces. */
  function NotesText(text: string): (r: string)
    ensures Stripped(r)
  {
    Strip(Join(" ", NonBlank(SplitLines(text))))
  }

  /** parse_notes: the notes are appended to the description. */
  function Notes(m: Record, text: string): (r: Record)
    requires "description" in m
    ensures r.Keys == m.Keys
    ensures forall k :: k in m && k != "description" ==> r[k] == m[k]
  {
    Put(m, "description", m["description"] + NotesMark + NotesText(text))
  }

  /** Notes only ever extend a (stripped) description: the old text is a prefix
      of the new one; with both texts non-empty the new description is exactly
      old + "\nNotes: " + notes. */
  lemma NotesExtend(m: Record, text: string)
    requires "description" in m && Stripped(m["description"])
    ensures var old_ := m["description"]; var new_ := Notes(m, text)["description"];
      && |old_| <= |new_| && new_[..|old_|] == old_
      && (old_ != "" && NotesText(text) != "" ==> new_ == old_ + NotesMark + NotesText(text))
  {
    var d := m["description"];
    var n := NotesText(text);
    var t := NotesMark + n;
    if d != "" {
      assert !IsSpace(t[1]);
      StripKeepsPrefix(d, t, 1);
      assert d + t == d + NotesMark + n;
      if n != "" {
        assert Stripped(d + t) by {
          assert (d + t)[0] == d[0];
          assert (d + t)[|d + t| - 1] == n[|n| - 1];
        }
      }
    }
  }

  /** On the empty description every course starts with, the newline of the
      mark is stripped away: the description becomes "Notes: " + notes. */
  lemma NotesOnEmpty(m: Record, text: string)
    requires "description" in m && m["description"] == "" && NotesText(text) != ""
    ensures Notes(m, text)["description"] == "Notes: " + NotesText(text)
  {
    var n := NotesText(text);
    var u := "Notes: " + n;
    var t := NotesMark + n;
    assert m["description"] + NotesMark + n == t;
    assert t == "\n" + u && t[1..] == u;
    assert Stripped(u) by { assert u[0] == 'N' && u[|u| - 1] == n[|n| - 1]; }
    assert LStrip(t) == LStrip(u) == u;
    assert Strip(t) == u;
  }

  /** Lines that are already clean (non-empty, stripped, without line
      boundaries) collapse into exactly those lines joined by single spaces. */
  lemma NotesOfLines(xs: seq<string>)
    requires forall k :: 0 <= k < |xs| ==> xs[k] != "" && Stripped(xs[k]) && NoLineBreak(xs[k])
    ensures NotesText(Join("\n", xs)) == Join(" ", xs)
  {
    SplitLinesJoin(xs);
    JoinStripped(" ", xs);
  }

  /** parse_description: the stripped panel text replaces the description. */
  function Description(m: Record, text: string): (r: Record)
    ensures r.Keys == m.Keys + {"description"}
    ensures r["description"] == Strip(text)
    ensures forall k :: k in m && k != "description" ==> r[k] == m[k]
  {
    Put(m, "description", Strip(text))
  }

  /** parse_attributes: the stripped list items joined with ", ". */
  function Attributes(m: Record, items: seq<string>): (r: Record)
    ensures r.Keys == m.Keys + {"Attributes"}
    ensures forall k :: k in m && k != "Attributes" ==> r[k] == m[k]
  {
    Put(m, "Attributes", Join(", ", StripAll(items)))
  }

  /** With no blank item, the stored value is the stripped items joined by
      ", " (the strip in update_current_course then changes nothing). */
  lemma AttributesStored(m: Record, items: seq<string>)
    requires forall k :: 0 <= k < |items| ==> Strip(items[k]) != ""
    ensures Attributes(m, items)["Attributes"] == Join(", ", StripAll(items))
  {
    var xs := StripAll(items);
    assert forall k :: 0 <= k < |xs| ==> xs[k] != "" && Stripped(xs[k]);
    JoinStripped(", ", xs);
    assert Strip(Join(", ", xs)) == Join(", ", xs);
  }

  // ---------------------------------------------------------------------------
  // Panel dispatch
  // ---------------------------------------------------------------------------

  /** One detail panel, as every extractor may read it: its text, its label
      cells, its list items, and its meeting-times labels and value row. */
  datatype Panel = Panel(text: string, cells: seq<LabelCell>, items: seq<string>,
                         timeLabels: seq<string>, timeRow: TimesRow)

  /** The extractor chosen by a panel's header; "Cross Listings", "Ad Hoc
      Meeting Times" and unknown headers change nothing. */
  function ApplyPanel(env: Env, m: Record, header: string, panel: Panel): (o: Outcome)
    requires "description" in m
    ensures m.Keys <= o.fields.Keys
    ensures o.raised != Some(ParseError)
  {
    var h := Strip(header);
    if h == "Details" || h == "Availability" then LabeledTable(env, m, panel.cells)
    else if h == "Description" then Outcome(Description(m, panel.text), None)
    else if h == "Notes" then Outcome(Notes(m, panel.text), None)
    else if h == "Meeting Times" then MeetingTimes(env, m, panel.timeLabels, panel.timeRow)
    else if h == "Attributes" then Outcome(Attributes(m, panel.items), None)
    else Outcome(m, None)
  }

  /** The header/panel pairs in order; the first exception ends the walk. */
  function Panels(env: Env, m: Record, headers: seq<string>, panels: seq<Panel>): (o: Outcome)
    requires |headers| == |panels|
    requires "description" in m
    ensures m.Keys <= o.fields.Keys
    ensures o.raised != Some(ParseError)
    decreases |headers|
  {
    if headers == [] then Outcome(m, None)
    else
      var o := ApplyPanel(env, m, headers[0], panels[0]);
      if o.raised.Some? then o else Panels(env, o.fields, headers[1..], panels[1..])
  }

  /** Which extractor each header selects, after stripping it: the labelled
      table for "Details" and "Availability", the description, the notes,
      the meeting times and the attributes; any other header changes nothing. */
  lemma ApplyPanelDispatch(env: Env, m: Record, header: string, panel: Panel)
    requires "description" in m
    ensures var h := Strip(header); var o := ApplyPanel(env, m, header, panel);
      && (h == "Details" || h == "Availability" ==> o == LabeledTable(env, m, panel.cells))
      && (h == "Description" ==> o == Outcome(Description(m, panel.text), None))
      && (h == "Notes" ==> o == Outcome(Notes(m, panel.text), None))
      && (h == "Meeting Times" ==> o == MeetingTimes(env, m, panel.timeLabels, panel.timeRow))
      && (h == "Attributes" ==> o == Outcome(Attributes(m, panel.items), None))
      && (h !in {"Details", "Availability", "Description", "Notes", "Meeting Times", "Attributes"} ==> o == Outcome(m, None))
  {
  }

  /** A walk over one header/panel pair is that panel's extractor. */
  lemma PanelsOne(env: Env, m: Record, header: string, panel: Panel)
    requires "description" in m
    ensures Panels(env, m, [header], [panel]) == ApplyPanel(env, m, header, panel)
  {
    var o := ApplyPanel(env, m, header, panel);
    if o.raised.None? {
      assert [header][1..] == [] && [panel][1..] == [];
    }
  }

  /** A walk split in two: the first pairs, then, unless they raised, the rest
      from the record they left; a panel's exception ends the walk and is
      the walk's exception. */
  lemma {:induction false} PanelsAppend(env: Env, m: Record, hs: seq<string>, ps: seq<Panel>, hs': seq<string>, ps': seq<Panel>)
    requires |hs| == |ps| && |hs'| == |ps'|
    requires "description" in m
    ensures var o := Panels(env, m, hs, ps);
      Panels(env, m, hs + hs', ps + ps') == if o.raised.Some? then o else Panels(env, o.fields, hs', ps')
    decreases |hs|
  {
    if hs == [] {
      assert hs + hs' == hs' && ps + ps' == ps';
    } else {
      assert (hs + hs')[0] == hs[0] && (ps + ps')[0] == ps[0];
      assert (hs + hs')[1..] == hs[1..] + hs' && (ps + ps')[1..] == ps[1..] + ps';
      var o := ApplyPanel(env, m, hs[0], ps[0]);
      if o.raised.None? {
        PanelsAppend(env, o.fields, hs[1..], ps[1..], hs', ps');
      }
    }
  }

  /** The detail dialog of one course: its heading and its header/panel pairs. */
  datatype Detail = Detail(heading: string, headers: seq<string>, panels: seq<Panel>)

  /** parse_course_details. ParseError comes only from the heading and leaves
      the record as it was; a header/panel count mismatch is an AssertionError. */
  function Details(env: Env, m: Record, d: Detail): (o: Outcome)
    ensures o.raised == Some(ParseError) ==> o.fields == m
    ensures o.raised.None? ==> |d.headers| == |d.panels| && m.Keys + HeaderKeys <= o.fields.Keys
    ensures |d.headers| != |d.panels| ==> o.raised.Some?
    ensures ApplyHeader(m, d.heading).raised.Some? ==> o == ApplyHeader(m, d.heading)
    ensures ApplyHeader(m, d.heading).raised.None? && |d.headers| != |d.panels| ==> o.raised == Some(AssertionError)
    ensures o.raised == Some(ParseError) <==> ApplyHeader(m, d.heading).raised == Some(ParseError)
    ensures ApplyHeader(m, d.heading).raised.None? && |d.headers| == |d.panels| ==>
      o == Panels(env, ApplyHeader(m, d.heading).fields, d.headers, d.panels)
  {
    var h := ApplyHeader(m, d.heading);
    if h.raised.Some? then h
    else if |d.headers| != |d.panels| then Outcome(h.fields, Some(AssertionError))
    else Panels(env, h.fields, d.headers, d.panels)
  }
}
