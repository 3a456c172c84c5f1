/** The records the parser hands to its ingestor once a course's detail page
    has been read: one course, then a section unless the row was cancelled,
    then one meeting per day letter. */
module Assembly {
  import opened Text
  import opened Patterns
  import opened Fields

  /** A record handed to the ingestor. A section names its course, and a
      meeting its section, by the position of that record in the log. */
  datatype Emitted =
    | CourseRec(school: string, campus: int, code: Option<string>, name: Option<string>,
                description: string, numCredits: real, areas: seq<string>,
                prerequisites: Option<string>, departmentName: Option<string>, level: string)
    | SectionRec(course: nat, section: Option<string>, instructors: string, size: int, enrolment: int)
    | MeetingRec(ofSection: nat, day: char, timeStart: Option<string>, timeEnd: Option<string>,
                 location: Option<string>)

  /** dict.get(key): the value, or None for a missing key. */
  function Get<V>(m: map<string, V>, key: string): (r: Option<V>)
    ensures r.Some? <==> key in m
    ensures r.Some? ==> r.value == m[key]
  {
    if key in m then Some(m[key]) else None
  }

  /** dict.get(key, default). */
  function GetOr(m: Record, key: string, default: string): (r: string)
    ensures key in m ==> r == m[key]
    ensures key !in m ==> r == default
  {
    if key in m then m[key] else default
  }

  // ---------------------------------------------------------------------------
  // Course
  // ---------------------------------------------------------------------------

  /** filter(bool, xs): the non-empty strings, in order. */
  function NonEmpty(xs: seq<string>): (r: seq<string>)
    ensures |r| <= |xs|
    ensures forall k :: 0 <= k < |r| ==> r[k] != ""
    ensures (forall k :: 0 <= k < |xs| ==> xs[k] != "") ==> r == xs
  {
    if xs == [] then []
    else if xs[0] == "" then NonEmpty(xs[1..])
    else [xs[0]] + NonEmpty(xs[1..])
  }

  /** filter works piece by piece: what it keeps of xs + ys is what it keeps
      of xs, then what it keeps of ys. */
  lemma {:induction false} NonEmptyAppend(xs: seq<string>, ys: seq<string>)
    ensures NonEmpty(xs + ys) == NonEmpty(xs) + NonEmpty(ys)
  {
    if xs == [] {
      assert xs + ys == ys;
    } else {
      assert (xs + ys)[0] == xs[0];
      assert (xs + ys)[1..] == xs[1..] + ys;
      NonEmptyAppend(xs[1..], ys);
    }
  }

  /** One piece is kept exactly when it is not empty. */
  lemma NonEmptyOne(x: string)
    ensures NonEmpty([x]) == if x == "" then [] else [x]
  {
    assert [x][1..] == [];
  }

  /** The course's areas: the non-empty pieces of its attributes split at ','. */
  function Areas(attrs: string): (r: seq<string>)
    ensures forall k :: 0 <= k < |r| ==> r[k] != "" && ',' !in r[k]
  {
    var pieces := Split(attrs, ',');
    var r := NonEmpty(pieces);
    assert forall k :: 0 <= k < |r| ==> r[k] in pieces by {
      NonEmptyFrom(pieces);
    }
    r
  }

  lemma {:induction false} NonEmptyFrom(xs: seq<string>)
    ensures forall k :: 0 <= k < |NonEmpty(xs)| ==> NonEmpty(xs)[k] in xs
  {
    if xs != [] {
      NonEmptyFrom(xs[1..]);
      var r := NonEmpty(xs);
      forall k | 0 <= k < |r| ensures r[k] in xs {
        if xs[0] != "" && k > 0 {
          assert r[k] == NonEmpty(xs[1..])[k - 1];
        } else if xs[0] == "" {
          assert r[k] == NonEmpty(xs[1..])[k];
        }
      }
    }
  }

  /** Areas are the inverse of joining with ",": comma-free, non-empty pieces
      joined by commas are read back exactly. */
  lemma AreasOfJoin(xs: seq<string>)
    requires forall k :: 0 <= k < |xs| ==> xs[k] != "" && ',' !in xs[k]
    ensures Areas(Join(",", xs)) == xs
  {
    if xs == [] {
      assert Split("", ',') == [""];
    } else {
      SplitJoin(xs, ',');
    }
  }

  /** The pieces after the first one, each behind a space. */
  function Spaced(xs: seq<string>): (r: seq<string>)
    requires |xs| > 0
    ensures |r| == |xs| && r[0] == xs[0]
    ensures forall k :: 0 < k < |xs| ==> r[k] == " " + xs[k]
  {
    [xs[0]] + seq(|xs| - 1, i requires 0 <= i < |xs| - 1 => " " + xs[i + 1])
  }

  lemma {:induction false} JoinSpaced(xs: seq<string>)
    requires |xs| > 0
    ensures Join(", ", xs) == Join(",", Spaced(xs))
  {
    if |xs| > 1 {
      var ys := Spaced(xs);
      var zs := Spaced(xs[1..]);
      var a := Join(",", zs);
      JoinSpaced(xs[1..]);
      assert Join(", ", xs) == xs[0] + ", " + Join(", ", xs[1..]);
      assert ys[1..] == [" " + zs[0]] + zs[1..];
      JoinFirst(" ", zs);
      assert Join(",", ys) == xs[0] + "," + Join(",", ys[1..]);
      assert Join(",", ys[1..]) == " " + a;
      assert xs[0] + "," + (" " + a) == xs[0] + ", " + a;
    }
  }

  /** Prefixing the first piece prefixes the join. */
  lemma JoinFirst(p: string, zs: seq<string>)
    requires |zs| > 0
    ensures Join(",", [p + zs[0]] + zs[1..]) == p + Join(",", zs)
  {
    if |zs| == 1 {
      JoinFirstOne(p, zs);
    } else {
      JoinFirstMore(p, zs);
    }
  }

  lemma JoinFirstOne(p: string, zs: seq<string>)
    requires |zs| == 1
    ensures Join(",", [p + zs[0]] + zs[1..]) == p + Join(",", zs)
  {
    assert [p + zs[0]] + zs[1..] == [p + zs[0]];
  }

  lemma JoinFirstMore(p: string, zs: seq<string>)
    requires |zs| > 1
    ensures Join(",", [p + zs[0]] + zs[1..]) == p + Join(",", zs)
  {
    assert zs == [zs[0]] + zs[1..];
    JoinFront(",", p, zs[0], zs[1..]);
  }

  /** The attributes a course's Attributes panel stores, read back as areas:
      the first attribute as it is and every later one behind the space that
      followed its comma. */
  lemma AreasOfAttributes(xs: seq<string>)
    requires |xs| > 0
    requires forall k :: 0 <= k < |xs| ==> xs[k] != "" && ',' !in xs[k]
    ensures Areas(Join(", ", xs)) == Spaced(xs)
  {
    JoinSpaced(xs);
    var ys := Spaced(xs);
    forall k | 0 <= k < |ys| ensures ys[k] != "" && ',' !in ys[k] {
      if k > 0 {
        assert ys[k] == " " + xs[k];
      }
    }
    AreasOfJoin(ys);
  }

  /** create_course: the course record built from the working record. */
  function CourseRecord(env: Env, departments: map<string, string>, m: Record): (r: Emitted)
    ensures r.CourseRec? && r.school == "vandy" && r.campus == 1 && r.level == "0"
    ensures forall k :: 0 <= k < |r.areas| ==> r.areas[k] != "" && ',' !in r.areas[k]
  {
    var dept := Get(m, "department");
    CourseRec("vandy", 1, Get(m, "code"), Get(m, "name"), GetOr(m, "description", ""),
              CastFloat(env, Get(m, "Hours")), Areas(GetOr(m, "Attributes", "")),
              Get(m, "Requirement(s)"),
              if dept.Some? then Get(departments, dept.value) else None, "0")
  }

  /** The course record of a working record: school "vandy", campus 1, level
      "0", code, name and prerequisites as stored (None when absent), the
      description defaulting to "", the department's name looked up by its code. */
  lemma CourseRecordFields(env: Env, departments: map<string, string>, m: Record)
    ensures var r := CourseRecord(env, departments, m);
      && r.CourseRec? && r.school == "vandy" && r.campus == 1 && r.level == "0"
      && r.code == Get(m, "code") && r.name == Get(m, "name") && r.prerequisites == Get(m, "Requirement(s)")
      && r.description == (if "description" in m then m["description"] else "")
      && r.numCredits == CastFloat(env, Get(m, "Hours"))
      && r.areas == Areas(GetOr(m, "Attributes", ""))
      && ("department" in m && m["department"] in departments ==> r.departmentName == Some(departments[m["department"]]))
      && ("department" !in m || m["department"] !in departments ==> r.departmentName.None?)
  {
  }

  /** A course without Hours counts 0.0 credits and one without attributes has no areas. */
  lemma CourseDefaults(env: Env, departments: map<string, string>, m: Record)
    requires "Hours" !in m && "Attributes" !in m
    ensures CourseRecord(env, departments, m).numCredits == 0.0
    ensures CourseRecord(env, departments, m).areas == []
  {
    assert Split("", ',') == [""];
  }

  /** The Attributes panel's items, once stored and split again by
      create_course, come back as the areas in order, every one after the
      first with the space that followed its comma. */
  lemma AttributesAreas(env: Env, departments: map<string, string>, m: Record, items: seq<string>)
    requires |items| > 0
    requires forall k :: 0 <= k < |items| ==> Strip(items[k]) != "" && ',' !in Strip(items[k])
    ensures CourseRecord(env, departments, Attributes(m, items)).areas == Spaced(StripAll(items))
  {
    AttributesStored(m, items);
    AreasOfAttributes(StripAll(items));
    CourseRecordFields(env, departments, Attributes(m, items));
  }

  /** A one-value Hours cell reaches the course record as the number float()
      reads from the value, and as 0.0 when float() rejects it; this rests on
      str() of a float reading back under float(). */
  lemma HoursCredits(env: Env, departments: map<string, string>, m: Record, caption: string, text: string, v: string)
    requires FloatTextReads(env)
    requires Strip(DropLast(caption)) == "Hours" && CellValues(text) == [v]
    ensures var o := LabeledCell(env, m, LabelCell(caption, Some(text)));
      && o.raised.None?
      && CourseRecord(env, departments, o.fields).numCredits == CastFloat(env, Some(v))
      && (env.parseFloat(v).None? ==> CourseRecord(env, departments, o.fields).numCredits == 0.0)
  {
    var o := LabeledCell(env, m, LabelCell(caption, Some(text)));
    LabeledCellStores(env, m, LabelCell(caption, Some(text)));
    var x := CastFloat(env, Some(v));
    assert [env.floatText(x)] + [v][1..] == [env.floatText(x)];
    assert o.fields == m["Hours" := Strip(env.floatText(x))];
    CourseRecordFields(env, departments, o.fields);
  }

  // ---------------------------------------------------------------------------
  // Section
  // ---------------------------------------------------------------------------

  /** A decimal integer literal: an optional sign, then one or more ASCII digits. */
  predicate IntLiteral(t: string) {
    var ds := if |t| > 0 && (t[0] == '-' || t[0] == '+') then t[1..] else t;
    ds != [] && AllDigits(ds)
  }

  /** Python's int() of a string: optional surrounding whitespace, an optional
      sign, then one or more ASCII digits. */
  function PyInt(s: string): (r: Option<int>)
    ensures r.Some? <==> IntLiteral(Strip(s))
    ensures Strip(s) == [] ==> r.None?
    ensures Strip(s) != [] && AllDigits(Strip(s)) ==> r == Some(DigitsValue(Strip(s)))
    ensures r.Some? && r.value < 0 ==> Strip(s)[0] == '-'
  {
    var t := Strip(s);
    if |t| > 0 && (t[0] == '-' || t[0] == '+') then
      var ds := t[1..];
      if ds != [] && AllDigits(ds) then Some(if t[0] == '-' then -(DigitsValue(ds) as int) else DigitsValue(ds) as int)
      else None
    else if t != [] && AllDigits(t) then Some(DigitsValue(t))
    else None
  }

  lemma DigitsStripped(ds: string)
    requires AllDigits(ds)
    ensures Strip(ds) == ds
  {
    if ds != [] {
      assert IsDigit(ds[0]) && IsDigit(ds[|ds| - 1]);
    }
  }

  /** int() reads back a decimal numeral, with or without a minus sign. */
  lemma PyIntDecimal(n: nat)
    ensures PyInt(Decimal(n)) == Some(n)
    ensures PyInt("-" + Decimal(n)) == Some(-(n as int))
  {
    var ds := Decimal(n);
    DigitsStripped(ds);
    DigitsValueDecimal(n);
    var t := "-" + ds;
    assert Strip(t) == t by {
      assert Stripped(t) by { assert IsDigit(t[|t| - 1]); }
    }
    assert t[1..] == ds;
  }

  /** create_section's int(course.get(label)): a missing value is int(None), a
      TypeError; a malformed one is a ValueError. */
  function IntField(m: Record, key: string): (r: Result<int>)
    ensures key !in m ==> r == Err(TypeError)
    ensures key in m ==> (r.Ok? <==> IntLiteral(Strip(m[key])))
    ensures r.Err? ==> r.error == TypeError || r.error == ValueError
  {
    if key !in m then Err(TypeError)
    else match PyInt(m[key]) case None => Err(ValueError) case Some(n) => Ok(n)
  }

  /** create_section for a row that is not cancelled: the section record of the
      course at log position `course`; the capacity is read before the enrolment. */
  function SectionRecord(m: Record, course: nat): (r: Result<Emitted>)
    ensures r.Ok? <==> && "Class Capacity" in m && IntLiteral(Strip(m["Class Capacity"]))
                       && "Total Enrolled" in m && IntLiteral(Strip(m["Total Enrolled"]))
    ensures r.Err? ==> r.error == TypeError || r.error == ValueError
    ensures r.Ok? ==> && r.value.SectionRec? && r.value.course == course
                      && r.value.section == Get(m, "section") && r.value.instructors == GetOr(m, "Instructor(s)", "")
  {
    match IntField(m, "Class Capacity")
    case Err(e) => Err(e)
    case Ok(size) =>
      match IntField(m, "Total Enrolled")
      case Err(e) => Err(e)
      case Ok(enrolment) => Ok(SectionRec(course, Get(m, "section"), GetOr(m, "Instructor(s)", ""), size, enrolment))
  }

  /** A missing capacity is a TypeError and a malformed one a ValueError, both
      before the enrolment is looked at; otherwise the enrolment fails the same
      way, or the section carries the record's section, its instructors
      (default "") and both numbers. */
  lemma SectionRecordCases(m: Record, course: nat)
    ensures var r := SectionRecord(m, course);
      var cap := "Class Capacity" in m && PyInt(m["Class Capacity"]).Some?;
      var enr := "Total Enrolled" in m && PyInt(m["Total Enrolled"]).Some?;
      && ("Class Capacity" !in m ==> r == Err(TypeError))
      && ("Class Capacity" in m && !cap ==> r == Err(ValueError))
      && (cap && "Total Enrolled" !in m ==> r == Err(TypeError))
      && (cap && "Total Enrolled" in m && !enr ==> r == Err(ValueError))
      && (cap && enr ==> r == Ok(SectionRec(course, Get(m, "section"), GetOr(m, "Instructor(s)", ""),
                                           PyInt(m["Class Capacity"]).value, PyInt(m["Total Enrolled"]).value)))
  {
  }

  /** A capacity and an enrolment written as numerals give a section of that
      size and enrolment. */
  lemma SectionOfNumerals(m: Record, course: nat, size: nat, enrolled: nat)
    requires "Class Capacity" in m && m["Class Capacity"] == Decimal(size)
    requires "Total Enrolled" in m && m["Total Enrolled"] == Decimal(enrolled)
    ensures SectionRecord(m, course).Ok?
    ensures SectionRecord(m, course).value.size == size && SectionRecord(m, course).value.enrolment == enrolled
  {
    PyIntDecimal(size);
    PyIntDecimal(enrolled);
    SectionRecordCases(m, course);
  }

  // ---------------------------------------------------------------------------
  // Offerings
  // ---------------------------------------------------------------------------

  /** One meeting per day letter, in order, all with the same times and place. */
  function Meetings(days: string, section: nat, start: Option<string>, end: Option<string>,
                    location: Option<string>): (r: seq<Emitted>)
    ensures |r| == |days|
    ensures forall i :: 0 <= i < |days| ==> r[i] == MeetingRec(section, days[i], start, end, location)
  {
    if days == [] then []
    else [MeetingRec(section, days[0], start, end, location)] + Meetings(days[1..], section, start, end, location)
  }

  /** create_offerings: the meetings of the section at log position `section`;
      none when days is missing or empty. */
  function Offerings(m: Record, section: nat): (r: seq<Emitted>)
    ensures |r| == if "days" in m then |m["days"]| else 0
    ensures forall i :: 0 <= i < |r| ==> r[i].MeetingRec? && r[i].ofSection == section
  {
    if "days" in m && m["days"] != "" then
      Meetings(m["days"], section, Get(m, "time_start"), Get(m, "time_end"), Get(m, "Location"))
    else []
  }

  /** One meeting per letter of days, in order, each with the record's start,
      end and location; none without days. */
  lemma OfferingsPerDay(m: Record, section: nat)
    ensures var r := Offerings(m, section);
      && ("days" !in m || m["days"] == "" ==> r == [])
      && ("days" in m ==> |r| == |m["days"]|)
      && ("days" in m ==> forall i :: 0 <= i < |r| ==>
            r[i] == MeetingRec(section, m["days"][i], Get(m, "time_start"), Get(m, "time_end"), Get(m, "Location")))
  {
  }
}
