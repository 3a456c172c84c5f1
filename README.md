# Vanderbilt course parser, modelled in Dafny

This project models the core of Semester.ly's Vanderbilt course parser,
`parsing/schools/vandy/courses.py`, class `Parser`. The parser walks a
department's search results page by page. For each result row it reads the
class number from the row's click handler and fetches the course's detail
dialog. It fills one working record (`self.course`, a label-to-string
dictionary) from the dialog's panels. It then hands a course, a section
(unless the row was marked cancelled) and one meeting per day letter to the
ingestor, and clears the record for the next row.

The model has two layers.

- **Functions** (modules `Text`, `Patterns`, `Fields`, `Assembly`, `Crawl`)
  describe every step as a function of the parser's state. The state is the
  working record, the cancelled flag, and the log of records handed to the
  ingestor. These modules also model the Python built-ins the parser relies
  on: `str.strip`, `str.splitlines`, `str.split`, `str.join`, `int()`, and
  the six regular expressions, each written out as the match Python's `re`
  module finds. The lemmas about these functions state what the source
  promises.
- **A class** (`Vandy.Parser`) has the parser's mutable state as fields.
  Its methods update them in place, with the same branches and loops as the
  Python methods. Each method's `ensures` ties the new state (and the
  return value or escaping exception) to the functions.

Python exceptions are values of `Fields.Exc`. A method returns the exception
that escapes it, together with the state at the moment it escaped. As in the
source, only `parse_course` catches `ParseError`; everything else escapes.

The HTML is given as plain inputs:

- a result row is `Crawl.Row`: its cancelled marker, the `onclick` text of
  its class-section cell, and the detail dialog the server returns for it;
- a dialog is `Fields.Detail`: the dialog heading, the header texts, and the
  panels;
- a panel is `Fields.Panel`: its text, labelled cells, list items, and
  meeting-times labels and row;
- the server's replies for the pages of a search are a function from page
  number to rows.

Handles returned by the ingestor are the positions of the emitted records in
the log.

Where the documented behaviour and the code differ, the model follows the
code:

- **Dialog heading.** The heading regex `(.*):.*\n(.*)` needs the course name
  on the line after the colon. A one-line heading `"CS-1101-01: Intro to
  Programming"` does not match, and the source then raises `AttributeError`
  (`Patterns.OneLineHeaderFails`). The two-line form yields the documented
  fields (`Fields.HeaderSplit`).
- **Cancelled flag.** The flag is cleared only by `create_section` or by
  `self.course.clear()`. So a cancelled row whose details raise `ParseError`
  leaves it up, and the next row, though not marked, emits no section
  (`Crawl.CancelledFlagCarriesOver`).
- **Notes.** `update_current_course` strips. Notes appended to the empty
  description a course starts with therefore become `"Notes: ..."`, without
  the leading newline (`Fields.NotesOnEmpty`).
- **Areas.** They are split at `,` only. Attributes joined with `", "` come
  back with a leading space on every area but the first
  (`Assembly.AreasOfAttributes`).

## Model

| member | source | states |
|---|---|---|
| Text.Strip | parsing/schools/vandy/courses.py:243 | the result has no whitespace at either end, is no longer than the input, and an already stripped string is unchanged |
| Text.LStripSuffix | parsing/schools/vandy/courses.py:243 | lstrip removes a prefix made only of whitespace |
| Text.RStripPrefix | parsing/schools/vandy/courses.py:243 | rstrip removes a suffix made only of whitespace |
| Text.StripKeepsPrefix | parsing/schools/vandy/courses.py:529 | stripping p + t, with p stripped and some non-space in t, keeps all of p |
| Text.Split | parsing/schools/vandy/courses.py:190 | str.split(c): at least one piece, none containing c |
| Text.JoinSplit | parsing/schools/vandy/courses.py:190 | joining the pieces of a split with the separator gives back the string |
| Text.SplitJoin | parsing/schools/vandy/courses.py:190 | splitting a join of separator-free pieces gives back the pieces |
| Text.SplitLines | parsing/schools/vandy/courses.py:442 | str.splitlines(): no line holds a line boundary, and only the empty string has no lines |
| Text.SplitLinesJoin | parsing/schools/vandy/courses.py:516 | lines without boundaries, the last non-empty, joined by "\n" split back into the same lines |
| Text.NonBlank | parsing/schools/vandy/courses.py:442 | the list comprehension keeps only non-empty, stripped lines, never more than were given, and every line when all are already non-empty and stripped |
| Text.NonBlankOne | parsing/schools/vandy/courses.py:442 | a single line is kept, stripped, exactly when it is not blank |
| Text.NonBlankAppend | parsing/schools/vandy/courses.py:442 | the lines are filtered one at a time: filtering a concatenation concatenates the filtered parts |
| Text.JoinStripped | parsing/schools/vandy/courses.py:528 | a join of non-empty stripped pieces is stripped, and empty exactly when there are no pieces |
| Text.Join | parsing/schools/vandy/courses.py:424 | str.join: joining no pieces gives "" and joining one piece gives that piece |
| Text.StripAll | parsing/schools/vandy/courses.py:423 | one stripped item per item, in order |
| Text.FindLast | parsing/schools/vandy/courses.py:521 | the position of the last occurrence of a pattern, or none at all |
| Text.LastIndex | parsing/schools/vandy/courses.py:359 | the last position of a character, None exactly when it does not occur |
| Patterns.HeaderSearch | parsing/schools/vandy/courses.py:358-361 | no match exactly when no line with a ':' is followed by another line; the groups hold no newline |
| Patterns.HeaderOfLines | parsing/schools/vandy/courses.py:358-361 | "ABBR:...\nNAME" yields the groups (ABBR, NAME) |
| Patterns.OneLineHeaderFails | parsing/schools/vandy/courses.py:358-361 | a heading without a newline does not match |
| Patterns.HyphenGroups | parsing/schools/vandy/courses.py:364 | `re.match("(\S*)-(\S*)-(\S*)", abbr)` on the leading word: the split at its last two hyphens; its properties are stated by Patterns.HyphenGroupsShape and Patterns.HyphenGroupsOf |
| Patterns.AbbrMatchNone | parsing/schools/vandy/courses.py:364-367 | the abbreviation does not match exactly when its leading whitespace-free word has fewer than two hyphens |
| Patterns.HyphenGroupsShape | parsing/schools/vandy/courses.py:364-371 | a match is D + "-" + C + "-" + S with C and S hyphen-free; no match exactly when the word has fewer than two hyphens |
| Patterns.HyphenGroupsOf | parsing/schools/vandy/courses.py:364-371 | D-C-S with hyphen-free C and S gives back D, C and S |
| Patterns.AbbrOfParts | parsing/schools/vandy/courses.py:364-371 | an abbreviation D-C-S with whitespace-free parts, followed by nothing or whitespace, matches with groups D, C, S |
| Patterns.AbbrMatch | parsing/schools/vandy/courses.py:364-371 | a match splits the first whitespace-free word of the abbreviation into D-C-S with hyphen-free C and S, a prefix of the abbreviation; its no-match condition is stated by Patterns.AbbrMatchNone |
| Patterns.TimeRange | parsing/schools/vandy/courses.py:507 | the groups are the first line around its last " - "; no match exactly when the first line has no " - " |
| Patterns.TimeRangeOf | parsing/schools/vandy/courses.py:507-510 | "START - END" with a hyphen-free END gives back START and END |
| Patterns.PrimaryCut | parsing/schools/vandy/courses.py:521-523 | a line is cut before its last " (Primary)", or kept whole when it has none |
| Patterns.PrimaryCutMarked | parsing/schools/vandy/courses.py:521-523 | "NAME (Primary)" becomes NAME |
| Patterns.PrimaryCutUnmarked | parsing/schools/vandy/courses.py:521-523 | a line never mentioning the marker is kept |
| Patterns.CountFrom | parsing/schools/vandy/courses.py:270 | the leftmost position at which "totalRecords: DIGITS," matches |
| Patterns.CountSearch | parsing/schools/vandy/courses.py:270 | no match exactly when the pattern matches nowhere; the group is all digits |
| Patterns.CountSearchAt | parsing/schools/vandy/courses.py:270 | a listing whose first match of the count pattern is "totalRecords: DIGITS," reports DIGITS, whatever precedes it |
| Patterns.CountFromFirst | parsing/schools/vandy/courses.py:270 | the scan from p reports the first position from p on where the count pattern matches |
| Patterns.ClassFrom | parsing/schools/vandy/courses.py:325 | the leftmost position at which the class-number pattern matches |
| Patterns.ClassSearch | parsing/schools/vandy/courses.py:325-327 | no match exactly when the leftmost-match scan finds nothing, which Patterns.ClassSearchNone states as no match anywhere; the class number is all digits |
| Patterns.ClassSearchNone | parsing/schools/vandy/courses.py:325-327 | the handler does not match exactly when the pattern matches at no position |
| Patterns.ClassSearchAt | parsing/schools/vandy/courses.py:325-327 | a handler whose first match of the class-number pattern is "showClassDetailPanel.fire({classNumber : 'N', termCode : 'T'," yields N, whatever precedes it |
| Patterns.HandlerMatches | parsing/schools/vandy/courses.py:325-327 | the class-number pattern matches where "showClassDetailPanel.fire({classNumber : 'N', termCode : 'T'," starts |
| Patterns.HandlerGroup | parsing/schools/vandy/courses.py:325-327 | the group of that match is N |
| Patterns.ClassFromFirst | parsing/schools/vandy/courses.py:325 | the scan from p reports the first position from p on where the class-number pattern matches |
| Patterns.DigitsValueDecimal | parsing/schools/vandy/courses.py:274 | reading back the decimal numeral of n gives n |
| Fields.CastFloat | parsing/schools/vandy/courses.py:185-187 | safe_cast to float: the float when float() accepts the value, 0.0 for a missing or rejected value |
| Fields.Put | parsing/schools/vandy/courses.py:241-246 | update_current_course on values: the value is stored stripped under its label, the label is the only key added and every other field keeps its value |
| Fields.HeaderRecord | parsing/schools/vandy/courses.py:377-385 | the heading writes exactly the six header fields and keeps every other field |
| Fields.ApplyHeader | parsing/schools/vandy/courses.py:358-385 | AttributeError exactly when the heading does not match; ParseError exactly when the abbreviation does not; both leave the record untouched |
| Fields.HeaderRecordValues | parsing/schools/vandy/courses.py:377-385 | code D-C, department D, catalog id C, section (S), the stripped name and an empty description |
| Fields.HeaderParts | parsing/schools/vandy/courses.py:358-371 | the heading "D-C-S:...\nNAME" is read into exactly the parts D, C, S and NAME |
| Fields.HeaderSplit | parsing/schools/vandy/courses.py:358-385 | such a heading raises nothing and writes code, department, catalog id, section, name and an empty description |
| Fields.DropLast | parsing/schools/vandy/courses.py:439 | label.text[:-1]: the label without its last character |
| Fields.LabeledTable | parsing/schools/vandy/courses.py:426-453 | no field is lost, and the only exception the table raises is IndexError |
| Fields.LabeledTableOne | parsing/schools/vandy/courses.py:431-453 | a table of one cell is that cell's step |
| Fields.LabeledTableAppend | parsing/schools/vandy/courses.py:431-453 | the cells are taken in order, each from the record the previous ones left, and a cell's IndexError ends the table and is its exception |
| Fields.LabeledCell | parsing/schools/vandy/courses.py:433-453 | at most the cell's own key is written and every other field is kept; the only exception is IndexError, which leaves the record as it was |
| Fields.LabeledCellStores | parsing/schools/vandy/courses.py:433-453 | a label without a value cell changes nothing; "Books" stores the placeholder; an ordinary label stores its clean lines joined by ", "; "Hours" raises exactly when it has no lines, and otherwise stores str() of the float read from its first line, then the other lines |
| Fields.DaysField | parsing/schools/vandy/courses.py:490-494 | "TBA" or "" gives days "", other values are stored verbatim, and no other field changes |
| Fields.NoTimes | parsing/schools/vandy/courses.py:465-468 | days, time_start and time_end are all blanked and no other field changes |
| Fields.TimeField | parsing/schools/vandy/courses.py:496-512 | "TBA" or "" blanks the three fields; "A - B" stores the 24-hour forms of A and B and nothing else; any other value changes nothing |
| Fields.Instructors | parsing/schools/vandy/courses.py:514-525 | one instructor per line of the cell, each a prefix of its line |
| Fields.InstructorsPerLine | parsing/schools/vandy/courses.py:514-525 | one instructor per line; a line with " (Primary)" is cut before its last occurrence and any other line is kept whole |
| Fields.MeetingTimes | parsing/schools/vandy/courses.py:455-488 | no labels blanks days, time_start and time_end; a missing header row raises AttributeError, a missing next row IndexError and unequal label and cell counts AssertionError, each leaving the record as it was; otherwise the cells are applied in order |
| Fields.MeetingCell | parsing/schools/vandy/courses.py:473-488 | no field is lost, and only the cell's own label and days, time_start and time_end can change |
| Fields.MeetingCellStores | parsing/schools/vandy/courses.py:474-488 | a blank label or value changes nothing; "Instructor(s)" stores the instructors joined by ", "; "Time" and "Days" apply parse_time_range and parse_days; any other label stores the value |
| Fields.MeetingCells | parsing/schools/vandy/courses.py:473-488 | applying the cells in order loses no field |
| Fields.MeetingCellsKeep | parsing/schools/vandy/courses.py:473-488 | a field named by none of the labels, other than days, time_start and time_end, keeps its value |
| Fields.MeetingTimesDaysAndTime | parsing/schools/vandy/courses.py:473-488 | a Days/Time row stores the days verbatim and both ends of the range in 24-hour form |
| Fields.DaysThenTime | parsing/schools/vandy/courses.py:481-485 | a Days cell and a Time cell apply parse_days, then parse_time_range |
| Fields.NotesText | parsing/schools/vandy/courses.py:528 | the collapsed notes text is stripped |
| Fields.NotesOfLines | parsing/schools/vandy/courses.py:528 | clean lines joined by "\n" collapse to the same lines joined by " " |
| Fields.Notes | parsing/schools/vandy/courses.py:527-529 | only the description changes |
| Fields.NotesExtend | parsing/schools/vandy/courses.py:527-529 | the old description is a prefix of the new one, which is old + "\nNotes: " + notes when both are non-empty |
| Fields.NotesOnEmpty | parsing/schools/vandy/courses.py:527-529 | on an empty description the stored text is "Notes: " + notes |
| Fields.Description | parsing/schools/vandy/courses.py:531-532 | the description becomes the stripped panel text and nothing else changes |
| Fields.Attributes | parsing/schools/vandy/courses.py:421-424 | only the Attributes field is written, and it is always present afterwards |
| Fields.AttributesStored | parsing/schools/vandy/courses.py:421-424 | items that are not blank are stored stripped and joined by ", " |
| Fields.ApplyPanel | parsing/schools/vandy/courses.py:397-419 | no panel loses a field or raises ParseError |
| Fields.ApplyPanelDispatch | parsing/schools/vandy/courses.py:397-419 | the stripped header selects the labelled table for "Details" and "Availability", the description, the notes, the meeting times or the attributes; any other header, "Cross Listings" and "Ad Hoc Meeting Times" among them, leaves the record and raises nothing |
| Fields.Panels | parsing/schools/vandy/courses.py:394-419 | the panel walk loses no field and never raises ParseError |
| Fields.PanelsOne | parsing/schools/vandy/courses.py:394-419 | a walk over one header and panel is that panel's extractor |
| Fields.PanelsAppend | parsing/schools/vandy/courses.py:394-419 | the pairs are taken in order, each from the record the previous ones left, and a panel's exception ends the walk and is its exception |
| Fields.Details | parsing/schools/vandy/courses.py:356-419 | an exception from the heading comes first and keeps the record; ParseError happens exactly when the abbreviation does not match; a heading that reads with unequal header and panel counts raises AssertionError; success means equal counts and all header fields written; a heading that reads with equal counts gives the panel walk over the record the heading wrote |
| Assembly.Get | parsing/schools/vandy/courses.py:182-183 | dict.get: Some exactly for a present key, with its value |
| Assembly.GetOr | parsing/schools/vandy/courses.py:184 | dict.get with a default |
| Assembly.NonEmpty | parsing/schools/vandy/courses.py:188-191 | filter(bool, ...) keeps only non-empty pieces, and keeps all of them when none is empty |
| Assembly.NonEmptyOne | parsing/schools/vandy/courses.py:188-191 | a single piece is kept exactly when it is non-empty |
| Assembly.NonEmptyAppend | parsing/schools/vandy/courses.py:188-191 | the pieces are filtered one at a time: filtering a concatenation concatenates the filtered parts |
| Assembly.Areas | parsing/schools/vandy/courses.py:188-191 | every area is non-empty and comma-free |
| Assembly.AreasOfJoin | parsing/schools/vandy/courses.py:188-191 | comma-free, non-empty pieces joined by "," are read back exactly |
| Assembly.JoinSpaced | parsing/schools/vandy/courses.py:424 | joining with ", " is joining with "," after a space in front of every later piece |
| Assembly.AreasOfAttributes | parsing/schools/vandy/courses.py:188-191 | attributes joined by ", " come back as areas with a leading space on all but the first |
| Assembly.CourseRecordFields | parsing/schools/vandy/courses.py:179-200 | code, name and prerequisites as stored or None, description defaulting to "", credits by safe_cast of Hours, areas from Attributes, department name looked up by code |
| Assembly.CourseRecord | parsing/schools/vandy/courses.py:179-200 | a course record with school "vandy", campus 1 and level "0", whose areas are non-empty and comma-free |
| Assembly.CourseDefaults | parsing/schools/vandy/courses.py:185-191 | no Hours gives 0.0 credits and no Attributes gives no areas |
| Assembly.AttributesAreas | parsing/schools/vandy/courses.py:421-424 | non-blank, comma-free attribute items come back as the course's areas in order, each after the first with a leading space |
| Fields.FloatTextReadsMet | parsing/schools/vandy/courses.py:450-451 | the round-trip premise of Assembly.HoursCredits, that float() reads back str() of every value float() yields and of 0.0, is met by some environment |
| Assembly.HoursCredits | parsing/schools/vandy/courses.py:450-451 | a one-line Hours cell gives the course the credits float() reads from that line, and 0.0 when float() rejects it, given that float() reads back str() of a float |
| Assembly.PyInt | parsing/schools/vandy/courses.py:218-219 | int(): accepted exactly when the stripped string is an optional sign followed by one or more ASCII digits; stripped digits give their value; a negative result has a minus sign |
| Assembly.PyIntDecimal | parsing/schools/vandy/courses.py:218-219 | int() reads back a numeral with or without a minus sign |
| Assembly.IntField | parsing/schools/vandy/courses.py:218-219 | int() of a field: a missing field is TypeError; a present one is read exactly when it is an integer literal, and is ValueError otherwise |
| Assembly.SectionRecordCases | parsing/schools/vandy/courses.py:216-222 | missing capacity is TypeError and a malformed one ValueError, both before the enrolment is read; then the same for enrolment; otherwise the section holds section, instructors (default "") and both numbers |
| Assembly.SectionRecord | parsing/schools/vandy/courses.py:216-222 | a section exactly when capacity and enrolment are both integer literals, naming its course, section and instructors; the only errors are TypeError and ValueError |
| Assembly.SectionOfNumerals | parsing/schools/vandy/courses.py:216-221 | numerals for capacity and enrolment give a section of that size and enrolment |
| Assembly.Meetings | parsing/schools/vandy/courses.py:226-231 | one meeting per day letter, in order, each with the same times and location |
| Assembly.OfferingsPerDay | parsing/schools/vandy/courses.py:224-231 | missing or empty days emit nothing; otherwise one meeting per letter with the record's start, end and location |
| Assembly.Offerings | parsing/schools/vandy/courses.py:224-231 | one record per day letter, each a meeting of the given section |
| Crawl.EmitShape | parsing/schools/vandy/courses.py:344-346 | the course is emitted first and the flag ends down; a cancelled row emits only the course; otherwise a failed section stops there and a good one is followed by the meetings |
| Crawl.Emit | parsing/schools/vandy/courses.py:344-346 | the record is kept and the flag ends down; an exception escapes only from a row not marked cancelled whose section failed, and it is that failure |
| Crawl.AssembleShape | parsing/schools/vandy/courses.py:344-346 | the same for the records built from the working record |
| Crawl.Assemble | parsing/schools/vandy/courses.py:344-346 | the record is kept and the flag ends down; the only exceptions are TypeError and ValueError, from int() |
| Crawl.EmitLinks | parsing/schools/vandy/courses.py:221-231 | the section names the course just before it and every meeting names that section |
| Crawl.AssembleLinks | parsing/schools/vandy/courses.py:344-346 | the records of a row that is not cancelled are linked course to section to meetings |
| Crawl.RowNumber | parsing/schools/vandy/courses.py:322-327 | a class number returned comes from the row's handler |
| Crawl.AfterDetails | parsing/schools/vandy/courses.py:339-354 | ParseError never escapes; a ParseError in the details returns the class number with the state kept; any other exception of the details escapes with the record they left and the log kept; when the details raise nothing, the exception and the log are those of assembling, and an assembly that raises nothing clears the record and the flag and returns the class number; a raising step returns no id |
| Crawl.CourseStep | parsing/schools/vandy/courses.py:319-354 | ParseError never escapes; a raising row returns no id; a row without a class-section cell raises TypeError and one whose handler does not match raises AttributeError, both keeping the state |
| Crawl.EscapingRow | parsing/schools/vandy/courses.py:339-354 | every exception of the details other than ParseError, and every exception of assembling the records, escapes parse_course |
| Crawl.MismatchIsFatal | parsing/schools/vandy/courses.py:392 | a row whose heading reads but whose header and panel counts differ raises AssertionError instead of being skipped |
| Crawl.AfterDetailsShape | parsing/schools/vandy/courses.py:339-354 | the log only grows; a return yields the class number; it keeps the state exactly when the details raised ParseError, and otherwise clears the record and the flag |
| Crawl.CourseStepShape | parsing/schools/vandy/courses.py:319-354 | the same for a whole row, including the lookups before the details |
| Crawl.OrdinaryRowEmitsAll | parsing/schools/vandy/courses.py:339-349 | a row not marked cancelled whose details read and whose section fields are integers emits its course, its section and the section's meetings in that order, then clears the record and returns the class number |
| Crawl.CancelledRowEmitsCourseOnly | parsing/schools/vandy/courses.py:211-213 | a cancelled row emits its course and nothing more, and leaves the flag down and the record empty |
| Crawl.SkippedRow | parsing/schools/vandy/courses.py:351-354 | a ParseError in the details keeps the state and returns the class number |
| Crawl.ParseRowOk | parsing/schools/vandy/courses.py:319-354 | parse_course only appends to the log and returns the row's class number |
| Crawl.Page | parsing/schools/vandy/courses.py:303-317 | parse_page_of_courses: the rows in order from 0 as the last id; its properties are stated by Crawl.PageRaises, Crawl.PageFromOutcome and Crawl.PageFromShape |
| Crawl.PageFrom | parsing/schools/vandy/courses.py:309-315 | the loop over the rows, marking a cancelled row before parsing it; its properties are stated by Crawl.PageFromOutcome and Crawl.PageFromShape |
| Crawl.PageFromOutcome | parsing/schools/vandy/courses.py:308-317 | the outcome of a page with rows is the parse of one of its rows, of the last one when nothing escapes |
| Crawl.PageFromShape | parsing/schools/vandy/courses.py:308-317 | a page only appends to the log and returns its last row's id, or 0 without rows |
| Crawl.PageRaises | parsing/schools/vandy/courses.py:303-317 | ParseError never escapes a page, and a page without rows returns 0 and keeps the state |
| Crawl.ParsePageOk | parsing/schools/vandy/courses.py:303-317 | parse_page_of_courses only appends to the log and reports its page's id |
| Crawl.PageOfTwo | parsing/schools/vandy/courses.py:309-315 | rows are parsed in order, each after its marker is seen, the second from the state the first left |
| Crawl.CancelledFlagCarriesOver | parsing/schools/vandy/courses.py:311-315 | a cancelled row skipped by ParseError leaves the flag up, so the next unmarked row emits no section |
| Crawl.SetFromShape | parsing/schools/vandy/courses.py:287-301 | pages are requested in order up to the repeating page; none before the last repeats; when nothing escapes, the last does |
| Crawl.SetFrom | parsing/schools/vandy/courses.py:287-301 | no page after the repeating one is requested |
| Crawl.WalkOn | parsing/schools/vandy/courses.py:292-301 | a page that goes on extends the walk by one page and lies before the repeating page |
| Crawl.WalkedRun | parsing/schools/vandy/courses.py:287-293 | a walk that ends on a raising or repeating page is the whole paging loop, with pages 2 .. n requested |
| Crawl.WalkedFrom | parsing/schools/vandy/courses.py:287-301 | the same from any page of the walk on |
| Crawl.PagingShape | parsing/schools/vandy/courses.py:284-301 | from page 1 the requests are 2, 3, ...; the loop ends on the first page repeating its predecessor's id; the log only grows |
| Crawl.Paging | parsing/schools/vandy/courses.py:284-301 | the pages requested after page 1 are fewer than the number of the repeating page |
| Crawl.SetOfCoursesPages | parsing/schools/vandy/courses.py:282-301 | the same for the department's pages |
| Crawl.SetOfCourses | parsing/schools/vandy/courses.py:282-301 | the same bound for the department's pages |
| Crawl.EmptyFirstPage | parsing/schools/vandy/courses.py:284-293 | a first page without rows returns 0, stops the loop, and requests and emits nothing |
| Crawl.Hits | parsing/schools/vandy/courses.py:270-274 | no count gives 0 hits; an empty count raises ValueError; otherwise the digits' value |
| Crawl.Department | parsing/schools/vandy/courses.py:267-280 | exactly 300 hits raises CourseParseError with nothing parsed; a bad count raises ValueError; otherwise the pages are walked |
| Crawl.CapRefused | parsing/schools/vandy/courses.py:270-278 | a listing whose first count is "totalRecords: 300," refuses the department and leaves the state |
| Crawl.CapHits | parsing/schools/vandy/courses.py:270-277 | a listing whose first count is "totalRecords: 300," reports 300 hits |
| Crawl.NoCountProceeds | parsing/schools/vandy/courses.py:272-280 | a listing without a count is walked as if it had 0 hits |
| Vandy.Parser.constructor | parsing/schools/vandy/courses.py:50-54 | a fresh record holding only an empty description, the flag down, nothing emitted |
| Vandy.Parser.UpdateCurrentCourse | parsing/schools/vandy/courses.py:241-246 | the record becomes Put of the old record: the value stored stripped under its label and every other field kept; the flag and log are unchanged |
| Vandy.Parser.ParseDays | parsing/schools/vandy/courses.py:490-494 | the record becomes DaysField of the old one |
| Vandy.Parser.ParseTimeRange | parsing/schools/vandy/courses.py:496-512 | the record becomes TimeField of the old one |
| Vandy.Parser.ExtractInstructors | parsing/schools/vandy/courses.py:514-525 | the in-place loop returns the instructors of the cell, one per line |
| Vandy.Parser.ParseNotes | parsing/schools/vandy/courses.py:527-529 | the record becomes Notes of the old one |
| Vandy.Parser.ParseDescription | parsing/schools/vandy/courses.py:531-532 | the record becomes Description of the old one |
| Vandy.Parser.ParseAttributes | parsing/schools/vandy/courses.py:421-424 | the record becomes Attributes of the old one |
| Vandy.Parser.ParseLabeledTable | parsing/schools/vandy/courses.py:426-453 | the record and the exception are LabeledTable of the old record |
| Vandy.Parser.ParseLabeledCell | parsing/schools/vandy/courses.py:433-453 | the record and the exception are LabeledCell of the old record; the flag and log are unchanged |
| Vandy.Parser.ParseMeetingTimes | parsing/schools/vandy/courses.py:455-488 | the record and the exception are MeetingTimes of the old record |
| Vandy.Parser.ParseCourseDetails | parsing/schools/vandy/courses.py:356-419 | the record and the exception are Details of the old record |
| Vandy.Parser.ParseHeading | parsing/schools/vandy/courses.py:358-385 | the record and the exception are ApplyHeader of the old record; the flag and log are unchanged |
| Vandy.Parser.ParsePanel | parsing/schools/vandy/courses.py:397-419 | the record and the exception are ApplyPanel of the old record; the flag and log are unchanged |
| Vandy.Parser.CreateCourse | parsing/schools/vandy/courses.py:179-200 | the course record is appended to the log and its position returned |
| Vandy.Parser.CreateSection | parsing/schools/vandy/courses.py:210-222 | a cancelled row resets the flag and emits nothing; otherwise the int() error escapes or the section is appended and its position returned; the flag ends down |
| Vandy.Parser.CreateOfferings | parsing/schools/vandy/courses.py:224-231 | the meetings of the section are appended to the log |
| Vandy.Parser.CreateAll | parsing/schools/vandy/courses.py:344-346 | the state and exception are Assemble of the old state |
| Vandy.Parser.ParseCourse | parsing/schools/vandy/courses.py:319-354 | the state, returned id and exception are CourseStep of the old state |
| Vandy.Parser.ParsePageOfCourses | parsing/schools/vandy/courses.py:303-317 | the state, returned id and exception are Page of the old state |
| Vandy.Parser.WalkPages | parsing/schools/vandy/courses.py:284-301 | the loop leaves a walk ending on a page that raised or repeated its predecessor's id, having requested pages 2 .. n |
| Vandy.Parser.ParseSetOfCourses | parsing/schools/vandy/courses.py:282-301 | the state, requested pages and exception are SetOfCourses of the old state |
| Vandy.Parser.ParseCoursesInDepartment | parsing/schools/vandy/courses.py:267-280 | the state, requested pages and exception are Department of the old state |

## Left out

- `login`, `start`, `extract_department_codes` and every HTTP request are left out, because they are network I/O. The department names are a constructor parameter, and the server's replies are inputs: the detail dialog of each row and the rows of each page.
- BeautifulSoup lookups are left out, because that is a foreign library. What they return is given as plain data: `Row`, `Detail`, `Panel`, `LabelCell` and `TimesRow`.
- `float()`, `str()` of a float and the extractor's `time_12to24` are parameters of `Fields.Env`, because they are floating-point or foreign calls. `safe_cast` to float is modelled on top of them.
- `print_course`, every `print` and the error messages are left out, because they are logging.
- `is_float` (courses.py:203-208) is left out: nothing in the parser calls it.
- The catch-all `except` of `update_current_course` is left out, because it only guards Python 2 text-encoding errors.
- The ingestor's persistence is modelled only as an append-only log of emitted records:
  - a handle is the record's position in the log;
  - it is taken to be truthy, so `if created_section` is a test for a section;
  - the call that may raise, `ingest_course`/`ingest_section`, cannot fail in the model.
- Fields stored on the ingestor but not read back (`school`, `campus`, `level`) appear only in the emitted records.
- The `areas` value is modelled as the list `filter` yields.
- Assembly.PyInt: underscores in numerals and non-ASCII digits, which Python's `int()` also accepts, are not modelled.
- Vandy.Parser.ParseSetOfCourses: the source loops until a page repeats its predecessor's id, with no bound of its own. The model takes as a ghost parameter a page `stop` that repeats its predecessor's id, and requires one to exist. A search that never repeats (the source's endless loop) is not modelled.
- Vandy.Parser.ParseCoursesInDepartment: requires the same repeating page, for the same reason.
- Vandy.Parser.ParseNotes: requires a description in the record. `parse_course_details` always writes one before any panel. Called without one, the source would raise `TypeError`.
- Fields.Notes: has the same requirement, for the same reason.
- The cancelled marker is a field of its own, not the `'cancelled'` key of the working record.
  - The source stores `True` and `False` under that key. The model's record is a map to strings only.
  - So `self.course.clear()` resets the flag, and the course record never sees a `'cancelled'` field.
  - The constructor's `'cancelled': False` becomes the flag being down.
- Vandy.Parser.ParseTimeRange: the stderr message for a value that is not a range is left out, because it is output only. The record is unchanged then, as in the source.
- Python 3 string semantics are followed: `str.strip`, `str.splitlines` and the regular expressions' `\S` treat the whitespace and line boundaries Python 3's `str` does; under Python 2 byte strings `\S` and `strip` would see ASCII whitespace only.
- `Row.onclick` being None stands for two failures of the source at once: a row without a `classSection` cell (`TypeError` on `None`) and a cell without an `onclick` attribute (a `KeyError`, which the model reports as `TypeError`).
- Assembly.HoursCredits: rests on `Fields.FloatTextReads`, that `float()` reads back what `str()` writes for every value `float()` can yield and for the default 0.0. Python 3's shortest round-tripping float repr has this property; it is a requirement of the lemma, not a fact proved about every `Fields.Env`. `Fields.FloatTextReadsMet` shows it can be met.
