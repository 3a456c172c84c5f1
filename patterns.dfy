/** The regular expressions of the Vanderbilt parser, each written out as the
    match Python's re module finds (greedy groups, '.' never crossing "\n",
    re.match anchored at the start, re.search taking the leftmost match). */
module Patterns {
  import opened Text

  // ---------------------------------------------------------------------------
  // Dialog header: re.search("(.*):.*\n(.*)", text)
  // ---------------------------------------------------------------------------

  /** The first segment from index `from` on that holds a ':' and is followed
      by another segment, i.e. ends in "\n". */
  function ColonLine(segs: seq<string>, from: nat): (r: Option<nat>)
    ensures r.Some? ==> from <= r.value && r.value + 1 < |segs| && ':' in segs[r.value]
    ensures forall j :: from <= j && j + 1 < |segs| && (r.None? || j < r.value) ==> ':' !in segs[j]
    decreases |segs| - from
  {
    if from + 1 >= |segs| then None
    else if ':' in segs[from] then Some(from)
    else ColonLine(segs, from + 1)
  }

  /** The groups (abbreviation, course name) of the header search: the first
      "\n"-terminated line with a ':' cut at its last ':', and the line after it. */
  function HeaderSearch(text: string): (r: Option<(string, string)>)
    ensures r.Some? ==> '\n' !in r.value.0 && '\n' !in r.value.1
    ensures r.None? <==> ColonLine(Split(text, '\n'), 0).None?
  {
    var segs := Split(text, '\n');
    match ColonLine(segs, 0)
    case None => None
    case Some(k) =>
      var c := LastIndex(segs[k], ':');
      Some((segs[k][..c.value], segs[k + 1]))
  }

  /** A header laid out as the dialog shows it (abbreviation, the last ':' of the
      first line, then the name on the next line) yields that abbreviation and name. */
  lemma HeaderOfLines(abbr: string, rest: string, name: string, tail: string)
    requires '\n' !in abbr && '\n' !in rest && ':' !in rest && '\n' !in name
    requires tail == [] || tail[0] == '\n'
    ensures HeaderSearch(abbr + ":" + rest + "\n" + name + tail) == Some((abbr, name))
  {
    var line := abbr + ":" + rest;
    var segs := Split(abbr + ":" + rest + "\n" + name + tail, '\n');
    HeaderSegments(abbr, rest, name, tail);
    assert ColonLine(segs, 0) == Some(0) by {
      assert line[|abbr|] == ':';
    }
    assert LastIndex(line, ':') == Some(|abbr|) by {
      LastIndexAfter(abbr, ':', rest);
    }
    assert line[..|abbr|] == abbr;
  }

  /** Such a header splits into its first line and then the name. */
  lemma HeaderSegments(abbr: string, rest: string, name: string, tail: string)
    requires '\n' !in abbr && '\n' !in rest && '\n' !in name
    requires tail == [] || tail[0] == '\n'
    ensures var segs := Split(abbr + ":" + rest + "\n" + name + tail, '\n');
      |segs| >= 2 && segs[0] == abbr + ":" + rest && segs[1] == name
  {
    var line := abbr + ":" + rest;
    var after := name + tail;
    assert '\n' !in line;
    assert line + "\n" + name + tail == line + "\n" + after;
    SplitFirst(line, '\n', after);
    NameSegment(name, tail);
  }

  /** The segment after the header's first line is the name. */
  lemma NameSegment(name: string, tail: string)
    requires '\n' !in name
    requires tail == [] || tail[0] == '\n'
    ensures Split(name + tail, '\n')[0] == name
  {
    if tail == [] {
      assert name + tail == name;
      SplitNone(name, '\n');
    } else {
      assert name + tail == name + "\n" + tail[1..];
      SplitFirst(name, '\n', tail[1..]);
    }
  }

  /** A one-line header has no "\n" after the ':' and does not match at all. */
  lemma OneLineHeaderFails(text: string)
    requires '\n' !in text
    ensures HeaderSearch(text) == None
  {
    SplitNone(text, '\n');
  }

  // ---------------------------------------------------------------------------
  // Course abbreviation: re.match("(\S*)-(\S*)-(\S*)", abbr)
  // ---------------------------------------------------------------------------

  predicate NoSpace(s: string) {
    forall i :: 0 <= i < |s| ==> !IsSpace(s[i])
  }

  /** The longest whitespace-free prefix of s, all a run of \S can cover. */
  function Word(s: string): (r: string)
    ensures |r| <= |s| && r == s[..|r|]
    ensures NoSpace(r)
    ensures |r| < |s| ==> IsSpace(s[|r|])
  {
    if |s| == 0 || IsSpace(s[0]) then "" else [s[0]] + Word(s[1..])
  }

  /** The groups (department, catalog id, section) of the abbreviation match:
      within the leading word, group 3 follows the last '-', group 2 lies
      between the last two and group 1 is everything before them. */
  function AbbrMatch(abbr: string): (r: Option<(string, string, string)>)
    ensures r.Some? ==> var (d, c, s) := r.value;
      && Word(abbr) == d + "-" + c + "-" + s && '-' !in c && '-' !in s
      && Prefix(d + "-" + c + "-" + s, abbr) && NoSpace(d + "-" + c + "-" + s)
  {
    HyphenGroupsShape(Word(abbr));
    HyphenGroups(Word(abbr))
  }

  /** The abbreviation does not match exactly when its leading word has fewer
      than two hyphens. */
  lemma AbbrMatchNone(abbr: string)
    ensures AbbrMatch(abbr).None? <==> !TwoHyphens(Word(abbr))
  {
    HyphenGroupsShape(Word(abbr));
  }

  /** w has at least two hyphens. */
  predicate TwoHyphens(w: string) {
    exists i, j :: 0 <= i < j < |w| && w[i] == '-' && w[j] == '-'
  }

  /** The three groups of a whitespace-free word, split at its last two hyphens. */
  function HyphenGroups(w: string): (r: Option<(string, string, string)>)
  {
    var hb := LastIndex(w, '-');
    if hb.None? then None
    else
      var b := hb.value;
      var ha := LastIndex(w[..b], '-');
      if ha.None? then None
      else
        var a := ha.value;
        Some((w[..a], w[a + 1..b], w[b + 1..]))
  }

  /** A match of a word consists of three groups joined by '-', the last two
      without '-'; there is no match exactly when the word has fewer than two hyphens. */
  lemma {:induction false} HyphenGroupsShape(w: string)
    ensures HyphenGroups(w).Some? ==> var (d, c, s) := HyphenGroups(w).value;
      w == d + "-" + c + "-" + s && '-' !in c && '-' !in s
    ensures HyphenGroups(w).None? <==> !TwoHyphens(w)
  {
    var hb := LastIndex(w, '-');
    if hb.Some? {
      var b := hb.value;
      var ha := LastIndex(w[..b], '-');
      if ha.Some? {
        var a := ha.value;
        assert w[a] == '-' by { assert w[..b][a] == w[a]; }
        ThreeParts(w, a, b);
        HyphenFree(w, a + 1, b);
        HyphenFree(w, b + 1, |w|);
        assert 0 <= a < b < |w| && w[a] == '-' && w[b] == '-';
      } else {
        forall i, j | 0 <= i < j < |w| && w[i] == '-' ensures w[j] != '-' {
        }
      }
    }
  }

  /** A word is its text before a, '-', the text between a and b, '-', and the rest. */
  lemma ThreeParts(w: string, a: nat, b: nat)
    requires a < b < |w| && w[a] == '-' && w[b] == '-'
    ensures w == w[..a] + "-" + w[a + 1..b] + "-" + w[b + 1..]
  {
    var v := w[..a] + "-" + w[a + 1..b] + "-" + w[b + 1..];
    assert |v| == |w|;
    forall k | 0 <= k < |w| ensures v[k] == w[k] {
      if k < a { assert v[k] == w[..a][k]; }
      else if k == a || k == b { }
      else if k < b { assert v[k] == w[a + 1..b][k - a - 1]; }
      else { assert v[k] == w[b + 1..][k - b - 1]; }
    }
  }

  /** A stretch of positions holding no '-' is a slice without '-'. */
  lemma HyphenFree(w: string, i: nat, j: nat)
    requires i <= j <= |w|
    requires forall k :: i <= k < j ==> w[k] != '-'
    ensures '-' !in w[i..j]
  {
    forall k | 0 <= k < j - i ensures w[i..j][k] != '-' {
      assert w[i..j][k] == w[i + k];
    }
  }

  /** The groups of D-C-S with hyphen-free C and S are D, C and S. */
  lemma HyphenGroupsOf(d: string, c: string, s: string)
    requires '-' !in c && '-' !in s
    ensures HyphenGroups(d + "-" + c + "-" + s) == Some((d, c, s))
  {
    var pre := d + ['-'] + c;
    var w := pre + ['-'] + s;
    assert d + "-" + c + "-" + s == w;
    assert LastIndex(w, '-') == Some(|pre|) by {
      LastIndexAfter(pre, '-', s);
    }
    assert w[..|pre|] == pre;
    assert LastIndex(pre, '-') == Some(|d|) by {
      LastIndexAfter(d, '-', c);
    }
    assert w[..|d|] == d;
    assert w[|d| + 1..|pre|] == c;
    assert w[|pre| + 1..] == s;
  }

  /** The shape the catalog uses, D-C-S with whitespace- and hyphen-free parts
      followed by nothing or by whitespace, splits into exactly D, C and S. */
  lemma AbbrOfParts(d: string, c: string, s: string, rest: string)
    requires NoSpace(d) && NoSpace(c) && NoSpace(s) && '-' !in c && '-' !in s
    requires rest == [] || IsSpace(rest[0])
    ensures AbbrMatch(d + "-" + c + "-" + s + rest) == Some((d, c, s))
  {
    var w := d + "-" + c + "-" + s;
    assert Word(w + rest) == w by {
      NoSpaceJoin(d, c, s);
      WordOf(w, rest);
    }
    HyphenGroupsOf(d, c, s);
  }

  lemma NoSpaceJoin(d: string, c: string, s: string)
    requires NoSpace(d) && NoSpace(c) && NoSpace(s)
    ensures NoSpace(d + "-" + c + "-" + s)
  {
    var w := d + "-" + c + "-" + s;
    forall i | 0 <= i < |w| ensures !IsSpace(w[i]) {
      if i < |d| { assert w[i] == d[i]; }
      else if i == |d| || i == |d| + 1 + |c| { assert w[i] == '-'; }
      else if i < |d| + 1 + |c| { assert w[i] == c[i - |d| - 1]; }
      else { assert w[i] == s[i - |d| - |c| - 2]; }
    }
  }

  /** The last occurrence of c in x + [c] + y, when y has none, is the one between. */
  lemma LastIndexAfter(x: string, c: char, y: string)
    requires c !in y
    ensures LastIndex(x + [c] + y, c) == Some(|x|)
    decreases |y|
  {
    var s := x + [c] + y;
    if y != [] {
      assert s[|s| - 1] == y[|y| - 1];
      assert s[..|s| - 1] == x + [c] + y[..|y| - 1];
      LastIndexAfter(x, c, y[..|y| - 1]);
    } else {
      assert s == x + [c];
    }
  }

  lemma WordOf(w: string, rest: string)
    requires NoSpace(w)
    requires rest == [] || IsSpace(rest[0])
    ensures Word(w + rest) == w
    decreases |w|
  {
    if w != [] {
      assert (w + rest)[1..] == w[1..] + rest;
      WordOf(w[1..], rest);
    }
  }

  // ---------------------------------------------------------------------------
  // Time range: re.match("(.*) \- (.*)", value)
  // ---------------------------------------------------------------------------

  const RangeDash := " - "

  /** The groups (start, end) of the time-range match: within the first line,
      the text before and after the last " - ". */
  function TimeRange(value: string): (r: Option<(string, string)>)
    ensures r.Some? ==> var (a, b) := r.value;
      && a + RangeDash + b == FirstLine(value)
      && forall j :: |a| < j ==> !OccursAt(FirstLine(value), RangeDash, j)
    ensures r.None? <==> forall j :: !OccursAt(FirstLine(value), RangeDash, j)
  {
    var line := FirstLine(value);
    match FindLast(line, RangeDash)
    case None => None
    case Some(j) =>
      assert line == line[..j] + RangeDash + line[j + 3..];
      Some((line[..j], line[j + 3..]))
  }

  /** "START - END" with a hyphen-free END splits into START and END. */
  lemma TimeRangeOf(a: string, b: string)
    requires '\n' !in a && '\n' !in b && '-' !in b
    ensures TimeRange(a + RangeDash + b) == Some((a, b))
  {
    var v := a + RangeDash + b;
    assert '\n' !in v;
    assert IndexOf(v, '\n') == |v|;
    assert FirstLine(v) == v;
    assert OccursAt(v, RangeDash, |a|) by { assert v[|a|..|a| + 3] == RangeDash; }
    forall j | |a| < j
      ensures !OccursAt(v, RangeDash, j)
    {
      if j + 3 <= |v| {
        assert v[j..j + 3][1] == v[j + 1];
        if j == |a| + 1 {
          assert v[j + 1] == ' ';
        } else {
          assert v[j + 1] == b[j + 1 - |a| - 3];
        }
      }
    }
    assert v[..|a|] == a;
    assert v[|a| + 3..] == b;
  }

  // ---------------------------------------------------------------------------
  // Primary instructor: re.match("(.*) \(Primary\)", line)
  // ---------------------------------------------------------------------------

  const PrimaryMark := " (Primary)"

  /** The line cut to group 1 of the primary-instructor match, or the line
      itself when the pattern does not match. */
  function PrimaryCut(line: string): (r: string)
    ensures Prefix(r, line)
    ensures '\n' !in line ==> match FindLast(line, PrimaryMark)
      case Some(j) => r == line[..j]
      case None => r == line
  {
    var first := FirstLine(line);
    assert '\n' !in line ==> IndexOf(line, '\n') == |line| && first == line;
    match FindLast(first, PrimaryMark)
    case None => line
    case Some(j) => first[..j]
  }

  /** "NAME (Primary)" is cut to NAME. */
  lemma PrimaryCutMarked(name: string)
    requires '\n' !in name
    ensures PrimaryCut(name + PrimaryMark) == name
  {
    var line := name + PrimaryMark;
    assert '\n' !in line;
    assert OccursAt(line, PrimaryMark, |name|) by { assert line[|name|..] == PrimaryMark; }
    assert line[..|name|] == name;
  }

  /** A line that never mentions the marker is kept as it is. */
  lemma PrimaryCutUnmarked(line: string)
    requires '\n' !in line
    requires forall j :: !OccursAt(line, PrimaryMark, j)
    ensures PrimaryCut(line) == line
  {
  }

  // ---------------------------------------------------------------------------
  // Hit count: re.search("totalRecords: ([0-9]*),", html)
  // ---------------------------------------------------------------------------

  const TotalLabel := "totalRecords: "

  predicate IsDigit(c: char) {
    '0' <= c <= '9'
  }

  predicate AllDigits(s: string) {
    forall i :: 0 <= i < |s| ==> IsDigit(s[i])
  }

  /** The end of the run of ASCII digits that starts at i. */
  function DigitsEnd(s: string, i: nat): (j: nat)
    requires i <= |s|
    ensures i <= j <= |s| && AllDigits(s[i..j])
    ensures j < |s| ==> !IsDigit(s[j])
    decreases |s| - i
  {
    if i < |s| && IsDigit(s[i]) then DigitsEnd(s, i + 1) else i
  }

  /** Whether the count pattern matches at p; the digits then run from p + 14 to the ','. */
  predicate CountAt(s: string, p: nat) {
    OccursAt(s, TotalLabel, p) && var j := DigitsEnd(s, p + |TotalLabel|); j < |s| && s[j] == ','
  }

  /** The leftmost position at or after p where the count pattern matches. */
  function CountFrom(s: string, p: nat): (r: Option<nat>)
    ensures r.Some? ==> p <= r.value && CountAt(s, r.value)
    ensures forall q :: p <= q && (r.None? || q < r.value) ==> !CountAt(s, q)
    decreases |s| - p
  {
    if p + |TotalLabel| > |s| then None
    else if CountAt(s, p) then Some(p)
    else CountFrom(s, p + 1)
  }

  /** Group 1 of the count search: the digits of the leftmost match. */
  function CountSearch(html: string): (r: Option<string>)
    ensures r.None? <==> forall q :: 0 <= q ==> !CountAt(html, q)
    ensures r.Some? ==> AllDigits(r.value)
  {
    match CountFrom(html, 0)
    case None => None
    case Some(q) => Some(html[q + |TotalLabel|..DigitsEnd(html, q + |TotalLabel|)])
  }

  /** A listing holding "totalRecords: DIGITS," with no match of the pattern
      before it reports those digits, wherever in the text it stands. */
  lemma CountSearchAt(pre: string, ds: string, post: string)
    requires AllDigits(ds)
    requires forall q :: 0 <= q < |pre| ==> !CountAt(pre + TotalLabel + ds + "," + post, q)
    ensures CountSearch(pre + TotalLabel + ds + "," + post) == Some(ds)
  {
    var s := pre + TotalLabel + ds + "," + post;
    assert !IsDigit(","[0]);
    DigitsThen(s, pre + TotalLabel, ds, ",", post);
    assert s == pre + TotalLabel + (ds + "," + post);
    Middle(s, pre, TotalLabel, ds + "," + post);
    CountSearchOf(s, |pre|, ds);
  }

  /** The first match of the count pattern decides the search, and its group
      is the digits it starts with. */
  lemma CountSearchOf(s: string, p: nat, ds: string)
    requires CountAt(s, p) && forall q :: 0 <= q < p ==> !CountAt(s, q)
    requires s[p + |TotalLabel|..DigitsEnd(s, p + |TotalLabel|)] == ds
    ensures CountSearch(s) == Some(ds)
  {
    CountFromFirst(s, 0, p);
  }

  /** The leftmost search finds the first position where the pattern matches. */
  lemma CountFromFirst(s: string, p: nat, n: nat)
    requires p <= n && CountAt(s, n)
    requires forall q :: p <= q < n ==> !CountAt(s, q)
    ensures CountFrom(s, p) == Some(n)
    decreases n - p
  {
    if p < n {
      CountFromFirst(s, p + 1, n);
    }
  }

  lemma DigitsEndOf(s: string, i: nat, j: nat)
    requires i <= j < |s| && AllDigits(s[i..j]) && !IsDigit(s[j])
    ensures DigitsEnd(s, i) == j
    decreases j - i
  {
    if i < j {
      assert IsDigit(s[i..j][0]);
      assert s[i + 1..j] == s[i..j][1..];
      DigitsEndOf(s, i + 1, j);
    }
  }

  // ---------------------------------------------------------------------------
  // Class number: re.search("showClassDetailPanel.fire\({classNumber : '([0-9]*)',
  //                          termCode : '([0-9]*)',", onclick)
  // ---------------------------------------------------------------------------

  const PanelCall := "showClassDetailPanel"
  const NumberOpen := "fire({classNumber : '"
  const TermOpen := "', termCode : '"
  const TermClose := "',"

  /** Whether the class-number pattern matches at p: the call name, any one
      character but a newline, then the class number and term code in quotes. */
  predicate ClassAt(s: string, p: nat) {
    && OccursAt(s, PanelCall, p)
    && p + |PanelCall| < |s| && s[p + |PanelCall|] != '\n'
    && OccursAt(s, NumberOpen, p + |PanelCall| + 1)
    && var j := DigitsEnd(s, p + |PanelCall| + 1 + |NumberOpen|);
       OccursAt(s, TermOpen, j) && OccursAt(s, TermClose, DigitsEnd(s, j + |TermOpen|))
  }

  /** The leftmost position at or after p where the class-number pattern matches. */
  function ClassFrom(s: string, p: nat): (r: Option<nat>)
    ensures r.Some? ==> p <= r.value && ClassAt(s, r.value)
    ensures forall q :: p <= q && (r.None? || q < r.value) ==> !ClassAt(s, q)
    decreases |s| - p
  {
    if p + |PanelCall| >= |s| then None
    else if ClassAt(s, p) then Some(p)
    else ClassFrom(s, p + 1)
  }

  /** Group 1 of the class-number search: the class number of the leftmost match. */
  function ClassSearch(onclick: string): (r: Option<string>)
    ensures r.None? <==> ClassFrom(onclick, 0).None?
    ensures r.Some? ==> AllDigits(r.value)
  {
    match ClassFrom(onclick, 0)
    case None => None
    case Some(q) =>
      var i := q + |PanelCall| + 1 + |NumberOpen|;
      Some(onclick[i..DigitsEnd(onclick, i)])
  }

  /** The handler does not match exactly when the pattern matches at no position. */
  lemma ClassSearchNone(onclick: string)
    ensures ClassSearch(onclick).None? <==> forall q :: 0 <= q ==> !ClassAt(onclick, q)
  {
  }

  /** A handler "showClassDetailPanel.fire({classNumber : 'N', termCode : 'T',"
      with no match of the pattern before it yields the class number N. */
  lemma ClassSearchAt(pre: string, n: string, t: string, post: string)
    requires AllDigits(n) && AllDigits(t)
    requires forall q :: 0 <= q < |pre| ==>
      !ClassAt(pre + PanelCall + "." + NumberOpen + n + TermOpen + t + TermClose + post, q)
    ensures ClassSearch(pre + PanelCall + "." + NumberOpen + n + TermOpen + t + TermClose + post) == Some(n)
  {
    var s := pre + PanelCall + "." + NumberOpen + n + TermOpen + t + TermClose + post;
    HandlerMatches(s, pre, n, t, post);
    HandlerGroup(s, pre, n, t, post);
    ClassSearchOf(s, |pre|, n);
  }

  /** The class-number pattern matches where the handler starts. */
  lemma HandlerMatches(s: string, pre: string, n: string, t: string, post: string)
    requires AllDigits(n) && AllDigits(t)
    requires s == pre + PanelCall + "." + NumberOpen + n + TermOpen + t + TermClose + post
    ensures ClassAt(s, |pre|)
  {
    var j := |pre| + |PanelCall| + 1 + |NumberOpen| + |n|;
    HandlerOpening(s, pre, n, t, post);
    HandlerNumbers(s, pre, n, t, post);
    ClassAtOf(s, |pre|, j, j + |TermOpen| + |t|);
  }

  /** The group of that match is the class number N. */
  lemma HandlerGroup(s: string, pre: string, n: string, t: string, post: string)
    requires AllDigits(n) && AllDigits(t)
    requires s == pre + PanelCall + "." + NumberOpen + n + TermOpen + t + TermClose + post
    ensures var i := |pre| + |PanelCall| + 1 + |NumberOpen|; s[i..DigitsEnd(s, i)] == n
  {
    HandlerNumbers(s, pre, n, t, post);
  }

  /** The first match of the class-number pattern decides the search, and its
      group is the digits after "classNumber : '". */
  lemma ClassSearchOf(s: string, p: nat, n: string)
    requires ClassAt(s, p) && forall q :: 0 <= q < p ==> !ClassAt(s, q)
    requires var i := p + |PanelCall| + 1 + |NumberOpen|; s[i..DigitsEnd(s, i)] == n
    ensures ClassSearch(s) == Some(n)
  {
    ClassFromFirst(s, 0, p);
  }

  /** The class-number pattern matches at h when its parts occur where ClassAt
      looks for them. */
  lemma ClassAtOf(s: string, h: nat, j: nat, k: nat)
    requires OccursAt(s, PanelCall, h) && h + |PanelCall| < |s| && s[h + |PanelCall|] != '\n'
    requires OccursAt(s, NumberOpen, h + |PanelCall| + 1)
    requires DigitsEnd(s, h + |PanelCall| + 1 + |NumberOpen|) == j && OccursAt(s, TermOpen, j)
    requires DigitsEnd(s, j + |TermOpen|) == k && OccursAt(s, TermClose, k)
    ensures ClassAt(s, h)
  {
  }

  /** The leftmost search finds the first position where the pattern matches. */
  lemma ClassFromFirst(s: string, p: nat, n: nat)
    requires p <= n && ClassAt(s, n)
    requires forall q :: p <= q < n ==> !ClassAt(s, q)
    ensures ClassFrom(s, p) == Some(n)
    decreases n - p
  {
    if p < n {
      ClassFromFirst(s, p + 1, n);
    }
  }

  /** The call and the text up to the class number sit at the start of a handler. */
  lemma HandlerOpening(s: string, pre: string, n: string, t: string, post: string)
    requires s == pre + PanelCall + "." + NumberOpen + n + TermOpen + t + TermClose + post
    ensures var h := |pre|;
      && OccursAt(s, PanelCall, h) && h + |PanelCall| < |s| && s[h + |PanelCall|] == '.' && s[h + |PanelCall|] != '\n'
      && OccursAt(s, NumberOpen, h + |PanelCall| + 1)
  {
    var h := |pre|;
    assert s[h..h + |PanelCall|] == PanelCall;
    assert s[h + |PanelCall| + 1..h + |PanelCall| + 1 + |NumberOpen|] == NumberOpen;
  }

  /** In a handler, the class number's digits run up to TermOpen, and the term
      code's digits up to TermClose. */
  lemma HandlerNumbers(s: string, pre: string, n: string, t: string, post: string)
    requires AllDigits(n) && AllDigits(t)
    requires s == pre + PanelCall + "." + NumberOpen + n + TermOpen + t + TermClose + post
    ensures var i := |pre| + |PanelCall| + 1 + |NumberOpen|; var j := i + |n|;
      && DigitsEnd(s, i) == j && s[i..j] == n && OccursAt(s, TermOpen, j)
      && DigitsEnd(s, j + |TermOpen|) == j + |TermOpen| + |t| && OccursAt(s, TermClose, j + |TermOpen| + |t|)
  {
    var a := pre + PanelCall + "." + NumberOpen;
    assert !IsDigit(TermOpen[0]) && !IsDigit(TermClose[0]);
    DigitsThen(s, a, n, TermOpen, t + TermClose + post);
    DigitsThen(s, a + n + TermOpen, t, TermClose, post);
  }

  /** In a + ds + b + z with ds all digits and b starting with a non-digit,
      the digits at |a| are ds and b follows them. */
  lemma DigitsThen(s: string, a: string, ds: string, b: string, z: string)
    requires s == a + ds + b + z && AllDigits(ds) && |b| > 0 && !IsDigit(b[0])
    ensures DigitsEnd(s, |a|) == |a| + |ds| && s[|a|..|a| + |ds|] == ds && OccursAt(s, b, |a| + |ds|)
  {
    assert s == a + ds + (b + z);
    Middle(s, a, ds, b + z);
    Middle(s, a + ds, b, z);
    DigitsEndOf(s, |a|, |a| + |ds|);
  }

  /** Value of a string of ASCII digits, as int() reads it. */
  function DigitsValue(ds: string): (n: nat)
    requires AllDigits(ds)
    decreases |ds|
  {
    if ds == [] then 0 else DigitsValue(ds[..|ds| - 1]) * 10 + (ds[|ds| - 1] as int - '0' as int)
  }

  /** The decimal numeral of n, without leading zeros. */
  function Decimal(n: nat): (ds: string)
    ensures AllDigits(ds) && ds != []
    ensures |ds| > 1 ==> ds[0] != '0'
  {
    if n < 10 then [('0' as int + n) as char] else Decimal(n / 10) + [('0' as int + n % 10) as char]
  }

  /** Reading back a numeral recovers the number. */
  lemma {:induction false} DigitsValueDecimal(n: nat)
    ensures DigitsValue(Decimal(n)) == n
  {
    var ds := Decimal(n);
    if n >= 10 {
      DigitsValueDecimal(n / 10);
      assert ds[..|ds| - 1] == Decimal(n / 10);
    }
  }
}
