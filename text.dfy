/** Python string primitives the parser relies on: str.isspace, str.strip,
    str.splitlines, str.split with a one-character separator and str.join. */
module Text {

  /** Python's str.isspace() for one character. */
  predicate IsSpace(c: char) {
    c == ' ' || ('\t' <= c <= '\r') || ('\U{1c}' <= c <= '\U{1f}') || c == '\U{85}' || c == '\U{a0}'
    || c == '\U{1680}' || ('\U{2000}' <= c <= '\U{200a}') || c == '\U{2028}' || c == '\U{2029}'
    || c == '\U{202f}' || c == '\U{205f}' || c == '\U{3000}'
  }

  /** The line boundaries recognised by Python's str.splitlines(). */
  predicate IsLineBreak(c: char) {
    ('\n' <= c <= '\r') || ('\U{1c}' <= c <= '\U{1e}') || c == '\U{85}' || c == '\U{2028}' || c == '\U{2029}'
  }

  predicate NoLineBreak(s: string) {
    forall i :: 0 <= i < |s| ==> !IsLineBreak(s[i])
  }

  /** Neither the first nor the last character is whitespace. */
  predicate Stripped(s: string) {
    |s| > 0 ==> !IsSpace(s[0]) && !IsSpace(s[|s| - 1])
  }

  predicate AllSpace(s: string) {
    forall i :: 0 <= i < |s| ==> IsSpace(s[i])
  }

  /** Python's s.lstrip(): leading whitespace removed. */
  function LStrip(s: string): (r: string)
    ensures |r| <= |s|
    ensures |r| > 0 ==> !IsSpace(r[0])
  {
    if |s| > 0 && IsSpace(s[0]) then LStrip(s[1..]) else s
  }

  /** Python's s.rstrip(): trailing whitespace removed. */
  function RStrip(s: string): (r: string)
    ensures |r| <= |s|
    ensures |r| > 0 ==> !IsSpace(r[|r| - 1])
  {
    if |s| > 0 && IsSpace(s[|s| - 1]) then RStrip(s[..|s| - 1]) else s
  }

  /** lstrip removes a prefix, and the prefix is all whitespace. */
  lemma {:induction false} LStripSuffix(s: string)
    ensures s[|s| - |LStrip(s)|..] == LStrip(s)
    ensures AllSpace(s[..|s| - |LStrip(s)|])
  {
    if |s| > 0 && IsSpace(s[0]) {
      LStripSuffix(s[1..]);
      var k := |s| - |LStrip(s)|;
      assert s[1..][k - 1..] == s[k..];
      assert forall i :: 0 <= i < k ==> s[..k][i] == s[i] && (i == 0 || s[i] == s[1..][..k - 1][i - 1]);
    }
  }

  /** rstrip removes a suffix, and the suffix is all whitespace. */
  lemma {:induction false} RStripPrefix(s: string)
    ensures s[..|RStrip(s)|] == RStrip(s)
    ensures AllSpace(s[|RStrip(s)|..])
  {
    if |s| > 0 && IsSpace(s[|s| - 1]) {
      var t := s[..|s| - 1];
      RStripPrefix(t);
      var k := |RStrip(s)|;
      assert t[..k] == s[..k];
      assert forall i :: k <= i < |s| ==> s[k..][i - k] == s[i] && (i == |s| - 1 || s[i] == t[k..][i - k]);
    }
  }

  /** Python's s.strip(): leading and trailing whitespace removed. */
  function Strip(s: string): (r: string)
    ensures Stripped(r)
    ensures |r| <= |s|
    ensures Stripped(s) ==> r == s
  {
    var t := LStrip(s);
    RStripPrefix(t);
    RStrip(t)
  }

  /** Stripping a string that starts with a stripped, non-empty p and has a
      non-space character after p keeps all of p. */
  lemma StripKeepsPrefix(p: string, t: string, k: nat)
    requires p != [] && Stripped(p)
    requires k < |t| && !IsSpace(t[k])
    ensures |p| <= |Strip(p + t)| && Strip(p + t)[..|p|] == p
  {
    var s := p + t;
    assert LStrip(s) == s;
    var r := RStrip(s);
    RStripPrefix(s);
    assert !IsSpace(s[|p| + k]);
    assert |r| > |p| + k;
    assert r[..|p|] == s[..|p|] == p;
  }

  /** Python's sep.join(xs). */
  function Join(sep: string, xs: seq<string>): (r: string)
    ensures xs == [] ==> r == ""
    ensures |xs| == 1 ==> r == xs[0]
  {
    if |xs| == 0 then "" else if |xs| == 1 then xs[0] else xs[0] + sep + Join(sep, xs[1..])
  }

  /** Joining a piece in front of a non-empty list puts it and sep in front. */
  lemma JoinCons(sep: string, x: string, ys: seq<string>)
    requires |ys| > 0
    ensures Join(sep, [x] + ys) == x + sep + Join(sep, ys)
  {
    assert ([x] + ys)[1..] == ys;
  }

  /** Prefixing the first of several pieces prefixes their join. */
  lemma JoinFront(sep: string, p: string, x: string, ys: seq<string>)
    requires |ys| > 0
    ensures Join(sep, [p + x] + ys) == p + Join(sep, [x] + ys)
  {
    JoinCons(sep, p + x, ys);
    JoinCons(sep, x, ys);
    var j := Join(sep, ys);
    assert (p + x) + sep + j == p + (x + sep + j);
  }

  /** Index of the first occurrence of c in s, or |s| when there is none. */
  function IndexOf(s: string, c: char): (i: nat)
    ensures i <= |s|
    ensures i < |s| ==> s[i] == c
    ensures forall j :: 0 <= j < i ==> s[j] != c
  {
    if |s| == 0 || s[0] == c then 0 else 1 + IndexOf(s[1..], c)
  }

  /** Python's s.split(c) for a one-character separator c. */
  function Split(s: string, c: char): (r: seq<string>)
    ensures |r| >= 1
    ensures forall k :: 0 <= k < |r| ==> c !in r[k]
    decreases |s|
  {
    var i := IndexOf(s, c);
    if i == |s| then [s] else [s[..i]] + Split(s[i + 1..], c)
  }

  /** Joining the pieces of a split with the separator gives back the string. */
  lemma {:induction false} JoinSplit(s: string, c: char)
    ensures Join([c], Split(s, c)) == s
    decreases |s|
  {
    var i := IndexOf(s, c);
    if i < |s| {
      var rest := Split(s[i + 1..], c);
      assert Split(s, c) == [s[..i]] + rest;
      JoinCons([c], s[..i], rest);
      JoinSplit(s[i + 1..], c);
      Around(s, i);
    }
  }

  /** A string is the text before index i, its character at i, and the rest. */
  lemma Around(s: string, i: nat)
    requires i < |s|
    ensures s[..i] + [s[i]] + s[i + 1..] == s
  {
  }

  /** A split starts with the text before the first separator. */
  lemma SplitFirst(x: string, c: char, y: string)
    requires c !in x
    ensures Split(x + [c] + y, c) == [x] + Split(y, c)
  {
    var s := x + [c] + y;
    assert s[|x|] == c;
    assert forall j :: 0 <= j < |x| ==> s[j] == x[j];
    assert s[..|x|] == x;
    assert s[|x| + 1..] == y;
  }

  /** A string without the separator splits into itself alone. */
  lemma SplitNone(x: string, c: char)
    requires c !in x
    ensures Split(x, c) == [x]
  {
  }

  /** Splitting a join of separator-free pieces gives back the pieces. */
  lemma {:induction false} SplitJoin(xs: seq<string>, c: char)
    requires |xs| >= 1
    requires forall k :: 0 <= k < |xs| ==> c !in xs[k]
    ensures Split(Join([c], xs), c) == xs
  {
    if |xs| == 1 {
      assert IndexOf(xs[0], c) == |xs[0]|;
    } else {
      var s := Join([c], xs);
      assert s == xs[0] + [c] + Join([c], xs[1..]);
      var i := IndexOf(s, c);
      assert s[|xs[0]|] == c;
      assert i == |xs[0]| by {
        assert forall j :: 0 <= j < |xs[0]| ==> s[j] == xs[0][j];
      }
      assert s[..i] == xs[0];
      assert s[i + 1..] == Join([c], xs[1..]);
      SplitJoin(xs[1..], c);
    }
  }

  /** Index of the first line boundary in s, or |s|. */
  function BreakIndex(s: string): (i: nat)
    ensures i <= |s|
    ensures i < |s| ==> IsLineBreak(s[i])
    ensures forall j :: 0 <= j < i ==> !IsLineBreak(s[j])
  {
    if |s| == 0 || IsLineBreak(s[0]) then 0 else 1 + BreakIndex(s[1..])
  }

  /** Python's s.splitlines(): lines without their boundaries; "\r\n" is one
      boundary, and a boundary at the very end does not start another line. */
  function SplitLines(s: string): (r: seq<string>)
    ensures forall k :: 0 <= k < |r| ==> NoLineBreak(r[k])
    ensures s == [] <==> r == []
    decreases |s|
  {
    if s == [] then []
    else
      var i := BreakIndex(s);
      if i == |s| then [s]
      else
        var next := if s[i] == '\r' && i + 1 < |s| && s[i + 1] == '\n' then i + 2 else i + 1;
        [s[..i]] + SplitLines(s[next..])
  }

  /** Lines joined with "\n" split back into the same lines, provided no line
      holds a boundary and the last one is not empty. */
  lemma {:induction false} SplitLinesJoin(xs: seq<string>)
    requires forall k :: 0 <= k < |xs| ==> NoLineBreak(xs[k])
    requires |xs| > 0 ==> xs[|xs| - 1] != ""
    ensures SplitLines(Join("\n", xs)) == xs
  {
    if |xs| == 1 {
      assert BreakIndex(xs[0]) == |xs[0]|;
    } else if |xs| > 1 {
      var tail := Join("\n", xs[1..]);
      assert xs == [xs[0]] + xs[1..];
      JoinCons("\n", xs[0], xs[1..]);
      SplitLinesFirst(xs[0], tail);
      SplitLinesJoin(xs[1..]);
    }
  }

  /** The first line ends at the first "\n" when the text before it has no
      other boundary. */
  lemma SplitLinesFirst(x: string, y: string)
    requires NoLineBreak(x)
    ensures SplitLines(x + "\n" + y) == [x] + SplitLines(y)
  {
    var s := x + "\n" + y;
    assert BreakIndex(s) == |x| by {
      assert forall j :: 0 <= j < |x| ==> s[j] == x[j];
      assert s[|x|] == '\n';
    }
    assert s[..|x|] == x;
    assert s[|x| + 1..] == y;
  }

  /** [l.strip() for l in lines if l.strip()]: the stripped lines that are not blank. */
  function NonBlank(lines: seq<string>): (r: seq<string>)
    ensures |r| <= |lines|
    ensures forall k :: 0 <= k < |r| ==> r[k] != "" && Stripped(r[k])
    ensures (forall k :: 0 <= k < |lines| ==> lines[k] != "" && Stripped(lines[k])) ==> r == lines
  {
    if lines == [] then []
    else if Strip(lines[0]) == "" then NonBlank(lines[1..])
    else [Strip(lines[0])] + NonBlank(lines[1..])
  }

  /** One line is kept, stripped, exactly when it is not blank. */
  lemma NonBlankOne(x: string)
    ensures NonBlank([x]) == if Strip(x) == "" then [] else [Strip(x)]
  {
    assert [x][1..] == [];
  }

  /** The filter works line by line: the lines kept from a + b are those kept
      from a, then those kept from b, in order. */
  lemma {:induction false} NonBlankAppend(a: seq<string>, b: seq<string>)
    ensures NonBlank(a + b) == NonBlank(a) + NonBlank(b)
  {
    if a == [] {
      assert a + b == b;
    } else {
      assert (a + b)[0] == a[0];
      assert (a + b)[1..] == a[1..] + b;
      NonBlankAppend(a[1..], b);
    }
  }

  /** A join of non-empty, already stripped pieces has no whitespace at its
      ends, whatever the separator, and is empty only when there are no pieces. */
  lemma {:induction false} JoinStripped(sep: string, xs: seq<string>)
    requires forall k :: 0 <= k < |xs| ==> xs[k] != "" && Stripped(xs[k])
    ensures Stripped(Join(sep, xs))
    ensures Join(sep, xs) == "" <==> xs == []
  {
    if |xs| > 1 {
      JoinStripped(sep, xs[1..]);
      var t := Join(sep, xs[1..]);
      assert Join(sep, xs) == xs[0] + sep + t;
    }
  }

  /** [x.strip() for x in xs] */
  function StripAll(xs: seq<string>): (r: seq<string>)
    ensures |r| == |xs|
    ensures forall k :: 0 <= k < |xs| ==> r[k] == Strip(xs[k])
  {
    if xs == [] then [] else [Strip(xs[0])] + StripAll(xs[1..])
  }

  /** Whether pat occurs in s at position j. */
  predicate OccursAt(s: string, pat: string, j: int) {
    0 <= j && j + |pat| <= |s| && s[j..j + |pat|] == pat
  }

  /** The largest position below bound at which pat occurs in s. */
  function LastBefore(s: string, pat: string, bound: nat): (r: Option<nat>)
    ensures r.Some? ==> r.value < bound && OccursAt(s, pat, r.value)
    ensures forall j :: (if r.Some? then r.value + 1 else 0) <= j < bound ==> !OccursAt(s, pat, j)
    decreases bound
  {
    if bound == 0 then None
    else if OccursAt(s, pat, bound - 1) then Some(bound - 1)
    else LastBefore(s, pat, bound - 1)
  }

  /** The last position at which pat occurs in s. */
  function FindLast(s: string, pat: string): (r: Option<nat>)
    ensures r.Some? ==> OccursAt(s, pat, r.value)
    ensures forall j :: (if r.Some? then r.value + 1 else 0) <= j ==> !OccursAt(s, pat, j)
  {
    LastBefore(s, pat, |s| + 1)
  }

  /** The last position of c in s. */
  function LastIndex(s: string, c: char): (r: Option<nat>)
    ensures r.Some? ==> r.value < |s| && s[r.value] == c
    ensures r.Some? ==> forall j :: r.value < j < |s| ==> s[j] != c
    ensures r.None? <==> c !in s
  {
    if |s| == 0 then None
    else if s[|s| - 1] == c then Some(|s| - 1)
    else LastIndex(s[..|s| - 1], c)
  }

  /** The part of s a regular-expression '.' can span from its start: up to the first "\n". */
  function FirstLine(s: string): (r: string)
    ensures |r| <= |s| && r == s[..|r|]
    ensures '\n' !in r
    ensures |r| < |s| ==> s[|r|] == '\n'
  {
    s[..IndexOf(s, '\n')]
  }

  /** The middle part of a concatenation is found at the length of the first part. */
  lemma Middle<T>(s: seq<T>, x: seq<T>, y: seq<T>, z: seq<T>)
    requires s == x + y + z
    ensures s[|x|..|x| + |y|] == y
    ensures forall k :: 0 <= k < |y| ==> s[|x| + k] == y[k]
  {
    assert s[|x|..|x| + |y|] == y;
  }

  /** xs is an initial segment of ys. */
  predicate Prefix<T(==)>(xs: seq<T>, ys: seq<T>) {
    |xs| <= |ys| && ys[..|xs|] == xs
  }

  /** Prefix is transitive. */
  lemma PrefixTrans<T>(xs: seq<T>, ys: seq<T>, zs: seq<T>)
    requires Prefix(xs, ys) && Prefix(ys, zs)
    ensures Prefix(xs, zs)
  {
    assert zs[..|xs|] == zs[..|ys|][..|xs|];
  }

  datatype Option<+T> = None | Some(value: T)
}
