/** What grep means, line by line, on the whole text of a file. */
module GrepSpec {
  import opened Basics

  const BUFSIZE: nat := 1024
  const COLON: byte := 58

  /** The first newline, or the text's end. */
  function LineEnd(text: seq<byte>): (k: nat)
    ensures k <= |text| && (forall i :: 0 <= i < k ==> text[i] != NEWLINE) && (k < |text| ==> text[k] == NEWLINE)
  {
    if text == [] || text[0] == NEWLINE then 0 else 1 + LineEnd(text[1..])
  }

  /** The pattern stands at position k of a line. */
  predicate StandsAt(line: seq<byte>, pattern: seq<byte>, k: nat) {
    k + |pattern| <= |line| && line[k..k + |pattern|] == pattern
  }

  /** A line contains a pattern. */
  predicate Contains(line: seq<byte>, pattern: seq<byte>) {
    exists k :: 0 <= k <= |line| && StandsAt(line, pattern, k)
  }

  /** What do_one_file takes for a match. The pattern is a plain char string: its first byte is compared after
      sign extension, so one of 128 and above never equals a data byte. An empty pattern's terminator is found
      where there is a NUL. */
  predicate Hit(line: seq<byte>, pattern: seq<byte>) {
    if pattern == [] then NUL in line
    else pattern[0] < 128 && exists k :: 0 <= k < |line| && StandsAt(line, pattern, k)
  }

  /** That is containment, for every line, exactly when the pattern starts with an ASCII byte. */
  lemma HitIsContainsIff(pattern: seq<byte>)
    ensures (forall line :: Hit(line, pattern) <==> Contains(line, pattern)) <==> pattern != [] && pattern[0] < 128
  {
    if pattern != [] && pattern[0] < 128 {
      forall line: seq<byte> ensures Hit(line, pattern) <==> Contains(line, pattern) {
        HitIsContains(line, pattern);
      }
    } else {
      assert StandsAt(pattern, pattern, 0);
      assert Contains(pattern, pattern) && !Hit(pattern, pattern);
    }
  }

  lemma HitIsContains(line: seq<byte>, pattern: seq<byte>)
    requires pattern != [] && pattern[0] < 128
    ensures Hit(line, pattern) <==> Contains(line, pattern)
  {
    if Contains(line, pattern) {
      var k :| 0 <= k <= |line| && StandsAt(line, pattern, k);
      assert k < |line|;
    }
  }

  function Report(name: seq<byte>, line: seq<byte>, pattern: seq<byte>): seq<byte> {
    if Hit(line, pattern) then name + [COLON] + line + [NEWLINE] else []
  }

  /** The report of each line of the text, in order. */
  function Search(name: seq<byte>, text: seq<byte>, pattern: seq<byte>): seq<byte>
    decreases |text|
  {
    var k := LineEnd(text);
    if k == |text| then Report(name, text, pattern)
    else Report(name, text[..k], pattern) + Search(name, text[k + 1..], pattern)
  }

  /** What grep is for: the lines that contain the pattern, in order. */
  function Matching(name: seq<byte>, text: seq<byte>, pattern: seq<byte>): seq<byte>
    decreases |text|
  {
    var k := LineEnd(text);
    var first := if Contains(text[..k], pattern) then name + [COLON] + text[..k] + [NEWLINE] else [];
    if k == |text| then first else first + Matching(name, text[k + 1..], pattern)
  }

  lemma {:induction false} SearchIsMatching(name: seq<byte>, text: seq<byte>, pattern: seq<byte>)
    requires pattern != [] && pattern[0] < 128
    ensures Search(name, text, pattern) == Matching(name, text, pattern)
    decreases |text|
  {
    hide Hit, Contains;
    var k := LineEnd(text);
    HitIsContains(text[..k], pattern);
    if k < |text| {
      SearchIsMatching(name, text[k + 1..], pattern);
    } else {
      assert text[..k] == text;
    }
  }

  /** Every line is shorter than the window. */
  ghost predicate ShortLines(text: seq<byte>) {
    forall i :: 0 <= i <= |text| - BUFSIZE ==> EndsWithin(text, i)
  }

  /** A line ends in the window at position i. */
  ghost predicate EndsWithin(text: seq<byte>, i: nat)
    requires i + BUFSIZE <= |text|
  {
    NEWLINE in text[i..i + BUFSIZE]
  }

  /** Where the window first fills up in mid-line, counting windows from a line start at from. */
  function FirstMidLine(text: seq<byte>, from: nat): (c: Option<nat>)
    requires from <= |text|
    ensures c.Some? ==> from + BUFSIZE <= c.value <= |text|
    decreases |text| - from
  {
    if |text| - from < BUFSIZE then None
    else if text[from + BUFSIZE - 1] != NEWLINE then Some(from + BUFSIZE)
    else FirstMidLine(text, from + BUFSIZE)
  }

  /** What do_one_file prints, given the byte just behind its window when it starts: a newline there ends the
      first line that reaches it. */
  function Output(name: seq<byte>, text: seq<byte>, pattern: seq<byte>, behind: byte): seq<byte> {
    if behind == NEWLINE then
      match FirstMidLine(text, 0)
      case Some(c) => Search(name, text[..c], pattern) + Search(name, text[c..], pattern)
      case None => Search(name, text, pattern)
    else Search(name, text, pattern)
  }

  lemma LineEndIs(text: seq<byte>, k: nat)
    requires k <= |text| && (forall i :: 0 <= i < k ==> text[i] != NEWLINE) && (k < |text| ==> text[k] == NEWLINE)
    ensures LineEnd(text) == k
  {
  }

  lemma ShortAfterTwo(text: seq<byte>)
    requires |text| == BUFSIZE + 1 && text[1] == NEWLINE
    ensures ShortLines(text)
  {
    forall i | 0 <= i <= |text| - BUFSIZE ensures EndsWithin(text, i) {
      assert text[i..i + BUFSIZE][1 - i] == NEWLINE;
    }
  }

  /** With a newline behind the window, a line across the first window's end is searched in two pieces: here
      "ab" straddles byte 1024 and its line is lost. */
  lemma StaleNewlineLosesALine(name: seq<byte>)
    ensures var text: seq<byte> := [NEWLINE, NEWLINE] + seq(1022, _ => 97) + [98];
      && ShortLines(text) && NUL !in text
      && Output(name, text, [97, 98], NEWLINE) == []
      && Output(name, text, [97, 98], NUL) == name + [COLON] + text[2..] + [NEWLINE]
  {
    var a: seq<byte> := seq(1022, _ => 97);
    var text: seq<byte> := [NEWLINE, NEWLINE] + a + [98];
    var pattern: seq<byte> := [97, 98];
    hide ShortLines, EndsWithin;
    ShortAfterTwo(text);
    assert text[..1024] == [NEWLINE, NEWLINE] + a && text[1024..] == [98] && text[2..] == a + [98];
    TwoEmptyLines(name, a, pattern);
    TwoEmptyLines(name, a + [98], pattern);
    assert [NEWLINE, NEWLINE] + (a + [98]) == text;
    NoMatchInA(a);
    SearchLastLine(name, [98], pattern);
    assert StandsAt(a + [98], pattern, 1021);
  }

  /** A pattern that some line under 1024 bytes can contain. */
  predicate Possible(pattern: seq<byte>) {
    |pattern| < BUFSIZE && NEWLINE !in pattern && NUL !in pattern
  }

  /** grep prints exactly the matching lines of every text when, and only when, the pattern starts with an ASCII
      byte and no newline lies behind the window. */
  lemma GrepIsMatchingIff(pattern: seq<byte>, behind: byte)
    requires Possible(pattern)
    ensures (forall name, text {:trigger Output(name, text, pattern, behind)} | ShortLines(text) && NUL !in text ::
               Output(name, text, pattern, behind) == Matching(name, text, pattern))
       <==> pattern != [] && pattern[0] < 128 && behind != NEWLINE
  {
    if pattern == [] || pattern[0] >= 128 {
      ItselfIsMissed(pattern, behind);
    } else if behind == NEWLINE {
      LongLineIsSplit(pattern);
    } else {
      forall name, text: seq<byte> | ShortLines(text) && NUL !in text
        ensures Output(name, text, pattern, behind) == Matching(name, text, pattern)
      {
        SearchIsMatching(name, text, pattern);
      }
    }
  }

  lemma ItselfIsMissed(pattern: seq<byte>, behind: byte)
    requires Possible(pattern) && (pattern == [] || pattern[0] >= 128)
    ensures ShortLines(pattern) && NUL !in pattern
    ensures Output([], pattern, pattern, behind) != Matching([], pattern, pattern)
  {
    LineEndIs(pattern, |pattern|);
    assert pattern[..|pattern|] == pattern && StandsAt(pattern, pattern, 0);
    SearchLastLine([], pattern, pattern);
  }

  /** With a newline behind the window, a line across the first window's end is reported in pieces. */
  lemma LongLineIsSplit(pattern: seq<byte>)
    requires Possible(pattern) && pattern != [] && pattern[0] < 128
    ensures var text := [NEWLINE, NEWLINE] + pattern + seq(BUFSIZE - 1 - |pattern|, _ => SPACE);
      ShortLines(text) && NUL !in text && Output([], text, pattern, NEWLINE) != Matching([], text, pattern)
  {
    var line := pattern + seq(BUFSIZE - 1 - |pattern|, _ => SPACE);
    assert [NEWLINE, NEWLINE] + pattern + seq(BUFSIZE - 1 - |pattern|, _ => SPACE) == [NEWLINE, NEWLINE] + line;
    assert line[0..|pattern|] == pattern && StandsAt(line, pattern, 0);
    SplitLine(line, pattern);
    SearchIsMatching([], [NEWLINE, NEWLINE] + line, pattern);
  }

  lemma SplitLine(line: seq<byte>, pattern: seq<byte>)
    requires |line| == BUFSIZE - 1 && NEWLINE !in line && NUL !in line && Hit(line, pattern)
    ensures var text := [NEWLINE, NEWLINE] + line;
      ShortLines(text) && NUL !in text && Output([], text, pattern, NEWLINE) != Search([], text, pattern)
  {
    hide Search, Hit, Report;
    var text := [NEWLINE, NEWLINE] + line;
    forall i | 0 <= i <= |text| - BUFSIZE ensures EndsWithin(text, i) {
      assert text[i..i + BUFSIZE][1 - i] == NEWLINE;
    }
    assert text[..BUFSIZE] == [NEWLINE, NEWLINE] + line[..BUFSIZE - 2] && text[BUFSIZE..] == line[BUFSIZE - 2..];
    TwoEmptyLines([], line, pattern);
    TwoEmptyLines([], line[..BUFSIZE - 2], pattern);
    SearchLastLine([], line[BUFSIZE - 2..], pattern);
    ReportLength(line, pattern);
    ReportLength(line[..BUFSIZE - 2], pattern);
    ReportLength(line[BUFSIZE - 2..], pattern);
  }

  lemma ReportLength(line: seq<byte>, pattern: seq<byte>)
    ensures |Report([], line, pattern)| == if Hit(line, pattern) then |line| + 2 else 0
  {
    hide Hit;
  }

  lemma NoMatchInA(a: seq<byte>)
    requires forall i :: 0 <= i < |a| ==> a[i] == 97
    ensures !Hit(a, [97, 98])
  {
    forall k | 0 <= k < |a| ensures !StandsAt(a, [97, 98], k) {
      if k + 2 <= |a| {
        assert a[k..k + 2][1] == 97;
      }
    }
  }

  lemma NothingInEmpty(name: seq<byte>, pattern: seq<byte>)
    ensures Report(name, [], pattern) == []
  {
  }

  lemma TwoEmptyLines(name: seq<byte>, line: seq<byte>, pattern: seq<byte>)
    requires NEWLINE !in line
    ensures Search(name, [NEWLINE, NEWLINE] + line, pattern) == Report(name, line, pattern)
  {
    hide Report;
    var text: seq<byte> := [NEWLINE, NEWLINE] + line;
    assert text[1..] == [NEWLINE] + line && text[1..][1..] == line;
    LineEndIs(text, 0);
    LineEndIs(text[1..], 0);
    SearchLastLine(name, line, pattern);
    assert text[..0] == text[1..][..0] == [];
    NothingInEmpty(name, pattern);
  }

  /** What is still to be printed from position q on, when the text will be cut at c (if at all). */
  function Rest(name: seq<byte>, text: seq<byte>, pattern: seq<byte>, q: nat, cut: Option<nat>): seq<byte>
    requires q <= |text| && (cut.Some? ==> q <= cut.value <= |text|)
  {
    match cut
    case None => Search(name, text[q..], pattern)
    case Some(c) => Search(name, text[q..c], pattern) + Search(name, text[c..], pattern)
  }

  lemma Regroup(a: seq<byte>, b: seq<byte>, c: seq<byte>)
    ensures a + (b + c) == a + b + c
  {
  }

  lemma SearchStep(name: seq<byte>, text: seq<byte>, pattern: seq<byte>, k: nat)
    requires k < |text| && text[k] == NEWLINE && forall i :: 0 <= i < k ==> text[i] != NEWLINE
    ensures Search(name, text, pattern) == Report(name, text[..k], pattern) + Search(name, text[k + 1..], pattern)
  {
    hide Report;
    LineEndIs(text, k);
  }

  /** A whole line is reported and passed. */
  lemma RestAfterLine(name: seq<byte>, text: seq<byte>, pattern: seq<byte>, q: nat, k: nat, cut: Option<nat>)
    requires q + k < |text| && text[q + k] == NEWLINE && (forall i :: q <= i < q + k ==> text[i] != NEWLINE)
    requires cut.Some? ==> q + k < cut.value <= |text|
    ensures Rest(name, text, pattern, q, cut)
         == Report(name, text[q..q + k], pattern) + Rest(name, text, pattern, q + k + 1, cut)
  {
    hide Search, Report;
    var end := if cut.Some? then cut.value else |text|;
    var rest := text[q..end];
    SearchStep(name, rest, pattern, k);
    assert rest[..k] == text[q..q + k] && rest[k + 1..] == text[q + k + 1..end];
    assert text[q..] == text[q..|text|] && text[q + k + 1..] == text[q + k + 1..|text|];
    Regroup(Report(name, text[q..q + k], pattern), Search(name, rest[k + 1..], pattern),
            if cut.Some? then Search(name, text[end..], pattern) else []);
  }

  /** The piece up to the cut, or to the end of the text, is reported as one line. */
  lemma RestAfterPiece(name: seq<byte>, text: seq<byte>, pattern: seq<byte>, q: nat, end: nat, cut: Option<nat>)
    requires q <= end <= |text| && forall i :: q <= i < end ==> text[i] != NEWLINE
    requires if cut.Some? then cut.value == end else end == |text|
    ensures Rest(name, text, pattern, q, cut)
         == Report(name, text[q..end], pattern) + Rest(name, text, pattern, end, None)
  {
    SearchLastLine(name, text[q..end], pattern);
    SearchLastLine(name, [], pattern);
    if cut.None? {
      assert text[q..] == text[q..end] && text[end..] == [];
    }
  }

  /** The last line of a text, after a prefix of whole lines. */
  lemma SearchLastLine(name: seq<byte>, text: seq<byte>, pattern: seq<byte>)
    requires NEWLINE !in text
    ensures Search(name, text, pattern) == Report(name, text, pattern)
  {
    LineEndIs(text, |text|);
  }
}
