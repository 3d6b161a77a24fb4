/** One pass of grep's inner loop over its window, byte by byte, and what it does to a window of text. */
module GrepPass {
  import opened Basics
  import opened GrepSpec

  /** What is printed, the window's bytes afterwards, and how many of them are kept. */
  datatype Pass = Pass(out: seq<byte>, data: seq<byte>, last: nat)

  /** The first newline from start on, or last. */
  function ScanEnd(data: seq<byte>, start: nat, last: nat): (end: nat)
    requires start <= last <= |data|
    ensures start <= end <= last && (end < last ==> data[end] == NEWLINE)
    ensures forall i :: start <= i < end ==> data[i] != NEWLINE
    decreases last - start
  {
    if start == last || data[start] == NEWLINE then start else ScanEnd(data, start + 1, last)
  }

  /** The first NUL from i on, or the end of the data. */
  function NulFrom(data: seq<byte>, i: nat): (k: nat)
    requires i <= |data|
    ensures i <= k <= |data| && (forall j :: i <= j < k ==> data[j] != NUL) && (k < |data| ==> data[k] == NUL)
    decreases |data| - i
  {
    if i == |data| || data[i] == NUL then i else NulFrom(data, i + 1)
  }

  /** strcpy(data, data + from). */
  function MovedDown(data: seq<byte>, from: nat): (r: seq<byte>)
    requires from <= |data| && NulFrom(data, from) < |data|
    ensures |r| == |data|
  {
    var k := NulFrom(data, from);
    data[from..k + 1] + data[k + 1 - from..]
  }

  /** The search from start to end, and the report of what stands at start, up to its NUL. */
  function LineReport(name: seq<byte>, s: seq<byte>, data: seq<byte>, start: nat, end: nat): seq<byte>
    requires start <= end <= |data|
  {
    if Hit(data[start..end], s) then name + [COLON] + data[start..NulFrom(data, start)] + [NEWLINE] else []
  }

  /** The inner loop from a line start on. */
  function PassFrom(name: seq<byte>, s: seq<byte>, data: seq<byte>, start: nat, last: nat, cnt: nat): (r: Pass)
    requires start <= last < |data|
    ensures |r.data| == |data|
    decreases last - start
  {
    var end := ScanEnd(data, start, last);
    var ended := data[end := NUL];
    assert ended[end] == NUL;
    if data[end] != NEWLINE && cnt != 0 && start != 0 then Pass([], MovedDown(ended, start), last - start)
    else
      var report := LineReport(name, s, ended, start, end);
      if end + 1 >= last then Pass(report, ended, 0)
      else
        var r := PassFrom(name, s, ended, end + 1, last, cnt);
        r.(out := report + r.out)
  }

  lemma NulFromIs(data: seq<byte>, i: nat, k: nat)
    requires i <= k < |data| && data[k] == NUL && forall j :: i <= j < k ==> data[j] != NUL
    ensures NulFrom(data, i) == k
  {
  }

  lemma ScanEndIs(data: seq<byte>, start: nat, last: nat, end: nat)
    requires start <= end <= last <= |data| && (end < last ==> data[end] == NEWLINE)
    requires forall i :: start <= i < end ==> data[i] != NEWLINE
    ensures ScanEnd(data, start, last) == end
  {
  }

  /** On a line without NULs the report is the line's own. */
  lemma PlainReport(name: seq<byte>, s: seq<byte>, data: seq<byte>, start: nat, end: nat)
    requires start <= end < |data| && data[end] == NUL && forall i :: start <= i < end ==> data[i] != NUL
    ensures LineReport(name, s, data, start, end) == Report(name, data[start..end], s)
  {
    hide Hit;
    NulFromIs(data, start, end);
  }

  // ---------- windows of text ----------

  /** The reader's window: data[from..last] is the text just before pos. */
  ghost predicate Window(data: seq<byte>, text: seq<byte>, from: nat, last: nat, pos: nat) {
    && |data| == BUFSIZE + 1 && from <= last <= BUFSIZE && last - from <= pos <= |text|
    && (forall i :: from <= i < last ==> data[i] == text[pos - last + i])
  }

  /** Where the text will be cut, given a window that starts at position w and the byte behind it. */
  ghost predicate CutFor(text: seq<byte>, w: nat, behind: byte, cut: Option<nat>)
    requires w <= |text|
  {
    cut == if behind == NEWLINE then FirstMidLine(text, w) else None
  }

  /** A state between two reads. */
  ghost predicate Between(data: seq<byte>, text: seq<byte>, last: nat, pos: nat, cut: Option<nat>) {
    && Window(data, text, 0, last, pos) && last < BUFSIZE && last <= pos
    && CutFor(text, pos - last, data[BUFSIZE], cut)
  }

  lemma CutIsAhead(text: seq<byte>, w: nat, behind: byte, cut: Option<nat>)
    requires w <= |text| && CutFor(text, w, behind, cut)
    ensures cut.Some? ==> w + BUFSIZE <= cut.value <= |text|
  {
  }

  /** The cut stays the same when a window that ends with its last line is left behind. */
  lemma CutAfterWindow(text: seq<byte>, last: nat, pos: nat, behind: byte, cut: Option<nat>)
    requires last <= pos <= |text| && last <= BUFSIZE && CutFor(text, pos - last, behind, cut)
    requires if last < BUFSIZE then pos == |text| else text[pos - 1] == NEWLINE
    ensures CutFor(text, pos, behind, cut)
  {
  }

  /** A piece without newline that reaches the window's end is the last of the text, or ends at the cut. */
  lemma PieceEnds(text: seq<byte>, start: nat, last: nat, pos: nat, cnt: nat, behind: byte, cut: Option<nat>)
    requires start <= last <= BUFSIZE && last <= pos <= |text| && (start == 0 || start < last)
    requires last < BUFSIZE || cnt == 0 ==> pos == |text|
    requires CutFor(text, pos - last, behind, cut) && ShortLines(text)
    requires forall i :: pos - last + start <= i < pos ==> text[i] != NEWLINE
    requires last < BUFSIZE || behind == NEWLINE || cnt == 0 || start == 0
    ensures if cut.Some? then cut.value == pos else pos == |text|
    ensures cut.Some? ==> last == BUFSIZE
    ensures last == BUFSIZE && behind == NEWLINE && start < last ==> cut == Some(pos)
  {
    if last == BUFSIZE {
      assert EndsWithin(text, pos - last);
    }
  }

  /** Printing out takes the search from position q to q'. */
  ghost predicate Passed(name: seq<byte>, text: seq<byte>, s: seq<byte>, q: nat, cut: Option<nat>,
                         out: seq<byte>, q': nat, cut': Option<nat>) {
    && q <= |text| && (cut.Some? ==> q <= cut.value <= |text|)
    && q' <= |text| && (cut'.Some? ==> q' <= cut'.value <= |text|)
    && Rest(name, text, s, q, cut) == out + Rest(name, text, s, q', cut')
  }

  lemma PassedOn(name: seq<byte>, text: seq<byte>, s: seq<byte>, q: nat, cut: Option<nat>, a: seq<byte>, q1: nat,
                 cut1: Option<nat>, b: seq<byte>, q2: nat, cut2: Option<nat>)
    requires Passed(name, text, s, q, cut, a, q1, cut1) && Passed(name, text, s, q1, cut1, b, q2, cut2)
    ensures Passed(name, text, s, q, cut, a + b, q2, cut2)
  {
    hide Rest;
    Regroup(a, b, Rest(name, text, s, q2, cut2));
  }

  /** Reporting a line passes it: to the character behind its newline, or to the window's end. */
  lemma LinePassed(name: seq<byte>, text: seq<byte>, s: seq<byte>, start: nat, end: nat, last: nat, pos: nat, cnt: nat,
                   behind: byte, cut: Option<nat>)
    requires start <= end <= last <= BUFSIZE && last <= pos <= |text| && (start == 0 || start < last)
    requires last < BUFSIZE || cnt == 0 ==> pos == |text|
    requires CutFor(text, pos - last, behind, cut) && ShortLines(text)
    requires forall i :: pos - last + start <= i < pos - last + end ==> text[i] != NEWLINE
    requires if end < last then text[pos - last + end] == NEWLINE
             else last < BUFSIZE || behind == NEWLINE || cnt == 0 || start == 0
    ensures var w := pos - last;
      Passed(name, text, s, w + start, cut, Report(name, text[w + start..w + end], s),
             if end < last then w + end + 1 else pos, if end < last then cut else None)
  {
    hide Rest, Report;
    CutIsAhead(text, pos - last, behind, cut);
    if end < last {
      RestAfterLine(name, text, s, pos - last + start, end - start, cut);
    } else {
      PieceEnds(text, start, last, pos, cnt, behind, cut);
      RestAfterPiece(name, text, s, pos - last + start, pos, cut);
    }
  }

  /** The text that is left from a line start in the window. */
  ghost predicate MidPass(data: seq<byte>, text: seq<byte>, start: nat, last: nat, cnt: nat, pos: nat,
                          cut: Option<nat>) {
    && Window(data, text, start, last, pos) && last <= pos && (start == 0 || start < last)
    && (last < BUFSIZE || cnt == 0 ==> pos == |text|)
    && CutFor(text, pos - last, data[BUFSIZE], cut)
  }

  /** Keeping a started line: it moves to the front of the window. */
  lemma LineKept(text: seq<byte>, data: seq<byte>, start: nat, last: nat, cnt: nat, pos: nat, cut: Option<nat>)
    requires MidPass(data, text, start, last, cnt, pos, cut) && start != 0 && cnt != 0 && NUL !in text
    requires ScanEnd(data, start, last) == last && data[last] != NEWLINE
    ensures NulFrom(data[last := NUL], start) == last
    ensures var after := MovedDown(data[last := NUL], start);
      Between(after, text, last - start, pos, cut) && (after[BUFSIZE] == NEWLINE <==> data[BUFSIZE] == NEWLINE)
  {
    hide ScanEnd, NulFrom;
    var ended := data[last := NUL];
    assert forall i :: start <= i < last ==> ended[i] == text[pos - last + i] && text[pos - last + i] in text;
    NulFromIs(ended, start, last);
  }

  /** Reporting a line in the window. */
  lemma LineReported(name: seq<byte>, text: seq<byte>, s: seq<byte>, data: seq<byte>, start: nat, end: nat, last: nat,
                     cnt: nat, pos: nat, cut: Option<nat>)
    requires MidPass(data, text, start, last, cnt, pos, cut) && NUL !in text && ShortLines(text)
    requires end == ScanEnd(data, start, last) && !(data[end] != NEWLINE && cnt != 0 && start != 0)
    ensures Passed(name, text, s, pos - last + start, cut, LineReport(name, s, data[end := NUL], start, end),
                   if end < last then pos - last + end + 1 else pos, if end < last then cut else None)
  {
    hide Passed, ShortLines, Report, CutFor, ScanEnd, LineReport;
    LineInWindow(text, data, start, end, last, pos);
    LinePassed(name, text, s, start, end, last, pos, cnt, data[BUFSIZE], cut);
    PlainReport(name, s, data[end := NUL], start, end);
  }

  lemma LineInWindow(text: seq<byte>, data: seq<byte>, start: nat, end: nat, last: nat, pos: nat)
    requires Window(data, text, start, last, pos) && last <= pos && NUL !in text && end == ScanEnd(data, start, last)
    ensures var w, ended := pos - last, data[end := NUL];
      && ended[start..end] == text[w + start..w + end] && (forall i :: start <= i < end ==> ended[i] != NUL)
      && (forall i :: w + start <= i < w + end ==> text[i] != NEWLINE)
  {
    hide ScanEnd;
    assert forall i :: pos - last + start <= i < pos - last + end ==>
      text[i] == data[i - (pos - last)] && text[i] in text;
    assert forall i :: start <= i < end ==> data[i] == text[pos - last + i];
  }

  /** When a pass comes to the window's end with everything reported. */
  lemma AllReported(text: seq<byte>, data: seq<byte>, start: nat, last: nat, cnt: nat, pos: nat, cut: Option<nat>,
                    end: nat) returns (cut': Option<nat>)
    requires MidPass(data, text, start, last, cnt, pos, cut) && ShortLines(text)
    requires end == ScanEnd(data, start, last) && end + 1 >= last
    requires !(data[end] != NEWLINE && cnt != 0 && start != 0)
    ensures Between(data[end := NUL], text, 0, pos, cut')
    ensures cut' == if end < last then cut else None
    ensures data[end := NUL][BUFSIZE] == NEWLINE ==> data[BUFSIZE] == NEWLINE && cut' == cut
    ensures data[end := NUL][BUFSIZE] != NEWLINE && data[BUFSIZE] == NEWLINE && pos < |text| ==> cut == Some(pos)
  {
    hide ShortLines, ScanEnd;
    if end < last {
      cut' := cut;
      CutAfterWindow(text, last, pos, data[BUFSIZE], cut);
    } else {
      cut' := None;
      assert forall i :: pos - last + start <= i < pos ==> text[i] == data[i - (pos - last)];
      PieceEnds(text, start, last, pos, cnt, data[BUFSIZE], cut);
    }
  }

  /** How a pass treats the byte behind the window: it may become NUL, which uses up the cut. */
  ghost predicate BehindKept(before: byte, after: byte, text: seq<byte>, pos: nat, cut: Option<nat>, last: nat,
                             cut': Option<nat>) {
    && (after == NEWLINE ==> before == NEWLINE && cut' == cut)
    && (after != NEWLINE && before == NEWLINE && pos < |text| ==> cut == Some(pos) && last == 0)
  }

  /** A pass over a window of text reports its whole lines and keeps the unfinished one. */
  lemma {:induction false} PassOverText(name: seq<byte>, text: seq<byte>, s: seq<byte>, data: seq<byte>,
                                        start: nat, last: nat, cnt: nat, pos: nat, cut: Option<nat>)
    returns (cut': Option<nat>)
    requires MidPass(data, text, start, last, cnt, pos, cut) && NUL !in text && ShortLines(text)
    ensures var r := PassFrom(name, s, data, start, last, cnt);
      && Between(r.data, text, r.last, pos, cut') && (cnt == 0 ==> r.last == 0)
      && Passed(name, text, s, pos - last + start, cut, r.out, pos - r.last, cut')
      && BehindKept(data[BUFSIZE], r.data[BUFSIZE], text, pos, cut, r.last, cut')
    decreases last - start
  {
    hide PassFrom, Passed, ShortLines, ScanEnd, LineReport, MovedDown, CutFor;
    PassStep(name, s, data, start, last, cnt);
    var end := ScanEnd(data, start, last);
    if data[end] != NEWLINE && cnt != 0 && start != 0 {
      LineKept(text, data, start, last, cnt, pos, cut);
      cut' := cut;
      NothingPassed(name, text, s, pos - last + start, pos - last, data[BUFSIZE], cut);
    } else {
      LineReported(name, text, s, data, start, end, last, cnt, pos, cut);
      if end + 1 >= last {
        cut' := AllReported(text, data, start, last, cnt, pos, cut, end);
        if end < last {
          NothingPassed(name, text, s, pos, pos, data[end := NUL][BUFSIZE], cut);
        }
      } else {
        cut' := PassOverText(name, text, s, data[end := NUL], end + 1, last, cnt, pos, cut);
        var r := PassFrom(name, s, data[end := NUL], end + 1, last, cnt);
        PassedOn(name, text, s, pos - last + start, cut, LineReport(name, s, data[end := NUL], start, end),
                 pos - last + end + 1, cut, r.out, pos - r.last, cut');
      }
    }
  }

  lemma PassStep(name: seq<byte>, s: seq<byte>, data: seq<byte>, start: nat, last: nat, cnt: nat)
    requires start <= last < |data|
    ensures var end, r := ScanEnd(data, start, last), PassFrom(name, s, data, start, last, cnt);
      var ended := data[end := NUL];
      if data[end] != NEWLINE && cnt != 0 && start != 0
      then NulFrom(ended, start) < |ended| && r == Pass([], MovedDown(ended, start), last - start)
      else if end + 1 >= last then r == Pass(LineReport(name, s, ended, start, end), ended, 0)
      else var rest := PassFrom(name, s, ended, end + 1, last, cnt);
           r == rest.(out := LineReport(name, s, ended, start, end) + rest.out)
  {
    hide ScanEnd, NulFrom, LineReport;
    assert data[ScanEnd(data, start, last) := NUL][ScanEnd(data, start, last)] == NUL;
  }

  lemma NothingPassed(name: seq<byte>, text: seq<byte>, s: seq<byte>, q: nat, w: nat, behind: byte, cut: Option<nat>)
    requires w <= q <= w + BUFSIZE && q <= |text| && CutFor(text, w, behind, cut)
    ensures Passed(name, text, s, q, cut, [], q, cut)
  {
    hide Rest;
    CutIsAhead(text, w, behind, cut);
  }

  // ---------- from the start to the end ----------

  /** Where a text is cut, given the byte behind the window at the start. */
  ghost function StartCut(text: seq<byte>, behind: byte): (cut: Option<nat>)
    ensures cut.Some? ==> cut.value <= |text|
  {
    if behind == NEWLINE then FirstMidLine(text, 0) else None
  }

  lemma AtTheStart(name: seq<byte>, text: seq<byte>, s: seq<byte>, data: seq<byte>) returns (cut: Option<nat>)
    requires |data| == BUFSIZE + 1
    ensures Between(data, text, 0, 0, cut) && cut == StartCut(text, data[BUFSIZE])
    ensures Passed(name, text, s, 0, cut, [], 0, cut)
  {
    cut := StartCut(text, data[BUFSIZE]);
  }

  /** At the end everything has been passed. */
  lemma AllPassed(name: seq<byte>, text: seq<byte>, s: seq<byte>, behind: byte, out: seq<byte>, now: byte,
                  cut: Option<nat>)
    requires CutFor(text, |text|, now, cut)
    requires Passed(name, text, s, 0, StartCut(text, behind), out, |text|, cut)
    ensures out == Output(name, text, s, behind)
    ensures s != [] && s[0] < 128 && behind != NEWLINE ==> out == Matching(name, text, s)
  {
    hide Search, FirstMidLine, Matching;
    CutIsAhead(text, |text|, now, cut);
    assert text[|text|..] == [] && text[0..] == text;
    SearchLastLine(name, [], s);
    NothingInEmpty(name, s);
    if s != [] && s[0] < 128 {
      SearchIsMatching(name, text, s);
    }
  }
}
