/**
 grep's windows over a reader whose last read hands out the NULs behind the text, as this kernel's fread does. The
 unfinished last line is then searched once more, together with what earlier lines left in the window.
 */
module GrepPadding {
  import opened Basics
  import opened FileSystem
  import opened GrepPass
  import opened GrepSpec

  // ---------- where the windows stand ----------

  /** The start of the last line of text[start..last]. */
  function Tail(text: seq<byte>, start: nat, last: nat): (from: nat)
    requires start <= last <= |text|
    ensures start <= from <= last
    decreases last - start
  {
    var end := ScanEnd(text, start, last);
    if end == last then start else Tail(text, end + 1, last)
  }

  /** Where the window stands when the rest of the text fits, starting from position w. */
  function LastWindow(text: seq<byte>, w: nat): (r: nat)
    requires w <= |text|
    ensures w <= r <= |text|
    decreases |text| - w
  {
    if |text| - w <= BUFSIZE then w
    else
      var next := Tail(text, w, w + BUFSIZE);
      if next == w then w else LastWindow(text, next)
  }

  /** The bytes searched last: the unfinished line from position from, its NUL, and what the lines before it in the
      window from w left there, with NULs for their newlines. */
  function Leftover(text: seq<byte>, w: nat, from: nat): (line: seq<byte>)
    requires w <= from <= |text| < w + BUFSIZE
    ensures |line| == BUFSIZE - (from - w)
  {
    var m := |text| - from;
    seq(BUFSIZE - (from - w), i requires 0 <= i < BUFSIZE - (from - w) =>
      if i < m then text[from + i]
      else if i > m && w + i < |text| && text[w + i] != NEWLINE then text[w + i]
      else NUL)
  }

  /** fread pads the read that completes the window at w. */
  predicate Padded(text: seq<byte>, w: nat)
    requires w <= |text|
  {
    0 < w < |text| < w + BUFSIZE <= BLK_SZ * BlockCount(|text|)
  }

  /** From where the windows follow the lines: the beginning, or the cut that a newline behind the window makes.
      None when such a newline is still there at the end. */
  function Origin(text: seq<byte>, behind: byte): (q: Option<nat>)
    ensures q.Some? ==> q.value <= |text|
  {
    if behind == NEWLINE then FirstMidLine(text, 0) else Some(0)
  }

  function FinalWindow(text: seq<byte>, behind: byte): (w: nat)
    ensures w <= |text|
  {
    LastWindow(text, if Origin(text, behind).Some? then Origin(text, behind).value else 0)
  }

  /** The last read is padded, and its NULs, or what the lines before it left in the window, contain the pattern
      where the unfinished last line does not. */
  predicate FalseHit(text: seq<byte>, s: seq<byte>, behind: byte) {
    var w := FinalWindow(text, behind);
    var from := Tail(text, w, |text|);
    && Padded(text, w) && !Hit(text[from..], s)
    && (s == [] || (Origin(text, behind).Some? && w < from && Hit(Leftover(text, w, from), s)))
  }

  function Piece(name: seq<byte>, line: seq<byte>): seq<byte> {
    name + [COLON] + line + [NEWLINE]
  }

  /** What grep prints of a file: its output on the text, and the last line once more after a false hit. */
  function KernelOutput(name: seq<byte>, text: seq<byte>, s: seq<byte>, behind: byte): seq<byte> {
    Output(name, text, s, behind)
    + if FalseHit(text, s, behind) then Piece(name, text[Tail(text, FinalWindow(text, behind), |text|)..]) else []
  }

  // ---------- tails ----------

  lemma TailIsLine(text: seq<byte>, start: nat, last: nat)
    requires start <= last <= |text|
    ensures forall i :: Tail(text, start, last) <= i < last ==> text[i] != NEWLINE
    decreases last - start
  {
    var end := ScanEnd(text, start, last);
    if end < last {
      TailIsLine(text, end + 1, last);
    }
  }

  /** A full window of text with short lines holds the start of a later line. */
  lemma TailMoves(text: seq<byte>, w: nat)
    requires w + BUFSIZE <= |text| && ShortLines(text)
    ensures Tail(text, w, w + BUFSIZE) > w
  {
    assert EndsWithin(text, w);
  }

  lemma ScanShift(text: seq<byte>, data: seq<byte>, start: nat, last: nat, pos: nat)
    requires Window(data, text, start, last, pos) && last <= pos
    ensures ScanEnd(text, pos - last + start, pos) == pos - last + ScanEnd(data, start, last)
  {
    hide ScanEnd;
    var w, end := pos - last, ScanEnd(data, start, last);
    assert forall i :: w + start <= i < w + end ==> text[i] == data[i - w];
    ScanEndIs(text, w + start, pos, w + end);
  }

  /** The pass keeps the last line of a full window, or everything is reported up to its end. */
  lemma {:induction false} KeptIsTail(name: seq<byte>, s: seq<byte>, text: seq<byte>, data: seq<byte>, start: nat,
                                      cnt: nat, pos: nat)
    requires Window(data, text, start, BUFSIZE, pos) && BUFSIZE <= pos && cnt != 0 && start < BUFSIZE
    ensures var r, t := PassFrom(name, s, data, start, BUFSIZE, cnt), Tail(text, pos - BUFSIZE + start, pos);
      (data[BUFSIZE] == NEWLINE ==> r.data[BUFSIZE] == NEWLINE) && t > pos - BUFSIZE ==> r.last == pos - t
    decreases BUFSIZE - start
  {
    hide PassFrom, ScanEnd, NulFrom, LineReport, MovedDown;
    PassStep(name, s, data, start, BUFSIZE, cnt);
    ScanShift(text, data, start, BUFSIZE, pos);
    var end := ScanEnd(data, start, BUFSIZE);
    if end + 1 < BUFSIZE {
      KeptIsTail(name, s, text, data[end := NUL], end + 1, cnt, pos);
    }
  }

  // ---------- the last window ----------

  /** The window that a padded read completes, from a line start on. */
  ghost predicate PaddedWindow(data: seq<byte>, text: seq<byte>, start: nat, w: nat) {
    && |data| == BUFSIZE + 1 && w + start <= |text| < w + BUFSIZE
    && (forall i :: start <= i < BUFSIZE ==> data[i] == if w + i < |text| then text[w + i] else NUL)
    && (forall i :: 0 <= i < start ==> data[i] == if text[w + i] == NEWLINE then NUL else text[w + i])
  }

  /** Padding adds nothing to find, but for the empty pattern. */
  lemma PaddedHit(line: seq<byte>, pad: seq<byte>, s: seq<byte>)
    requires NUL !in s && NUL !in line && pad != [] && forall i :: 0 <= i < |pad| ==> pad[i] == NUL
    ensures Hit(line + pad, s) <==> s == [] || Hit(line, s)
  {
    var all := line + pad;
    if s == [] {
      assert all[|line|] == NUL;
    } else {
      forall k | 0 <= k <= |all| - |s| ensures StandsAt(all, s, k) <==> StandsAt(line, s, k) {
        if k + |s| <= |line| {
          assert all[k..k + |s|] == line[k..k + |s|];
        } else {
          assert all[k..k + |s|][|s| - 1] == NUL && s[|s| - 1] in s;
        }
      }
    }
  }

  /** What stands at the front of the searched bytes is found in them. */
  lemma FrontHit(front: seq<byte>, line: seq<byte>, s: seq<byte>)
    requires front <= line && Hit(front, s)
    ensures Hit(line, s)
  {
    if s == [] {
      assert NUL in line;
    } else {
      var k :| 0 <= k < |front| && StandsAt(front, s, k);
      assert line[k..k + |s|] == front[k..k + |s|];
      assert StandsAt(line, s, k);
    }
  }

  lemma PaddedScan(text: seq<byte>, data: seq<byte>, start: nat, w: nat)
    requires PaddedWindow(data, text, start, w)
    ensures var end, e := ScanEnd(data, start, BUFSIZE), ScanEnd(text, w + start, |text|);
      end == if e < |text| then e - w else BUFSIZE
  {
    hide ScanEnd;
    var e := ScanEnd(text, w + start, |text|);
    ScanEndIs(data, start, BUFSIZE, if e < |text| then e - w else BUFSIZE);
  }

  /** Where a pass over a padded window ends. */
  ghost predicate PaddedPass(name: seq<byte>, text: seq<byte>, s: seq<byte>, start: nat, w: nat, behind: byte, r: Pass)
    requires w + start <= |text| < w + BUFSIZE
  {
    var from := Tail(text, w + start, |text|);
    if from == w || behind == NEWLINE then
      r.last == 0 && r.out == Search(name, text[w + start..], s) + if s == [] then Piece(name, text[from..]) else []
    else
      && r.last == BUFSIZE - (from - w) && r.last < |r.data| && r.data[..r.last] == Leftover(text, w, from)
      && Search(name, text[w + start..], s) == r.out + Report(name, text[from..], s)
  }

  lemma PaddedLine(name: seq<byte>, text: seq<byte>, s: seq<byte>, data: seq<byte>, start: nat, w: nat)
    requires PaddedWindow(data, text, start, w) && NUL !in text && NUL !in s
    requires ScanEnd(text, w + start, |text|) == |text|
    ensures LineReport(name, s, data[BUFSIZE := NUL], start, BUFSIZE)
         == Report(name, text[w + start..], s) + if s == [] then Piece(name, text[w + start..]) else []
  {
    hide ScanEnd, Hit, NulFrom;
    var ended, line := data[BUFSIZE := NUL], text[w + start..];
    assert forall i :: 0 <= i < |line| ==> line[i] in text;
    NulFromIs(ended, start, |text| - w);
    assert ended[start..|text| - w] == line;
    var pad := ended[|text| - w..BUFSIZE];
    assert ended[start..BUFSIZE] == line + pad;
    PaddedHit(line, pad, s);
    if s == [] {
      NotHit(line);
    }
  }

  lemma NotHit(line: seq<byte>)
    requires NUL !in line
    ensures !Hit(line, [])
  {
  }

  lemma PaddedKept(text: seq<byte>, data: seq<byte>, start: nat, w: nat)
    requires PaddedWindow(data, text, start, w) && NUL !in text && 0 < start
    requires ScanEnd(text, w + start, |text|) == |text|
    ensures var ended := data[BUFSIZE := NUL];
      && NulFrom(ended, start) < |ended|
      && MovedDown(ended, start)[..BUFSIZE - start] == Leftover(text, w, w + start)
  {
    hide ScanEnd, NulFrom;
    var ended := data[BUFSIZE := NUL];
    assert forall i :: w + start <= i < |text| ==> text[i] in text;
    NulFromIs(ended, start, |text| - w);
    var moved, left, m := MovedDown(ended, start), Leftover(text, w, w + start), |text| - w - start;
    assert moved == ended[start..start + m + 1] + ended[m + 1..];
    forall i | 0 <= i < BUFSIZE - start ensures moved[i] == left[i] {
      if i <= m {
        assert moved[i] == ended[start + i];
      } else {
        assert moved[i] == ended[i] == data[i];
      }
    }
    assert moved[..BUFSIZE - start] == left;
  }

  /** A pass over the padded window. */
  lemma {:induction false} PassOverPadding(name: seq<byte>, text: seq<byte>, s: seq<byte>, data: seq<byte>,
                                           start: nat, w: nat, cnt: nat)
    requires PaddedWindow(data, text, start, w) && NUL !in text && NUL !in s && cnt != 0
    ensures PaddedPass(name, text, s, start, w, data[BUFSIZE], PassFrom(name, s, data, start, BUFSIZE, cnt))
    decreases BUFSIZE - start
  {
    hide PassFrom, ScanEnd, NulFrom, LineReport, MovedDown, Search, Report, Hit, Leftover;
    PassStep(name, s, data, start, BUFSIZE, cnt);
    PaddedScan(text, data, start, w);
    var end := ScanEnd(data, start, BUFSIZE);
    if end == BUFSIZE {
      PaddedLast(name, text, s, data, start, w, cnt);
    } else {
      PassOverPadding(name, text, s, data[end := NUL], end + 1, w, cnt);
      PaddedNext(name, text, s, data, start, end, w, cnt);
    }
  }

  lemma PaddedLast(name: seq<byte>, text: seq<byte>, s: seq<byte>, data: seq<byte>, start: nat, w: nat, cnt: nat)
    requires PaddedWindow(data, text, start, w) && NUL !in text && NUL !in s && cnt != 0
    requires ScanEnd(data, start, BUFSIZE) == BUFSIZE && ScanEnd(text, w + start, |text|) == |text|
    ensures PaddedPass(name, text, s, start, w, data[BUFSIZE], PassFrom(name, s, data, start, BUFSIZE, cnt))
  {
    hide PassFrom, ScanEnd, NulFrom, LineReport, MovedDown, Search, Report, Hit, Leftover;
    PassStep(name, s, data, start, BUFSIZE, cnt);
    assert Tail(text, w + start, |text|) == w + start;
    TailIsLine(text, w + start, |text|);
    SearchLastLine(name, text[w + start..], s);
    if data[BUFSIZE] != NEWLINE && start != 0 {
      PaddedKept(text, data, start, w);
    } else {
      PaddedLine(name, text, s, data, start, w);
    }
  }

  lemma LineBeforePadding(name: seq<byte>, text: seq<byte>, s: seq<byte>, data: seq<byte>, start: nat, end: nat,
                          w: nat)
    requires PaddedWindow(data, text, start, w) && NUL !in text
    requires end == ScanEnd(data, start, BUFSIZE) < BUFSIZE && w + end == ScanEnd(text, w + start, |text|) < |text|
    ensures var rest := text[w + start..];
      && LineReport(name, s, data[end := NUL], start, end) == Report(name, rest[..end - start], s)
      && Search(name, rest, s) == Report(name, rest[..end - start], s) + Search(name, rest[end - start + 1..], s)
  {
    hide ScanEnd, LineReport, Search, Report, Leftover;
    var ended, rest := data[end := NUL], text[w + start..];
    assert forall i :: start <= i < end ==> ended[i] == text[w + i];
    assert forall i :: 0 <= i < |rest| ==> rest[i] in text;
    assert ended[start..end] == rest[..end - start];
    assert forall i :: start <= i < end ==> ended[i] == rest[i - start];
    PlainReport(name, s, ended, start, end);
    SearchStep(name, rest, s, end - start);
  }

  lemma PaddedNext(name: seq<byte>, text: seq<byte>, s: seq<byte>, data: seq<byte>, start: nat, end: nat, w: nat,
                   cnt: nat)
    requires PaddedWindow(data, text, start, w) && NUL !in text && NUL !in s && cnt != 0
    requires end == ScanEnd(data, start, BUFSIZE) < BUFSIZE && w + end == ScanEnd(text, w + start, |text|) < |text|
    requires PaddedPass(name, text, s, end + 1, w, data[BUFSIZE],
                        PassFrom(name, s, data[end := NUL], end + 1, BUFSIZE, cnt))
    ensures PaddedPass(name, text, s, start, w, data[BUFSIZE], PassFrom(name, s, data, start, BUFSIZE, cnt))
  {
    hide PassFrom, ScanEnd, NulFrom, LineReport, MovedDown, Search, Report, Hit, Leftover;
    PassStep(name, s, data, start, BUFSIZE, cnt);
    var ended, rest := data[end := NUL], text[w + start..];
    var after := PassFrom(name, s, ended, end + 1, BUFSIZE, cnt);
    assert Tail(text, w + start, |text|) == Tail(text, w + end + 1, |text|);
    LineBeforePadding(name, text, s, data, start, end, w);
    assert rest[end - start + 1..] == text[w + end + 1..];
    var report, from := Report(name, rest[..end - start], s), Tail(text, w + end + 1, |text|);
    Regroup(report, Search(name, text[w + end + 1..], s), if s == [] then Piece(name, text[from..]) else []);
    Regroup(report, after.out, Report(name, text[from..], s));
  }

  /** The last pass, after the read that returns 0: what is left over is searched as one line. */
  lemma PassOverLeftover(name: seq<byte>, text: seq<byte>, s: seq<byte>, data: seq<byte>, w: nat, last: nat)
    requires |data| == BUFSIZE + 1 && w <= |text| < w + BUFSIZE && NUL !in text
    requires var from := Tail(text, w, |text|);
      w < from && last == BUFSIZE - (from - w) && data[..last] == Leftover(text, w, from)
    ensures var from, r := Tail(text, w, |text|), PassFrom(name, s, data, 0, last, 0);
      && r.last == 0 && r.out == if Hit(Leftover(text, w, from), s) then Piece(name, text[from..]) else []
  {
    hide PassFrom, Hit, ScanEnd, NulFrom;
    var from, ended := Tail(text, w, |text|), data[last := NUL];
    PassStep(name, s, data, 0, last, 0);
    TailIsLine(text, w, |text|);
    assert forall i :: 0 <= i < last ==> data[i] == data[..last][i];
    ScanEndIs(data, 0, last, last);
    assert forall i :: from <= i < |text| ==> text[i] in text;
    NulFromIs(ended, 0, |text| - from);
    assert ended[0..last] == data[..last] && ended[0..|text| - from] == text[from..];
  }

  lemma PassOverNothing(name: seq<byte>, s: seq<byte>, data: seq<byte>)
    requires data != []
    ensures PassFrom(name, s, data, 0, 0, 0).out == []
  {
    assert data[0 := NUL][0..0] == [];
  }

  // ---------- the whole loop ----------

  /** Between reads, with text still to come: the windows follow the lines from their origin on. */
  ghost predicate Reading(name: seq<byte>, text: seq<byte>, s: seq<byte>, behind: byte, data: seq<byte>, last: nat,
                          pos: nat, cut: Option<nat>, out: seq<byte>) {
    && Between(data, text, last, pos, cut) && pos < |text| && (pos > 0 ==> BUFSIZE <= pos && last < pos)
    && Passed(name, text, s, 0, StartCut(text, behind), out, pos - last, cut)
    && (data[BUFSIZE] == NEWLINE ==> cut == Origin(text, behind))
    && (data[BUFSIZE] != NEWLINE ==> Origin(text, behind).Some?)
    && LastWindow(text, pos - last)
       == LastWindow(text, if data[BUFSIZE] == NEWLINE then 0 else Origin(text, behind).value)
  }

  /** With nothing more to come: one more pass completes the output. */
  ghost predicate Ending(name: seq<byte>, text: seq<byte>, s: seq<byte>, behind: byte, data: seq<byte>, last: nat,
                         out: seq<byte>) {
    |data| == BUFSIZE + 1 && last < BUFSIZE
    && KernelOutput(name, text, s, behind) == out + PassFrom(name, s, data, 0, last, 0).out
  }

  lemma ReadingStarts(name: seq<byte>, text: seq<byte>, s: seq<byte>, data: seq<byte>) returns (cut: Option<nat>)
    requires |data| == BUFSIZE + 1
    ensures text != [] ==> Reading(name, text, s, data[BUFSIZE], data, 0, 0, cut, [])
    ensures text == [] ==> Ending(name, text, s, data[BUFSIZE], data, 0, [])
  {
    hide LastWindow, Passed, PassFrom, Search;
    cut := AtTheStart(name, text, s, data);
    PassOverNothing(name, s, data);
    if text == [] {
      SearchLastLine(name, [], s);
      NothingInEmpty(name, s);
    }
  }

  /** A full window in the middle of the text. */
  lemma ReadingGoesOn(name: seq<byte>, text: seq<byte>, s: seq<byte>, behind: byte, was: seq<byte>, last: nat, pos: nat,
                      cut: Option<nat>, out: seq<byte>, data: seq<byte>, cnt: nat) returns (cut': Option<nat>)
    requires Reading(name, text, s, behind, was, last, pos, cut, out) && NUL !in text && ShortLines(text)
    requires Window(data, text, 0, BUFSIZE, pos + cnt) && data[BUFSIZE] == was[BUFSIZE]
    requires last + cnt == BUFSIZE && pos + cnt < |text|
    ensures var r := PassFrom(name, s, data, 0, BUFSIZE, cnt);
      Reading(name, text, s, behind, r.data, r.last, pos + cnt, cut', out + r.out)
  {
    hide Passed, PassFrom, ShortLines, FirstMidLine, LastWindow, Tail;
    var w, pos' := pos - last, pos + cnt;
    cut' := PassOverText(name, text, s, data, 0, BUFSIZE, cnt, pos', cut);
    var r := PassFrom(name, s, data, 0, BUFSIZE, cnt);
    PassedOn(name, text, s, 0, StartCut(text, behind), out, w, cut, r.out, pos' - r.last, cut');
    TailMoves(text, w);
    KeptIsTail(name, s, text, data, 0, cnt, pos');
    WindowMoves(text, w);
  }

  lemma WindowMoves(text: seq<byte>, w: nat)
    requires w + BUFSIZE < |text| && Tail(text, w, w + BUFSIZE) > w
    ensures LastWindow(text, w) == LastWindow(text, Tail(text, w, w + BUFSIZE))
  {
    hide Tail;
  }

  /** The read that reaches the end of the text, and no further. */
  lemma ReadingEnds(name: seq<byte>, text: seq<byte>, s: seq<byte>, behind: byte, was: seq<byte>, last: nat, pos: nat,
                    cut: Option<nat>, out: seq<byte>, data: seq<byte>, cnt: nat)
    requires Reading(name, text, s, behind, was, last, pos, cut, out) && NUL !in text && ShortLines(text)
    requires Window(data, text, 0, last + cnt, |text|) && data[BUFSIZE] == was[BUFSIZE]
    requires pos + cnt == |text| && !Padded(text, pos - last)
    ensures var r := PassFrom(name, s, data, 0, last + cnt, cnt);
      Ending(name, text, s, behind, r.data, r.last, out + r.out)
  {
    hide Passed, PassFrom, ShortLines, FirstMidLine, Padded, Tail;
    var w, start := pos - last, StartCut(text, behind);
    var cut1 := PassOverText(name, text, s, data, 0, last + cnt, cnt, |text|, cut);
    var r := PassFrom(name, s, data, 0, last + cnt, cnt);
    PassedOn(name, text, s, 0, start, out, w, cut, r.out, |text| - r.last, cut1);
    var cut2 := PassOverText(name, text, s, r.data, 0, r.last, 0, |text|, cut1);
    var end := PassFrom(name, s, r.data, 0, r.last, 0);
    PassedOn(name, text, s, 0, start, out + r.out, |text| - r.last, cut1, end.out, |text|, cut2);
    AllPassed(name, text, s, behind, out + r.out + end.out, end.data[BUFSIZE], cut2);
    NoFalseHit(name, text, s, behind, was, last, pos, cut, out);
  }

  lemma NoFalseHit(name: seq<byte>, text: seq<byte>, s: seq<byte>, behind: byte, data: seq<byte>, last: nat, pos: nat,
                   cut: Option<nat>, out: seq<byte>)
    requires Reading(name, text, s, behind, data, last, pos, cut, out)
    requires |text| <= pos - last + BUFSIZE && !Padded(text, pos - last)
    ensures !FalseHit(text, s, behind)
  {
    hide Passed, Tail, Hit;
    CutIsAhead(text, pos - last, data[BUFSIZE], cut);
  }

  /** The read that is padded. */
  lemma ReadingIsPadded(name: seq<byte>, text: seq<byte>, s: seq<byte>, behind: byte, was: seq<byte>, last: nat,
                        pos: nat, cut: Option<nat>, out: seq<byte>, data: seq<byte>, cnt: nat)
    requires Reading(name, text, s, behind, was, last, pos, cut, out) && NUL !in text && NUL !in s
    requires last <= pos && PaddedWindow(data, text, 0, pos - last) && |was| == BUFSIZE + 1
    requires data[BUFSIZE] == was[BUFSIZE] && last + cnt == BUFSIZE && cnt != 0 && Padded(text, pos - last)
    ensures var r := PassFrom(name, s, data, 0, BUFSIZE, cnt);
      Ending(name, text, s, behind, r.data, r.last, out + r.out)
  {
    hide Reading, PassFrom, Tail, Hit, Leftover, Search, Padded, PaddedPass, Ending, FinalWindow, Output, Origin;
    OutputSoFar(name, text, s, behind, was, last, pos, cut, out);
    PassOverPadding(name, text, s, data, 0, pos - last, cnt);
    EndsPadded(name, text, s, behind, out, pos - last, data[BUFSIZE], PassFrom(name, s, data, 0, BUFSIZE, cnt));
  }

  lemma EndsPadded(name: seq<byte>, text: seq<byte>, s: seq<byte>, behind: byte, out: seq<byte>, w: nat, now: byte,
                   r: Pass)
    requires w <= |text| < w + BUFSIZE && NUL !in text && Padded(text, w) && |r.data| == BUFSIZE + 1
    requires Output(name, text, s, behind) == out + Search(name, text[w..], s)
    requires FinalWindow(text, behind) == w && (now == NEWLINE <==> Origin(text, behind).None?)
    requires PaddedPass(name, text, s, 0, w, now, r)
    ensures Ending(name, text, s, behind, r.data, r.last, out + r.out)
  {
    hide PassFrom, Tail, Hit, Leftover, Search, Padded, FinalWindow, Output, Origin;
    var from := Tail(text, w, |text|);
    TailHit(text, s, w, from);
    var extra := if FalseHit(text, s, behind) then Piece(name, text[from..]) else [];
    if from == w || now == NEWLINE {
      PassOverNothing(name, s, r.data);
      Compose(out, Search(name, text[w..], s), extra, []);
    } else {
      PassOverLeftover(name, text, s, r.data, w, r.last);
      Compose(out, r.out, Report(name, text[from..], s), extra);
    }
  }

  lemma Compose(out: seq<byte>, a: seq<byte>, b: seq<byte>, c: seq<byte>)
    ensures out + (a + b) + c == (out + a) + (b + c)
    ensures out + a + b == out + (a + b) + []
  {
  }

  /** What is printed before the last window, and the search of that window, make up the output on the text. */
  lemma OutputSoFar(name: seq<byte>, text: seq<byte>, s: seq<byte>, behind: byte, data: seq<byte>, last: nat, pos: nat,
                    cut: Option<nat>, out: seq<byte>)
    requires Reading(name, text, s, behind, data, last, pos, cut, out) && |text| < pos - last + BUFSIZE
    ensures Output(name, text, s, behind) == out + Search(name, text[pos - last..], s)
    ensures FinalWindow(text, behind) == pos - last && (data[BUFSIZE] == NEWLINE <==> Origin(text, behind).None?)
  {
    hide Search, Tail;
    CutIsAhead(text, pos - last, data[BUFSIZE], cut);
    assert text[0..] == text;
  }

  lemma TailHit(text: seq<byte>, s: seq<byte>, w: nat, from: nat)
    requires w <= from <= |text| < w + BUFSIZE && NUL !in text
    ensures Hit(text[from..], s) ==> Hit(Leftover(text, w, from), s)
    ensures s == [] ==> !Hit(text[from..], s) && Hit(Leftover(text, w, from), s)
  {
    var line := Leftover(text, w, from);
    assert line[|text| - from] == NUL;
    assert text[from..] == line[..|text| - from];
    if Hit(text[from..], s) {
      FrontHit(text[from..], line, s);
    }
  }

  /** What a read for the rest of the window at w delivers: it fills the window, reaches the end, or pads it. */
  ghost predicate Delivers(text: seq<byte>, w: nat, pos: nat, bytes: seq<byte>)
    requires w <= pos <= |text| && pos <= w + BUFSIZE
  {
    if Padded(text, w) then
      |bytes| == w + BUFSIZE - pos
      && forall i :: 0 <= i < |bytes| ==> bytes[i] == if pos + i < |text| then text[pos + i] else NUL
    else |bytes| == Min(w + BUFSIZE - pos, |text| - pos) && bytes == text[pos..pos + |bytes|]
  }

  /** The window after a read of text. */
  lemma WindowAfterRead(text: seq<byte>, was: seq<byte>, data: seq<byte>, last: nat, pos: nat, bytes: seq<byte>)
    requires Window(was, text, 0, last, pos) && last <= pos && last + |bytes| <= BUFSIZE
    requires data == was[..last] + bytes + was[last + |bytes|..]
    requires pos + |bytes| <= |text| && bytes == text[pos..pos + |bytes|]
    ensures Window(data, text, 0, last + |bytes|, pos + |bytes|) && data[BUFSIZE] == was[BUFSIZE]
  {
  }

  /** The window after a padded read. */
  lemma WindowAfterPadding(text: seq<byte>, was: seq<byte>, data: seq<byte>, last: nat, pos: nat, bytes: seq<byte>)
    requires Window(was, text, 0, last, pos) && last <= pos && last + |bytes| == BUFSIZE
    requires data == was[..last] + bytes + was[last + |bytes|..] && Padded(text, pos - last)
    requires forall i :: 0 <= i < |bytes| ==> bytes[i] == if pos + i < |text| then text[pos + i] else NUL
    ensures PaddedWindow(data, text, 0, pos - last) && data[BUFSIZE] == was[BUFSIZE]
  {
  }

  /** Between two reads. */
  ghost predicate Ongoing(name: seq<byte>, text: seq<byte>, s: seq<byte>, behind: byte, data: seq<byte>, last: nat,
                          pos: nat, cut: Option<nat>, out: seq<byte>) {
    last < BUFSIZE &&
    if pos < |text| then Reading(name, text, s, behind, data, last, pos, cut, out)
    else Ending(name, text, s, behind, data, last, out)
  }

  lemma OngoingWindow(name: seq<byte>, text: seq<byte>, s: seq<byte>, behind: byte, data: seq<byte>, last: nat,
                      pos: nat, cut: Option<nat>, out: seq<byte>)
    requires Ongoing(name, text, s, behind, data, last, pos, cut, out) && pos < |text|
    ensures last <= pos && last < BUFSIZE && (pos > 0 ==> BUFSIZE <= pos && last < pos)
  {
    hide Passed, LastWindow, Origin;
  }

  /** One round on the text: the read and the pass over the window. */
  lemma RoundOnText(name: seq<byte>, text: seq<byte>, s: seq<byte>, behind: byte, was: seq<byte>, last: nat, pos: nat,
                    cut: Option<nat>, out: seq<byte>, bytes: seq<byte>, data: seq<byte>) returns (cut': Option<nat>)
    requires NUL !in text && ShortLines(text) && NUL !in s && last <= pos < |text| && last < BUFSIZE
    requires Ongoing(name, text, s, behind, was, last, pos, cut, out) && |was| == BUFSIZE + 1
    requires last + |bytes| <= BUFSIZE && data == was[..last] + bytes + was[last + |bytes|..]
    requires Delivers(text, pos - last, pos, bytes)
    ensures |bytes| > 0 && |data| == BUFSIZE + 1
    ensures var p := PassFrom(name, s, data, 0, last + |bytes|, |bytes|);
      Ongoing(name, text, s, behind, p.data, p.last, pos + |bytes|, cut', out + p.out)
  {
    hide PassFrom, Passed, FirstMidLine, LastWindow, PaddedWindow, KernelOutput, ShortLines, Origin, CutFor;
    cut' := cut;
    if Padded(text, pos - last) {
      WindowAfterPadding(text, was, data, last, pos, bytes);
      ReadingIsPadded(name, text, s, behind, was, last, pos, cut, out, data, |bytes|);
    } else if pos + |bytes| < |text| {
      WindowAfterRead(text, was, data, last, pos, bytes);
      cut' := ReadingGoesOn(name, text, s, behind, was, last, pos, cut, out, data, |bytes|);
    } else {
      WindowAfterRead(text, was, data, last, pos, bytes);
      ReadingEnds(name, text, s, behind, was, last, pos, cut, out, data, |bytes|);
    }
  }

  lemma RoundsStart(name: seq<byte>, text: seq<byte>, s: seq<byte>, data: seq<byte>) returns (cut: Option<nat>)
    requires |data| == BUFSIZE + 1
    ensures Ongoing(name, text, s, data[BUFSIZE], data, 0, 0, cut, [])
  {
    hide Reading, Ending;
    cut := ReadingStarts(name, text, s, data);
  }

  lemma SomethingKept(name: seq<byte>, text: seq<byte>, s: seq<byte>, behind: byte, data: seq<byte>, last: nat,
                      pos: nat, cut: Option<nat>, out: seq<byte>)
    requires Ongoing(name, text, s, behind, data, last, pos, cut, out)
    ensures last < BUFSIZE
  {
    hide Reading, Ending;
  }

  lemma LastRound(name: seq<byte>, text: seq<byte>, s: seq<byte>, behind: byte, data: seq<byte>, last: nat, pos: nat,
                  cut: Option<nat>, out: seq<byte>)
    requires Ongoing(name, text, s, behind, data, last, pos, cut, out) && pos >= |text|
    ensures |data| == BUFSIZE + 1 && last < BUFSIZE
    ensures KernelOutput(name, text, s, behind) == out + PassFrom(name, s, data, 0, last, 0).out
  {
    hide KernelOutput, PassFrom;
  }

  // ---------- when it is wrong ----------

  /** On a file of this kernel grep prints exactly the matching lines if and only if there is no false hit. */
  lemma KernelGrepIsMatchingIff(name: seq<byte>, text: seq<byte>, s: seq<byte>, behind: byte)
    requires s != [] && s[0] < 128 && behind != NEWLINE
    ensures KernelOutput(name, text, s, behind) == Matching(name, text, s) <==> !FalseHit(text, s, behind)
  {
    hide Search, Matching, FalseHit, FinalWindow, Tail;
    SearchIsMatching(name, text, s);
  }

  /** A false hit: in the second window the line "dab" leaves its b behind the unfinished line "c". */
  lemma FalseHitHappens()
    ensures var text: seq<byte> := seq(1023, _ => 120) + [NEWLINE] + [100, 97, 98, NEWLINE, 99];
      ShortLines(text) && NUL !in text && FalseHit(text, [98], NUL)
  {
    hide ShortLines, FalseHit;
    var text: seq<byte> := seq(1023, _ => 120) + [NEWLINE] + [100, 97, 98, NEWLINE, 99];
    LongThenShort(text);
    LastWindowOf(text);
    LeftoverHit(text);
  }

  lemma LastWindowOf(text: seq<byte>)
    requires |text| == 1029 && text[1023] == text[1027] == NEWLINE
    requires forall i :: 0 <= i < 1029 && i != 1023 && i != 1027 ==> text[i] != NEWLINE
    ensures LastWindow(text, 0) == 1024 && Tail(text, 1024, 1029) == 1028
  {
    hide ScanEnd;
    ScanEndIs(text, 0, 1024, 1023);
    ScanEndIs(text, 1024, 1024, 1024);
    ScanEndIs(text, 1024, 1029, 1027);
    ScanEndIs(text, 1028, 1029, 1029);
  }

  lemma LeftoverHit(text: seq<byte>)
    requires |text| == 1029 && text[1026] == 98 && text[1028] == 99
    requires LastWindow(text, 0) == 1024 && Tail(text, 1024, 1029) == 1028
    ensures FalseHit(text, [98], NUL)
  {
    hide LastWindow, Tail, ScanEnd, FirstMidLine;
    var left := Leftover(text, 1024, 1028);
    assert left[2] == 98 && left[2..3] == [98] && StandsAt(left, [98], 2);
    assert text[1028..] == [99];
    assert !StandsAt([99], [98], 0) by {
      assert [99 as byte][0..1] == [99];
    }
  }

  lemma LongThenShort(text: seq<byte>)
    requires |text| == 1029 && text[1023] == NEWLINE
    ensures ShortLines(text)
  {
    forall i | 0 <= i <= |text| - BUFSIZE ensures EndsWithin(text, i) {
      assert text[i..i + BUFSIZE][1023 - i] == NEWLINE;
    }
  }
}
