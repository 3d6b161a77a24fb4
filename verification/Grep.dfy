/** grep's do_one_file: a sliding 1024-byte window over the file, searched in place (ece391grep.c). */
module Grep {
  import opened Basics
  import opened GrepPass
  import opened GrepSpec

  /** strcpy(data, data + from) within one buffer: the bytes up to and including the first NUL move to the front. */
  method CopyDown(data: array<byte>, from: nat)
    requires 0 < from < data.Length && NulFrom(data[..], from) < data.Length
    modifies data
    ensures data[..] == MovedDown(old(data[..]), from)
  {
    hide NulFrom;
    ghost var was, end := data[..], NulFrom(data[..], from);
    var i := 0;
    while data[from + i] != NUL
      invariant 0 <= i <= end - from
      invariant forall j :: 0 <= j < i ==> data[j] == was[from + j]
      invariant forall j :: i <= j < data.Length ==> data[j] == was[j]
      decreases end - i
    {
      data[i] := data[from + i];
      i := i + 1;
    }
    data[i] := data[from + i];
  }

  /** ece391_strncmp(data + at, s, |s|), for a string with no NUL in it and a NUL somewhere in the data. */
  method Strncmp(data: array<byte>, at: nat, s: seq<byte>, ghost end: nat) returns (r: int)
    requires at <= end < data.Length && data[end] == NUL && NUL !in s
    ensures r == 0 <==> StandsAt(data[at..end], s, 0)
  {
    var n, k := |s|, 0;
    if n == 0 {
      return 0;
    }
    while data[at + k] == s[k]
      invariant 0 <= k < |s| && at + k <= end && n == |s| - k
      invariant forall j :: 0 <= j < k ==> data[at + j] == s[j]
      decreases n
    {
      n := n - 1;
      if s[k] == NUL || n == 0 {
        assert data[at..end][..|s|] == s;
        return 0;
      }
      k := k + 1;
    }
    Mismatch(data[at..end], s, k);
    return data[at + k] as int - s[k] as int;
  }

  lemma Mismatch(line: seq<byte>, s: seq<byte>, k: nat)
    requires k <= |line| && k < |s| && (k < |line| ==> line[k] != s[k])
    ensures !StandsAt(line, s, 0)
  {
    if |s| <= |line| {
      assert line[0..|s|][k] == line[k];
    }
  }

  /** A pattern stands at position c of a line when it begins the line's rest from there. */
  lemma StandsInRest(line: seq<byte>, s: seq<byte>, c: nat)
    requires c < |line| && s != []
    ensures StandsAt(line[c..], s, 0) <==> StandsAt(line, s, c)
    ensures StandsAt(line, s, c) ==> line[c] == s[0]
  {
    if c + |s| <= |line| {
      assert line[c..][0..|s|] == line[c..c + |s|];
      assert line[c..c + |s|][0] == line[c];
    }
  }

  /** The search of the bytes up to a NUL. */
  method SearchLine(data: array<byte>, start: nat, end: nat, s: seq<byte>) returns (hit: bool)
    requires start <= end < data.Length && data[end] == NUL && NUL !in s
    ensures hit <==> Hit(data[start..end], s)
    ensures s != [] && s[0] < 128 ==> (hit <==> Contains(data[start..end], s))
  {
    ghost var line := data[start..end];
    if s != [] && s[0] < 128 {
      HitIsContains(line, s);
    }
    var first: int := if s == [] then 0 else if s[0] < 128 then s[0] as int else s[0] as int - 256;
    var check := start;
    while check < end
      invariant start <= check <= end
      invariant s == [] ==> NUL !in line[..check - start]
      invariant s != [] && s[0] < 128 ==> forall k :: 0 <= k < check - start ==> !StandsAt(line, s, k)
    {
      if s != [] {
        StandsInRest(line, s, check - start);
      }
      assert data[check..end] == line[check - start..] && data[check] == line[check - start];
      assert line[..check - start + 1] == line[..check - start] + [data[check]];
      if first == data[check] as int {
        var same := Strncmp(data, check, s, end);
        if same == 0 {
          return true;
        }
      }
      check := check + 1;
    }
    return false;
  }

  /** fdputs of what stands at a position, up to its NUL. */
  method LineAt(data: array<byte>, start: nat) returns (line: seq<byte>)
    requires start <= data.Length && NulFrom(data[..], start) < data.Length
    ensures line == data[start..NulFrom(data[..], start)]
  {
    hide NulFrom;
    var n := start;
    while data[n] != NUL
      invariant start <= n <= NulFrom(data[..], start)
      decreases data.Length - n
    {
      n := n + 1;
    }
    return data[start..n];
  }

  /** The search and report of one line in the window. */
  method ReportLine(name: seq<byte>, data: array<byte>, start: nat, end: nat, s: seq<byte>) returns (out: seq<byte>)
    requires start <= end < data.Length && data[end] == NUL && NUL !in s
    ensures out == LineReport(name, s, data[..], start, end)
  {
    hide Hit, NulFrom;
    assert data[..][start..end] == data[start..end] && data[..][end] == NUL;
    var hit := SearchLine(data, start, end, s);
    if hit {
      var line := LineAt(data, start);
      return name + [COLON] + line + [NEWLINE];
    }
    return [];
  }

  /** The scan for the end of the line that starts at a position. */
  method FindEnd(data: array<byte>, start: nat, last: nat) returns (end: nat)
    requires start <= last < data.Length
    ensures end == ScanEnd(data[..], start, last)
  {
    end := start;
    while end < last && NEWLINE != data[end]
      invariant start <= end <= last && ScanEnd(data[..], start, last) == ScanEnd(data[..], end, last)
    {
      end := end + 1;
    }
  }

  method EndLine(data: array<byte>, end: nat)
    requires end < data.Length
    modifies data
    ensures data[..] == old(data[..])[end := NUL]
  {
    data[end] := NUL;
  }

  /** The inner loop of do_one_file over the window filled up to last0. */
  method DrainWindow(name: seq<byte>, data: array<byte>, s: seq<byte>, last0: nat, cnt: nat)
    returns (out: seq<byte>, last: nat)
    requires last0 < data.Length && NUL !in s
    modifies data
    ensures Pass(out, data[..], last) == PassFrom(name, s, old(data[..]), 0, last0, cnt)
  {
    hide PassFrom, ScanEnd, LineReport, MovedDown, NulFrom;
    ghost var total := PassFrom(name, s, data[..], 0, last0, cnt);
    out, last := [], last0;
    var start := 0;
    while true
      invariant last == last0 && start <= last
      invariant var r := PassFrom(name, s, data[..], start, last, cnt); total == r.(out := out + r.out)
      decreases last0 - start
    {
      PassStep(name, s, data[..], start, last, cnt);
      var end := FindEnd(data, start, last);
      if NEWLINE != data[end] && 0 != cnt && start != 0 {
        EndLine(data, end);
        CopyDown(data, start);
        last := last - start;
        return;
      }
      EndLine(data, end);
      var report := ReportLine(name, data, start, end, s);
      out := out + report;
      start := end + 1;
      if start >= last {
        last := 0;
        return;
      }
    }
  }

  /** read(fd, data + last, BUFSIZE - last) by a reader that fills the request or reaches the end. */
  method Refill(data: array<byte>, text: seq<byte>, last: nat, pos: nat) returns (cnt: nat)
    requires data.Length == BUFSIZE + 1 && Window(data[..], text, 0, last, pos)
    modifies data
    ensures pos <= |text| && cnt == Min(BUFSIZE - last, |text| - pos)
    ensures Window(data[..], text, 0, last + cnt, pos + cnt) && data[BUFSIZE] == old(data[BUFSIZE])
  {
    cnt := 0;
    while cnt < BUFSIZE - last && pos + cnt < |text|
      invariant 0 <= cnt <= BUFSIZE - last && pos + cnt <= |text|
      invariant forall i :: last <= i < last + cnt ==> data[i] == text[pos + i - last]
      invariant forall i :: 0 <= i < data.Length && !(last <= i < last + cnt) ==> data[i] == old(data[i])
    {
      data[last + cnt] := text[pos + cnt];
      cnt := cnt + 1;
    }
  }

  /** do_one_file after a successful open, over a reader that fills each request or reaches the end: for text of
      short lines and no NUL, exactly the lines that contain the pattern are printed, once each and in order -
      unless the pattern starts with a byte beyond ASCII or a newline lies behind the window at the start. */
  method DoOneFile(name: seq<byte>, text: seq<byte>, s: seq<byte>, data: array<byte>) returns (out: seq<byte>)
    requires data.Length == BUFSIZE + 1 && NUL !in s && NUL !in text && ShortLines(text)
    modifies data
    ensures out == Output(name, text, s, old(data[BUFSIZE]))
    ensures s != [] && s[0] < 128 && old(data[BUFSIZE]) != NEWLINE ==> out == Matching(name, text, s)
  {
    hide Passed, ShortLines, FirstMidLine, Output, CutFor, PassFrom, Search, Matching;
    ghost var behind := data[BUFSIZE];
    ghost var cut: Option<nat> := AtTheStart(name, text, s, data[..]);
    var last: nat, pos: nat := 0, 0;
    out := [];
    while true
      invariant Between(data[..], text, last, pos, cut)
      invariant Passed(name, text, s, 0, StartCut(text, behind), out, pos - last, cut)
      decreases |text| - pos
    {
      ghost var w := pos - last;
      var cnt := Refill(data, text, last, pos);
      last := last + cnt;
      pos := pos + cnt;
      ghost var before := data[..];
      ghost var cut' := PassOverText(name, text, s, before, 0, last, cnt, pos, cut);
      var more, left := DrainWindow(name, data, s, last, cnt);
      PassedOn(name, text, s, 0, StartCut(text, behind), out, w, cut, more, pos - left, cut');
      out := out + more;
      last, cut := left, cut';
      if 0 == cnt {
        break;
      }
    }
    AllPassed(name, text, s, behind, out, data[BUFSIZE], cut);
  }
}
