/** grep end to end: do_one_file over this kernel's fread. */
module GrepKernel {
  import opened Basics
  import opened Descriptors
  import opened FileSystem
  import opened GrepPadding
  import opened GrepPass
  import opened GrepSpec
  import opened Reads
  import Grep

  // ---------- the reads ----------

  /** The text of a file. */
  ghost function TextOf(img: Image, inode: nat): (text: seq<byte>)
    requires Mounted(img) && IsFile(img, inode)
    ensures |text| == img.inodes[inode].length
  {
    Contents(img, img.inodes[inode])[..img.inodes[inode].length]
  }

  /** fread for the rest of the window at w: it fills it, reaches the end, or pads it. */
  lemma ReadForWindow(img: Image, fd: Fd, w: nat)
    requires Mounted(img) && IsFile(img, fd.inode) && IsTextFile(img, img.inodes[fd.inode])
    requires var text := TextOf(img, fd.inode);
      w <= fd.position < |text| && fd.position < w + BUFSIZE && (fd.position > 0 ==> BUFSIZE <= fd.position && w > 0)
    ensures Found(img, Low(fd.inode))
    ensures var r := ReadFrom(img, fd, w + BUFSIZE - fd.position);
      && r.fd == fd.(position := fd.position + r.status) && |r.bytes| == r.status
      && Delivers(TextOf(img, fd.inode), w, fd.position, r.bytes)
  {
    hide Contents, Low, ReadFrom, Copied;
    ReadOfFile(img, fd, w + BUFSIZE - fd.position);
    RoomCount(img.inodes[fd.inode].length, w, fd.position);
  }

  lemma RoomCount(length: nat, w: nat, pos: nat)
    requires w <= pos < length < BLK_SZ * TABLE_SIZE && pos < w + BUFSIZE && (pos > 0 ==> BUFSIZE <= pos && w > 0)
    ensures var room := w + BUFSIZE - pos;
      Copied(length, pos, room)
      == if 0 < w && length < w + BUFSIZE <= BLK_SZ * BlockCount(length) then room else Min(room, length - pos)
  {
    CountCases(length, pos, w + BUFSIZE - pos);
  }

  // ---------- the loop ----------

  /** read(fd, data + last, BUFSIZE - last) on a file: fread writes from data + last on. */
  method ReadInto(img: Image, fds: array<Fd>, d: nat, data: array<byte>, last: nat) returns (cnt: nat)
    requires Mounted(img) && d < fds.Length && IsFile(img, fds[d].inode)
    requires data.Length == BUFSIZE + 1 && last < BUFSIZE
    modifies fds, data
    ensures Found(img, Low(old(fds[d]).inode))
    ensures var r := ReadFrom(img, old(fds[d]), BUFSIZE - last);
      && cnt == r.status && fds[..] == old(fds[..])[d := r.fd] && |r.bytes| == cnt && last + cnt <= BUFSIZE
      && data[..] == old(data[..last]) + r.bytes + old(data[last + cnt..])
  {
    hide Low, ReadFrom, Copied, IsFile;
    ReadFits(img, fds[d], BUFSIZE - last);
    ReadSucceeds(img, fds[d], BUFSIZE - last);
    ghost var r := ReadFrom(img, fds[d], BUFSIZE - last);
    var buf := new byte[BUFSIZE - last];
    var status := FRead(img, fds, d, buf, BUFSIZE - last);
    cnt := status;
    assert buf[..cnt] == r.bytes;
    CopyInto(buf, cnt, data, last);
  }

  method CopyInto(buf: array<byte>, cnt: nat, data: array<byte>, last: nat)
    requires cnt <= buf.Length && last + cnt <= data.Length && buf != data
    modifies data
    ensures data[..] == old(data[..last]) + buf[..cnt] + old(data[last + cnt..])
  {
    ghost var was := data[..];
    var i := 0;
    while i < cnt
      invariant 0 <= i <= cnt
      invariant forall p :: last <= p < last + i ==> data[p] == buf[p - last]
      invariant forall p :: 0 <= p < data.Length && !(last <= p < last + i) ==> data[p] == was[p]
    {
      data[last + i] := buf[i];
      i := i + 1;
    }
    assert data[last..last + cnt] == buf[..cnt];
    assert data[..] == data[..last] + data[last..last + cnt] + data[last + cnt..];
    assert data[..last] == was[..last] && data[last + cnt..] == was[last + cnt..];
  }

  lemma ReadSucceeds(img: Image, fd: Fd, size: nat)
    requires Mounted(img) && IsFile(img, fd.inode) && 0 < size
    ensures Found(img, Low(fd.inode))
    ensures var r := ReadFrom(img, fd, size); 0 <= r.status == |r.bytes| <= size
  {
    hide Low, Contents;
    ReadOfFile(img, fd, size);
  }

  /** One round of the loop, as a value: what the read and the pass over the window make of it. */
  lemma Round(name: seq<byte>, img: Image, fd: Fd, text: seq<byte>, s: seq<byte>, behind: byte, was: seq<byte>,
              last: nat, cut: Option<nat>, out: seq<byte>, r: ReadResult, data: seq<byte>) returns (cut': Option<nat>)
    requires Mounted(img) && IsFile(img, fd.inode) && IsTextFile(img, img.inodes[fd.inode]) && Found(img, Low(fd.inode))
    requires text == TextOf(img, fd.inode) && NUL !in text && ShortLines(text) && NUL !in s
    requires fd.position < |text| && Ongoing(name, text, s, behind, was, last, fd.position, cut, out)
    requires r == ReadFrom(img, fd, BUFSIZE - last) && |was| == BUFSIZE + 1
    requires last + |r.bytes| <= BUFSIZE && data == was[..last] + r.bytes + was[last + |r.bytes|..]
    ensures r.status > 0 && r.fd == fd.(position := fd.position + r.status) && last + r.status < |data|
    ensures var p := PassFrom(name, s, data, 0, last + r.status, r.status);
      Ongoing(name, text, s, behind, p.data, p.last, r.fd.position, cut', out + p.out)
  {
    hide PassFrom, ReadFrom, Contents, IsFile, IsTextFile, Low, TextOf, Mounted, ShortLines, Ongoing, Delivers;
    OngoingWindow(name, text, s, behind, was, last, fd.position, cut, out);
    ReadForWindow(img, fd, fd.position - last);
    cut' := RoundOnText(name, text, s, behind, was, last, fd.position, cut, out, r.bytes, data);
  }

  /** What do_one_file prints of a text file of this kernel: its lines that contain the pattern, once each and in
      order - and, exactly after a false hit, its last line. */
  method GrepFile(name: seq<byte>, img: Image, fds: array<Fd>, d: nat, s: seq<byte>, data: array<byte>)
    returns (out: seq<byte>)
    requires Mounted(img) && d < fds.Length && IsFile(img, fds[d].inode) && fds[d].position == 0
    requires IsTextFile(img, img.inodes[fds[d].inode]) && ShortLines(TextOf(img, fds[d].inode))
    requires data.Length == BUFSIZE + 1 && NUL !in s
    modifies fds, data
    ensures out == KernelOutput(name, TextOf(img, old(fds[d].inode)), s, old(data[BUFSIZE]))
    ensures s != [] && s[0] < 128 && old(data[BUFSIZE]) != NEWLINE ==>
      var text := TextOf(img, old(fds[d].inode));
      out == Matching(name, text, s) <==> !FalseHit(text, s, old(data[BUFSIZE]))
  {
    hide FalseHit, Matching, PassFrom, Ongoing, KernelOutput, IsFile, IsTextFile, TextOf, Mounted,
      ShortLines, ReadFrom, Low;
    ghost var inode, behind := fds[d].inode, data[BUFSIZE];
    ghost var text := TextOf(img, inode);
    TextIsPlain(img, inode);
    if s != [] && s[0] < 128 && behind != NEWLINE {
      KernelGrepIsMatchingIff(name, text, s, behind);
    }
    ghost var cut: Option<nat> := RoundsStart(name, text, s, data[..]);
    var last: nat := 0;
    out := [];
    while true
      invariant fds[d].inode == inode && IsFile(img, inode)
      invariant Ongoing(name, text, s, behind, data[..], last, fds[d].position, cut, out)
      decreases |text| - fds[d].position
    {
      ghost var was, fd := data[..], fds[d];
      SomethingKept(name, text, s, behind, was, last, fd.position, cut, out);
      var cnt := ReadInto(img, fds, d, data, last);
      ghost var read := ReadFrom(img, fd, BUFSIZE - last);
      if fd.position < |text| {
        cut := Round(name, img, fd, text, s, behind, was, last, cut, out, read, data[..]);
      } else {
        NothingRead(img, fd, BUFSIZE - last);
        assert data[..] == was;
        LastRound(name, text, s, behind, was, last, fd.position, cut, out);
      }
      last := last + cnt;
      var more: seq<byte>;
      more, last := Grep.DrainWindow(name, data, s, last, cnt);
      out := out + more;
      if 0 == cnt {
        break;
      }
    }
  }

  lemma TextIsPlain(img: Image, inode: nat)
    requires Mounted(img) && IsFile(img, inode) && IsTextFile(img, img.inodes[inode])
    ensures NUL !in TextOf(img, inode)
  {
    hide Contents;
  }

  lemma NothingRead(img: Image, fd: Fd, size: nat)
    requires Mounted(img) && IsFile(img, fd.inode) && fd.position >= |TextOf(img, fd.inode)|
    ensures Found(img, Low(fd.inode)) && ReadFrom(img, fd, size) == ReadResult(fd, 0, [])
  {
    hide Contents, Low;
  }
}
