/** What callers of read_data get: the exact counts, and a descriptor's reads put end to end. */
module Reads {
  import opened Basics
  import opened Descriptors
  import opened FileSystem

  /** The count, as the last block and the signed comparison decide: the rest of the file, the request, or, when
      the sum of offset and size looks negative or has wrapped around, as much as there is. */
  lemma CountCases(length: nat, offset: nat, size: nat)
    requires offset <= length < BLK_SZ * TABLE_SIZE && size < WORD
    ensures Copied(length, offset, size) ==
      if BLK_SZ * BlockCount(length) < offset + size < 0x8000_0000 then length - offset
      else if offset + size <= BLK_SZ * BlockCount(length) then Min(size, length)
      else Min(length, BLK_SZ * BlockCount(length) - offset)
  {
  }

  /** The count is the ideal one (what is left of the file, at most size) exactly in these three cases. */
  lemma CountIsIdealIff(length: nat, offset: nat, size: nat)
    requires offset <= length < BLK_SZ * TABLE_SIZE && 0 < size < WORD
    ensures Copied(length, offset, size) == Min(size, length - offset)
       <==> offset == 0 || offset + size <= length || BLK_SZ * BlockCount(length) < offset + size < 0x8000_0000
  {
    CountCases(length, offset, size);
  }

  /** A request that passes the last block but whose sum with the offset looks negative reads on behind the file. */
  lemma HugeRequestRunsOver()
    ensures 5 + 0x7FFF_FFFF > BLK_SZ * BlockCount(100)
    ensures Copied(100, 5, 0x7FFF_FFFF) == 100 && Min(0x7FFF_FFFF, 100 - 5) == 95
  {
  }

  /** A read of at least one byte below the end of the file makes progress, and never overfills its buffer. */
  lemma CountMakesProgress(length: nat, offset: nat, size: nat)
    requires offset < length && 0 < size
    ensures 0 < Copied(length, offset, size) <= size
  {
  }

  // ---------- fread ----------

  datatype ReadResult = ReadResult(fd: Fd, status: int, bytes: seq<byte>)

  /** The inode number as fread holds it. */
  function Low(inode: nat): (r: nat)
    ensures r <= inode && r < INODES && (inode - r) % 256 == 0 && (inode < INODES ==> r == inode)
  {
    inode % INODES
  }

  /** What fread finds under an inode number: an inode of the image has a block table that holds its length. */
  predicate Found(img: Image, inode: nat) {
    inode < |img.inodes| && (inode <= img.inodeCount ==> Sized(img.inodes[inode]))
  }

  /** A read through a descriptor of the file with a given inode: what is delivered, the value returned and the
      descriptor afterwards. */
  ghost function ReadInode(img: Image, inode: nat, fd: Fd, size: nat): (r: ReadResult)
    requires Mounted(img) && Found(img, inode)
  {
    var file := img.inodes[inode];
    if fd.position >= file.length then ReadResult(fd, 0, [])
    else if Rejected(img, inode, fd.position, size) then ReadResult(fd, -1, [])
    else
      var n := Copied(file.length, fd.position, size);
      if MeetsBadBlock(img, file, fd.position, n) then ReadResult(fd, -1, [])
      else ReadResult(fd.(position := fd.position + n), n, Contents(img, file)[fd.position..fd.position + n])
  }

  /** fread. */
  ghost function ReadFrom(img: Image, fd: Fd, size: nat): (r: ReadResult)
    requires Mounted(img) && Found(img, Low(fd.inode))
  {
    ReadInode(img, Low(fd.inode), fd, size)
  }

  /** A count as read_data takes it: a negative one becomes a large unsigned one. */
  function Unsigned(nbytes: int): (size: nat)
    requires 0 <= nbytes + HALF_WORD < WORD
    ensures size < WORD && (size - nbytes) % 0x1_0000_0000 == 0 && (nbytes >= 0 ==> size == nbytes)
  {
    if nbytes < 0 then nbytes + WORD else nbytes
  }

  /** fread on entry d of a descriptor array. */
  method FRead(img: Image, fds: array<Fd>, d: nat, buf: array<byte>, nbytes: int) returns (status: int)
    requires Mounted(img) && d < fds.Length && Found(img, Low(fds[d].inode)) && 0 <= nbytes + HALF_WORD < WORD
    requires var file := img.inodes[Low(fds[d].inode)];
      !Rejected(img, Low(fds[d].inode), fds[d].position, Unsigned(nbytes)) ==>
        Copied(file.length, fds[d].position, Unsigned(nbytes)) <= buf.Length
    modifies fds, buf
    ensures status == ReadFrom(img, old(fds[d]), Unsigned(nbytes)).status
    ensures fds[..] == old(fds[..])[d := ReadFrom(img, old(fds[d]), Unsigned(nbytes)).fd]
    ensures status >= 0 ==>
      status <= buf.Length
      && buf[..] == ReadFrom(img, old(fds[d]), Unsigned(nbytes)).bytes + old(buf[..])[status..]
  {
    hide Low, Contents;
    var inode, position := Low(fds[d].inode), fds[d].position;
    if position >= img.inodes[inode].length {
      return 0;
    }
    status := ReadData(img, inode, position, buf, Unsigned(nbytes));
    if status == -1 {
      return -1;
    }
    fds[d] := fds[d].(position := position + status);
  }

  /** When fread fails and when it has reached the end; either way the descriptor stays as it is. */
  lemma ReadStatus(img: Image, inode: nat, fd: Fd, size: nat)
    requires Mounted(img) && Found(img, inode)
    ensures var file, r := img.inodes[inode], ReadInode(img, inode, fd, size);
      && (r.status == 0 <==> fd.position >= file.length)
      && (r.status == -1
          <==>
          (fd.position < file.length
           && (inode > img.inodeCount || size == 0
               || MeetsBadBlock(img, file, fd.position, Copied(file.length, fd.position, size)))))
      && (r.status <= 0 ==> r.fd == fd && r.bytes == [])
      && (r.status > 0 ==> r.status == |r.bytes| && r.fd == Fd(fd.ops, fd.inode, fd.position + r.status, fd.inUse))
  {
    hide Contents, MeetsBadBlock;
  }

  /** A descriptor reads the file of its own inode number, in every image, at every position and for every size,
      exactly when that number is below 256. */
  lemma InodeIsOwnIff(inode: nat)
    ensures (forall img: Image, fd: Fd, size: nat
               | Mounted(img) && fd.inode == inode && Found(img, Low(inode)) && Found(img, inode) ::
               ReadFrom(img, fd, size) == ReadInode(img, inode, fd, size))
       <==> inode < INODES
  {
    if inode >= INODES {
      var img, fd := OneByteFile(inode), Fd(FileTable, inode, 0, true);
      assert ReadFrom(img, fd, 1) != ReadInode(img, inode, fd, 1) by {
        assert Low(inode) != inode;
        assert ReadFrom(img, fd, 1).status == 0;
        assert Copied(1, 0, 1) == 1;
      }
    }
  }

  /** An image whose last inode is its only file that is not empty: one byte long. */
  function OneByteFile(inode: nat): (img: Image)
    ensures img.inodeCount == inode && |img.inodes| == inode + 1
    ensures Mounted(img) && forall i :: 0 <= i <= inode ==>
      Sized(img.inodes[i]) && img.inodes[i].length == if i == inode then 1 else 0
    ensures img.inodes[inode].blocks == seq(TABLE_SIZE, _ => 0) && img.blockCount == 0
  {
    var table: seq<nat> := seq(TABLE_SIZE, _ => 0);
    Image(inode, 0, seq(inode + 1, i => Inode(if i == inode then 1 else 0, table)), [seq(BLK_SZ, _ => SPACE)])
  }

  /** A request for size bytes of a file of the image never delivers more. */
  lemma ReadFits(img: Image, fd: Fd, size: nat)
    requires Mounted(img) && IsFile(img, fd.inode) && 0 < size < HALF_WORD
    ensures Low(fd.inode) == fd.inode && Found(img, fd.inode) && Unsigned(size) == size
    ensures !Rejected(img, fd.inode, fd.position, size) ==>
      Copied(img.inodes[fd.inode].length, fd.position, size) <= size
  {
    hide Low;
  }

  /** On a file of the image, fread delivers the next piece of it. */
  lemma ReadOfFile(img: Image, fd: Fd, nbytes: nat)
    requires Mounted(img) && IsFile(img, fd.inode)
    ensures var file, r := img.inodes[fd.inode], ReadFrom(img, fd, nbytes);
      && r.fd == fd.(position := r.fd.position) && r.fd.position >= fd.position
      && (fd.position >= file.length ==> r.status == 0 && r.fd == fd && r.bytes == [])
      && (fd.position < file.length && nbytes > 0 ==>
            && 0 < r.status == |r.bytes| <= nbytes && r.fd.position == fd.position + r.status
            && r.status == Copied(file.length, fd.position, nbytes) && r.fd.position <= |Contents(img, file)|
            && r.bytes == Contents(img, file)[fd.position..r.fd.position])
      && (nbytes == 0 ==> r.fd == fd && r.bytes == [])
  {
    hide Low, Contents;
    var file := img.inodes[fd.inode];
    if fd.position < file.length && nbytes > 0 {
      CountMakesProgress(file.length, fd.position, nbytes);
      var n := Copied(file.length, fd.position, nbytes);
      forall i | 0 <= i < TABLE_SIZE && Touches(fd.position, n, i) ensures file.blocks[i] <= img.blockCount {
        assert i < BlockCount(file.length);
      }
    }
  }

  /** A text file: no NUL below its length, nothing but NULs behind it. */
  ghost predicate IsTextFile(img: Image, file: Inode)
    requires Mounted(img) && Sized(file)
  {
    && (forall i :: 0 <= i < file.length ==> Contents(img, file)[i] != NUL)
    && (forall i :: file.length <= i < |Contents(img, file)| ==> Contents(img, file)[i] == NUL)
  }

  // ---------- runs over all open files ----------

  /** Every process's descriptor array. */
  type Table = seq<seq<Fd>>

  datatype Call = Call(process: nat, fd: nat, nbytes: nat)

  ghost predicate Readable(img: Image, table: Table, calls: seq<Call>) {
    && Mounted(img)
    && (forall p, d :: 0 <= p < |table| && 0 <= d < |table[p]| ==> Found(img, Low(table[p][d].inode)))
    && (forall i :: 0 <= i < |calls| ==> calls[i].process < |table| && calls[i].fd < |table[calls[i].process]|)
  }

  ghost function AfterCall(img: Image, table: Table, c: Call): (r: Table)
    requires Readable(img, table, [c])
    ensures |r| == |table| && forall p :: 0 <= p < |table| ==> |r[p]| == |table[p]|
    ensures forall p, d :: 0 <= p < |table| && 0 <= d < |table[p]| ==> r[p][d].inode == table[p][d].inode
  {
    assert c == [c][0];
    table[c.process := table[c.process][c.fd := ReadFrom(img, table[c.process][c.fd], c.nbytes).fd]]
  }

  /** What one descriptor receives over a run, put end to end. */
  ghost function Stream(img: Image, table: Table, calls: seq<Call>, p: nat, d: nat): seq<byte>
    requires Readable(img, table, calls) && p < |table| && d < |table[p]|
    decreases |calls|
  {
    if calls == [] then []
    else
      assert Readable(img, table, [calls[0]]);
      var rest := Stream(img, AfterCall(img, table, calls[0]), calls[1..], p, d);
      if calls[0].process == p && calls[0].fd == d
      then ReadFrom(img, table[p][d], calls[0].nbytes).bytes + rest
      else rest
  }

  /** How many calls of a run are one descriptor's own. */
  function Own(calls: seq<Call>, p: nat, d: nat): nat {
    if calls == [] then 0
    else (if calls[0].process == p && calls[0].fd == d then 1 else 0) + Own(calls[1..], p, d)
  }

  /** A descriptor is never asked for nothing. */
  ghost predicate Positive(calls: seq<Call>, p: nat, d: nat) {
    forall i :: 0 <= i < |calls| && calls[i].process == p && calls[i].fd == d ==> calls[i].nbytes > 0
  }

  /** The first call of a run, as one descriptor sees it. */
  lemma FirstCall(img: Image, table: Table, calls: seq<Call>, p: nat, d: nat)
    requires Readable(img, table, calls) && calls != [] && p < |table| && d < |table[p]|
    ensures Mounted(img) && Readable(img, table, [calls[0]])
    ensures Readable(img, AfterCall(img, table, calls[0]), calls[1..]) && Found(img, Low(table[p][d].inode))
    ensures AfterCall(img, table, calls[0])[p][d]
         == if calls[0].process == p && calls[0].fd == d then ReadFrom(img, table[p][d], calls[0].nbytes).fd
            else table[p][d]
    ensures var rest := Stream(img, AfterCall(img, table, calls[0]), calls[1..], p, d);
      Stream(img, table, calls, p, d)
      == if calls[0].process == p && calls[0].fd == d then ReadFrom(img, table[p][d], calls[0].nbytes).bytes + rest
         else rest
  {
    hide ReadFrom, Mounted;
    assert Readable(img, table, [calls[0]]);
    var table1: Table := AfterCall(img, table, calls[0]);
    forall q: nat, e: nat | q < |table1| && e < |table1[q]| ensures Found(img, Low(table1[q][e].inode)) {
      assert table1[q][e].inode == table[q][e].inode;
    }
  }

  /** A gap-free piece of a file from where a descriptor stands. */
  ghost predicate GapFree(img: Image, fd: Fd, got: seq<byte>)
    requires Mounted(img) && IsFile(img, fd.inode)
  {
    var all := Contents(img, img.inodes[fd.inode]);
    fd.position + |got| <= |all| && got == all[fd.position..fd.position + |got|]
  }

  lemma GapFreeStep(img: Image, fd: Fd, size: nat, rest: seq<byte>)
    requires Mounted(img) && IsFile(img, fd.inode) && Found(img, Low(fd.inode))
    requires ReadFrom(img, fd, size).fd.inode == fd.inode && GapFree(img, ReadFrom(img, fd, size).fd, rest)
    ensures GapFree(img, fd, ReadFrom(img, fd, size).bytes + rest)
    ensures var file, now := img.inodes[fd.inode], ReadFrom(img, fd, size);
      && now.fd.inode == fd.inode && now.fd.position == fd.position + |now.bytes|
      && (size > 0 ==> fd.position >= file.length || |now.bytes| > 0)
  {
    hide ReadFrom, Contents;
    ReadOfFile(img, fd, size);
    var all, to := Contents(img, img.inodes[fd.inode]), ReadFrom(img, fd, size).fd.position;
    Join(all, fd.position, to, to + |rest|);
  }

  /** Chunked reading: whatever else is read in between, one descriptor receives a gap-free piece of the
      file's contents from where it stood; and either it has passed the end of the file, or every call that
      asked for something gave it at least one byte. */
  lemma {:induction false} ChunksAreGapFree(img: Image, table: Table, calls: seq<Call>, p: nat, d: nat)
    requires Readable(img, table, calls) && p < |table| && d < |table[p]|
    requires IsFile(img, table[p][d].inode)
    requires table[p][d].position <= |Contents(img, img.inodes[table[p][d].inode])|
    ensures var fd, got := table[p][d], Stream(img, table, calls, p, d);
      && GapFree(img, fd, got)
      && (Positive(calls, p, d) ==>
            fd.position + |got| >= img.inodes[fd.inode].length || |got| >= Own(calls, p, d))
    decreases |calls|
  {
    hide ReadFrom, GapFree, Readable, AfterCall, Stream, Contents, IsFile;
    if calls == [] {
      NothingReceived(img, table, p, d);
    } else {
      FirstCall(img, table, calls, p, d);
      var table1 := AfterCall(img, table, calls[0]);
      if calls[0].process == p && calls[0].fd == d {
        WithinContents(img, table[p][d], calls[0].nbytes);
        ChunksAreGapFree(img, table1, calls[1..], p, d);
        GapFreeStep(img, table[p][d], calls[0].nbytes, Stream(img, table1, calls[1..], p, d));
      } else {
        ChunksAreGapFree(img, table1, calls[1..], p, d);
      }
    }
  }

  lemma NothingReceived(img: Image, table: Table, p: nat, d: nat)
    requires Readable(img, table, []) && p < |table| && d < |table[p]| && IsFile(img, table[p][d].inode)
    requires table[p][d].position <= |Contents(img, img.inodes[table[p][d].inode])|
    ensures Stream(img, table, [], p, d) == [] && GapFree(img, table[p][d], [])
  {
    hide Contents;
  }

  lemma WithinContents(img: Image, fd: Fd, size: nat)
    requires Mounted(img) && IsFile(img, fd.inode) && fd.position <= |Contents(img, img.inodes[fd.inode])|
    ensures Found(img, Low(fd.inode)) && ReadFrom(img, fd, size).fd.inode == fd.inode
    ensures ReadFrom(img, fd, size).fd.position <= |Contents(img, img.inodes[fd.inode])|
  {
    hide Contents;
    ReadOfFile(img, fd, size);
  }

  /** After as many calls of its own as the file has bytes, a descriptor opened at 0 has received the whole
      file, and its next fread returns 0. */
  lemma WholeFileArrives(img: Image, table: Table, calls: seq<Call>, p: nat, d: nat, nbytes: nat)
    requires Readable(img, table, calls) && Positive(calls, p, d) && p < |table| && d < |table[p]|
    requires IsFile(img, table[p][d].inode) && table[p][d].position == 0
    requires Own(calls, p, d) >= img.inodes[table[p][d].inode].length
    ensures var fd, got := table[p][d], Stream(img, table, calls, p, d);
      var file := img.inodes[fd.inode];
      && |got| >= file.length && got[..file.length] == Contents(img, file)[..file.length]
      && ReadFrom(img, fd.(position := |got|), nbytes).status == 0
  {
    hide Low, Contents, Stream, Own;
    ChunksAreGapFree(img, table, calls, p, d);
  }

  /** A descriptor's position is where its stream ends. */
  lemma {:induction false} PositionFollowsStream(img: Image, table: Table, calls: seq<Call>, p: nat, d: nat)
    requires Readable(img, table, calls) && p < |table| && d < |table[p]|
    requires IsFile(img, table[p][d].inode)
    requires table[p][d].position <= |Contents(img, img.inodes[table[p][d].inode])|
    ensures AfterCalls(img, table, calls)[p][d].position == table[p][d].position + |Stream(img, table, calls, p, d)|
    decreases |calls|
  {
    hide ReadFrom, Contents, AfterCall, IsFile;
    if calls != [] {
      FirstCall(img, table, calls, p, d);
      ReadOfFile(img, table[p][d], calls[0].nbytes);
      PositionFollowsStream(img, AfterCall(img, table, calls[0]), calls[1..], p, d);
    }
  }

  ghost function AfterCalls(img: Image, table: Table, calls: seq<Call>): (r: Table)
    requires Readable(img, table, calls)
    ensures |r| == |table| && forall p :: 0 <= p < |table| ==> |r[p]| == |table[p]|
    decreases |calls|
  {
    if calls == [] then table
    else
      assert Readable(img, table, [calls[0]]);
      AfterCalls(img, AfterCall(img, table, calls[0]), calls[1..])
  }

  /** What is left of the file, up to n bytes. */
  ghost function Ahead(img: Image, fd: Fd, n: nat): seq<byte>
    requires Mounted(img) && IsFile(img, fd.inode) && fd.position <= img.inodes[fd.inode].length
  {
    var file := img.inodes[fd.inode];
    Contents(img, file)[fd.position..fd.position + Min(n, file.length - fd.position)]
  }

  lemma SingleByte(img: Image, fd: Fd, n: nat)
    requires Mounted(img) && IsFile(img, fd.inode) && fd.position <= img.inodes[fd.inode].length
    ensures var file, r := img.inodes[fd.inode], ReadFrom(img, fd, 1);
      && r.fd.inode == fd.inode && r.fd.position <= file.length
      && r.bytes + Ahead(img, r.fd, n) == Ahead(img, fd, n + 1)
  {
    hide ReadFrom, Contents, Flat;
    ReadOfFile(img, fd, 1);
    var file := img.inodes[fd.inode];
    if fd.position < file.length {
      Join(Contents(img, file), fd.position, fd.position + 1, fd.position + 1 + Min(n, file.length - fd.position - 1));
    }
  }

  /** One byte at a time, a descriptor receives exactly the file: no byte behind its length. */
  lemma {:induction false} SingleBytesStopAtTheEnd(img: Image, table: Table, calls: seq<Call>, p: nat, d: nat)
    requires Readable(img, table, calls) && p < |table| && d < |table[p]|
    requires forall i :: 0 <= i < |calls| && calls[i].process == p && calls[i].fd == d ==> calls[i].nbytes == 1
    requires IsFile(img, table[p][d].inode) && table[p][d].position <= img.inodes[table[p][d].inode].length
    ensures Stream(img, table, calls, p, d) == Ahead(img, table[p][d], Own(calls, p, d))
    decreases |calls|
  {
    hide ReadFrom, IsFile, Ahead, AfterCall, Stream, Mounted, Readable;
    if calls == [] {
      NothingStreams(img, table, p, d);
      NothingAhead(img, table[p][d]);
    } else {
      FirstCall(img, table, calls, p, d);
      SingleByte(img, table[p][d], Own(calls[1..], p, d));
      SingleBytesStopAtTheEnd(img, AfterCall(img, table, calls[0]), calls[1..], p, d);
    }
  }

  lemma NothingStreams(img: Image, table: Table, p: nat, d: nat)
    requires Readable(img, table, []) && p < |table| && d < |table[p]|
    ensures Mounted(img) && Stream(img, table, [], p, d) == []
  {
  }

  lemma NothingAhead(img: Image, fd: Fd)
    requires Mounted(img) && IsFile(img, fd.inode) && fd.position <= img.inodes[fd.inode].length
    ensures Ahead(img, fd, 0) == []
  {
    hide Contents;
  }
}
