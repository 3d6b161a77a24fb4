/** cat end to end: the read/write loop of ece391cat.c over fread and terminal_write. */
module Cat {
  import opened Basics
  import opened Descriptors
  import opened FileSystem
  import opened Reads
  import W = World
  import T = Terminals

  const CHUNK: nat := 1024

  /** The text of a file, and the single NUL that follows it when its last chunk runs over its end. */
  ghost function Output(img: Image, file: Inode): seq<byte>
    requires Mounted(img) && Sized(file)
  {
    Contents(img, file)[..file.length] + if file.length > CHUNK && file.length % CHUNK != 0 then [NUL] else []
  }

  /** What has been printed when the descriptor stands at a position. */
  ghost function Printed(img: Image, file: Inode, position: nat): seq<byte>
    requires Mounted(img) && Sized(file)
  {
    if position <= file.length then Contents(img, file)[..position] else Contents(img, file)[..file.length] + [NUL]
  }

  /** The positions cat's descriptor takes. */
  ghost predicate Stop(file: Inode, position: nat) {
    if file.length < CHUNK then position == 0 || position == file.length
    else position % CHUNK == 0 && position < file.length + CHUNK
  }

  /** From a stop below the end, fread delivers everything up to the next stop. */
  lemma RoundCount(img: Image, fd: Fd)
    requires Mounted(img) && IsFile(img, fd.inode)
    requires var file := img.inodes[fd.inode]; Stop(file, fd.position) && fd.position < file.length
    ensures var file, r := img.inodes[fd.inode], ReadFrom(img, fd, CHUNK);
      && 0 < r.status == |r.bytes| && r.fd == fd.(position := fd.position + r.status) && Stop(file, r.fd.position)
      && r.fd.position <= |Contents(img, file)| && r.bytes == Contents(img, file)[fd.position..r.fd.position]
  {
    hide Contents, Low, ReadFrom, Copied, Stop;
    ReadOfFile(img, fd, CHUNK);
    NextStop(img.inodes[fd.inode], fd.position);
  }

  lemma NextStop(file: Inode, position: nat)
    requires Sized(file) && Stop(file, position) && position < file.length
    ensures 0 <= Copied(file.length, position, CHUNK)
    ensures Stop(file, position + Copied(file.length, position, CHUNK))
  {
    CountCases(file.length, position, CHUNK);
    if file.length >= CHUNK {
      ChunksOfBlocks(file.length, position);
    }
  }

  /** Blocks are whole chunks: no chunk reaches behind the last block. */
  lemma ChunksOfBlocks(length: nat, position: nat)
    requires position % CHUNK == 0 && position < length
    ensures position + CHUNK <= BLK_SZ * BlockCount(length)
  {
    assert BLK_SZ * BlockCount(length) == CHUNK * (4 * BlockCount(length));
    assert position == CHUNK * (position / CHUNK);
    assert length < BLK_SZ * BlockCount(length);
  }

  /** What terminal_write shows of a piece of the file. */
  lemma RoundText(img: Image, file: Inode, from: nat, to: nat)
    requires Mounted(img) && Sized(file) && IsTextFile(img, file)
    requires from < file.length && from <= to <= |Contents(img, file)|
    ensures Printed(img, file, from) + W.Shown(Contents(img, file)[from..to], true) == Printed(img, file, to)
  {
    hide Contents, W.Shown;
    var all := Contents(img, file);
    if to <= file.length {
      W.ShownAll(all[from..to], true);
      Join(all, 0, from, to);
    } else {
      ShownPastTheEnd(all, file.length, from, to);
      Join(all, 0, from, file.length);
    }
  }

  lemma ShownPastTheEnd(all: seq<byte>, length: nat, from: nat, to: nat)
    requires from < length < to <= |all| && all[length] == NUL && forall i :: 0 <= i < length ==> all[i] != NUL
    ensures W.Shown(all[from..to], true) == all[from..length] + [NUL]
  {
    hide W.Shown;
    W.ShownToNul(all[from..to], length - from);
    assert all[from..to][..length - from + 1] == all[from..length] + [NUL];
  }

  lemma StopPastTheEnd(length: nat, position: nat)
    requires length >= CHUNK && position % CHUNK == 0 && length <= position < length + CHUNK
    ensures position == length <==> length % CHUNK == 0
  {
    var a, b := position / CHUNK, length / CHUNK;
    assert position == CHUNK * a && length == CHUNK * b + length % CHUNK;
  }

  lemma AtTheEnd(img: Image, file: Inode, position: nat)
    requires Mounted(img) && Sized(file) && Stop(file, position) && position >= file.length
    ensures Printed(img, file, position) == Output(img, file)
  {
    hide Contents;
    if file.length >= CHUNK {
      StopPastTheEnd(file.length, position);
    }
    assert file.length > CHUNK && file.length % CHUNK != 0 <==> position > file.length;
  }

  /** One round: from a stop below the end to the next, or nothing more at the end. */
  lemma Round(img: Image, fd: Fd, w: W.World)
    requires Mounted(img) && IsFile(img, fd.inode) && IsTextFile(img, img.inodes[fd.inode])
    requires Stop(img.inodes[fd.inode], fd.position) && W.Good(w)
    ensures fd.inode < |img.inodes| && Sized(img.inodes[fd.inode])
    ensures var file, r := img.inodes[fd.inode], ReadFrom(img, fd, CHUNK);
      && Stop(file, r.fd.position) && r.fd.inode == fd.inode
      && (if fd.position >= file.length then r.status == 0 && r.fd == fd
          else && r.status > 0 && r.fd.position == fd.position + r.status
               && W.PutText(W.PutText(w, Printed(img, file, fd.position)), W.Shown(r.bytes, true))
                  == W.PutText(w, Printed(img, file, r.fd.position)))
  {
    var file, r := img.inodes[fd.inode], ReadFrom(img, fd, CHUNK);
    if fd.position < file.length {
      RoundCount(img, fd);
      RoundText(img, file, fd.position, r.fd.position);
      W.PutTextAppends(w, Printed(img, file, fd.position), W.Shown(r.bytes, true));
    }
  }

  /** One read and one write of cat's loop. */
  method CatRound(img: Image, fds: array<Fd>, d: nat, terms: T.Terminals, buf: array<byte>, ghost w: W.World)
    returns (cnt: int)
    requires Mounted(img) && d < fds.Length && IsFile(img, fds[d].inode) && IsTextFile(img, img.inodes[fds[d].inode])
    requires Stop(img.inodes[fds[d].inode], fds[d].position) && buf.Length == CHUNK
    requires terms.Valid() && terms.Foreign(buf) && W.Good(w)
    requires terms.Abs() == W.PutText(w, Printed(img, img.inodes[fds[d].inode], fds[d].position))
    modifies fds, buf, terms.screen, terms.table, terms.Videos()
    ensures fds[d].inode == old(fds[d].inode) && terms.Valid()
    ensures Stop(img.inodes[fds[d].inode], fds[d].position)
    ensures terms.Abs() == W.PutText(w, Printed(img, img.inodes[fds[d].inode], fds[d].position))
    ensures if old(fds[d].position) >= img.inodes[fds[d].inode].length
            then cnt == 0 && fds[d] == old(fds[d])
            else cnt > 0 && fds[d].position == old(fds[d].position) + cnt
  {
    hide ReadFrom, Printed, IsFile, IsTextFile, Stop, Mounted, W.PutText, W.Good, W.Shown, T.Terminals.Abs,
      T.Terminals.Valid;
    Round(img, fds[d], w);
    ReadFits(img, fds[d], CHUNK);
    ghost var r := ReadFrom(img, fds[d], CHUNK);
    cnt := FRead(img, fds, d, buf, CHUNK);
    if cnt > 0 {
      assert buf[..cnt] == r.bytes;
      var written := terms.TerminalWrite(true, buf, cnt);
    }
  }

  /** cat's loop: for a text file of any length, exactly its bytes and at most one NUL are printed, then it stops. */
  method CatFile(img: Image, fds: array<Fd>, d: nat, terms: T.Terminals) returns (status: int)
    requires Mounted(img) && d < fds.Length && fds[d].position == 0 && IsFile(img, fds[d].inode)
    requires IsTextFile(img, img.inodes[fds[d].inode]) && terms.Valid()
    modifies fds, terms.screen, terms.table, terms.Videos()
    ensures status == 0 && terms.Valid() && W.Good(old(terms.Abs()))
    ensures terms.Abs() == W.PutText(old(terms.Abs()), Output(img, img.inodes[old(fds[d].inode)]))
  {
    terms.AbsIsGood();
    ghost var file, w := img.inodes[fds[d].inode], terms.Abs();
    W.PutTextOfNothing(w);
    assert Printed(img, file, 0) == [];
    var buf := new byte[CHUNK];
    assert terms.Foreign(buf);
    hide IsFile, IsTextFile, Contents, Printed, W.PutText, W.Good, T.Terminals.Abs, T.Terminals.Valid,
      T.Terminals.Foreign;
    while true
      invariant fds[d].inode == old(fds[d].inode) && Stop(file, fds[d].position)
      invariant terms.Valid() && terms.Abs() == W.PutText(w, Printed(img, file, fds[d].position))
      invariant fresh(buf) && terms.Foreign(buf)
      decreases file.length - fds[d].position
    {
      var cnt := CatRound(img, fds, d, terms, buf, w);
      if cnt == 0 {
        break;
      }
      if cnt == -1 {
        return 3;
      }
    }
    AtTheEnd(img, file, fds[d].position);
    return 0;
  }
}
