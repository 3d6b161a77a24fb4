/**
 memcpy and memset of lib.c over a flat memory: single bytes up to a multiple of four, then 4-byte
 words, then single bytes. The question is when that is the same as copying byte by byte.
 */
module Memory {
  import opened Basics

  /** Copy n bytes one at a time, lowest address first. */
  function ByteCopy(m: seq<byte>, dest: nat, src: nat, n: nat): (r: seq<byte>)
    requires dest + n <= |m| && src + n <= |m|
    ensures |r| == |m| && forall a :: 0 <= a < |m| && !(dest <= a < dest + n) ==> r[a] == m[a]
    decreases n
  {
    if n == 0 then m else ByteCopy(m[dest := m[src]], dest + 1, src + 1, n - 1)
  }

  /** Read four bytes, then write them. */
  function WordMove(m: seq<byte>, dest: nat, src: nat): (r: seq<byte>)
    requires dest + 4 <= |m| && src + 4 <= |m|
    ensures |r| == |m|
  {
    m[dest := m[src]][dest + 1 := m[src + 1]][dest + 2 := m[src + 2]][dest + 3 := m[src + 3]]
  }

  /** rep movsl. */
  function WordCopy(m: seq<byte>, dest: nat, src: nat, words: nat): (r: seq<byte>)
    requires dest + 4 * words <= |m| && src + 4 * words <= |m|
    ensures |r| == |m| && forall a :: 0 <= a < |m| && !(dest <= a < dest + 4 * words) ==> r[a] == m[a]
    decreases words
  {
    if words == 0 then m else WordCopy(WordMove(m, dest, src), dest + 4, src + 4, words - 1)
  }

  /** The bytes copied one by one before dest is aligned. */
  function Head(dest: nat, n: nat): (h: nat)
    ensures h <= n && h <= (4 - dest % 4) % 4 && (h < n ==> (dest + h) % 4 == 0)
    decreases n
  {
    if n == 0 || dest % 4 == 0 then 0 else 1 + Head(dest + 1, n - 1)
  }

  /** h bytes, then w words, then t bytes. */
  function Phases(m: seq<byte>, dest: nat, src: nat, h: nat, w: nat, t: nat): (r: seq<byte>)
    requires dest + h + 4 * w + t <= |m| && src + h + 4 * w + t <= |m|
    ensures |r| == |m|
  {
    ByteCopy(WordCopy(ByteCopy(m, dest, src, h), dest + h, src + h, w), dest + h + 4 * w, src + h + 4 * w, t)
  }

  /** What memcpy does to memory. */
  function Copied(m: seq<byte>, dest: nat, src: nat, n: nat): (r: seq<byte>)
    requires dest + n <= |m| && src + n <= |m|
    ensures |r| == |m|
  {
    var h := Head(dest, n);
    Phases(m, dest, src, h, (n - h) / 4, (n - h) % 4)
  }

  lemma InPhases(m: seq<byte>, dest: nat, src: nat, h: nat, w: nat, t: nat, head: seq<byte>, body: seq<byte>)
    requires dest + h + 4 * w + t <= |m| && src + h + 4 * w + t <= |m|
    requires head == ByteCopy(m, dest, src, h) && body == WordCopy(head, dest + h, src + h, w)
    ensures Phases(m, dest, src, h, w, t) == ByteCopy(body, dest + h + 4 * w, src + h + 4 * w, t)
  {
    hide ByteCopy, WordCopy;
  }

  /** memcpy, instruction by instruction. */
  method Memcpy(mem: array<byte>, dest: nat, src: nat, n: nat)
    requires dest + n <= mem.Length && src + n <= mem.Length
    modifies mem
    ensures mem[..] == Copied(old(mem[..]), dest, src, n)
  {
    hide ByteCopy, WordCopy, Head, Phases;
    ghost var m, h := mem[..], Head(dest, n);
    var edi, esi, ecx := CopyHead(mem, dest, src, n);
    var edx := ecx % 4;
    ecx := ecx / 4;
    ghost var w, head := ecx, mem[..];
    edi, esi := CopyWords(mem, edi, esi, ecx);
    ghost var body := mem[..];
    CopyTail(mem, edi, esi, edx);
    InPhases(m, dest, src, h, w, edx, head, body);
  }

  /** Single bytes until dest is aligned or nothing is left. */
  method CopyHead(mem: array<byte>, dest: nat, src: nat, n: nat) returns (edi: nat, esi: nat, ecx: nat)
    requires dest + n <= mem.Length && src + n <= mem.Length
    modifies mem
    ensures var h := Head(dest, n);
      && edi == dest + h && esi == src + h && ecx == n - h
      && mem[..] == ByteCopy(old(mem[..]), dest, src, h)
  {
    hide ByteCopy, Head;
    edi, esi, ecx := dest, src, n;
    ghost var m, h := mem[..], Head(dest, n);
    while ecx != 0 && edi % 4 != 0
      invariant 0 <= ecx <= n && edi == dest + n - ecx && esi == src + n - ecx
      invariant n - ecx + Head(edi, ecx) == h
      invariant ByteCopy(mem[..], edi, esi, Head(edi, ecx)) == ByteCopy(m, dest, src, h)
    {
      ByteStep(mem[..], edi, esi, Head(edi, ecx), ecx);
      mem[edi] := mem[esi];
      edi, esi, ecx := edi + 1, esi + 1, ecx - 1;
    }
    ByteStep(mem[..], edi, esi, 0, ecx);
  }

  /** Words while there are four bytes left. */
  method CopyWords(mem: array<byte>, dest: nat, src: nat, words: nat) returns (edi: nat, esi: nat)
    requires dest + 4 * words <= mem.Length && src + 4 * words <= mem.Length
    modifies mem
    ensures edi == dest + 4 * words && esi == src + 4 * words
    ensures mem[..] == WordCopy(old(mem[..]), dest, src, words)
  {
    hide WordCopy, WordMove;
    edi, esi := dest, src;
    var ecx := words;
    while ecx != 0
      invariant 0 <= ecx <= words && edi == dest + 4 * (words - ecx) && esi == src + 4 * (words - ecx)
      invariant WordCopy(mem[..], edi, esi, ecx) == WordCopy(old(mem[..]), dest, src, words)
    {
      WordStep(mem[..], edi, esi, ecx);
      MoveWord(mem, edi, esi);
      edi, esi, ecx := edi + 4, esi + 4, ecx - 1;
    }
    WordStep(mem[..], edi, esi, 0);
  }

  /** The last bytes of memcpy. */
  method CopyTail(mem: array<byte>, dest: nat, src: nat, n: nat)
    requires dest + n <= mem.Length && src + n <= mem.Length
    modifies mem
    ensures mem[..] == ByteCopy(old(mem[..]), dest, src, n)
  {
    var edi, esi, edx := dest, src, n;
    while edx != 0
      invariant 0 <= edx <= n && edi == dest + n - edx && esi == src + n - edx
      invariant ByteCopy(mem[..], edi, esi, edx) == ByteCopy(old(mem[..]), dest, src, n)
    {
      mem[edi] := mem[esi];
      edi, esi, edx := edi + 1, esi + 1, edx - 1;
    }
  }

  lemma ByteStep(m: seq<byte>, dest: nat, src: nat, n: nat, left: nat)
    requires dest + n <= |m| && src + n <= |m|
    ensures ByteCopy(m, dest, src, 0) == m
    ensures n > 0 ==> ByteCopy(m, dest, src, n) == ByteCopy(m[dest := m[src]], dest + 1, src + 1, n - 1)
    ensures Head(dest, left) == if left == 0 || dest % 4 == 0 then 0 else 1 + Head(dest + 1, left - 1)
  {
  }

  lemma WordStep(m: seq<byte>, dest: nat, src: nat, words: nat)
    requires dest + 4 * words <= |m| && src + 4 * words <= |m|
    ensures WordCopy(m, dest, src, 0) == m
    ensures words > 0 ==>
      WordCopy(m, dest, src, words) == WordCopy(WordMove(m, dest, src), dest + 4, src + 4, words - 1)
  {
  }

  method MoveWord(mem: array<byte>, dest: nat, src: nat)
    requires dest + 4 <= mem.Length && src + 4 <= mem.Length
    modifies mem
    ensures mem[..] == WordMove(old(mem[..]), dest, src)
  {
    var b0, b1, b2, b3 := mem[src], mem[src + 1], mem[src + 2], mem[src + 3];
    mem[dest], mem[dest + 1], mem[dest + 2], mem[dest + 3] := b0, b1, b2, b3;
  }

  // ---------- when it is byte-by-byte copying ----------

  lemma {:induction false} ByteCopyAppends(m: seq<byte>, dest: nat, src: nat, a: nat, b: nat)
    requires dest + a + b <= |m| && src + a + b <= |m|
    ensures ByteCopy(m, dest, src, a + b) == ByteCopy(ByteCopy(m, dest, src, a), dest + a, src + a, b)
    decreases a
  {
    if a > 0 {
      ByteCopyAppends(m[dest := m[src]], dest + 1, src + 1, a - 1, b);
    }
  }

  /** A word is four bytes, unless it is written one to three bytes above where it is read. */
  lemma WordIsFourBytes(m: seq<byte>, dest: nat, src: nat)
    requires dest + 4 <= |m| && src + 4 <= |m| && !(src < dest < src + 4)
    ensures WordMove(m, dest, src) == ByteCopy(m, dest, src, 4)
  {
    var m1 := m[dest := m[src]];
    var m2 := m1[dest + 1 := m1[src + 1]];
    var m3 := m2[dest + 2 := m2[src + 2]];
    var m4 := m3[dest + 3 := m3[src + 3]];
    assert ByteCopy(m, dest, src, 4) == ByteCopy(m1, dest + 1, src + 1, 3) == ByteCopy(m2, dest + 2, src + 2, 2)
        == ByteCopy(m3, dest + 3, src + 3, 1) == ByteCopy(m4, dest + 4, src + 4, 0) == m4;
  }

  lemma {:induction false} WordsAreBytes(m: seq<byte>, dest: nat, src: nat, words: nat)
    requires dest + 4 * words <= |m| && src + 4 * words <= |m| && !(src < dest < src + 4)
    ensures WordCopy(m, dest, src, words) == ByteCopy(m, dest, src, 4 * words)
    decreases words
  {
    hide ByteCopy, WordCopy, WordMove;
    WordStep(m, dest, src, words);
    if words > 0 {
      WordIsFourBytes(m, dest, src);
      WordsAreBytes(WordMove(m, dest, src), dest + 4, src + 4, words - 1);
      ByteCopyAppends(m, dest, src, 4, 4 * (words - 1));
    } else {
      ByteStep(m, dest, src, 0, 0);
    }
  }

  /** The regions for which the word step shows: dest one to three bytes above src, and a word to copy. */
  predicate Smears(dest: nat, src: nat, n: nat) {
    src < dest < src + 4 && n - Head(dest, n) >= 4
  }

  lemma CopiedByteByByte(m: seq<byte>, dest: nat, src: nat, n: nat)
    requires dest + n <= |m| && src + n <= |m| && !Smears(dest, src, n)
    ensures Copied(m, dest, src, n) == ByteCopy(m, dest, src, n)
  {
    hide ByteCopy, Phases, Head;
    var h := Head(dest, n);
    PhasesAreBytes(m, dest, src, h, (n - h) / 4, (n - h) % 4);
  }

  lemma PhasesAreBytes(m: seq<byte>, dest: nat, src: nat, h: nat, w: nat, t: nat)
    requires dest + h + 4 * w + t <= |m| && src + h + 4 * w + t <= |m|
    requires w > 0 ==> !(src < dest < src + 4)
    ensures Phases(m, dest, src, h, w, t) == ByteCopy(m, dest, src, h + 4 * w + t)
  {
    hide ByteCopy, WordCopy;
    var head := ByteCopy(m, dest, src, h);
    if w > 0 {
      WordsAreBytes(head, dest + h, src + h, w);
    } else {
      WordStep(head, dest + h, src + h, 0);
      ByteStep(head, dest + h, src + h, 0, 0);
    }
    ByteCopyAppends(m, dest, src, h, 4 * w);
    ByteCopyAppends(m, dest, src, h + 4 * w, t);
  }

  /** A memory on which a smearing copy goes wrong: one set byte, where the first word will be written. */
  function Marked(length: nat, at: nat): (m: seq<byte>)
    ensures |m| == length && forall a :: 0 <= a < length ==> m[a] == if a == at then 1 else 0
  {
    seq(length, a => if a == at then 1 else 0)
  }

  /** Copying upwards byte by byte repeats what lies between src and dest. */
  lemma {:induction false} UpwardCopyRepeats(m: seq<byte>, dest: nat, src: nat, n: nat)
    requires src < dest && dest + n <= |m| && forall a :: src <= a < dest ==> m[a] == 0
    ensures forall a :: dest <= a < dest + n ==> ByteCopy(m, dest, src, n)[a] == 0
    decreases n
  {
    if n > 0 {
      UpwardCopyRepeats(m[dest := m[src]], dest + 1, src + 1, n - 1);
    }
  }

  /** Through a word copy the mark lands one more gap up, where byte copying would have spread zeros. */
  lemma MarkJumps(m: seq<byte>, dest: nat, src: nat, h: nat, w: nat, t: nat)
    requires dest + h + 4 * w + t <= |m| && src < dest < src + 4 && w > 0
    requires forall a :: 0 <= a < |m| ==> m[a] == if a == dest + h then 1 else 0
    ensures Phases(m, dest, src, h, w, t)[src + h + 2 * (dest - src)] == 1
  {
    hide ByteCopy;
    var head := ByteCopy(m, dest, src, h);
    var p := src + h + 2 * (dest - src);
    WordStep(head, dest + h, src + h, w);
    assert WordMove(head, dest + h, src + h)[p] == head[dest + h] == 1;
  }

  lemma SmearingCopyDiffers(length: nat, dest: nat, src: nat, n: nat)
    requires dest + n <= length && Smears(dest, src, n)
    ensures var m := Marked(length, dest + Head(dest, n)); Copied(m, dest, src, n) != ByteCopy(m, dest, src, n)
  {
    hide ByteCopy, Phases, Head;
    var h := Head(dest, n);
    var m := Marked(length, dest + h);
    var p := src + h + 2 * (dest - src);
    MarkJumps(m, dest, src, h, (n - h) / 4, (n - h) % 4);
    UpwardCopyRepeats(m, dest, src, n);
    assert ByteCopy(m, dest, src, n)[p] == 0;
  }

  /** memcpy copies byte by byte, for every content of memory, exactly when its regions do not smear. */
  lemma MemcpyIsByteCopyIff(length: nat, dest: nat, src: nat, n: nat)
    requires dest + n <= length && src + n <= length
    ensures (forall m: seq<byte> | |m| == length :: Copied(m, dest, src, n) == ByteCopy(m, dest, src, n))
       <==> !Smears(dest, src, n)
  {
    hide Copied, ByteCopy, Smears;
    if Smears(dest, src, n) {
      SmearingCopyDiffers(length, dest, src, n);
      assert |Marked(length, dest + Head(dest, n))| == length;
    } else {
      forall m: seq<byte> | |m| == length ensures Copied(m, dest, src, n) == ByteCopy(m, dest, src, n) {
        CopiedByteByByte(m, dest, src, n);
      }
    }
  }

  lemma {:induction false} DownwardCopyMoves(m: seq<byte>, dest: nat, src: nat, n: nat)
    requires dest + n <= |m| && src + n <= |m| && (dest <= src || src + n <= dest)
    ensures ByteCopy(m, dest, src, n)[dest..dest + n] == m[src..src + n]
    decreases n
  {
    if n > 0 {
      var m1 := m[dest := m[src]];
      DownwardCopyMoves(m1, dest + 1, src + 1, n - 1);
      var r := ByteCopy(m1, dest + 1, src + 1, n - 1);
      assert r[dest] == m[src];
      assert r[dest..dest + n] == [r[dest]] + r[dest + 1..dest + n];
      assert m[src..src + n] == [m[src]] + m1[src + 1..src + n];
    }
  }

  /** Disjoint regions, or dest at or below src: the bytes arrive as they were, and nothing else changes. This
      is the case scrolling relies on. */
  lemma MemcpyMoves(m: seq<byte>, dest: nat, src: nat, n: nat)
    requires dest + n <= |m| && src + n <= |m| && (dest <= src || src + n <= dest)
    ensures Copied(m, dest, src, n) == m[..dest] + m[src..src + n] + m[dest + n..]
  {
    hide Copied, ByteCopy, Head;
    CopiedByteByByte(m, dest, src, n);
    DownwardCopyMoves(m, dest, src, n);
    ThreeParts(m, ByteCopy(m, dest, src, n), dest, dest + n);
  }

  lemma ThreeParts(m: seq<byte>, r: seq<byte>, from: nat, to: nat)
    requires |r| == |m| && from <= to <= |m| && forall a :: 0 <= a < |m| && !(from <= a < to) ==> r[a] == m[a]
    ensures r == m[..from] + r[from..to] + m[to..]
  {
  }

  /** memset: the same three phases with one byte value. */
  method Memset(mem: array<byte>, s: nat, c: int, n: nat)
    requires s + n <= mem.Length
    modifies mem
    ensures forall a :: s <= a < s + n ==> mem[a] as int == c % 256
    ensures forall a :: 0 <= a < mem.Length && !(s <= a < s + n) ==> mem[a] == old(mem[a])
  {
    var al: byte := (c % 256) as byte;
    var edi, ecx := s, n;
    while ecx != 0 && edi % 4 != 0
      invariant 0 <= ecx <= n && edi == s + n - ecx
      invariant forall a :: s <= a < edi ==> mem[a] == al
      invariant forall a :: 0 <= a < mem.Length && !(s <= a < edi) ==> mem[a] == old(mem[a])
    {
      mem[edi] := al;
      edi, ecx := edi + 1, ecx - 1;
    }
    var edx := ecx % 4;
    ecx := ecx / 4;
    while ecx != 0
      invariant 0 <= ecx && s <= edi && edi + 4 * ecx + edx == s + n
      invariant forall a :: s <= a < edi ==> mem[a] == al
      invariant forall a :: 0 <= a < mem.Length && !(s <= a < edi) ==> mem[a] == old(mem[a])
    {
      mem[edi], mem[edi + 1], mem[edi + 2], mem[edi + 3] := al, al, al, al;
      edi, ecx := edi + 4, ecx - 1;
    }
    while edx != 0
      invariant 0 <= edx && s <= edi && edi + edx == s + n
      invariant forall a :: s <= a < edi ==> mem[a] == al
      invariant forall a :: 0 <= a < mem.Length && !(s <= a < edi) ==> mem[a] == old(mem[a])
    {
      mem[edi] := al;
      edi, edx := edi + 1, edx - 1;
    }
  }
}
