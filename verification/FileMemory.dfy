/** The two pages in which tmpfs keeps a file's bytes (kernel/src/filesystem/tmpfs/tmpfs.c). */
module FileMemory {
  import opened Words
  import opened Ram
  import opened Bytes
  import opened PageOwnership

  const FILE_PAGES: nat := 2
  const FILE_SIZE: nat := 8192

  /** The file at address a, byte by byte. */
  function FileBytes(m: seq<u64>, a: nat): (r: seq<byte>)
    ensures |r| == FILE_SIZE
  {
    seq<byte>(FILE_SIZE, k requires 0 <= k < FILE_SIZE => ByteAt(m, a + k))
  }

  /** memset of a new file's pages. */
  function Cleared(m: seq<u64>, p: nat): (r: seq<u64>)
    ensures |r| == |m|
  {
    ZeroedPages(m, p, FILE_PAGES)
  }

  function Spliced(data: seq<byte>, pos: nat, bytes: seq<byte>): (r: seq<byte>)
    requires pos + |bytes| <= |data|
    ensures |r| == |data|
  {
    data[..pos] + bytes + data[pos + |bytes|..]
  }

  /** Byte k of the file at a is the byte at a + k: eight to a word, the lowest first. */
  lemma FileByteIs(m: seq<u64>, a: nat, k: nat)
    requires k < 8192 && a % 8 == 0 && (a + k) / 8 < |m|
    ensures var w, j := m[(a + k) / 8], (a + k) % 8;
            FileBytes(m, a)[k] ==
            (if j == 0 then w else if j == 1 then w / 0x100 else if j == 2 then w / 0x1_0000
             else if j == 3 then w / 0x100_0000 else if j == 4 then w / 0x1_0000_0000
             else if j == 5 then w / 0x100_0000_0000 else if j == 6 then w / 0x1_0000_0000_0000
             else w / 0x100_0000_0000_0000) % 256
  {
    hide ByteOf;
    assert FileBytes(m, a)[k] == ByteAt(m, a + k);
    ByteIs(m[(a + k) / 8], (a + k) % 8);
  }

  lemma ByteIs(w: u64, j: nat)
    requires j < 8
    ensures ByteOf(w, j) ==
            (if j == 0 then w else if j == 1 then w / 0x100 else if j == 2 then w / 0x1_0000
             else if j == 3 then w / 0x100_0000 else if j == 4 then w / 0x1_0000_0000
             else if j == 5 then w / 0x100_0000_0000 else if j == 6 then w / 0x1_0000_0000_0000
             else w / 0x100_0000_0000_0000) % 256
  {
    ScaleIs();
  }

  predicate FilesApart(a: nat, b: nat) {
    a + FILE_SIZE <= b || b + FILE_SIZE <= a
  }

  lemma ZeroByte(k: nat)
    requires k < 8
    ensures ByteOf(0, k) == 0
  {
  }

  lemma ClearedBytes(m: seq<u64>, p: nat, c: nat)
    requires 512 * (p + 2) <= |m|
    ensures ByteAt(Cleared(m, p), c) == if 4096 * p <= c < 4096 * p + FILE_SIZE then 0 else ByteAt(m, c)
  {
    hide ByteOf;
    ZeroByte(c % 8);
  }

  /** A new file is all zeros, and files elsewhere keep their bytes. */
  lemma ClearedFiles(m: seq<u64>, p: nat, b: nat)
    requires 512 * (p + 2) <= |m|
    ensures FileBytes(Cleared(m, p), 4096 * p) == seq(FILE_SIZE, _ => 0)
    ensures FilesApart(4096 * p, b) ==> FileBytes(Cleared(m, p), b) == FileBytes(m, b)
  {
    hide ByteAt, Cleared;
    forall c: nat ensures ByteAt(Cleared(m, p), c) == if 4096 * p <= c < 4096 * p + FILE_SIZE then 0 else ByteAt(m, c) {
      ClearedBytes(m, p, c);
    }
  }

  /** A write into a file changes that file's bytes in range, and no file elsewhere. */
  lemma CopiedFiles(m: seq<u64>, a: nat, pos: nat, bytes: seq<byte>, b: nat)
    requires a + FILE_SIZE <= 8 * |m| && pos + |bytes| <= FILE_SIZE
    ensures FileBytes(Copied(m, a + pos, bytes), a) == Spliced(FileBytes(m, a), pos, bytes)
    ensures FilesApart(a, b) ==> FileBytes(Copied(m, a + pos, bytes), b) == FileBytes(m, b)
  {
    hide ByteAt, Copied;
    var m' := Copied(m, a + pos, bytes);
    forall c: nat
      ensures ByteAt(m', c) == if a + pos <= c < a + pos + |bytes| then bytes[c - (a + pos)] else ByteAt(m, c)
    {
      CopiedBytes(m, a + pos, bytes, c);
    }
  }

  /** Files on different live ranges do not overlap, and lie in memory. */
  lemma FilesInRanges(b0: seq<bool>, s: State, m: seq<u64>, p: nat, q: nat)
    requires Owned(b0, s) && 512 * |s.bits| <= |m|
    requires Range(p, FILE_PAGES) in s.live && Range(q, FILE_PAGES) in s.live
    ensures p > 0 && 4096 * p + FILE_SIZE <= 8 * |m| && 512 * (p + 2) <= |m|
    ensures p != q ==> FilesApart(4096 * p, 4096 * q)
  {
    hide Owned;
    OwnedAreInside(b0, s, Range(p, FILE_PAGES));
    if p != q {
      OwnedAreApart(b0, s, Range(p, FILE_PAGES), Range(q, FILE_PAGES));
    }
  }

  /** The words of a copy into a file, and of a clearing, are words of the file's own two pages. */
  lemma OtherFramesKept(m: seq<u64>, p: nat, pos: nat, bytes: seq<byte>, g: nat, i: nat)
    requires 512 * (p + 2) <= |m| && pos + |bytes| <= FILE_SIZE && i < 512 && g != p && g != p + 1
    ensures Entry(Copied(m, 4096 * p + pos, bytes), g, i) == Entry(m, g, i)
    ensures Entry(Cleared(m, p), g, i) == Entry(m, g, i)
  {
    hide Copied;
    if HasFrame(m, g) {
      CopiedWords(m, 4096 * p + pos, bytes, 512 * g + i);
    }
  }

  /** Bytes of a frame whose words are kept are kept. */
  lemma SameFrameSameFile(m: seq<u64>, m': seq<u64>, p: nat)
    requires |m'| == |m| && 512 * (p + 2) <= |m|
    requires forall g: nat, i: nat :: p <= g <= p + 1 && i < 512 ==> Entry(m', g, i) == Entry(m, g, i)
    ensures FileBytes(m', 4096 * p) == FileBytes(m, 4096 * p)
  {
    hide ByteOf;
    forall k: nat | k < FILE_SIZE ensures FileBytes(m', 4096 * p)[k] == FileBytes(m, 4096 * p)[k] {
      var x := (4096 * p + k) / 8;
      var g, i := x / 512, x % 512;
      assert x == 512 * g + i && p <= g <= p + 1;
      assert Entry(m', g, i) == Entry(m, g, i);
      assert ByteAt(m', 4096 * p + k) == ByteAt(m, 4096 * p + k);
    }
  }
}
