/**
  The read-only file system image of mp3/student-distrib/vfs.h: a directory of 63 entries, inodes that list
  their data blocks, and the data blocks; and what a sequence of reads of one file must return.
*/
module FileImage {
  import opened Arithmetic
  import opened Bytes
  import opened Sequences

  const FILENAME_LEN := 32
  const NUM_FILES := 63
  const BLOCKS_PER_INODE := 1023

  datatype Dentry = Dentry(filename: seq<Byte>, filetype: int, inode: nat)
  datatype Inode = Inode(length: nat, blocks: seq<nat>)

  datatype Image = Image(dir: seq<Dentry>, inodes: seq<Inode>, data: seq<seq<Byte>>) {
    ghost predicate WellFormed() {
      && |dir| == NUM_FILES && (forall i :: 0 <= i < NUM_FILES ==> |dir[i].filename| == FILENAME_LEN)
      && (forall i :: 0 <= i < |inodes| ==>
            |inodes[i].blocks| == BLOCKS_PER_INODE && inodes[i].length <= 4096 * BLOCKS_PER_INODE)
      && (forall i :: 0 <= i < |data| ==> |data[i]| == 4096)
    }

    /** The blocks from number `first` to number `last` of a file exist. */
    predicate Present(inode: nat, first: nat, last: int)
      requires inode < |inodes| && last < |inodes[inode].blocks|
    {
      forall j :: first <= j <= last ==> inodes[inode].blocks[j] < |data|
    }

    /** All blocks of a file exist. */
    ghost predicate Sound(inode: nat)
      requires WellFormed()
    {
      inode < |inodes| && Present(inode, 0, (inodes[inode].length + 4095) / 4096 - 1)
    }

    /** Byte k of a file, in block k / 4096 of its list (0 stands for the byte of a block that does not exist). */
    ghost function ByteAt(inode: nat, k: nat): Byte
      requires WellFormed() && inode < |inodes| && k < inodes[inode].length
    {
      var b := inodes[inode].blocks[k / 4096];
      if b < |data| then data[b][k % 4096] else 0
    }

    /** The file as its block list lays it out. */
    ghost function Bytes(inode: nat): (s: seq<Byte>)
      requires WellFormed() && Sound(inode)
      ensures |s| == inodes[inode].length
    {
      seq(inodes[inode].length, k requires 0 <= k < inodes[inode].length => ByteAt(inode, k))
    }
  }

  /** The first n data blocks of a file, in the order of its list. */
  ghost function FileBlocks(image: Image, inode: nat, n: nat): (bs: seq<seq<Byte>>)
    requires image.WellFormed() && inode < |image.inodes| && n <= BLOCKS_PER_INODE
    requires image.Present(inode, 0, n - 1)
    ensures |bs| == n && forall j :: 0 <= j < n ==> bs[j] == image.data[image.inodes[inode].blocks[j]]
  {
    seq(n, j requires 0 <= j < n => image.data[image.inodes[inode].blocks[j]])
  }

  lemma {:induction false} ByteOfBlocks(bs: seq<seq<Byte>>, j: nat, i: nat)
    requires forall k :: 0 <= k < |bs| ==> |bs[k]| == 4096
    ensures |Concat(bs)| == 4096 * |bs|
    ensures j < |bs| && i < 4096 ==> Concat(bs)[4096 * j + i] == bs[j][i]
    decreases |bs|
  {
    if bs == [] {
    } else {
      var last := |bs| - 1;
      ByteOfBlocks(bs[..last], j, i);
    }
  }

  /** A file is its data blocks, one after the other in the order of its list, cut to its length. */
  lemma FileIsItsBlocks(image: Image, inode: nat)
    requires image.WellFormed() && image.Sound(inode)
    ensures var n := image.inodes[inode].length;
            && n <= |Concat(FileBlocks(image, inode, (n + 4095) / 4096))|
            && image.Bytes(inode) == Concat(FileBlocks(image, inode, (n + 4095) / 4096))[..n]
  {
    var n := image.inodes[inode].length;
    var bs := FileBlocks(image, inode, (n + 4095) / 4096);
    ByteOfBlocks(bs, 0, 0);
    forall k | 0 <= k < n ensures image.Bytes(inode)[k] == Concat(bs)[k] {
      ByteOfBlocks(bs, k / 4096, k % 4096);
      assert k == 4096 * (k / 4096) + k % 4096;
    }
  }

  // ----- what reads return -----

  /** The number of the last block a read of n bytes looks at (it looks at one even for n == 0). */
  function LastBlock(offset: nat, n: nat): nat { (offset + Max(n, 1) - 1) / 4096 }

  lemma InBlock(x: nat, b: nat)
    requires 4096 * b <= x < 4096 * b + 4096
    ensures x / 4096 == b && x % 4096 == x - 4096 * b
  {
  }

  type Int32 = x: int | -0x8000_0000 <= x < 0x8000_0000

  /** A byte count as the unsigned 32-bit number the read loop compares with. */
  function Unsigned(size: Int32): nat { if size < 0 then size + 0x1_0000_0000 else size }

  /** What is left of a file at `pos`, at most `size` bytes of it. */
  function Piece(file: seq<Byte>, pos: nat, size: Int32): seq<Byte> {
    if pos >= |file| then [] else file[pos..pos + Min(Unsigned(size), |file| - pos)]
  }

  /** The position after reads of the given sizes. */
  function After(file: seq<Byte>, pos: nat, sizes: seq<Int32>): nat
    decreases |sizes|
  {
    if sizes == [] then pos
    else
      var last := |sizes| - 1;
      After(file, pos, sizes[..last]) + |Piece(file, After(file, pos, sizes[..last]), sizes[last])|
  }

  function Pieces(file: seq<Byte>, pos: nat, sizes: seq<Int32>): seq<seq<Byte>>
    decreases |sizes|
  {
    if sizes == [] then []
    else
      var last := |sizes| - 1;
      Pieces(file, pos, sizes[..last]) + [Piece(file, After(file, pos, sizes[..last]), sizes[last])]
  }

  function Total(sizes: seq<Int32>): int
    decreases |sizes|
  {
    if sizes == [] then 0 else Total(sizes[..|sizes| - 1]) + sizes[|sizes| - 1]
  }

  /** One read more. */
  lemma OneMoreRead(file: seq<Byte>, pos: nat, sizes: seq<Int32>, size: Int32)
    ensures var mid := After(file, pos, sizes);
            && After(file, pos, sizes + [size]) == mid + |Piece(file, mid, size)|
            && Pieces(file, pos, sizes + [size]) == Pieces(file, pos, sizes) + [Piece(file, mid, size)]
  {
    assert (sizes + [size])[..|sizes|] == sizes;
  }

  /** Read number k of a run. */
  lemma NextRead(file: seq<Byte>, pos: nat, sizes: seq<Int32>, k: nat)
    requires k < |sizes|
    ensures var mid := After(file, pos, sizes[..k]);
            && After(file, pos, sizes[..k + 1]) == mid + |Piece(file, mid, sizes[k])|
            && Pieces(file, pos, sizes[..k + 1]) == Pieces(file, pos, sizes[..k]) + [Piece(file, mid, sizes[k])]
  {
    assert sizes[..k + 1] == sizes[..k] + [sizes[k]];
    OneMoreRead(file, pos, sizes[..k], sizes[k]);
  }

  /** A piece is a part of the file. */
  lemma PieceIsPart(file: seq<Byte>, pos: nat, size: Int32)
    requires pos <= |file|
    ensures pos + |Piece(file, pos, size)| <= |file|
    ensures Piece(file, pos, size) == file[pos..pos + |Piece(file, pos, size)|]
  {
  }

  lemma Glue(file: seq<Byte>, a: nat, b: nat, c: nat)
    requires a <= b <= c <= |file|
    ensures file[a..b] + file[b..c] == file[a..c]
  {
  }

  lemma PieceFollows(file: seq<Byte>, pos: nat, mid: nat, size: Int32, pieces: seq<seq<Byte>>)
    requires pos <= mid <= |file| && Concat(pieces) == file[pos..mid]
    ensures var piece := Piece(file, mid, size);
            mid + |piece| <= |file| && Concat(pieces + [piece]) == file[pos..mid + |piece|]
  {
    var piece := Piece(file, mid, size);
    ConcatLast(pieces, piece);
    PieceIsPart(file, mid, size);
    Glue(file, pos, mid, mid + |piece|);
  }

  /** Any run of reads returns consecutive pieces of the file and stops at its end. */
  lemma {:induction false} PiecesAreConsecutive(file: seq<Byte>, pos: nat, sizes: seq<Int32>)
    requires pos <= |file|
    ensures pos <= After(file, pos, sizes) <= |file|
    ensures Concat(Pieces(file, pos, sizes)) == file[pos..After(file, pos, sizes)]
    decreases |sizes|
  {
    if sizes == [] {
    } else {
      var before := sizes[..|sizes| - 1];
      PiecesAreConsecutive(file, pos, before);
      PieceFollows(file, pos, After(file, pos, before), sizes[|sizes| - 1], Pieces(file, pos, before));
    }
  }

  /** With sizes a caller may pass, the run gets as far as the sizes add up to, or to the end of the file. */
  lemma {:induction false} RunGetsAsFarAsAsked(file: seq<Byte>, pos: nat, sizes: seq<Int32>)
    requires pos <= |file|
    requires forall k :: 0 <= k < |sizes| ==> sizes[k] >= 0
    ensures Total(sizes) >= 0 && After(file, pos, sizes) == Min(|file|, pos + Total(sizes))
    decreases |sizes|
  {
    if sizes == [] {
    } else {
      var last := |sizes| - 1;
      RunGetsAsFarAsAsked(file, pos, sizes[..last]);
    }
  }

  /** So the way a file is cut into reads does not matter: enough of them from the start return the file. */
  lemma ReadsReturnTheFile(file: seq<Byte>, sizes: seq<Int32>)
    requires forall k :: 0 <= k < |sizes| ==> sizes[k] >= 0
    ensures Concat(Pieces(file, 0, sizes)) <= file && |Concat(Pieces(file, 0, sizes))| == Min(|file|, Total(sizes))
    ensures Total(sizes) >= |file| ==> Concat(Pieces(file, 0, sizes)) == file
  {
    PiecesAreConsecutive(file, 0, sizes);
    RunGetsAsFarAsAsked(file, 0, sizes);
  }

  /** A read that asks for something returns nothing only at the end of the file. */
  lemma EmptyOnlyAtEnd(file: seq<Byte>, pos: nat, size: Int32)
    requires size > 0
    ensures Piece(file, pos, size) == [] <==> pos >= |file|
    ensures |Piece(file, pos, size)| == if pos >= |file| then 0 else Min(size, |file| - pos)
  {
  }

  /** A negative size counts as more than any file holds: all that is left is returned. */
  lemma NegativeSizeTakesTheRest(file: seq<Byte>, pos: nat, size: Int32)
    requires size < 0 && pos <= |file| <= 4096 * BLOCKS_PER_INODE
    ensures Piece(file, pos, size) == file[pos..]
  {
  }

  // ----- names -----

  /** A stored name up to its first NUL. */
  function Stored(filename: seq<Byte>): (s: seq<Byte>)
    ensures 0 !in s && |s| <= |filename| && s == filename[..|s|] && (|s| < |filename| ==> filename[|s|] == 0)
  {
    if filename == [] || filename[0] == 0 then [] else [filename[0]] + Stored(filename[1..])
  }

  /** The entry answers to the name: only the first 32 characters of a name count. */
  predicate Answers(e: Dentry, name: seq<Byte>) {
    Stored(e.filename) == name[..Min(|name|, FILENAME_LEN)]
  }

  /** Character i of a NUL-terminated name. */
  function CharOf(name: seq<Byte>, i: nat): Byte
    requires i <= |name|
  {
    if i < |name| then name[i] else 0
  }

  /** Two names agree up to 32 characters or up to the NUL in both. */
  ghost predicate Agree(name: seq<Byte>, filename: seq<Byte>, n: nat)
    requires n <= |name| && n <= |filename|
  {
    name[..n] == filename[..n] && 0 !in name
  }

  /** Having agreed so far, a difference settles it. */
  lemma DifferenceSettles(name: seq<Byte>, e: Dentry, i: nat)
    requires |e.filename| == FILENAME_LEN && i < FILENAME_LEN && i <= |name| && Agree(name, e.filename, i)
    requires CharOf(name, i) != e.filename[i] || CharOf(name, i) == 0
    ensures Answers(e, name) <==> CharOf(name, i) == e.filename[i]
  {
    var s := Stored(e.filename);
    if |s| < i {
      assert false;
    }
    if CharOf(name, i) == e.filename[i] {
      assert |name| == i && |s| == i;
    } else if |s| > i && i < |name| {
      assert s[i] == e.filename[i];
    }
  }

  lemma FullAgreement(name: seq<Byte>, e: Dentry)
    requires |e.filename| == FILENAME_LEN && FILENAME_LEN <= |name| && Agree(name, e.filename, FILENAME_LEN)
    ensures Answers(e, name)
  {
    var s := Stored(e.filename);
    if |s| < FILENAME_LEN {
      assert false;
    }
  }

  /** An entry answers exactly to the names that agree with it character by character, up to a NUL or 32 of them. */
  lemma AnswersCharByChar(e: Dentry, name: seq<Byte>)
    requires |e.filename| == FILENAME_LEN && 0 !in name
    ensures Answers(e, name) <==> forall i :: 0 <= i <= |name| && i < FILENAME_LEN ==> CharOf(name, i) == e.filename[i]
  {
    var s := Stored(e.filename);
    if Answers(e, name) {
      forall i | 0 <= i <= |name| && i < FILENAME_LEN ensures CharOf(name, i) == e.filename[i] {
        if i < |s| { assert s[i] == name[i]; }
      }
    } else {
      var n := Min(|name|, FILENAME_LEN);
      if |s| < n {
        assert CharOf(name, |s|) != e.filename[|s|];
      } else if |s| > n {
        assert CharOf(name, n) == 0 != s[n];
      } else {
        var k :| 0 <= k < n && s[k] != name[k];
        assert CharOf(name, k) != e.filename[k];
      }
    }
  }

  /** An entry is found under its own name: it answers to it, and any entry that does has the same name. */
  lemma OwnNameOnly(e: Dentry, other: Dentry)
    requires |e.filename| == FILENAME_LEN
    ensures Answers(e, Stored(e.filename))
    ensures Answers(other, Stored(e.filename)) <==> Stored(other.filename) == Stored(e.filename)
  {
    var s := Stored(e.filename);
    assert s[..Min(|s|, FILENAME_LEN)] == s;
  }
}
