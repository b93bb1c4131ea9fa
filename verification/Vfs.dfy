/** Reading, opening and closing files (mp3/student-distrib/vfs.c). */
module Vfs {
  import opened Arithmetic
  import opened Bytes
  import opened FileImage
  import opened Sequences

  const NUM_MAX_OPEN_FILES := 8

  datatype Ops = NoOps | TerminalOps | FileOps | DirectoryOps | RtcOps

  /** A slot of a process's file array; `position` is an unsigned 32-bit number. */
  datatype Descriptor = Descriptor(ops: Ops, inode: nat, position: nat, open: bool)

  /** Standard input and output. */
  const STANDARD := Descriptor(TerminalOps, 0, 0, true)

  const BLANK := Descriptor(NoOps, 0, 0, false)

  predicate Reserved(fd: int) { fd == 0 || fd == 1 }

  /** The first entry that answers to a name. */
  ghost predicate FirstMatch(dir: seq<Dentry>, name: seq<Byte>, i: int) {
    0 <= i < |dir| && Answers(dir[i], name) && forall j :: 0 <= j < i ==> !Answers(dir[j], name)
  }

  /** The first free slot after the reserved ones. */
  ghost predicate FirstFree(files: seq<Descriptor>, fd: int) {
    2 <= fd < |files| && !files[fd].open && forall i :: 2 <= i < fd ==> files[i].open
  }

  /** The slot that file_open fills in for an entry. */
  function Opened(e: Dentry): Descriptor {
    if e.filetype == 2 then Descriptor(FileOps, e.inode, 0, true)
    else if e.filetype == 1 then Descriptor(DirectoryOps, e.inode, 0, true)
    else Descriptor(RtcOps, e.inode, 2, true)
  }

  /** strncmp over the 32 characters of a directory entry. */
  method Strncmp(name: seq<Byte>, e: Dentry) returns (r: int)
    requires |e.filename| == FILENAME_LEN && 0 !in name
    ensures r == 0 <==> Answers(e, name)
  {
    for i := 0 to FILENAME_LEN
      invariant i <= |name| && Agree(name, e.filename, i)
    {
      if CharOf(name, i) != e.filename[i] || CharOf(name, i) == 0 {
        DifferenceSettles(name, e, i);
        return Signed(CharOf(name, i)) - Signed(e.filename[i]);
      }
    }
    FullAgreement(name, e);
    return 0;
  }

  /** The sum of a position and the result of a read, as an unsigned number. */
  function Moved(position: nat, r: int): nat
    requires r >= -1
  {
    if position + r < 0 then position + r + 0x1_0000_0000 else position + r
  }

  /** A byte as a signed character. */
  function Signed(b: Byte): int { if b < 128 then b else b - 256 }

  /** read_dentry_by_name: the first entry that answers to the name; the empty name finds nothing. */
  method ReadDentryByName(image: Image, name: seq<Byte>) returns (index: int)
    requires image.WellFormed() && 0 !in name
    ensures index != -1 ==> name != [] && FirstMatch(image.dir, name, index)
    ensures index == -1 <==> name == [] || forall i :: 0 <= i < NUM_FILES ==> !Answers(image.dir[i], name)
  {
    if CharOf(name, 0) == 0 {
      return -1;
    }
    for i := 0 to NUM_FILES
      invariant forall j :: 0 <= j < i ==> !Answers(image.dir[j], name)
    {
      var r := Strncmp(name, image.dir[i]);
      if r == 0 {
        return i;
      }
    }
    return -1;
  }

  /** The bytes that a read may copy. */
  function Wanted(image: Image, inode: nat, offset: nat, length: nat): nat {
    if inode >= |image.inodes| || offset >= image.inodes[inode].length then 0
    else Min(length, image.inodes[inode].length - offset)
  }

  /** A read fails: no such inode, or one of the blocks it looks at does not exist. */
  ghost predicate Fails(image: Image, inode: nat, offset: nat, length: nat)
    requires image.WellFormed()
  {
    || inode >= |image.inodes|
    || (offset < image.inodes[inode].length
        && !image.Present(inode, offset / 4096, LastBlock(offset, Wanted(image, inode, offset, length))))
  }

  /** Bytes are copied from `start` on until `length` are there, the block ends or the file ends. */
  method CopyFromBlock(block: seq<Byte>, start: nat, buf: array<Byte>, count0: nat, offset0: nat, length: nat,
      size: nat)
    returns (count: nat)
    requires |block| == 4096 && start < 4096 && count0 <= length && offset0 <= size
    requires count0 + Min(length - count0, size - offset0) <= buf.Length
    modifies buf
    ensures count == count0 + Min(Min(length - count0, size - offset0), 4096 - start)
    ensures forall k :: count0 <= k < count ==> buf[k] == block[start + (k - count0)]
    ensures forall k :: 0 <= k < buf.Length && !(count0 <= k < count) ==> buf[k] == old(buf[k])
  {
    var index, offset := start, offset0;
    count := count0;
    while count < length && index < 4096 && offset < size
      invariant count0 <= count <= length && index - start == offset - offset0 == count - count0
      invariant index <= 4096 && offset <= size
      invariant forall k :: count0 <= k < count ==> buf[k] == block[start + (k - count0)]
      invariant forall k :: 0 <= k < buf.Length && !(count0 <= k < count) ==> buf[k] == old(buf[k])
    {
      buf[count] := block[index];
      index := index + 1;
      offset := offset + 1;
      count := count + 1;
    }
  }

  /** The first `count` bytes of buf are the file's bytes from `offset` on. */
  ghost predicate Holds(image: Image, inode: nat, buf: seq<Byte>, offset: nat, count: nat)
    requires image.WellFormed() && inode < |image.inodes| && offset + count <= image.inodes[inode].length
        && count <= |buf|
  {
    forall k :: 0 <= k < count ==> buf[k] == image.ByteAt(inode, offset + k)
  }

  /** One more block of bytes. */
  lemma HoldsMore(image: Image, inode: nat, buf0: seq<Byte>, buf: seq<Byte>, offset: nat, count0: nat, count: nat,
      b: nat, start: nat)
    requires image.WellFormed() && inode < |image.inodes| && offset + count <= image.inodes[inode].length
    requires count0 <= count <= |buf| && |buf0| == |buf| && Holds(image, inode, buf0, offset, count0)
    requires 4096 * b + start == offset + count0 && start + (count - count0) <= 4096 && start < 4096
    requires b < BLOCKS_PER_INODE && image.inodes[inode].blocks[b] < |image.data|
    requires forall k :: 0 <= k < count0 ==> buf[k] == buf0[k]
    requires forall k :: count0 <= k < count ==>
        buf[k] == image.data[image.inodes[inode].blocks[b]][start + (k - count0)]
    ensures Holds(image, inode, buf, offset, count)
  {
    forall k | 0 <= k < count ensures buf[k] == image.ByteAt(inode, offset + k) {
      if k >= count0 {
        InBlock(offset + k, b);
      }
    }
  }

  /**
    read_data: the loop over the blocks of the list.  Either it fails, or it has copied what is left of
    the file from `offset` on, at most `length` bytes of it, and touched nothing else.
  */
  method ReadData(image: Image, inode: nat, offset: nat, buf: array<Byte>, length: nat) returns (r: int)
    requires image.WellFormed() && Wanted(image, inode, offset, length) <= buf.Length
    modifies buf
    ensures r == -1 <==> Fails(image, inode, offset, length)
    ensures r != -1 ==> r == Wanted(image, inode, offset, length) && (r > 0 ==> Holds(image, inode, buf[..], offset, r))
    ensures forall k :: Wanted(image, inode, offset, length) <= k < buf.Length ==> buf[k] == old(buf[k])
  {
    if inode >= |image.inodes| {
      return -1;
    }
    var node := image.inodes[inode];
    if offset >= node.length {
      return 0;
    }
    ghost var wanted := Wanted(image, inode, offset, length);
    ghost var last := LastBlock(offset, wanted);
    var count, block, start, done := 0, offset / 4096, offset % 4096, false;
    while !done
      invariant 0 <= count <= wanted && offset / 4096 <= block <= last + 1 <= BLOCKS_PER_INODE
      invariant done ==> count == wanted && block == last + 1
      invariant !done ==> (count < wanted || wanted == 0) && 0 <= start < 4096 && 4096 * block + start == offset + count
      invariant forall j :: offset / 4096 <= j < block ==> node.blocks[j] < |image.data|
      invariant Holds(image, inode, buf[..], offset, count)
      invariant forall k :: wanted <= k < buf.Length ==> buf[k] == old(buf[k])
      decreases !done, wanted - count
    {
      InBlock(offset + count, block);
      if node.blocks[block] >= |image.data| {
        return -1;
      }
      ghost var count0, start0, buf0 := count, start, buf[..];
      count := CopyFromBlock(image.data[node.blocks[block]], start, buf, count, offset + count, length, node.length);
      HoldsMore(image, inode, buf0, buf[..], offset, count0, count, block, start0);
      if count >= length || offset + count >= node.length {
        InBlock(offset + Max(wanted, 1) - 1, block);
        done := true;
      }
      start := 0;
      block := block + 1;
    }
    r := count;
  }

  // ----- the files of a process -----

  class FileTable {
    const image: Image
    var files: seq<Descriptor>

    /** A free slot is blank. */
    ghost predicate Valid()
      reads this
    {
      && image.WellFormed() && |files| == NUM_MAX_OPEN_FILES
      && forall i :: 0 <= i < NUM_MAX_OPEN_FILES ==> files[i].open || files[i] == BLANK
    }

    /** init_file_array: standard input and output are open, the rest is free. */
    constructor (image0: Image)
      requires image0.WellFormed()
      ensures Valid() && image == image0
      ensures forall i :: 0 <= i < NUM_MAX_OPEN_FILES ==> files[i] == if Reserved(i) then STANDARD else BLANK
    {
      image := image0;
      files := seq(NUM_MAX_OPEN_FILES, i => if Reserved(i) then STANDARD else BLANK);
    }

    method FindAvailable() returns (fd: int)
      requires Valid()
      ensures FirstFree(files, fd) || (fd == NUM_MAX_OPEN_FILES && forall i :: 2 <= i < NUM_MAX_OPEN_FILES ==>
                files[i].open)
    {
      fd := 2;
      while fd < NUM_MAX_OPEN_FILES && files[fd].open
        invariant 2 <= fd <= NUM_MAX_OPEN_FILES && forall i :: 2 <= i < fd ==> files[i].open
      {
        fd := fd + 1;
      }
    }

    /** file_open: the lowest free slot gets the first entry that answers to the name; a failure changes nothing. */
    method FileOpen(name: seq<Byte>) returns (fd: int, ghost entry: int)
      requires Valid() && 0 !in name
      modifies this`files
      ensures Valid()
      ensures fd != -1 ==> FirstMatch(image.dir, name, entry) && FirstFree(old(files), fd)
      ensures fd != -1 ==> files == old(files)[fd := Opened(image.dir[entry])]
      ensures fd != -1 ==> files[fd].open && files[fd].inode == image.dir[entry].inode
      ensures fd != -1 ==>
                var e, f := image.dir[entry], files[fd];
                || (e.filetype == 0 && f.ops == RtcOps && f.position == 2)
                || (e.filetype == 1 && f.ops == DirectoryOps && f.position == 0)
                || (e.filetype == 2 && f.ops == FileOps && f.position == 0)
      ensures fd == -1 ==> files == old(files)
      ensures fd == -1 <==>
              || name == [] || |name| >= 33
              || (forall i :: 0 <= i < NUM_FILES ==> !Answers(image.dir[i], name))
              || (forall i :: 2 <= i < NUM_MAX_OPEN_FILES ==> old(files)[i].open)
              || (exists i :: FirstMatch(image.dir, name, i) && image.dir[i].filetype !in [0, 1, 2])
    {
      entry := -1;
      if |name| >= 33 {
        return -1, -1;
      }
      var index := ReadDentryByName(image, name);
      if index == -1 {
        return -1, -1;
      }
      fd := FindAvailable();
      if fd >= NUM_MAX_OPEN_FILES {
        return -1, -1;
      }
      var e := image.dir[index];
      if e.filetype !in [0, 1, 2] {
        return -1, -1;
      }
      files := files[fd := Opened(e)];
      entry := index;
    }

    /** file_close: the slot becomes free again. */
    method FileClose(fd: int) returns (r: int)
      requires Valid()
      modifies this`files
      ensures Valid() && (r == 0 || r == -1)
      ensures r == 0 <==> 0 <= fd < NUM_MAX_OPEN_FILES && old(files)[fd].open
      ensures files == if r == 0 then old(files)[fd := BLANK] else old(files)
    {
      if fd >= NUM_MAX_OPEN_FILES || fd < 0 {
        return -1;
      } else if !files[fd].open {
        return -1;
      }
      files := files[fd := BLANK];
      r := 0;
    }

    /** Closing undoes opening: the whole table is as it was. */
    method OpenAndClose(name: seq<Byte>) returns (fd: int)
      requires Valid() && 0 !in name
      modifies this`files
      ensures Valid() && files == old(files)
    {
      ghost var entry;
      fd, entry := FileOpen(name);
      var r := FileClose(fd);
    }

    /**
      file_read: reads from the slot's position and moves it by the result.  A failure moves it back by one,
      since the unsigned sum takes -1 as the largest number.
    */
    method FileRead(fd: int, buf: array<Byte>, nbytes: Int32) returns (r: int)
      requires Valid() && 0 <= fd < NUM_MAX_OPEN_FILES && files[fd].open
      requires !Reserved(fd) ==> Wanted(image, files[fd].inode, files[fd].position, Unsigned(nbytes)) <= buf.Length
      modifies this`files, buf
      ensures Valid()
      ensures Reserved(fd) ==> r == -1 && files == old(files) && buf[..] == old(buf[..])
      ensures r >= -1
      ensures !Reserved(fd) ==>
                (r == -1 <==> Fails(image, old(files)[fd].inode, old(files)[fd].position, Unsigned(nbytes)))
      ensures !Reserved(fd) ==> OnlyMoved(old(files), files, fd, Moved(old(files)[fd].position, r))
      ensures r >= 0 ==> files[fd].position == old(files)[fd].position + r
      ensures !Reserved(fd) && r == -1 ==>
                files[fd].position == if old(files)[fd].position > 0 then old(files)[fd].position - 1 else 0xFFFF_FFFF
      ensures r != -1 ==> r == Wanted(image, old(files)[fd].inode, old(files)[fd].position, Unsigned(nbytes))
      ensures r > 0 ==> Holds(image, old(files)[fd].inode, buf[..], old(files)[fd].position, r)
    {
      if Reserved(fd) {
        return -1;
      }
      r := ReadData(image, files[fd].inode, files[fd].position, buf, Unsigned(nbytes));
      files := files[fd := files[fd].(position := Moved(files[fd].position, r))];
    }

    /** The slot is open on a file whose blocks all exist, at a position inside it; `file` are its bytes. */
    ghost predicate Reading(fd: int, file: seq<Byte>)
      requires Valid()
      reads this
    {
      2 <= fd < NUM_MAX_OPEN_FILES && files[fd].open && files[fd].position <= |file|
          && IsFile(image, files[fd].inode, file)
    }

    /** One read from such a slot: it returns the next piece of the file. */
    method ReadPiece(fd: int, nbytes: Int32, ghost file: seq<Byte>) returns (piece: seq<Byte>)
      requires Valid() && Reading(fd, file)
      modifies this`files
      ensures Valid() && Reading(fd, file) && piece == Piece(file, old(files[fd].position), nbytes)
      ensures OnlyMoved(old(files), files, fd, old(files[fd].position) + |piece|)
    {
      var inode, pos := files[fd].inode, files[fd].position;
      var buf := new Byte[Wanted(image, inode, pos, Unsigned(nbytes))](_ => 0);
      var r := FileRead(fd, buf, nbytes);
      FileReadIsPiece(image, inode, file, pos, nbytes, buf[..], r);
      piece := buf[..];
    }

    /** A run of reads: consecutive pieces of the file, the position moving along. */
    method ReadRun(fd: int, sizes: seq<Int32>, ghost file: seq<Byte>) returns (pieces: seq<seq<Byte>>)
      requires Valid() && Reading(fd, file)
      modifies this`files
      ensures Valid() && Reading(fd, file) && pieces == Pieces(file, old(files[fd].position), sizes)
      ensures OnlyMoved(old(files), files, fd, After(file, old(files[fd].position), sizes))
    {
      pieces := [];
      ghost var pos, files0 := files[fd].position, files;
      ghost var mid := pos;
      for k := 0 to |sizes|
        invariant Valid() && Reading(fd, file) && pieces == Pieces(file, pos, sizes[..k])
        invariant mid == After(file, pos, sizes[..k]) && OnlyMoved(files0, files, fd, mid)
      {
        NextRead(file, pos, sizes, k);
        var piece := ReadPiece(fd, sizes[k], file);
        pieces := pieces + [piece];
        mid := mid + |piece|;
      }
      assert sizes[..|sizes|] == sizes;
    }

    /** Opening a file and reading it in any chunks returns it from the start, as far as was asked. */
    method OpenAndRead(name: seq<Byte>, sizes: seq<Int32>) returns (fd: int, pieces: seq<seq<Byte>>, ghost entry: int)
      requires Valid() && 0 !in name
      requires forall k :: 0 <= k < |sizes| ==> sizes[k] >= 0
      requires forall i :: 0 <= i < NUM_FILES ==> image.Sound(image.dir[i].inode)
      modifies this`files
      ensures Valid()
      ensures fd != -1 ==> FirstMatch(image.dir, name, entry)
      ensures fd != -1 && image.dir[entry].filetype == 2 ==>
                && Concat(pieces) <= image.Bytes(image.dir[entry].inode)
                && |Concat(pieces)| == Min(image.inodes[image.dir[entry].inode].length, Total(sizes))
    {
      fd, entry := FileOpen(name);
      if fd == -1 {
        return -1, [], entry;
      }
      if files[fd].ops == FileOps {
        ghost var file := image.Bytes(files[fd].inode);
        pieces := ReadRun(fd, sizes, file);
        ReadsReturnTheFile(file, sizes);
      } else {
        pieces := [];
      }
    }
  }

  /** Only the position of one slot has changed. */
  ghost predicate OnlyMoved(before: seq<Descriptor>, files: seq<Descriptor>, fd: int, position: nat)
    requires 0 <= fd < |before|
  {
    && |files| == |before| && files[fd] == before[fd].(position := position)
    && forall i :: 0 <= i < |files| && i != fd ==> files[i] == before[i]
  }

  ghost predicate IsFile(image: Image, inode: nat, file: seq<Byte>)
    requires image.WellFormed()
  {
    image.Sound(inode) && file == image.Bytes(inode)
  }

  predicate ConcernsByte(offset: nat, length: nat, k: int) { k == offset || offset <= k < offset + length }

  /**
    A read fails exactly if there is no such inode, or if a byte that it is to copy is in a block that does
    not exist; one that copies nothing still looks at the block of its position, unless it is at the end.
  */
  lemma FailsOnMissingBlock(image: Image, inode: nat, offset: nat, length: nat)
    requires image.WellFormed() && inode < |image.inodes|
    ensures var file := image.inodes[inode];
            Fails(image, inode, offset, length) <==>
            exists k :: ConcernsByte(offset, length, k) && k < file.length && file.blocks[k / 4096] >= |image.data|
  {
    var file, n := image.inodes[inode], Wanted(image, inode, offset, length);
    if offset < file.length {
      var last := LastBlock(offset, n);
      if k :| ConcernsByte(offset, length, k) && k < file.length && file.blocks[k / 4096] >= |image.data| {
        assert offset / 4096 <= k / 4096 <= last;
      }
      if j :| offset / 4096 <= j <= last && file.blocks[j] >= |image.data| {
        var k := if j == offset / 4096 then offset else 4096 * j;
        assert ConcernsByte(offset, length, k) && k / 4096 == j;
      }
    }
  }

  /** If all blocks of a file exist, no read of it fails. */
  lemma SoundNeverFails(image: Image, inode: nat, offset: nat, length: nat)
    requires image.WellFormed() && image.Sound(inode)
    ensures !Fails(image, inode, offset, length)
  {
  }

  /** What a read of such a file leaves in a buffer of the right size. */
  lemma FileReadIsPiece(image: Image, inode: nat, file: seq<Byte>, pos: nat, nbytes: Int32, buf: seq<Byte>, r: int)
    requires image.WellFormed() && IsFile(image, inode, file) && pos <= |file|
    requires |buf| == Wanted(image, inode, pos, Unsigned(nbytes))
    requires r == -1 <==> Fails(image, inode, pos, Unsigned(nbytes))
    requires r != -1 ==> r == |buf| && (r > 0 ==> Holds(image, inode, buf, pos, r))
    ensures r == |buf| && buf == Piece(file, pos, nbytes)
  {
    SoundNeverFails(image, inode, pos, Unsigned(nbytes));
    assert forall k :: 0 <= k < r ==> buf[k] == file[pos + k];
  }
}
