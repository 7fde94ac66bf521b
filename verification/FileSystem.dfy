/**
 The read-only file system image: index nodes that name 4096-byte data blocks,
 and a boot block of directory entries. A file is specified as one flat byte
 string, the concatenation of its blocks cut at its length; the block-indexed
 reads are proved to be slices of it.
 */
module FileSystem {
  import opened Text
  import opened Strings

  const BLOCK_SIZE: nat := 4096
  const BLOCKS_PER_INODE: nat := 1023
  const NAME_LEN: nat := 32
  const TWO_32: nat := 0x1_0000_0000
  const MAX_BLOCKS: nat := 0x10_0000      // an image with that many blocks would not fit into 32-bit memory

  /** A directory entry. Its 32 name bytes need not hold a NUL; the type field follows them in memory. */
  datatype Dentry = Dentry(filename: Bytes, filetype: Byte, inodeNum: nat) {
    predicate Valid() {
      |filename| == NAME_LEN
    }

    function Name(): Bytes {
      CString(filename)
    }

    /** What a C string routine sees from the start of the name: the name, then the little-endian type. */
    function Memory(): Bytes {
      filename + [filetype, NUL]
    }
  }

  datatype Inode = Inode(length: nat, blockNums: seq<nat>)

  /** `dentries` is the memory behind the boot block header read as entries, so it may reach past `dentryNum`. */
  datatype Image = Image(dentryNum: nat, inodeNum: nat, dBlockNum: nat,
                         dentries: seq<Dentry>, inodes: seq<Inode>, blocks: seq<Bytes>) {
    predicate Valid() {
      && dentryNum <= |dentries| && inodeNum <= |dentries|
      && inodeNum <= |inodes|
      && dBlockNum < MAX_BLOCKS
      && (forall i | 0 <= i < |dentries| :: dentries[i].Valid())
      && (forall i | 0 <= i < |inodes| :: inodes[i].length < 0x8000_0000 && |inodes[i].blockNums| == BLOCKS_PER_INODE)
      && (forall b | 0 <= b < |blocks| :: |blocks[b]| == BLOCK_SIZE)
    }

    /** Every block number that the first `n` bytes of the inode need, and that passes the driver's own bound, is real. */
    predicate Readable(ino: nat, n: nat)
      requires Valid() && ino < |inodes|
    {
      forall b: nat :: b < BlocksFor(n) && b < dBlockNum ==> HasBlock(ino, b)
    }

    predicate HasBlock(ino: nat, b: nat)
      requires Valid() && ino < |inodes|
    {
      b < BLOCKS_PER_INODE && inodes[ino].blockNums[b] < |blocks|
    }

    predicate WellFormed(ino: nat)
      requires Valid() && ino < |inodes|
    {
      BlocksFor(inodes[ino].length) <= Min(dBlockNum, BLOCKS_PER_INODE) && Readable(ino, inodes[ino].length)
    }

    function FileBlocks(ino: nat): seq<nat>
      requires Valid() && ino < |inodes| && WellFormed(ino)
    {
      inodes[ino].blockNums[..BlocksFor(inodes[ino].length)]
    }

    lemma FileBlocksExist(ino: nat)
      requires Valid() && ino < |inodes| && WellFormed(ino)
      ensures forall i | 0 <= i < |FileBlocks(ino)| ::
                FileBlocks(ino)[i] < |blocks| && |blocks[FileBlocks(ino)[i]]| == BLOCK_SIZE
    {
      var nums := FileBlocks(ino);
      forall i | 0 <= i < |nums| ensures nums[i] < |blocks| && |blocks[nums[i]]| == BLOCK_SIZE {
        assert HasBlock(ino, i);
      }
    }

    function Content(ino: nat): (s: Bytes)
      requires Valid() && ino < |inodes| && WellFormed(ino)
      ensures |s| == inodes[ino].length
    {
      FileBlocksExist(ino);
      Joined(blocks, FileBlocks(ino))[..inodes[ino].length]
    }
  }

  function BlocksFor(n: nat): nat {
    (n + BLOCK_SIZE - 1) / BLOCK_SIZE
  }

  function Joined(blocks: seq<Bytes>, nums: seq<nat>): (s: Bytes)
    requires forall i | 0 <= i < |nums| :: nums[i] < |blocks| && |blocks[nums[i]]| == BLOCK_SIZE
    ensures |s| == |nums| * BLOCK_SIZE
  {
    if nums == [] then [] else blocks[nums[0]] + Joined(blocks, nums[1..])
  }

  lemma {:induction false} JoinedAt(blocks: seq<Bytes>, nums: seq<nat>, k: nat)
    requires forall i | 0 <= i < |nums| :: nums[i] < |blocks| && |blocks[nums[i]]| == BLOCK_SIZE
    requires k < |nums| * BLOCK_SIZE
    ensures Joined(blocks, nums)[k] == blocks[nums[k / BLOCK_SIZE]][k % BLOCK_SIZE]
  {
    if k >= BLOCK_SIZE {
      JoinedAt(blocks, nums[1..], k - BLOCK_SIZE);
    }
  }

  /** Byte `k` of a file by the block index, wherever that index leads to a block. */
  function ByteAt(img: Image, ino: nat, k: nat): Byte
    requires img.Valid() && ino < |img.inodes|
  {
    var b := k / BLOCK_SIZE;
    if img.HasBlock(ino, b) then img.blocks[img.inodes[ino].blockNums[b]][k % BLOCK_SIZE]
    else NUL
  }

  lemma ContentAt(img: Image, ino: nat, k: nat)
    requires img.Valid() && ino < |img.inodes| && img.WellFormed(ino)
    requires k < img.inodes[ino].length
    ensures img.Content(ino)[k] == ByteAt(img, ino, k)
    ensures k / 4096 < |img.inodes[ino].blockNums| && img.inodes[ino].blockNums[k / 4096] < |img.blocks|
    ensures |img.blocks[img.inodes[ino].blockNums[k / 4096]]| == 4096
    ensures img.Content(ino)[k] == img.blocks[img.inodes[ino].blockNums[k / 4096]][k % 4096]
  {
    img.FileBlocksExist(ino);
    JoinedAt(img.blocks, img.FileBlocks(ino), k);
    assert k / BLOCK_SIZE < BlocksFor(img.inodes[ino].length);
    assert img.HasBlock(ino, k / BLOCK_SIZE);
  }

  // ----- read_data

  /** The request length after the driver's end-of-file test, whose sum is a 32-bit one. */
  function Clamp(offset: nat, length: nat, fileLen: nat): nat
    requires offset <= fileLen
  {
    if (offset + length) % TWO_32 > fileLen then fileLen - offset else length
  }

  /** The clamped request stays inside the file exactly when the 32-bit sum does not wrap around. */
  lemma ClampStaysInside(offset: nat, length: nat, fileLen: nat)
    requires offset <= fileLen < TWO_32 && length < TWO_32
    ensures offset + Clamp(offset, length, fileLen) <= fileLen <==> offset + length < TWO_32
  {
    if offset + length >= TWO_32 {
      assert (offset + length) % TWO_32 == offset + length - TWO_32 < offset;
    }
  }

  /** A signed 32-bit size as the unsigned one that read_data takes it for. */
  function Unsigned(n: int): (u: nat)
    requires -0x8000_0000 <= n < 0x8000_0000
    ensures u < TWO_32
  {
    if n < 0 then n + TWO_32 else n
  }

  /** How many bytes the copying loop stores before it ends or meets a block number the image cannot have. */
  function Reach(img: Image, offset: nat, n: nat): (w: nat)
    ensures w <= n && (w < n ==> w == 0 || offset + w == img.dBlockNum * BLOCK_SIZE)
    ensures w == n <==> n == 0 || (offset + n - 1) / BLOCK_SIZE < img.dBlockNum
  {
    if offset + n <= img.dBlockNum * BLOCK_SIZE || n == 0 then n
    else if offset <= img.dBlockNum * BLOCK_SIZE then img.dBlockNum * BLOCK_SIZE - offset
    else 0
  }

  function BytesAt(img: Image, ino: nat, offset: nat, n: nat): (s: Bytes)
    requires img.Valid() && ino < |img.inodes|
    ensures |s| == n && forall k | 0 <= k < n :: s[k] == ByteAt(img, ino, offset + k)
  {
    if n == 0 then [] else BytesAt(img, ino, offset, n - 1) + [ByteAt(img, ino, offset + n - 1)]
  }

  /** Memory after `w` passes of the loop: that many bytes of the file, by the block index, and no other cell changed. */
  predicate Copying(img: Image, ino: nat, offset: nat, w: nat, was: Bytes, now: Bytes, at: nat)
    requires img.Valid() && ino < |img.inodes|
  {
    && |now| == |was| && at + w <= |was|
    && now[..at] == was[..at] && now[at + w..] == was[at + w..]
    && now[at..at + w] == BytesAt(img, ino, offset, w)
  }

  lemma CopyingOn(img: Image, ino: nat, offset: nat, w: nat, was: Bytes, now: Bytes, at: nat)
    requires img.Valid() && ino < |img.inodes| && Copying(img, ino, offset, w, was, now, at) && at + w < |was|
    ensures Copying(img, ino, offset, w + 1, was, now[at + w := ByteAt(img, ino, offset + w)], at)
  {
    var b := ByteAt(img, ino, offset + w);
    var next := now[at + w := b];
    assert next[..at] == now[..at];
    assert next[at..at + w + 1] == now[at..at + w] + [b];
    assert next[at + w + 1..] == now[at + w..][1..] == was[at + w..][1..] == was[at + w + 1..];
  }

  /** Memory after the loop, however it ended. */
  predicate Copied(img: Image, ino: nat, offset: nat, n: nat, was: Bytes, now: Bytes, at: nat)
    requires img.Valid() && ino < |img.inodes|
  {
    Copying(img, ino, offset, Reach(img, offset, n), was, now, at)
  }

  /** `read_data`: -1 past the end or on a block number the image cannot have, else the bytes from `offset` on. The
      clamp may have let the request through unclamped. */
  method ReadData(img: Image, ino: nat, offset: nat, buf: array?<Byte>, at: nat, length: nat) returns (r: int)
    requires img.Valid() && ino < |img.inodes| && offset < TWO_32 && length < TWO_32
    requires offset <= img.inodes[ino].length ==> img.Readable(ino, offset + Clamp(offset, length, img.inodes[ino].length))
    requires buf != null && offset <= img.inodes[ino].length ==>
               at + Reach(img, offset, Clamp(offset, length, img.inodes[ino].length)) <= buf.Length
    modifies buf
    ensures buf == null || offset > img.inodes[ino].length ==> r == -1
    ensures buf != null && offset > img.inodes[ino].length ==> buf[..] == old(buf[..])
    ensures buf != null && offset <= img.inodes[ino].length ==>
              var n := Clamp(offset, length, img.inodes[ino].length);
              r == (if Reach(img, offset, n) < n then -1 else n) && Copied(img, ino, offset, n, old(buf[..]), buf[..], at)
  {
    if buf == null { return -1; }
    var inode := img.inodes[ino];
    var n := length;
    if offset > inode.length { return -1; }
    if (offset + n) % TWO_32 > inode.length { n := inode.length - offset; }
    ghost var was, w := buf[..], Reach(img, offset, n);
    var i := 0;
    while i < n
      invariant 0 <= i <= w && Copying(img, ino, offset, i, was, buf[..], at)
    {
      var b := Fetch(img, ino, offset, i, n);
      if b == None {
        return -1;
      }
      CopyingOn(img, ino, offset, i, was, buf[..], at);
      buf[at + i] := b.value;
      i := i + 1;
    }
    return i;
  }

  /** The byte that pass `i` of the loop finds, unless its block number is too large. */
  method Fetch(img: Image, ino: nat, offset: nat, i: nat, ghost n: nat) returns (b: Option<Byte>)
    requires img.Valid() && ino < |img.inodes| && offset < 0x8000_0000 && i < n && i <= Reach(img, offset, n)
    requires img.Readable(ino, offset + n)
    ensures b == if i < Reach(img, offset, n) then Some(ByteAt(img, ino, offset + i)) else None
  {
    InReach(img, offset, n, i);
    var dataIdx, blockOff := (offset + i) % TWO_32 % BLOCK_SIZE, (offset + i) % TWO_32 / BLOCK_SIZE;
    if blockOff >= img.dBlockNum {
      return None;
    }
    BlockOrder(offset + i, offset + n - 1);
    assert img.HasBlock(ino, blockOff);
    var blockIdx := img.inodes[ino].blockNums[blockOff];
    return Some(img.blocks[blockIdx][dataIdx]);
  }

  /** Up to the first bad block number the loop's 32-bit sum does not wrap around. */
  lemma InReach(img: Image, offset: nat, n: nat, i: nat)
    requires img.Valid() && offset < 0x8000_0000 && i < n && i <= Reach(img, offset, n)
    ensures (offset + i) % TWO_32 == offset + i
    ensures (offset + i) / BLOCK_SIZE < img.dBlockNum <==> i < Reach(img, offset, n)
  {}

  lemma NoBlockMissing(img: Image, ino: nat, end: nat)
    requires img.Valid() && ino < |img.inodes| && img.WellFormed(ino)
    requires 0 < end <= img.inodes[ino].length
    ensures (end - 1) / BLOCK_SIZE < img.dBlockNum
  {
    BlockOrder(end - 1, img.inodes[ino].length - 1);
  }

  lemma BlockOrder(a: nat, b: nat)
    requires a <= b
    ensures a / BLOCK_SIZE <= b / BLOCK_SIZE < BlocksFor(b + 1)
  {}

  // ----- file_read

  /** An open regular file: the two descriptor fields that file_read uses. */
  class FileDescriptor {
    const inodeIdx: nat
    var filePos: nat

    constructor (inodeIdx: nat)
      ensures this.inodeIdx == inodeIdx && filePos == 0
    {
      this.inodeIdx := inodeIdx;
      filePos := 0;
    }

    ghost predicate Sound(img: Image)
      reads this
    {
      && img.Valid() && inodeIdx < |img.inodes|
      && img.Readable(inodeIdx, img.inodes[inodeIdx].length)
      && filePos <= img.inodes[inodeIdx].length
    }

    /** How far a read can write; a negative size reads as a large unsigned one. */
    function ReadReach(img: Image, nbytes: int): nat
      requires img.Valid() && inodeIdx < |img.inodes| && filePos <= img.inodes[inodeIdx].length
      requires -0x8000_0000 <= nbytes < 0x8000_0000
      reads this`filePos
    {
      Reach(img, filePos, Clamp(filePos, Unsigned(nbytes), img.inodes[inodeIdx].length))
    }

    /** `file_read` into `buf` from index `at` on. A negative size returns the whole rest of the file if it is larger
        than the position, and otherwise fails, with memory behind the file copied out. */
    method FileRead(img: Image, buf: array?<Byte>, at: nat, nbytes: int) returns (r: int)
      requires Sound(img) && -0x8000_0000 <= nbytes < 0x8000_0000
      requires nbytes < 0 ==> img.Readable(inodeIdx, TWO_32 + filePos)
      requires buf != null ==> at + (if nbytes >= 0 then nbytes else ReadReach(img, nbytes)) <= buf.Length
      modifies this`filePos, buf
      ensures Sound(img)
      ensures buf == null ==> r == -1
      ensures -1 <= r && (nbytes >= 0 ==> r <= nbytes) && filePos == old(filePos) + (if r == -1 then 0 else r)
      ensures buf != null ==> var reach := if nbytes >= 0 then nbytes else old(ReadReach(img, nbytes));
                forall k | 0 <= k < buf.Length && !(at <= k < at + reach) :: buf[k] == old(buf[k])
      ensures buf != null && img.WellFormed(inodeIdx) && old(filePos) + nbytes >= old(filePos) ==>
                && r == |Chunk(img.Content(inodeIdx), old(filePos), nbytes)|
                && buf[at..at + r] == Chunk(img.Content(inodeIdx), old(filePos), nbytes)
                && forall k | at + r <= k < buf.Length :: buf[k] == old(buf[k])
      ensures buf != null && img.WellFormed(inodeIdx) && nbytes < 0 ==>
                if old(filePos) + nbytes >= 0 then r == -1
                else at + r <= buf.Length && r >= 0 && buf[at..at + r] == img.Content(inodeIdx)[old(filePos)..]
    {
      if buf == null { return -1; }
      ghost var was, fileLen := buf[..], img.inodes[inodeIdx].length;
      ghost var room := if nbytes >= 0 then nbytes else ReadReach(img, nbytes);
      ClampOfSigned(filePos, nbytes, fileLen);
      ReadableToClamp(img, inodeIdx, filePos, nbytes);
      r := ReadData(img, inodeIdx, filePos, buf, at, Unsigned(nbytes));
      CopiedFrame(img, inodeIdx, filePos, Clamp(filePos, Unsigned(nbytes), fileLen), was, buf[..], at, room);
      if img.WellFormed(inodeIdx) { FileOutcome(img, inodeIdx, filePos, nbytes, was, buf[..], at, r); }
      if r != -1 { filePos := filePos + r; }
    }
  }

  /** What the clamp makes of a signed size. */
  lemma ClampOfSigned(offset: nat, nbytes: int, fileLen: nat)
    requires offset <= fileLen < 0x8000_0000 && -0x8000_0000 <= nbytes < 0x8000_0000
    ensures nbytes >= 0 ==> Clamp(offset, Unsigned(nbytes), fileLen) == Min(nbytes, fileLen - offset)
    ensures nbytes < 0 ==>
              Clamp(offset, Unsigned(nbytes), fileLen) == if offset + nbytes >= 0 then nbytes + TWO_32 else fileLen - offset
  {
    if nbytes < 0 {
      if offset + nbytes >= 0 { assert (offset + nbytes + TWO_32) % TWO_32 == offset + nbytes; }
    }
  }

  lemma ReadableToClamp(img: Image, ino: nat, offset: nat, nbytes: int)
    requires img.Valid() && ino < |img.inodes| && offset <= img.inodes[ino].length
    requires -0x8000_0000 <= nbytes < 0x8000_0000
    requires img.Readable(ino, img.inodes[ino].length) && (nbytes < 0 ==> img.Readable(ino, TWO_32 + offset))
    ensures img.Readable(ino, offset + Clamp(offset, Unsigned(nbytes), img.inodes[ino].length))
  {
    var end := offset + Clamp(offset, Unsigned(nbytes), img.inodes[ino].length);
    ClampOfSigned(offset, nbytes, img.inodes[ino].length);
    forall b: nat | b < BlocksFor(end) && b < img.dBlockNum ensures img.HasBlock(ino, b) {
      if end <= img.inodes[ino].length {
        BlocksGrow(end, img.inodes[ino].length);
      } else {
        BlocksGrow(end, TWO_32 + offset);
      }
    }
  }

  lemma BlocksGrow(a: nat, b: nat)
    requires a <= b
    ensures BlocksFor(a) <= BlocksFor(b)
  {}

  lemma CopiedFrame(img: Image, ino: nat, offset: nat, n: nat, was: Bytes, now: Bytes, at: nat, room: nat)
    requires img.Valid() && ino < |img.inodes| && Copied(img, ino, offset, n, was, now, at) && Reach(img, offset, n) <= room
    ensures forall k | 0 <= k < |now| && !(at <= k < at + room) :: now[k] == was[k]
  {
    var end := at + Reach(img, offset, n);
    assert forall k | 0 <= k < at :: now[k] == now[..at][k];
    forall k | end <= k < |now| ensures now[k] == was[k] { assert now[k] == now[end..][k - end]; }
  }

  /** A copy that stays inside a well-formed file is complete and is a slice of it. */
  lemma ReadIsSlice(img: Image, ino: nat, offset: nat, n: nat, was: Bytes, now: Bytes, at: nat)
    requires img.Valid() && ino < |img.inodes| && img.WellFormed(ino) && offset + n <= img.inodes[ino].length
    requires Copied(img, ino, offset, n, was, now, at)
    ensures Reach(img, offset, n) == n && now[at..at + n] == img.Content(ino)[offset..offset + n]
  {
    if n > 0 { NoBlockMissing(img, ino, offset + n); }
    var slice := img.Content(ino)[offset..offset + n];
    forall k | 0 <= k < n ensures BytesAt(img, ino, offset, n)[k] == slice[k] {
      ContentAt(img, ino, offset + k);
    }
    assert BytesAt(img, ino, offset, n) == slice;
  }

  /** What read_data has done for a signed size, in terms of the flat file. */
  lemma FileOutcome(img: Image, ino: nat, pos: nat, nbytes: int, was: Bytes, now: Bytes, at: nat, r: int)
    requires img.Valid() && ino < |img.inodes| && img.WellFormed(ino) && pos <= img.inodes[ino].length
    requires -0x8000_0000 <= nbytes < 0x8000_0000
    requires var n := Clamp(pos, Unsigned(nbytes), img.inodes[ino].length);
             Copied(img, ino, pos, n, was, now, at) && r == if Reach(img, pos, n) < n then -1 else n
    ensures nbytes >= 0 ==> r == |Chunk(img.Content(ino), pos, nbytes)| && now[at..at + r] == Chunk(img.Content(ino), pos, nbytes)
    ensures nbytes < 0 ==> if pos + nbytes >= 0 then r == -1
                           else r >= 0 && at + r <= |now| && now[at..at + r] == img.Content(ino)[pos..]
  {
    var fileLen := img.inodes[ino].length;
    var n := Clamp(pos, Unsigned(nbytes), fileLen);
    ClampOfSigned(pos, nbytes, fileLen);
    if nbytes >= 0 || pos + nbytes < 0 {
      ReadIsSlice(img, ino, pos, n, was, now, at);
      assert img.Content(ino)[pos..] == img.Content(ino)[pos..fileLen];
    } else {
      assert pos + n >= TWO_32;
    }
  }

  /** What one read of `n` bytes returns. */
  function Chunk(content: Bytes, pos: nat, n: nat): (s: Bytes)
    requires pos <= |content|
  {
    content[pos..pos + Min(n, |content| - pos)]
  }

  function Sum(sizes: seq<nat>): nat {
    if sizes == [] then 0 else sizes[0] + Sum(sizes[1..])
  }

  /** What a sequence of reads returns, each starting where the one before it stopped. */
  function ReadRun(content: Bytes, pos: nat, sizes: seq<nat>): (outs: seq<Bytes>)
    requires pos <= |content|
    ensures |outs| == |sizes|
    decreases |sizes|
  {
    if sizes == [] then []
    else
      var out := Chunk(content, pos, sizes[0]);
      [out] + ReadRun(content, pos + |out|, sizes[1..])
  }

  /** Reads of any sizes neither skip nor repeat a byte: together they return one slice of the file. */
  lemma {:induction false} ReadRunIsSlice(content: Bytes, pos: nat, sizes: seq<nat>)
    requires pos <= |content|
    ensures Flatten(ReadRun(content, pos, sizes)) == content[pos..pos + Min(Sum(sizes), |content| - pos)]
    decreases |sizes|
  {
    if sizes != [] {
      var out := Chunk(content, pos, sizes[0]);
      var rest := ReadRun(content, pos + |out|, sizes[1..]);
      assert ([out] + rest)[0] == out && ([out] + rest)[1..] == rest;
      assert Flatten([out] + rest) == out + Flatten(rest);
      var next := pos + |out|;
      ReadRunIsSlice(content, next, sizes[1..]);
      SlicesJoin(content, pos, next, next + Min(Sum(sizes[1..]), |content| - next));
    }
  }

  lemma SlicesJoin(s: Bytes, a: nat, b: nat, c: nat)
    requires a <= b <= c <= |s|
    ensures s[a..b] + s[b..c] == s[a..c]
  {}

  /** A read returns 0 only for an empty request or once everything has been returned. */
  lemma {:induction false} EmptyReadMeansEnd(content: Bytes, pos: nat, sizes: seq<nat>, k: nat)
    requires pos <= |content| && k < |sizes|
    ensures ReadRun(content, pos, sizes)[k] == [] <==>
            sizes[k] == 0 || Flatten(ReadRun(content, pos, sizes[..k])) == content[pos..]
  {
    ReadRunIsSlice(content, pos, sizes[..k]);
    ReadRunAt(content, pos, sizes, k);
  }

  lemma {:induction false} ReadRunAt(content: Bytes, pos: nat, sizes: seq<nat>, k: nat)
    requires pos <= |content| && k < |sizes|
    ensures ReadRun(content, pos, sizes)[k] ==
            Chunk(content, pos + Min(Sum(sizes[..k]), |content| - pos), sizes[k])
    decreases k
  {
    if k > 0 {
      var out := Chunk(content, pos, sizes[0]);
      ReadRunAt(content, pos + |out|, sizes[1..], k - 1);
      assert sizes[..k][1..] == sizes[1..][..k - 1];
    }
  }

  // ----- Looking a name up

  /** The entry the driver takes for `fname`: the same name or, for a name one byte
      too long, a full entry whose type byte happens to continue it. */
  predicate Accepts(d: Dentry, fname: Bytes)
    requires d.Valid()
  {
    || d.Name() == fname
    || (|fname| == NAME_LEN + 1 && fname == d.filename + [d.filetype])
  }

  lemma ComparedNames(d: Dentry, fname: Bytes)
    requires d.Valid() && Free(fname, {NUL})
    ensures Terminated(d.Memory())
    ensures var seen := CString(d.Memory());
            var curLen := Min(|seen|, NAME_LEN);
            var len := if curLen > |fname| then curLen else |fname|;
            Take(fname, len) == Take(seen, len) <==> Accepts(d, fname)
  {
    var name, seen := d.Name(), CString(d.Memory());
    assert d.Memory()[NAME_LEN + 1] == NUL;
    SeenName(d);
    TakenEqual(fname, seen);
    if fname == d.filename + [d.filetype] {
      assert fname[..NAME_LEN] == d.filename;
      assert forall i | 0 <= i < NAME_LEN :: fname[i] == d.filename[i];
    }
    assert |name| == NAME_LEN ==> seen[..NAME_LEN] == name;
  }

  /** Comparing as many bytes as the longer of a name and the first 32 bytes seen. */
  lemma TakenEqual(fname: Bytes, seen: Bytes)
    requires |seen| <= NAME_LEN + 1
    ensures var curLen := Min(|seen|, NAME_LEN);
            var len := if curLen > |fname| then curLen else |fname|;
            Take(fname, len) == Take(seen, len) <==> fname == seen || (|seen| > NAME_LEN && fname == seen[..NAME_LEN])
  {
    assert Take(fname, |fname|) == fname && Take(seen, |seen|) == seen;
    assert |fname| <= |seen| ==> Take(fname, |seen|) == fname;
    assert |seen| <= |fname| ==> Take(seen, |fname|) == seen;
    assert |fname| <= NAME_LEN ==> Take(fname, NAME_LEN) == fname;
  }

  predicate FirstAccepted(img: Image, fname: Bytes, k: nat)
    requires img.Valid()
  {
    k < img.inodeNum && Accepts(img.dentries[k], fname) && forall j | 0 <= j < k :: !Accepts(img.dentries[j], fname)
  }

  method ReadDentryByIndex(img: Image, index: nat) returns (d: Option<Dentry>)
    requires img.Valid()
    ensures d == if index >= img.dentryNum then None else Some(img.dentries[index])
  {
    if index >= img.dentryNum { return None; }
    return Some(img.dentries[index]);
  }

  /** The comparison that `read_dentry_by_name` makes with one entry. */
  method Compare(entry: Dentry, fname: Bytes) returns (same: bool)
    requires entry.Valid() && Free(fname, {NUL})
    ensures same <==> Accepts(entry, fname)
  {
    CStringIs(fname + [NUL], fname);
    ComparedNames(entry, fname);
    var curLen := StrLen(entry.Memory());
    if curLen > NAME_LEN { curLen := NAME_LEN; }
    var len := if curLen > |fname| then curLen else |fname|;
    assert (fname + [NUL])[|fname|] == NUL;
    var c := StrNCmp(fname + [NUL], entry.Memory(), len);
    return c == 0;
  }

  /** `read_dentry_by_name`: the first accepted entry among the first `inodeNum`, if it is also among the first `dentryNum`. */
  method ReadDentryByName(img: Image, fname: Bytes) returns (d: Option<Dentry>)
    requires img.Valid() && Free(fname, {NUL})
    ensures d.Some? <==> exists k: nat :: FirstAccepted(img, fname, k) && k < img.dentryNum
    ensures d.None? <==> forall k | 0 <= k < img.inodeNum && k < img.dentryNum :: !Accepts(img.dentries[k], fname)
    ensures forall k: nat :: FirstAccepted(img, fname, k) && k < img.dentryNum ==> d == Some(img.dentries[k])
  {
    var index := 0;
    while index < img.inodeNum
      invariant 0 <= index <= img.inodeNum
      invariant forall j | 0 <= j < index :: !Accepts(img.dentries[j], fname)
    {
      var same := Compare(img.dentries[index], fname);
      if same {
        assert FirstAccepted(img, fname, index);
        d := ReadDentryByIndex(img, index);
        return;
      }
      index := index + 1;
    }
    return None;
  }

  /** Accepting is having exactly that name, for every name but a 33-byte one that runs into a type byte. */
  lemma AcceptsIsEquality(img: Image, fname: Bytes)
    requires img.Valid()
    ensures (forall k | 0 <= k < img.inodeNum :: Accepts(img.dentries[k], fname) <==> img.dentries[k].Name() == fname)
       <==> !exists k | 0 <= k < img.inodeNum :: fname == img.dentries[k].filename + [img.dentries[k].filetype]
  {
    forall k | 0 <= k < img.inodeNum
      ensures fname == img.dentries[k].filename + [img.dentries[k].filetype] ==> img.dentries[k].Name() != fname
    {}
  }

  // ----- Reading the directory

  predicate HasPrefix(d: Dentry, dirname: Bytes) {
    dirname <= CString(d.Memory())
  }

  predicate NonePrefixed(img: Image, dirname: Bytes, n: nat)
    requires n <= |img.dentries|
  {
    forall j | 0 <= j < n :: !HasPrefix(img.dentries[j], dirname)
  }

  method CompareStart(d: Dentry, dirname: Bytes) returns (c: int)
    requires d.Valid() && Free(dirname, {NUL})
    ensures c == 0 <==> HasPrefix(d, dirname)
    ensures c == 0 <==> var s := CString(d.filename + [d.filetype, 0]); |dirname| <= |s| && s[..|dirname|] == dirname
  {
    ComparedNames(d, dirname);
    assert (dirname + [NUL])[|dirname|] == NUL;
    CStringIs(dirname + [NUL], dirname);
    PrefixByTake(dirname, CString(d.Memory()));
    c := StrNCmp(d.Memory(), dirname + [NUL], |dirname|);
  }

  /** The directory driver, whose only state is one position shared by every opener. */
  class Directory {
    var dirIdx: nat

    /** `dir_open`: its prefix test has no bound, so it stops at the first entry in memory that passes, listed or not;
        there must be one (see `LookupOpens`). */
    method DirOpen(img: Image, dirname: Bytes)
      requires img.Valid() && Free(dirname, {NUL}) && !NonePrefixed(img, dirname, |img.dentries|)
      modifies this
      ensures dirIdx < |img.dentries| && HasPrefix(img.dentries[dirIdx], dirname)
      ensures NonePrefixed(img, dirname, dirIdx)
    {
      dirIdx := 0;
      while true
        invariant dirIdx < |img.dentries| && NonePrefixed(img, dirname, dirIdx)
        decreases |img.dentries| - dirIdx
      {
        var c := CompareStart(img.dentries[dirIdx], dirname);
        if c == 0 { break; }
        dirIdx := dirIdx + 1;
      }
    }

    method DirClose()
      modifies this
      ensures dirIdx == 0
    {
      dirIdx := 0;
    }

    /** `dir_read`. The name ends at the NUL stored behind its 32 bytes, or earlier; a shorter request leaves in place
        what stood in the buffer from its end up to there. */
    method DirRead(img: Image, buf: array?<Byte>, nbytes: nat) returns (r: int)
      requires img.Valid() && (buf != null ==> buf.Length > NAME_LEN && buf.Length >= nbytes)
      modifies this, buf
      ensures old(dirIdx) >= img.dentryNum ==> r == 0 && dirIdx == old(dirIdx) && (buf != null ==> buf[..] == old(buf[..]))
      ensures old(dirIdx) < img.dentryNum ==> dirIdx == old(dirIdx) + 1
      ensures old(dirIdx) < img.dentryNum && buf == null ==> r == -1
      ensures old(dirIdx) < img.dentryNum && buf != null ==>
                var name := img.dentries[old(dirIdx)].Name();
                && r == |CString(buf[..])|
                && CString(buf[..]) == if |name| < nbytes || 32 <= nbytes then name
                                       else name[..nbytes] + CString(old(buf[nbytes..32]))
    {
      var d := ReadDentryByIndex(img, dirIdx);
      if d == None { return 0; }
      dirIdx := dirIdx + 1;
      if buf == null { return -1; }
      ghost var was := buf[..];
      assert d.value.Valid() && d.value.Memory()[NAME_LEN + 1] == NUL;
      StrNCpy(buf, d.value.Memory(), nbytes);
      buf[NAME_LEN] := NUL;
      NameCopied(d.value, was, buf[..], nbytes);
      r := StrLen(buf[..]);
    }
  }

  /** What dir_read leaves in its buffer. */
  lemma NameCopied(d: Dentry, was: Bytes, now: Bytes, n: nat)
    requires d.Valid() && |was| == |now| && NAME_LEN < |now| && n <= |now|
    requires now == Padded(was, CString(d.Memory()), n)[NAME_LEN := NUL]
    ensures Terminated(now)
    ensures CString(now) == if |d.Name()| < n || NAME_LEN <= n then d.Name() else d.Name()[..n] + CString(was[n..NAME_LEN])
  {
    var name := d.Name();
    SeenName(d);
    assert now[NAME_LEN] == NUL;
    assert forall i | 0 <= i < |name| && i < n :: now[i] == name[i];
    if |name| < n || NAME_LEN <= n {
      assert now[..|name|] == name;
      CStringIs(now, name);
    } else {
      assert now[..n] == name[..n] && now[n..NAME_LEN] == was[n..NAME_LEN];
      RunsOn(now, name[..n], was[n..NAME_LEN]);
    }
  }

  lemma RunsOn(mem: Bytes, front: Bytes, window: Bytes)
    requires |front| + |window| == NAME_LEN < |mem| && mem[NAME_LEN] == NUL && Free(front, {NUL})
    requires mem[..|front|] == front && mem[|front|..NAME_LEN] == window
    ensures CString(mem) == front + CString(window)
  {
    var rest := mem[NAME_LEN + 1..];
    assert mem == front + (window + [NUL] + rest);
    CStringOfConcat(front, window + [NUL] + rest);
    CStringBeforeNul(window, rest);
  }

  /** A C string routine sees the name, and behind a full one perhaps the type byte. */
  lemma SeenName(d: Dentry)
    requires d.Valid()
    ensures CString(d.Memory()) == if |d.Name()| < NAME_LEN || d.filetype == NUL then d.Name() else d.Name() + [d.filetype]
  {
    var mem, name := d.Memory(), d.Name();
    assert mem[NAME_LEN + 1] == NUL;
    var seen := if |name| < NAME_LEN || d.filetype == NUL then name else name + [d.filetype];
    assert |name| < NAME_LEN ==> d.filename[|name|] == NUL;
    CStringIs(mem, seen);
  }

  lemma PrefixByTake(name: Bytes, s: Bytes)
    ensures Take(s, |name|) == Take(name, |name|) <==> name <= s
  {
    assert Take(name, |name|) == name;
  }

  lemma AcceptedIsPrefix(d: Dentry, fname: Bytes)
    requires d.Valid() && Free(fname, {NUL}) && Accepts(d, fname)
    ensures HasPrefix(d, fname)
  {
    ComparedNames(d, fname);
    var seen := CString(d.Memory());
    var curLen := Min(|seen|, NAME_LEN);
    var len := if curLen > |fname| then curLen else |fname|;
    assert Take(fname, len) == fname <= seen;
  }

  /** Whenever read_dentry_by_name accepts an entry for a name, dir_open of that name terminates, at that entry or before it. */
  lemma LookupOpens(img: Image, dirname: Bytes, k: nat)
    requires img.Valid() && Free(dirname, {NUL})
    requires k < img.dentryNum && FirstAccepted(img, dirname, k)
    ensures !NonePrefixed(img, dirname, img.dentryNum)
    ensures forall i | 0 <= i < img.dentryNum && HasPrefix(img.dentries[i], dirname) && NonePrefixed(img, dirname, i) :: i <= k
  {
    AcceptedIsPrefix(img.dentries[k], dirname);
  }

  /** The `k`-th name of the directory; none behind its end. */
  function NameAt(img: Image, k: nat): Bytes
    requires img.Valid()
  {
    if k < img.dentryNum then img.dentries[k].Name() else []
  }

  /** What `n` successive directory reads return, from position `idx`, which stays where it is at the end. */
  function DirRun(img: Image, idx: nat, n: nat): (names: seq<Bytes>)
    requires img.Valid()
    ensures |names| == n
    decreases n
  {
    if n == 0 then []
    else if idx >= img.dentryNum then [[]] + DirRun(img, idx, n - 1)
    else [img.dentries[idx].Name()] + DirRun(img, idx + 1, n - 1)
  }

  /** From any position the reads list every later entry once, in order, then answer 0 for ever. */
  lemma {:induction false} DirRunLists(img: Image, idx: nat, n: nat, i: nat)
    requires img.Valid() && i < n
    ensures DirRun(img, idx, n)[i] == NameAt(img, idx + i)
    decreases n
  {
    if i > 0 {
      DirRunLists(img, if idx >= img.dentryNum then idx else idx + 1, n - 1, i - 1);
    }
  }
}
