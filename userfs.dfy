/**
 * UserFS: an in-memory file system with a global list of files, each stored
 * in 512-byte blocks, and a table of file descriptors reused lowest free slot
 * first. A descriptor carries the open flags and a read/write position;
 * deleting a file hides it at once and frees it when its last descriptor is
 * closed.
 *
 * Each file's block list is a sequence of 512-character blocks and its
 * contents are the first `size` characters of their concatenation. The
 * descriptor table is an array whose length is the table's capacity.
 */
module UserFS {

  const BlockSize: int := 512
  const MaxNumberOfBlocks: int := 102400
  /** The first offset the block limit refuses: 102400 blocks of 512 bytes. */
  const MaxReachableSize: int := BlockSize * MaxNumberOfBlocks

  /** The error codes the operations set. */
  datatype ErrorCode = NoErr | NoFile | NoMem | NoPermission

  /** Bit 1 of the open flags creates a missing file. */
  const CreateFlag: bv32 := 1
  /** A descriptor opened with bit 2 refuses writes. */
  const ReadOnlyFlag: bv32 := 2
  /** A descriptor opened with bit 4 refuses reads. */
  const WriteOnlyFlag: bv32 := 4

  // ---------------------------------------------------------------------------
  // Blocks and contents
  // ---------------------------------------------------------------------------

  /**
   * The memory of a freshly allocated block. malloc leaves it unspecified;
   * no byte of it is read before it is written, so any filler will do.
   */
  function BlankBlock(): (b: seq<char>)
    ensures |b| == BlockSize
  {
    seq(BlockSize, _ => '\0')
  }

  /** Every block holds exactly BlockSize bytes. */
  predicate FullBlocks(blocks: seq<seq<char>>) {
    forall k :: 0 <= k < |blocks| ==> |blocks[k]| == BlockSize
  }

  /** The blocks of a list, one after the other. */
  function Flatten(blocks: seq<seq<char>>): (r: seq<char>)
    ensures FullBlocks(blocks) ==> |r| == BlockSize * |blocks|
  {
    if blocks == [] then [] else blocks[0] + Flatten(blocks[1..])
  }

  /** The contents of a file: the first `size` bytes of its blocks. */
  function DataOf(blocks: seq<seq<char>>, size: int): (d: seq<char>)
    requires FullBlocks(blocks) && 0 <= size <= BlockSize * |blocks|
    ensures |d| == size
  {
    Flatten(blocks)[..size]
  }

  /** The byte at offset p lives in block p / 512 at index p % 512. */
  lemma {:induction false} FlattenAt(blocks: seq<seq<char>>, p: int)
    requires FullBlocks(blocks) && 0 <= p < BlockSize * |blocks|
    ensures Flatten(blocks)[p] == blocks[p / BlockSize][p % BlockSize]
  {
    if p >= BlockSize {
      FlattenAt(blocks[1..], p - BlockSize);
      assert (p - BlockSize) / BlockSize == p / BlockSize - 1;
      assert (p - BlockSize) % BlockSize == p % BlockSize;
    }
  }

  /** Appending a block appends its bytes. */
  lemma FlattenAppend(blocks: seq<seq<char>>, b: seq<char>)
    ensures Flatten(blocks + [b]) == Flatten(blocks) + b
  {
    if blocks != [] {
      assert (blocks + [b])[1..] == blocks[1..] + [b];
      FlattenAppend(blocks[1..], b);
    }
  }

  /** Writing byte i of block k writes byte 512 * k + i of the concatenation. */
  lemma {:induction false} FlattenUpdate(blocks: seq<seq<char>>, k: int, i: int, c: char)
    requires FullBlocks(blocks) && 0 <= k < |blocks| && 0 <= i < BlockSize
    ensures Flatten(blocks[k := blocks[k][i := c]]) == Flatten(blocks)[BlockSize * k + i := c]
  {
    var updated := blocks[k := blocks[k][i := c]];
    if k > 0 {
      assert updated[1..] == blocks[1..][k - 1 := blocks[1..][k - 1][i := c]];
      FlattenUpdate(blocks[1..], k - 1, i, c);
    } else {
      assert updated[1..] == blocks[1..];
    }
  }

  /** Byte i of block k is byte 512 * k + i of the contents, when the file reaches that far. */
  lemma ReadFromBlock(blocks: seq<seq<char>>, size: int, k: int, i: int)
    requires FullBlocks(blocks) && 0 <= k < |blocks| && 0 <= i < BlockSize
    requires BlockSize * k + i < size <= BlockSize * |blocks|
    ensures DataOf(blocks, size)[BlockSize * k + i] == blocks[k][i]
  {
    var p := BlockSize * k + i;
    assert p / BlockSize == k && p % BlockSize == i;
    FlattenAt(blocks, p);
  }

  /**
   * The contents after one byte is written at offset p (at most the current
   * size): an overwrite inside the file, an append at its end.
   */
  function PutByte(data: seq<char>, p: int, c: char): (r: seq<char>)
    requires 0 <= p <= |data|
    ensures |r| == if p < |data| then |data| else |data| + 1
    ensures r[p] == c && r[..p] == data[..p] && (p < |data| ==> r[p + 1..] == data[p + 1..])
  {
    if p < |data| then data[p := c] else data + [c]
  }

  /** Writing into a block and growing the size to cover it is PutByte on the contents. */
  lemma WriteIntoBlock(blocks: seq<seq<char>>, size: int, k: int, i: int, c: char)
    requires FullBlocks(blocks) && 0 <= k < |blocks| && 0 <= i < BlockSize
    requires BlockSize * k + i <= size <= BlockSize * |blocks|
    ensures FullBlocks(blocks[k := blocks[k][i := c]])
    ensures var p := BlockSize * k + i;
      DataOf(blocks[k := blocks[k][i := c]], if size < p + 1 then size + 1 else size) == PutByte(DataOf(blocks, size), p, c)
  {
    FlattenUpdate(blocks, k, i, c);
  }

  /** A block appended past the end of the file leaves its contents alone. */
  lemma AppendBlockKeepsData(blocks: seq<seq<char>>, size: int, b: seq<char>)
    requires FullBlocks(blocks) && 0 <= size <= BlockSize * |blocks| && |b| == BlockSize
    ensures FullBlocks(blocks + [b]) && DataOf(blocks + [b], size) == DataOf(blocks, size)
  {
    FlattenAppend(blocks, b);
  }

  /**
   * The contents after `bytes` are written from offset p: the bytes replace
   * what was there and the file grows when they run past its end.
   */
  function Splice(data: seq<char>, p: int, bytes: seq<char>): (r: seq<char>)
    requires 0 <= p <= |data|
  {
    data[..p] + bytes + if p + |bytes| < |data| then data[p + |bytes|..] else []
  }

  /** Size after a write: the larger of the old size and the new position. */
  lemma SpliceLength(data: seq<char>, p: int, bytes: seq<char>)
    requires 0 <= p <= |data|
    ensures |Splice(data, p, bytes)| == if p + |bytes| < |data| then |data| else p + |bytes|
  {
  }

  /** The written bytes read back from the same offset; nothing before them changed. */
  lemma SpliceReadBack(data: seq<char>, p: int, bytes: seq<char>)
    requires 0 <= p <= |data|
    ensures Splice(data, p, bytes)[p..p + |bytes|] == bytes
    ensures Splice(data, p, bytes)[..p] == data[..p]
  {
  }

  /** One more byte written at the end of a splice extends the splice. */
  lemma SpliceExtend(data: seq<char>, p: int, bytes: seq<char>, c: char)
    requires 0 <= p <= |data|
    ensures p + |bytes| <= |Splice(data, p, bytes)|
    ensures PutByte(Splice(data, p, bytes), p + |bytes|, c) == Splice(data, p, bytes + [c])
  {
    var s := Splice(data, p, bytes);
    var q := p + |bytes|;
    var t := Splice(data, p, bytes + [c]);
    assert |PutByte(s, q, c)| == |t|;
    forall m | 0 <= m < |t| ensures PutByte(s, q, c)[m] == t[m] {
      if m < p {
      } else if m < q {
      } else if m == q {
      } else {
      }
    }
  }

  /** How many of `n` bytes written from offset p the block limit lets through. */
  function Accepted(p: int, n: int): (m: int)
    requires 0 <= p <= MaxReachableSize && 0 <= n
    ensures 0 <= m <= n && p + m <= MaxReachableSize
    ensures m < n ==> p + m == MaxReachableSize
  {
    if n <= MaxReachableSize - p then n else MaxReachableSize - p
  }

  /**
   * One byte of a write, in the terms of the whole write: after k bytes, of
   * which Accepted(p, k) got through, the next one extends the splice below
   * the block limit and changes nothing at it.
   */
  lemma WriteStep(data0: seq<char>, p: int, buf: seq<char>, k: int, before: seq<char>, after: seq<char>)
    requires 0 <= p <= |data0| <= MaxReachableSize && 0 <= k < |buf|
    requires before == Splice(data0, p, buf[..Accepted(p, k)])
    requires var q := p + Accepted(p, k);
      after == if q < MaxReachableSize then PutByte(before, q, buf[k]) else before
    ensures after == Splice(data0, p, buf[..Accepted(p, k + 1)])
  {
    var m := Accepted(p, k);
    if p + m < MaxReachableSize {
      SpliceExtend(data0, p, buf[..m], buf[k]);
      assert buf[..m] + [buf[k]] == buf[..k + 1];
    }
  }

  // ---------------------------------------------------------------------------
  // Descriptor table bookkeeping
  // ---------------------------------------------------------------------------

  /** Number of occupied slots: what file_descriptor_count tracks. */
  function Occupied(slots: seq<FileDesc?>): (n: nat)
    ensures n <= |slots|
  {
    if slots == [] then 0 else (if slots[0] != null then 1 else 0) + Occupied(slots[1..])
  }

  /** Number of slots whose descriptor is open on `f`: what f.refs tracks. */
  function Holders(slots: seq<FileDesc?>, f: File): (n: nat)
    ensures n <= Occupied(slots)
  {
    if slots == [] then 0 else (if slots[0] != null && slots[0].file == f then 1 else 0) + Holders(slots[1..], f)
  }

  /** Storing x in slot i moves the occupied count by the slots' difference. */
  lemma {:induction false} OccupiedUpdate(slots: seq<FileDesc?>, i: int, x: FileDesc?)
    requires 0 <= i < |slots|
    ensures Occupied(slots[i := x]) == Occupied(slots) - (if slots[i] != null then 1 else 0) + (if x != null then 1 else 0)
  {
    if i > 0 {
      assert slots[i := x][1..] == slots[1..][i - 1 := x];
      OccupiedUpdate(slots[1..], i - 1, x);
    } else {
      assert slots[i := x][1..] == slots[1..];
    }
  }

  /** Storing x in slot i moves the holder count of f by the slots' difference. */
  lemma {:induction false} HoldersUpdate(slots: seq<FileDesc?>, i: int, x: FileDesc?, f: File)
    requires 0 <= i < |slots|
    ensures Holders(slots[i := x], f) == Holders(slots, f)
      - (if slots[i] != null && slots[i].file == f then 1 else 0)
      + (if x != null && x.file == f then 1 else 0)
  {
    if i > 0 {
      assert slots[i := x][1..] == slots[1..][i - 1 := x];
      HoldersUpdate(slots[1..], i - 1, x, f);
    } else {
      assert slots[i := x][1..] == slots[1..];
    }
  }

  /** A file no slot is open on has no holders, and conversely. */
  lemma {:induction false} NoHolders(slots: seq<FileDesc?>, f: File)
    ensures Holders(slots, f) == 0 <==> forall k :: 0 <= k < |slots| && slots[k] != null ==> slots[k].file != f
  {
    if slots != [] {
      NoHolders(slots[1..], f);
      assert forall k :: 1 <= k < |slots| ==> slots[k] == slots[1..][k - 1];
    }
  }

  /** Empty slots added at the end change no count. */
  lemma {:induction false} GrowKeepsCounts(slots: seq<FileDesc?>, extra: seq<FileDesc?>)
    requires forall k :: 0 <= k < |extra| ==> extra[k] == null
    ensures Occupied(slots + extra) == Occupied(slots)
    ensures forall f :: Holders(slots + extra, f) == Holders(slots, f)
  {
    if slots == [] {
      EmptySlots(extra);
      assert slots + extra == extra;
    } else {
      assert (slots + extra)[1..] == slots[1..] + extra;
      GrowKeepsCounts(slots[1..], extra);
    }
  }

  /** Slots that are all empty count nothing. */
  lemma {:induction false} EmptySlots(slots: seq<FileDesc?>)
    requires forall k :: 0 <= k < |slots| ==> slots[k] == null
    ensures Occupied(slots) == 0 && forall f :: Holders(slots, f) == 0
  {
    if slots != [] {
      EmptySlots(slots[1..]);
    }
  }

  /** While fewer slots are occupied than exist, some slot is empty. */
  lemma {:induction false} FreeSlotExists(slots: seq<FileDesc?>)
    requires Occupied(slots) < |slots|
    ensures exists k :: 0 <= k < |slots| && slots[k] == null
  {
    if slots[0] != null {
      FreeSlotExists(slots[1..]);
      var k :| 0 <= k < |slots[1..]| && slots[1..][k] == null;
      assert slots[k + 1] == null;
    }
  }

  /** A descriptor table widened to `capacity` slots with empty ones. */
  function Padded(slots: seq<FileDesc?>, capacity: int): (r: seq<FileDesc?>)
    requires |slots| <= capacity
    ensures |r| == capacity && r[..|slots|] == slots
    ensures forall i :: |slots| <= i < capacity ==> r[i] == null
  {
    slots + seq(capacity - |slots|, _ => null)
  }

  /** The capacity after ufs_open's growth step: 1 at first, then doubling when full. */
  function GrownCapacity(capacity: int, count: int): (c: int)
    requires 0 <= count <= capacity
    ensures count < c
  {
    if capacity == count then (if capacity == 0 then 1 else 2 * capacity) else capacity
  }

  // ---------------------------------------------------------------------------
  // The file list
  // ---------------------------------------------------------------------------

  /** Index of the first file in the list that is not deleted and has this name, or -1. */
  ghost function FirstVisible(files: seq<File>, name: string): (k: int)
    reads files
    ensures -1 <= k < |files|
    ensures k >= 0 ==> !files[k].deleted && files[k].name == name
  {
    if files == [] then -1
    else if !files[0].deleted && files[0].name == name then 0
    else var k := FirstVisible(files[1..], name); if k < 0 then -1 else k + 1
  }

  /** No file before the one FirstVisible picks, and none at all when it picks none, is visible under the name. */
  lemma {:induction false} FirstVisibleIsFirst(files: seq<File>, name: string)
    ensures var k := FirstVisible(files, name);
      forall j :: 0 <= j < |files| && (k < 0 || j < k) ==> files[j].deleted || files[j].name != name
  {
    if files != [] && (files[0].deleted || files[0].name != name) {
      FirstVisibleIsFirst(files[1..], name);
      var k := FirstVisible(files, name);
      forall j | 0 <= j < |files| && (k < 0 || j < k)
        ensures files[j].deleted || files[j].name != name
      {
        if j > 0 {
          assert files[j] == files[1..][j - 1];
        }
      }
    }
  }

  /** Position of the first occurrence of x in s, or -1. */
  function IndexOf<T(==)>(s: seq<T>, x: T): (k: int)
    ensures -1 <= k < |s|
    ensures k >= 0 ==> s[k] == x && forall j :: 0 <= j < k ==> s[j] != x
    ensures k < 0 ==> x !in s
  {
    if s == [] then -1
    else if s[0] == x then 0
    else var k := IndexOf(s[1..], x); if k < 0 then -1 else k + 1
  }

  /** Unlinking the k-th node of the file list, with the list head repaired. */
  function Unlink<T>(s: seq<T>, k: int): (r: seq<T>)
    requires 0 <= k < |s|
    ensures |r| == |s| - 1
    ensures forall j :: 0 <= j < k ==> r[j] == s[j]
    ensures forall j :: k < j < |s| ==> r[j - 1] == s[j]
  {
    s[..k] + s[k + 1..]
  }

  /** In a list without duplicates, unlinking node k removes exactly s[k] and keeps every other node. */
  lemma UnlinkRemoves<T>(s: seq<T>, k: int)
    requires 0 <= k < |s|
    requires forall i, j :: 0 <= i < j < |s| ==> s[i] != s[j]
    ensures s[k] !in Unlink(s, k)
    ensures forall x :: x in s && x != s[k] ==> x in Unlink(s, k)
    ensures forall x :: x in Unlink(s, k) ==> x in s
    ensures var r := Unlink(s, k); forall i, j :: 0 <= i < j < |r| ==> r[i] != r[j]
  {
    var r := Unlink(s, k);
    forall x | x in s && x != s[k] ensures x in r {
      var j :| 0 <= j < |s| && s[j] == x;
      if j < k { assert r[j] == x; } else { assert r[j - 1] == x; }
    }
  }

  /**
   * fully_delete_file's unlinking as written: it repairs the neighbours' links
   * and clears the list head only when the node was the sole one, so a deleted
   * head with successors stays the head of the list.
   */
  function UnlinkAsWritten<T>(s: seq<T>, k: int): (r: seq<T>)
    requires 0 <= k < |s|
    ensures k > 0 || |s| == 1 ==> r == Unlink(s, k)
  {
    if k == 0 && |s| > 1 then s else s[..k] + s[k + 1..]
  }

  /** Deleting the first of two files as written leaves the freed file reachable at the head. */
  lemma UnlinkHeadAsWritten()
    ensures UnlinkAsWritten([10, 20], 0) == [10, 20]
    ensures 10 in UnlinkAsWritten([10, 20], 0) && 10 !in Unlink([10, 20], 0)
  {
    assert Unlink([10, 20], 0) == [20];
  }

  /** The descriptor guard of ufs_write, ufs_read and ufs_close as written: fd > capacity refuses. */
  predicate FdGuardPassesAsWritten(fd: int, capacity: int) {
    !(fd > capacity || fd < 0)
  }

  /** The guard lets fd == capacity through, one past the last slot of the table. */
  lemma FdGuardOffByOne(capacity: nat)
    ensures FdGuardPassesAsWritten(capacity, capacity) && !(capacity < capacity)
  {
  }

  // ---------------------------------------------------------------------------
  // Files, descriptors, the file system
  // ---------------------------------------------------------------------------

  /** struct file: its blocks, size, reference count and deletion mark. */
  class File {
    const name: string
    /**
     * block_list; empty until the first write creates a block. ufs_open never
     * sets last_block, and the model reads a new file as having none.
     */
    var blocks: seq<seq<char>>
    var refs: int
    var deleted: bool
    var size: int

    ghost predicate Ok()
      reads this`blocks, this`size
    {
      FullBlocks(blocks) && |blocks| <= MaxNumberOfBlocks && 0 <= size <= BlockSize * |blocks|
    }

    /** The file's contents. */
    ghost function Data(): (d: seq<char>)
      reads this`blocks, this`size
      requires Ok()
      ensures |d| == size
    {
      DataOf(blocks, size)
    }

    /** The fields ufs_open gives a new file: one reference, no blocks, size 0. */
    constructor (name: string)
      ensures this.name == name && blocks == [] && refs == 1 && !deleted && size == 0
      ensures Ok() && Data() == []
    {
      this.name := name;
      blocks := [];
      refs := 1;
      deleted := false;
      size := 0;
    }
  }

  /** struct filedesc: the open file, the flags it was opened with and the read/write position. */
  class FileDesc {
    const file: File
    const permissions: bv32
    var pointer: int

    constructor (file: File, permissions: bv32)
      ensures this.file == file && this.permissions == permissions && pointer == 0
    {
      this.file := file;
      this.permissions := permissions;
      pointer := 0;
    }
  }

  /** The global state: file_list, file_descriptors (its length is the capacity), the count and the error code. */
  class FileSystem {
    var files: seq<File>
    var descriptors: array<FileDesc?>
    var count: int
    var error: ErrorCode

    /**
     * The bookkeeping the code relies on: the count is the number of occupied
     * slots; files appear once in the list; every file's refs is the number of
     * descriptors open on it, and a deleted file still listed has one; every
     * descriptor is open on a listed file with its position inside the file.
     */
    ghost predicate Valid()
      reads this`count, this`descriptors, this`files, descriptors, descriptors[..]`pointer
      reads files`blocks, files`size, files`refs, files`deleted
    {
      Consistent(null)
    }

    /**
     * Valid() except that `pending` already counts one reference whose
     * descriptor is not installed yet: the state inside ufs_open between
     * taking the reference and filling the slot.
     */
    ghost predicate Consistent(pending: File?)
      reads this`count, this`descriptors, this`files, descriptors, descriptors[..]`pointer
      reads files`blocks, files`size, files`refs, files`deleted
    {
      count == Occupied(descriptors[..])
      && (forall i, j :: 0 <= i < j < |files| ==> files[i] != files[j])
      && Stored() && Referenced(pending) && Positioned()
    }

    /** Every listed file's blocks hold its contents. */
    ghost predicate Stored()
      reads this`files, files`blocks, files`size
    {
      forall f :: f in files ==> f.Ok()
    }

    /** Every listed file's refs counts the descriptors open on it (and `pending`); a deleted one is still held. */
    ghost predicate Referenced(pending: File?)
      reads this`descriptors, this`files, descriptors, files`refs, files`deleted
    {
      forall f :: f in files ==>
        (f.deleted ==> f.refs > 0) && f.refs == Holders(descriptors[..], f) + if f == pending then 1 else 0
    }

    /** Every descriptor is open on a listed file, its position inside the file. */
    ghost predicate Positioned()
      reads this`descriptors, this`files, descriptors, descriptors[..]`pointer, files`size
    {
      forall i :: 0 <= i < descriptors.Length && descriptors[i] != null ==>
        descriptors[i].file in files && 0 <= descriptors[i].pointer <= descriptors[i].file.size
    }

    /** An fd names an open descriptor. */
    ghost predicate IsOpen(fd: int)
      reads this`descriptors, descriptors
    {
      0 <= fd < descriptors.Length && descriptors[fd] != null
    }

    /** The initial state: no files, an empty table of capacity 0, no error. */
    constructor ()
      ensures Valid() && files == [] && descriptors.Length == 0 && count == 0 && error == NoErr
    {
      files := [];
      descriptors := new FileDesc?[0];
      count := 0;
      error := NoErr;
    }


    /**
     * fully_delete_file: finds the file in the list and unlinks it, provided
     * it is deleted and nothing holds it; its blocks are released with it.
     */
    method FullyDeleteFile(f: File)
      modifies this`files
      ensures var k := IndexOf(old(files), f);
        files == if k >= 0 && f.deleted && f.refs == 0 then Unlink(old(files), k) else old(files)
    {
      var k := 0;
      while k < |files|
        invariant 0 <= k <= |files| && files == old(files)
        invariant forall j :: 0 <= j < k ==> !(files[j] == f && f.deleted && f.refs == 0)
      {
        if files[k] == f && f.deleted && f.refs == 0 {
          files := files[..k] + files[k + 1..];
          return;
        }
        k := k + 1;
      }
    }

    /**
     * ufs_close: frees the descriptor's slot and drops its reference on the
     * file; the last close of a deleted file removes the file from the list.
     * An fd outside the table or on an empty slot fails with NoFile.
     */
    method Close(fd: int) returns (r: int)
      requires Valid()
      modifies this, descriptors, if IsOpen(fd) then {descriptors[fd].file} else {}
      ensures Valid() && descriptors == old(descriptors)
      ensures !old(IsOpen(fd)) ==> (r == -1 && error == NoFile && files == old(files)
        && count == old(count) && descriptors[..] == old(descriptors[..]))
      ensures old(IsOpen(fd)) ==> (r == 0 && error == old(error)
        && descriptors[..] == old(descriptors[..])[fd := null] && count == old(count) - 1)
      ensures old(IsOpen(fd)) ==> var f := old(descriptors[fd].file);
        f.refs == old(f.refs) - 1 && f.blocks == old(f.blocks) && f.size == old(f.size) && f.deleted == old(f.deleted)
        && files == if f.refs == 0 && f.deleted then Unlink(old(files), IndexOf(old(files), f)) else old(files)
    {
      if !(0 <= fd < descriptors.Length) || descriptors[fd] == null {
        error := NoFile;
        return -1;
      }
      ghost var slots := descriptors[..];
      ghost var files0 := files;
      var f := descriptors[fd].file;
      f.refs := f.refs - 1;
      if f.refs == 0 && f.deleted {
        FullyDeleteFile(f);
      }
      descriptors[fd] := null;
      count := count - 1;
      ReleaseKeepsValid(slots, files0, fd, f);
      return 0;
    }

    /**
     * Emptying the slot of an open descriptor, with the bookkeeping Close
     * does, keeps Valid(): `slots` and `files0` are the table and the list
     * before, and f has already given up its reference.
     */
    lemma ReleaseKeepsValid(slots: seq<FileDesc?>, files0: seq<File>, fd: int, f: File)
      requires 0 <= fd < |slots| && slots[fd] != null && slots[fd].file == f
      requires descriptors[..] == slots[fd := null] && count == Occupied(slots) - 1
      requires (forall i, j :: 0 <= i < j < |files0| ==> files0[i] != files0[j]) && f in files0
      requires forall g :: g in files0 ==>
        g.Ok() && g.refs == Holders(slots, g) - (if g == f then 1 else 0) && (g.deleted && g != f ==> g.refs > 0)
      requires forall i :: 0 <= i < |slots| && slots[i] != null ==>
        slots[i].file in files0 && 0 <= slots[i].pointer <= slots[i].file.size
      requires files == if f.refs == 0 && f.deleted then Unlink(files0, IndexOf(files0, f)) else files0
      ensures Valid()
    {
      OccupiedUpdate(slots, fd, null);
      HoldersUpdate(slots, fd, null, f);
      if f.refs == 0 && f.deleted {
        UnlinkRemoves(files0, IndexOf(files0, f));
        NoHolders(descriptors[..], f);
      }
      forall g | g in files
        ensures g.Ok() && g.refs == Holders(descriptors[..], g) && (g.deleted ==> g.refs > 0)
      {
        assert g in files0;
        HoldersUpdate(slots, fd, null, g);
      }
      forall i | 0 <= i < descriptors.Length && descriptors[i] != null
        ensures descriptors[i].file in files && 0 <= descriptors[i].pointer <= descriptors[i].file.size
      {
        assert descriptors[..][i] == slots[i] && slots[i].file in files0;
        if f.refs == 0 && f.deleted {
          assert descriptors[..][i].file != f;
        }
      }
    }

    /** The file ufs_open would reopen under this name, as a set of at most one file. */
    ghost function Found(filename: string): set<File>
      reads this, files
    {
      var k := FirstVisible(files, filename);
      if k < 0 then {} else {files[k]}
    }

    /**
     * ufs_open: grows a full descriptor table (to 1, then doubling), finds the
     * visible file of this name or, with CreateFlag, appends a new empty one;
     * without CreateFlag a missing file fails with NoFile (the growth stays).
     * The new descriptor takes the lowest free slot, with the flags and
     * position 0, and counts as one more reference on its file.
     */
    method Open(filename: string, flags: bv32) returns (fd: int)
      requires Valid()
      modifies this, descriptors, Found(filename)
      ensures Valid()
      ensures var table := Padded(old(descriptors[..]), GrownCapacity(old(descriptors.Length), old(count)));
        if fd == -1 then descriptors[..] == table
        else (0 <= fd < descriptors.Length == |table| && descriptors[..] == table[fd := descriptors[fd]]
          && table[fd] == null && forall i :: 0 <= i < fd ==> table[i] != null)
      ensures var k := old(FirstVisible(files, filename));
        fd == -1 <==> k < 0 && flags & CreateFlag == 0
      ensures fd == -1 ==> error == NoFile && files == old(files) && count == old(count)
      ensures fd != -1 ==> (error == NoErr && count == old(count) + 1
        && fresh(descriptors[fd]) && descriptors[fd].permissions == flags && descriptors[fd].pointer == 0)
      ensures fd != -1 ==> var f := descriptors[fd].file; var k := old(FirstVisible(files, filename));
        (k < 0 ==> fresh(f) && f.name == filename && files == old(files) + [f] && f.refs == 1 && !f.deleted && f.blocks == [] && f.size == 0)
        && (k >= 0 ==> f == old(files[k]) && files == old(files) && f.refs == old(f.refs) + 1 && unchanged(f`blocks, f`size, f`deleted))
    {
      ghost var k := FirstVisible(files, filename);
      if descriptors.Length == count {
        Grow();
        assert FirstVisible(files, filename) == k;
      } else {
        assert descriptors[..] == Padded(descriptors[..], descriptors.Length);
      }
      fd := OpenInFreeSlot(filename, flags);
    }

    /** ufs_open once the table has an empty slot: everything after the growth step. */
    method OpenInFreeSlot(filename: string, flags: bv32) returns (fd: int)
      requires Valid() && count < descriptors.Length
      modifies this`count, this`error, this`files, descriptors, Found(filename)
      ensures Valid() && descriptors == old(descriptors)
      ensures if fd == -1 then descriptors[..] == old(descriptors[..])
        else (0 <= fd < descriptors.Length && descriptors[..] == old(descriptors[..])[fd := descriptors[fd]]
          && old(descriptors[fd]) == null && forall i :: 0 <= i < fd ==> old(descriptors[i]) != null)
      ensures var k := old(FirstVisible(files, filename));
        fd == -1 <==> k < 0 && flags & CreateFlag == 0
      ensures fd == -1 ==> error == NoFile && files == old(files) && count == old(count)
      ensures fd != -1 ==> (error == NoErr && count == old(count) + 1
        && fresh(descriptors[fd]) && descriptors[fd].permissions == flags && descriptors[fd].pointer == 0)
      ensures fd != -1 ==> var f := descriptors[fd].file; var k := old(FirstVisible(files, filename));
        (k < 0 ==> fresh(f) && f.name == filename && files == old(files) + [f] && f.refs == 1 && !f.deleted && f.blocks == [] && f.size == 0)
        && (k >= 0 ==> f == old(files[k]) && files == old(files) && f.refs == old(f.refs) + 1 && unchanged(f`blocks, f`size, f`deleted))
    {
      var f := SearchFilesFor(filename);
      if f == null {
        if flags & CreateFlag == 0 {
          error := NoFile;
          return -1;
        }
        fd := OpenNew(filename, flags);
      } else {
        fd := Reopen(f, flags);
      }
    }

    /** ufs_open creating the file: a new file is listed and a descriptor on it fills the lowest empty slot. */
    method OpenNew(filename: string, flags: bv32) returns (fd: int)
      requires Valid() && count < descriptors.Length
      modifies this`count, this`error, this`files, descriptors
      ensures Valid() && descriptors == old(descriptors) && error == NoErr && count == old(count) + 1
      ensures 0 <= fd < descriptors.Length && descriptors[..] == old(descriptors[..])[fd := descriptors[fd]]
      ensures old(descriptors[fd]) == null && forall i :: 0 <= i < fd ==> old(descriptors[i]) != null
      ensures fresh(descriptors[fd]) && descriptors[fd].permissions == flags && descriptors[fd].pointer == 0
      ensures var f := descriptors[fd].file;
        fresh(f) && f.name == filename && files == old(files) + [f] && f.refs == 1 && !f.deleted && f.blocks == [] && f.size == 0
    {
      var f := CreateFile(filename);
      fd := LowestFreeSlot();
      Install(fd, f, flags);
    }

    /** ufs_open finding the file: it gains a reference and a descriptor on it fills the lowest empty slot. */
    method Reopen(f: File, flags: bv32) returns (fd: int)
      requires Valid() && count < descriptors.Length && f in files
      modifies this`count, this`error, descriptors, f`refs
      ensures Valid() && descriptors == old(descriptors) && error == NoErr && count == old(count) + 1
      ensures 0 <= fd < descriptors.Length && descriptors[..] == old(descriptors[..])[fd := descriptors[fd]]
      ensures old(descriptors[fd]) == null && forall i :: 0 <= i < fd ==> old(descriptors[i]) != null
      ensures fresh(descriptors[fd]) && descriptors[fd].permissions == flags && descriptors[fd].pointer == 0
      ensures descriptors[fd].file == f && files == old(files) && f.refs == old(f.refs) + 1
    {
      TakeReference(f);
      fd := LowestFreeSlot();
      Install(fd, f, flags);
    }

    /** ufs_open's new file: one reference, no blocks, appended at the end of the list. */
    method CreateFile(filename: string) returns (f: File)
      requires Valid()
      modifies this`files
      ensures fresh(f) && f.name == filename && f.refs == 1 && !f.deleted && f.blocks == [] && f.size == 0
      ensures files == old(files) + [f] && Consistent(f)
    {
      f := new File(filename);
      NoHolders(descriptors[..], f);
      files := files + [f];
    }

    /** ufs_open reopening a listed file: one more reference, counted before its descriptor exists. */
    method TakeReference(f: File)
      requires Valid() && f in files
      modifies f`refs
      ensures f.refs == old(f.refs) + 1 && Consistent(f)
    {
      f.refs := f.refs + 1;
    }

    /** The end of ufs_open: a new descriptor on `f` fills an empty slot and is counted. */
    method Install(fd: int, f: File, flags: bv32)
      requires Consistent(f) && f in files
      requires 0 <= fd < descriptors.Length && descriptors[fd] == null
      modifies this`count, this`error, descriptors
      ensures Valid() && error == NoErr && count == old(count) + 1
      ensures descriptors[..] == old(descriptors[..])[fd := descriptors[fd]]
      ensures fresh(descriptors[fd]) && descriptors[fd].file == f
      ensures descriptors[fd].permissions == flags && descriptors[fd].pointer == 0
    {
      var d := new FileDesc(f, flags);
      ghost var slots := descriptors[..];
      descriptors[fd] := d;
      count := count + 1;
      error := NoErr;
      InstallKeepsValid(slots, fd, d);
    }

    /** ufs_open's growth step: a table of capacity 1, or twice the capacity, whose new slots are empty. */
    method Grow()
      requires Valid() && count == descriptors.Length
      modifies this`descriptors
      ensures Valid() && fresh(descriptors)
      ensures descriptors[..] == Padded(old(descriptors[..]), GrownCapacity(old(descriptors.Length), count))
    {
      var cap := if descriptors.Length != 0 then 2 * descriptors.Length else 1;
      var table := descriptors;
      descriptors := new FileDesc?[cap](i reads table => if 0 <= i < table.Length then table[i] else null);
      GrowKeepsCounts(table[..], descriptors[table.Length..]);
      assert descriptors[..] == table[..] + descriptors[table.Length..] == Padded(table[..], cap);
    }

    /** The scan of ufs_open for the lowest empty slot, which exists while count < capacity. */
    method LowestFreeSlot() returns (fd: int)
      requires count == Occupied(descriptors[..]) && count < descriptors.Length
      ensures 0 <= fd < descriptors.Length && descriptors[fd] == null
      ensures forall i :: 0 <= i < fd ==> descriptors[i] != null
    {
      FreeSlotExists(descriptors[..]);
      ghost var free :| 0 <= free < descriptors.Length && descriptors[free] == null;
      fd := 0;
      while descriptors[fd] != null
        invariant 0 <= fd <= free
        invariant forall i :: 0 <= i < fd ==> descriptors[i] != null
        decreases free - fd
      {
        fd := fd + 1;
      }
    }

    /**
     * Storing a new descriptor in an empty slot, with its file listed and its
     * reference counted, keeps Valid().
     */
    lemma InstallKeepsValid(slots: seq<FileDesc?>, fd: int, d: FileDesc)
      requires 0 <= fd < |slots| && slots[fd] == null && descriptors[..] == slots[fd := d]
      requires count == Occupied(slots) + 1
      requires forall i, j :: 0 <= i < j < |files| ==> files[i] != files[j]
      requires forall f :: f in files ==> f.Ok() && (f.deleted ==> f.refs > 0)
      requires forall f :: f in files && f != d.file ==> f.refs == Holders(slots, f)
      requires d.file in files && d.file.refs == Holders(slots, d.file) + 1 && d.pointer == 0
      requires forall i :: 0 <= i < |slots| && slots[i] != null ==>
        slots[i] != d && slots[i].file in files && 0 <= slots[i].pointer <= slots[i].file.size
      ensures Valid()
    {
      OccupiedUpdate(slots, fd, d);
      forall g | g in files ensures g.refs == Holders(descriptors[..], g) {
        HoldersUpdate(slots, fd, d, g);
      }
      forall i | 0 <= i < descriptors.Length && descriptors[i] != null
        ensures descriptors[i].file in files && 0 <= descriptors[i].pointer <= descriptors[i].file.size
      {
        if i != fd {
          assert descriptors[..][i] == slots[i];
        }
      }
    }

    /**
     * ufs_delete: hides the visible file of this name at once; when no
     * descriptor is open on it, it also leaves the list. Open descriptors keep
     * working on a hidden file until the last of them is closed.
     */
    method Delete(filename: string) returns (r: int)
      requires Valid()
      modifies this`files, this`error, Found(filename)`deleted
      ensures Valid()
      ensures var k := old(FirstVisible(files, filename));
        (r == -1 <==> k < 0) && (k < 0 ==> r == -1 && error == NoFile && files == old(files))
      ensures var k := old(FirstVisible(files, filename)); k >= 0 ==>
        var f := old(files[k]);
        r == 0 && error == old(error) && f.deleted
        && files == if f.refs == 0 then Unlink(old(files), k) else old(files)
    {
      ghost var k := FirstVisible(files, filename);
      ghost var files0 := files;
      var f := SearchFilesFor(filename);
      if f == null {
        SetError(NoFile);
        return -1;
      }
      assert f == files0[k] && IndexOf(files0, f) == k;
      Hide(f);
      assert files == if f.refs == 0 then Unlink(files0, k) else files0;
      return 0;
    }

    /** The body of ufs_delete once the file is found: mark it deleted, and unlink it if nothing holds it. */
    method Hide(f: File)
      requires Valid() && f in files
      modifies this`files, f`deleted
      ensures Valid() && f.deleted
      ensures files == if f.refs == 0 then Unlink(old(files), IndexOf(old(files), f)) else old(files)
    {
      ghost var files0 := files;
      f.deleted := true;
      if f.refs == 0 {
        FullyDeleteFile(f);
        UnlistKeepsValid(files0, IndexOf(files0, f));
      }
    }

    /** Taking a file no descriptor holds out of the list keeps Valid(); `files0` is the list before. */
    lemma UnlistKeepsValid(files0: seq<File>, k: int)
      requires 0 <= k < |files0| && files == Unlink(files0, k)
      requires forall i, j :: 0 <= i < j < |files0| ==> files0[i] != files0[j]
      requires count == Occupied(descriptors[..]) && Holders(descriptors[..], files0[k]) == 0
      requires forall g :: g in files0 && g != files0[k] ==>
        g.Ok() && g.refs == Holders(descriptors[..], g) && (g.deleted ==> g.refs > 0)
      requires forall i :: 0 <= i < descriptors.Length && descriptors[i] != null ==>
        descriptors[i].file in files0 && 0 <= descriptors[i].pointer <= descriptors[i].file.size
      ensures Valid()
    {
      UnlinkRemoves(files0, k);
      NoHolders(descriptors[..], files0[k]);
      forall i | 0 <= i < descriptors.Length && descriptors[i] != null
        ensures descriptors[i].file in files
      {
        assert descriptors[..][i].file != files0[k];
      }
    }

    /**
     * ufs_write: writes the bytes of buf one by one at the descriptor's
     * position, creating the file's first block if it has none. Bytes past
     * the block limit are refused and set NoMem; the count returned is still
     * the length of buf. An fd that names no open descriptor fails with NoFile
     * and a descriptor opened with ReadOnlyFlag with NoPermission.
     */
    method Write(fd: int, buf: seq<char>) returns (n: int)
      requires Valid()
      modifies this`error, if IsOpen(fd) then {descriptors[fd], descriptors[fd].file} else {}
      ensures Valid()
      ensures !old(IsOpen(fd)) ==> n == -1 && error == NoFile
      ensures old(IsOpen(fd)) && descriptors[fd].permissions & ReadOnlyFlag != 0 ==>
        (n == -1 && error == NoPermission && descriptors[fd].pointer == old(descriptors[fd].pointer)
         && descriptors[fd].file.Data() == old(descriptors[fd].file.Data()))
      ensures old(IsOpen(fd)) && descriptors[fd].permissions & ReadOnlyFlag == 0 ==>
        var d := descriptors[fd]; var f := d.file; var p := old(d.pointer); var m := Accepted(p, |buf|);
        n == |buf| && f.Data() == Splice(old(f.Data()), p, buf[..m]) && d.pointer == p + m
        && error == (if m < |buf| then NoMem else old(error))
      ensures old(IsOpen(fd)) ==> var f := descriptors[fd].file;
        f.refs == old(f.refs) && f.deleted == old(f.deleted)
    {
      if !(0 <= fd < descriptors.Length) || descriptors[fd] == null {
        error := NoFile;
        return -1;
      }
      if descriptors[fd].permissions & ReadOnlyFlag != 0 {
        error := NoPermission;
        return -1;
      }
      n := WriteOpen(fd, buf);
    }

    /** ufs_write past its checks: the descriptor is open and may write. */
    method WriteOpen(fd: int, buf: seq<char>) returns (n: int)
      requires Valid() && IsOpen(fd)
      modifies this`error, descriptors[fd], descriptors[fd].file
      ensures Valid()
      ensures var d := descriptors[fd]; var f := d.file; var p := old(d.pointer); var m := Accepted(p, |buf|);
        n == |buf| && f.Data() == Splice(old(f.Data()), p, buf[..m]) && d.pointer == p + m
        && error == (if m < |buf| then NoMem else old(error))
        && f.refs == old(f.refs) && f.deleted == old(f.deleted)
    {
      var f := descriptors[fd].file;
      if f.blocks == [] {
        AddFirstBlock(f);
      }
      n := WriteBlocks(fd, buf);
    }

    /** WriteOpen once the file has a block. */
    method WriteBlocks(fd: int, buf: seq<char>) returns (n: int)
      requires Valid() && IsOpen(fd) && descriptors[fd].file.blocks != []
      modifies this`error, descriptors[fd], descriptors[fd].file
      ensures Valid()
      ensures var d := descriptors[fd]; var f := d.file; var p := old(d.pointer); var m := Accepted(p, |buf|);
        n == |buf| && f.Data() == Splice(old(f.Data()), p, buf[..m]) && d.pointer == p + m
        && error == (if m < |buf| then NoMem else old(error))
        && f.refs == old(f.refs) && f.deleted == old(f.deleted)
    {
      var d := descriptors[fd];
      var f := d.file;
      ghost var size0 := f.size;
      var ok := WriteAll(d, buf);
      if !ok {
        error := NoMem;
      }
      forall i | 0 <= i < descriptors.Length && descriptors[i] != null
        ensures descriptors[i].file in files && 0 <= descriptors[i].pointer <= descriptors[i].file.size
      {
        if descriptors[i] != d && descriptors[i].file == f {
          assert descriptors[i].pointer <= size0;
        }
      }
      return |buf|;
    }

    /** The first block of a file without blocks; the contents stay empty. */
    method AddFirstBlock(f: File)
      requires Valid() && f in files && f.blocks == []
      modifies f`blocks
      ensures Valid() && f.blocks == [BlankBlock()] && f.Data() == old(f.Data()) == []
    {
      f.blocks := [BlankBlock()];
    }

    /**
     * The loop of ufs_write: one WriteAtI per byte of buf. Returns false when
     * a byte was refused, where writeAtI sets NoMem.
     */
    method WriteAll(d: FileDesc, buf: seq<char>) returns (ok: bool)
      requires d.file.Ok() && d.file.blocks != [] && 0 <= d.pointer <= d.file.size
      modifies d.file`blocks, d.file`size, d`pointer
      ensures var f := d.file; f.Ok() && f.size >= old(f.size) && 0 <= d.pointer <= f.size
      ensures var f := d.file; var p := old(d.pointer); var m := Accepted(p, |buf|);
        f.Data() == Splice(old(f.Data()), p, buf[..m]) && d.pointer == p + m && (ok <==> m == |buf|)
    {
      var f := d.file;
      ghost var data0 := f.Data();
      ghost var p := d.pointer;
      assert p <= |data0| <= MaxReachableSize;
      var k := 0;
      ghost var m := 0;
      ok := true;
      while k != |buf|
        invariant 0 <= k <= |buf| && m == Accepted(p, k) && (ok <==> m == k)
        invariant f.Ok() && f.blocks != [] && f.size >= old(f.size) && 0 <= d.pointer <= f.size
        invariant f.Data() == Splice(data0, p, buf[..m]) && d.pointer == p + m
      {
        ghost var before := f.Data();
        var put := WriteAtI(d, buf[k]);
        WriteStep(data0, p, buf, k, before, f.Data());
        ok := ok && put;
        k := k + 1;
        m := Accepted(p, k);
      }
    }

    /**
     * writeAtI: walks the block list from the first block to the one holding
     * the descriptor's position, appending a block when the walk runs off the
     * end while fewer than MaxNumberOfBlocks are in use; writes c there and
     * advances the position, and a write at the end of the file grows it by
     * one. At the block limit it changes nothing and returns false, where the
     * source sets NoMem.
     */
    method WriteAtI(d: FileDesc, c: char) returns (ok: bool)
      requires d.file.Ok() && d.file.blocks != [] && 0 <= d.pointer <= d.file.size
      modifies d.file`blocks, d.file`size, d`pointer
      ensures var f := d.file; f.Ok() && f.blocks != [] && f.size >= old(f.size) && 0 <= d.pointer <= f.size
      ensures ok <==> old(d.pointer) < MaxReachableSize
      ensures var f := d.file; var p := old(d.pointer);
        f.Data() == (if ok then PutByte(old(f.Data()), p, c) else old(f.Data()))
        && d.pointer == (if ok then p + 1 else p)
      ensures !ok ==> d.file.blocks == old(d.file.blocks) && d.file.size == old(d.file.size)
    {
      var f := d.file;
      ghost var data0 := f.Data();
      ghost var blocks0 := f.blocks;
      ghost var p := d.pointer;
      var i := d.pointer;
      var b := 0;  // index of current_block; blocks_n is b + 1
      ok := true;
      while i > -1
        invariant f.Ok() && f.blocks != [] && f.size >= old(f.size) && 0 <= d.pointer <= f.size
        invariant i >= 0 ==> (0 <= b < |f.blocks| && i == p - BlockSize * b && ok
          && f.Data() == data0 && d.pointer == p && (f.blocks == blocks0 || |blocks0| <= b))
        invariant i < 0 ==> (i == -1 && (ok <==> p < MaxReachableSize) &&
          if ok then
            f.Data() == PutByte(data0, p, c) && d.pointer == p + 1
          else
            f.blocks == blocks0 && f.size == old(f.size) && d.pointer == p)
        decreases i + 1
      {
        if i >= BlockSize && b + 1 < |f.blocks| {
          b := b + 1;
          i := i - BlockSize;
        } else if i >= BlockSize && b + 1 < MaxNumberOfBlocks {
          AppendBlockKeepsData(f.blocks, f.size, BlankBlock());
          f.blocks := f.blocks + [BlankBlock()];
          b := b + 1;
          i := i - BlockSize;
        } else if i < BlockSize {
          WriteIntoBlock(f.blocks, f.size, b, i, c);
          f.blocks := f.blocks[b := f.blocks[b][i := c]];
          i := -1;
          d.pointer := d.pointer + 1;
          if f.size < d.pointer {
            f.size := f.size + 1;
          }
        } else {
          ok := false;
          i := -1;
        }
      }
    }

    /**
     * readAtI: reads the byte at the descriptor's position and advances it,
     * or returns -1 at the end of the file. The walk from the first block to
     * the one holding the position cannot run off the list, because the
     * position is inside the file: its NoMem branch is unreachable.
     */
    method ReadAtI(d: FileDesc) returns (rc: int, c: char)
      requires d.file.Ok() && 0 <= d.pointer <= d.file.size
      modifies d`pointer
      ensures var p := old(d.pointer); var f := d.file;
        (rc == 0 <==> p < f.size) && (rc != 0 ==> rc == -1 && d.pointer == p)
        && (rc == 0 ==> c == f.Data()[p] && d.pointer == p + 1)
    {
      var f := d.file;
      var i := d.pointer;
      if i >= f.size {
        return -1, '\0';
      }
      ghost var p := i;
      var b := 0;  // index of current_block
      while i > -1
        invariant 0 <= b < |f.blocks| && 0 <= i && p == BlockSize * b + i && d.pointer == p
        decreases i
      {
        if i > BlockSize - 1 && b + 1 < |f.blocks| {
          b := b + 1;
          i := i - BlockSize;
        } else if i < BlockSize {
          ReadFromBlock(f.blocks, f.size, b, i);
          c := f.blocks[b][i];
          d.pointer := d.pointer + 1;
          return 0, c;
        } else {
          assert false;
        }
      }
      return -1, '\0';
    }

    /**
     * ufs_read: reads up to `size` bytes from the descriptor's position into
     * buf, stopping at the end of the file, and returns how many it read. An
     * fd that names no open descriptor fails with NoFile and a descriptor
     * opened with WriteOnlyFlag with NoPermission.
     */
    method Read(fd: int, buf: array<char>, size: int) returns (n: int)
      requires Valid() && 0 <= size <= buf.Length
      modifies this`error, buf, if IsOpen(fd) then {descriptors[fd]} else {}
      ensures Valid()
      ensures !old(IsOpen(fd)) ==> n == -1 && error == NoFile && buf[..] == old(buf[..])
      ensures old(IsOpen(fd)) && descriptors[fd].permissions & WriteOnlyFlag != 0 ==>
        n == -1 && error == NoPermission && buf[..] == old(buf[..]) && descriptors[fd].pointer == old(descriptors[fd].pointer)
      ensures old(IsOpen(fd)) && descriptors[fd].permissions & WriteOnlyFlag == 0 ==>
        var d := descriptors[fd]; var p := old(d.pointer); var f := d.file;
        n == (if size < f.size - p then size else f.size - p) && d.pointer == p + n && error == old(error)
        && buf[..n] == f.Data()[p..p + n] && buf[n..] == old(buf[n..])
    {
      if !(0 <= fd < descriptors.Length) || descriptors[fd] == null {
        error := NoFile;
        return -1;
      }
      if descriptors[fd].permissions & WriteOnlyFlag != 0 {
        error := NoPermission;
        return -1;
      }
      var d := descriptors[fd];
      n := ReadAll(d, buf, size);
      forall i | 0 <= i < descriptors.Length && descriptors[i] != null
        ensures descriptors[i].file in files && 0 <= descriptors[i].pointer <= descriptors[i].file.size
      {
      }
    }

    /** The loop of ufs_read: ReadAtI into buf until `size` bytes or the end of the file. */
    method ReadAll(d: FileDesc, buf: array<char>, size: int) returns (n: int)
      requires d.file.Ok() && 0 <= d.pointer <= d.file.size && 0 <= size <= buf.Length
      modifies buf, d`pointer
      ensures var p := old(d.pointer); var f := d.file;
        n == (if size < f.size - p then size else f.size - p) && d.pointer == p + n
        && buf[..n] == f.Data()[p..p + n] && buf[n..] == old(buf[n..])
    {
      var f := d.file;
      ghost var p := d.pointer;
      ghost var data := f.Data();
      n := 0;
      while true
        invariant 0 <= n <= size && d.pointer == p + n <= f.size && f.Data() == data
        invariant buf[..n] == data[p..p + n] && buf[n..] == old(buf[n..])
        decreases size - n
      {
        if n == size {
          break;
        }
        var rc, c := ReadAtI(d);
        if rc == -1 {
          break;
        }
        buf[n] := c;
        assert buf[..n + 1] == buf[..n] + [c];
        assert data[p..p + n + 1] == data[p..p + n] + [c];
        n := n + 1;
      }
    }

    /** Sets ufs_error_code; nothing else changes. */
    method SetError(e: ErrorCode)
      requires Valid()
      modifies this`error
      ensures Valid() && error == e
    {
      error := e;
    }

    /** search_files_for: the first listed file that is not deleted and has this name, or null. */
    method SearchFilesFor(filename: string) returns (r: File?)
      ensures var k := FirstVisible(files, filename); r == if k < 0 then null else files[k]
    {
      FirstVisibleIsFirst(files, filename);
      var k := 0;
      while k < |files|
        invariant 0 <= k <= |files|
        invariant forall j :: 0 <= j < k ==> files[j].deleted || files[j].name != filename
      {
        if !files[k].deleted && files[k].name == filename {
          return files[k];
        }
        k := k + 1;
      }
      return null;
    }
  }
}
