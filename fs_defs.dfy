/** Definitions shared by the file-system and block layers: device numbers,
    block-device command codes, limits, the pipe macros and the layout of the
    buffer head, the inode, the file, the super block and the directory entry
    (include/linux/fs.h). */
module FsDefs {

  type Byte = x: int | 0 <= x < 256

  /** m with the bytes d stored over it from index off on: what a memcpy to
      m + off leaves, and what a run of put_fs_byte calls to consecutive
      user addresses leaves in user memory. */
  function Overwrite(m: seq<Byte>, off: int, d: seq<Byte>): (r: seq<Byte>)
    requires 0 <= off && off + |d| <= |m|
    ensures |r| == |m|
  {
    m[..off] + d + m[off + |d|..]
  }

  /** Overwrite holds d from off on, and m everywhere else. */
  lemma OverwriteMeans(m: seq<Byte>, off: int, d: seq<Byte>)
    requires 0 <= off && off + |d| <= |m|
    ensures Overwrite(m, off, d)[off..off + |d|] == d
    ensures forall i :: 0 <= i < |m| ==> Overwrite(m, off, d)[i] == if off <= i < off + |d| then d[i - off] else m[i]
  {
  }
  type U16 = x: int | 0 <= x < 0x1_0000
  type U32 = x: int | 0 <= x < 0x1_0000_0000

  // Block-device command codes.
  const READ: int := 0
  const WRITE: int := 1
  const READA: int := 2
  const WRITEA: int := 3

  const NAME_LEN: int := 14
  const ROOT_INO: int := 1
  const I_MAP_SLOTS: int := 8
  const Z_MAP_SLOTS: int := 8
  const SUPER_MAGIC: int := 0x137F
  const NR_OPEN: int := 20
  const NR_INODE: int := 32
  const NR_FILE: int := 64
  const NR_SUPER: int := 8
  const NR_HASH: int := 307
  const BLOCK_SIZE: int := 1024
  const BLOCK_SIZE_BITS: int := 10
  const PAGE_SIZE: int := 4096

  /** Size in bytes of the on-disk inode: i_mode, i_uid (2 each), i_size,
      i_time (4 each), i_gid, i_nlinks (1 each) and nine 2-byte zones. */
  const D_INODE_SIZE: int := 2 + 2 + 4 + 4 + 1 + 1 + 9 * 2
  /** A directory entry is a 2-byte inode number followed by a 14-byte name. */
  const DIR_ENTRY_SIZE: int := 2 + NAME_LEN
  const INODES_PER_BLOCK: int := BLOCK_SIZE / D_INODE_SIZE
  const DIR_ENTRIES_PER_BLOCK: int := BLOCK_SIZE / DIR_ENTRY_SIZE

  lemma LayoutConstants()
    ensures D_INODE_SIZE == 32 && INODES_PER_BLOCK == 32
    ensures DIR_ENTRY_SIZE == 16 && DIR_ENTRIES_PER_BLOCK == 64
    ensures INODES_PER_BLOCK * D_INODE_SIZE == BLOCK_SIZE
    ensures DIR_ENTRIES_PER_BLOCK * DIR_ENTRY_SIZE == BLOCK_SIZE
  {
  }

  /** The contents of every block are 1024 bytes. */
  predicate ContentsOk(c: map<int, seq<Byte>>)
  {
    forall b :: b in c ==> |c[b]| == BLOCK_SIZE
  }

  /** 1024 zero bytes: a cleared data block. */
  function ZeroBlock(): (z: seq<Byte>)
    ensures |z| == BLOCK_SIZE && forall i :: 0 <= i < BLOCK_SIZE ==> z[i] == 0
  {
    seq(BLOCK_SIZE, _ => 0)
  }

  /** Entry k of an indirect block read as 512 little-endian unsigned shorts. */
  function Entry(data: seq<Byte>, k: int): (r: int)
    requires |data| == BLOCK_SIZE && 0 <= k < 512
    ensures 0 <= r < 0x1_0000
  {
    data[2 * k] as int + 256 * (data[2 * k + 1] as int)
  }

  /** The block with entry k replaced by v. */
  function SetEntry(data: seq<Byte>, k: int, v: int): (r: seq<Byte>)
    requires |data| == BLOCK_SIZE && 0 <= k < 512 && 0 <= v < 0x1_0000
    ensures |r| == BLOCK_SIZE
  {
    data[2 * k := v % 256][2 * k + 1 := v / 256]
  }

  /** SetEntry stores v at entry k and leaves every other entry alone. */
  lemma EntryOfSet(data: seq<Byte>, k: int, v: int, j: int)
    requires |data| == BLOCK_SIZE && 0 <= k < 512 && 0 <= v < 0x1_0000 && 0 <= j < 512
    ensures Entry(SetEntry(data, k, v), j) == if j == k then v else Entry(data, j)
  {
  }

  /** S_IFMT and the file types of include/sys/stat.h (octal 0170000, 0100000, ...). */
  const S_IFMT: int := 0xF000
  const S_IFREG: int := 0x8000
  const S_IFBLK: int := 0x6000
  const S_IFDIR: int := 0x4000
  const S_IFCHR: int := 0x2000
  const S_IFIFO: int := 0x1000

  /** The file-type bits of a 16-bit mode (m & S_IFMT). */
  function FileType(mode: int): int
  {
    (mode % 0x1_0000) / 0x1000 * 0x1000
  }

  predicate IsReg(mode: int) { FileType(mode) == S_IFREG }
  predicate IsDir(mode: int) { FileType(mode) == S_IFDIR }
  predicate IsBlk(mode: int) { FileType(mode) == S_IFBLK }
  predicate IsChr(mode: int) { FileType(mode) == S_IFCHR }

  /** IS_SEEKABLE: only the memory, floppy and hard-disk majors. */
  predicate IsSeekable(major: int)
  {
    1 <= major <= 3
  }

  /** MAJOR: the device number seen as an unsigned 32-bit value, shifted right by 8. */
  function Major(a: int): (r: int)
    ensures 0 <= r < 0x100_0000
    ensures 0 <= a < 0x1_0000 ==> r < 256
  {
    (a % 0x1_0000_0000) / 256
  }

  /** MINOR: the low byte (a & 0xff, which for two's complement is the Euclidean remainder). */
  function Minor(a: int): (r: int)
    ensures 0 <= r < 256
  {
    a % 256
  }

  /** A 16-bit device number is exactly its major and minor numbers put back together. */
  lemma MajorMinorSplit(d: int)
    requires 0 <= d < 0x1_0000
    ensures Major(d) * 256 + Minor(d) == d
  {
  }

  // The pipe macros: a pipe keeps its head in i_zone[0] and its tail in i_zone[1],
  // both indices into one 4096-byte page.

  predicate PipeIndex(x: int) { 0 <= x < PAGE_SIZE }

  /** PIPE_SIZE: (HEAD - TAIL) & (PAGE_SIZE - 1). */
  function PipeSize(head: int, tail: int): (r: int)
    requires PipeIndex(head) && PipeIndex(tail)
    ensures 0 <= r <= PAGE_SIZE - 1
    ensures r == 0 <==> head == tail
    ensures (tail + r) % PAGE_SIZE == head
  {
    (head - tail) % PAGE_SIZE
  }

  predicate PipeEmpty(head: int, tail: int)
  {
    head == tail
  }

  predicate PipeFull(head: int, tail: int)
    requires PipeIndex(head) && PipeIndex(tail)
  {
    PipeSize(head, tail) == PAGE_SIZE - 1
  }

  /** INC_PIPE: increment and mask with 4095. */
  function IncPipe(x: int): (r: int)
    requires PipeIndex(x)
    ensures PipeIndex(r)
    ensures r == if x == PAGE_SIZE - 1 then 0 else x + 1
  {
    (x + 1) % PAGE_SIZE
  }

  /** A pipe holds at most PAGE_SIZE - 1 bytes: it is full exactly when one more
      increment of the head would make it look empty. */
  lemma PipeCapacity(head: int, tail: int)
    requires PipeIndex(head) && PipeIndex(tail)
    ensures PipeFull(head, tail) <==> PipeEmpty(IncPipe(head), tail)
    ensures !PipeFull(head, tail) ==> PipeSize(IncPipe(head), tail) == PipeSize(head, tail) + 1
    ensures !PipeEmpty(head, tail) ==> PipeSize(head, IncPipe(tail)) == PipeSize(head, tail) - 1
  {
  }

  /** struct buffer_head: links are buffer indices, -1 standing for NULL. */
  datatype BufferHead = BufferHead(
    addr: int,           // b_data: address of the 1024-byte data block
    data: seq<Byte>,     // the contents of that data block
    blocknr: int,        // b_blocknr
    dev: int,            // b_dev (0 = free)
    uptodate: bool,      // b_uptodate
    dirt: bool,          // b_dirt
    count: nat,          // b_count
    lock: bool,          // b_lock
    prev: int,           // b_prev: previous buffer in the hash chain
    next: int,           // b_next: next buffer in the hash chain
    prevFree: int,       // b_prev_free
    nextFree: int        // b_next_free
  )

  /** struct m_inode (the fields the model uses). */
  datatype MInode = MInode(
    mode: int, uid: int, size: int, mtime: int, gid: int, nlinks: int,
    zone: seq<int>,      // i_zone[9]; for a pipe, zone[0] is the head and zone[1] the tail
    atime: int, ctime: int,
    dev: int, num: int, count: int,
    lock: bool, dirt: bool, pipe: bool, mount: bool, seek: bool, update: bool
  )

  /** The all-zero in-memory inode. */
  const EmptyInode: MInode := MInode(0, 0, 0, 0, 0, 0, [0, 0, 0, 0, 0, 0, 0, 0, 0],
                                     0, 0, 0, 0, 0, false, false, false, false, false, false)

  /** struct file; the inode is named by its index in the inode table (-1 = NULL). */
  datatype File = File(mode: int, flags: int, count: int, inode: int, pos: int)

  /** struct dir_entry. */
  datatype DirEntry = DirEntry(inode: int, name: seq<char>)
}
