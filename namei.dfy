/** Path-name handling of fs/namei.c: access checks, directory-entry name
    matching, the directory scans of find_entry and empty_dir, the walk of
    get_dir, the base-name split of dir_namei and the decisions of
    open_namei.

    Directories are values: a DirData lists, per logical block, whether the
    block is a hole (bmap gives 0), cannot be read, or holds its 64
    entries. get_dir's per-component find_entry and iget are a Namespace:
    a lookup table from (directory inode number, stored name) to an inode
    number, and the in-memory inodes by number. */
module Namei {
  import opened Util
  import opened FsDefs
  import opened Errno
  import opened Bits

  const MAY_EXEC: int := 1
  const MAY_WRITE: int := 2
  const MAY_READ: int := 4

  const NUL: char := 0 as char

  /** The effective identity of the current task; su is suser(). */
  datatype Cred = Cred(euid: int, egid: int, su: bool)

  // ---------------------------------------------------------------------
  // permission and ACC_MODE

  /** ACC_MODE: the access mask "\004\002\006\377"[flag & O_ACCMODE]. The
      last entry is the signed char -1. flag & 3 is the Euclidean remainder
      for any two's-complement int. */
  function AccMode(flag: int): (r: int)
    ensures flag % 4 == O_RDONLY ==> r == MAY_READ
    ensures flag % 4 == O_WRONLY ==> r == MAY_WRITE
    ensures flag % 4 == O_RDWR ==> r == MAY_READ + MAY_WRITE
    ensures flag % 4 == 3 ==> r == -1
  {
    [4, 2, 6, -1][flag % 4]
  }

  /** The bit of the mode that grants bit k of a request: the owner's bits
      6..8 when euid is the owner, else the group's bits 3..5 when egid is
      the group, else the other bits 0..2. */
  function ClassShift(i: MInode, c: Cred): (s: nat)
  {
    if c.euid == i.uid then 6 else if c.egid == i.gid then 3 else 0
  }

  /** The mode as permission shifted it (mode >>= 6 or >>= 3). */
  function ClassBits(i: MInode, c: Cred): nat
    requires 0 <= i.mode
  {
    if c.euid == i.uid then i.mode / 64 else if c.egid == i.gid then i.mode / 8 else i.mode
  }

  /** (bits & mask & 0007) == mask. A mask of -1 (ACC_MODE of 3) keeps all
      bits in two's complement, so the left side is bits & 7, which lies in
      0..7 and never equals -1. */
  predicate Grants(bits: nat, mask: int)
  {
    0 <= mask && And(And(bits, mask), 7) == mask
  }

  /** permission(inode, mask): an inode on a device with no links is refused
      to everybody; otherwise the class bits chosen by ClassShift must hold
      every requested bit, or the caller is the superuser. */
  function Permission(i: MInode, mask: int, c: Cred): (r: bool)
    requires 0 <= i.mode && (mask == -1 || 0 <= mask < 8)
    ensures r <==> !(i.dev != 0 && i.nlinks == 0) &&
                   (c.su || (0 <= mask &&
                    forall k :: 0 <= k < 3 && Bit(mask, k) ==> Bit(i.mode, ClassShift(i, c) + k)))
  {
    GrantsMeans(ClassBits(i, c), mask);
    forall k | 0 <= k < 3
      ensures Bit(ClassBits(i, c), k) <==> Bit(i.mode, ClassShift(i, c) + k)
    {
      ShiftedBit(i.mode, k);
    }
    if i.dev != 0 && i.nlinks == 0 then false
    else Grants(ClassBits(i, c), mask) || c.su
  }

  lemma ShiftedBit(m: nat, k: nat)
    ensures Bit(m / 8, k) <==> Bit(m, k + 3)
    ensures Bit(m / 64, k) <==> Bit(m, k + 6)
  {
    ShiftThree(m, k);
    ShiftThree(m, k + 3);
    ShiftThree(m / 8, k);
    assert m / 8 / 8 == m / 64;
  }

  lemma ShiftThree(m: nat, k: nat)
    ensures Bit(m / 8, k) <==> Bit(m, k + 3)
  {
    assert Bit(m, k + 3) <==> Bit(m / 2, k + 2);
    assert Bit(m / 2, k + 2) <==> Bit(m / 2 / 2, k + 1);
    assert Bit(m / 2 / 2, k + 1) <==> Bit(m / 2 / 2 / 2, k);
    assert m / 2 / 2 / 2 == m / 8;
  }

  /** Grants asks exactly that every bit of the mask be set. */
  lemma GrantsMeans(bits: nat, mask: int)
    requires mask == -1 || 0 <= mask < 8
    ensures Grants(bits, mask) <==> 0 <= mask && forall k :: 0 <= k < 3 && Bit(mask, k) ==> Bit(bits, k)
  {
    Pow2Values();
    if 0 <= mask {
      var a := And(bits, mask);
      forall k | 0 <= k < 3
        ensures Bit(And(a, 7), k) <==> Bit(a, k)
      {
        AndBit(a, 7, k);
        assert Bit(7, k);
      }
      SameBits(And(a, 7), a, 3);
      HasAll(bits, mask, 3);
    }
  }

  /** With O_ACCMODE bits 3 the access mask is -1, which only the superuser
      passes, and never on an unlinked inode of a device. */
  lemma AccModeThreeOnlySuperuser(i: MInode, flag: int, c: Cred)
    requires 0 <= i.mode && flag % 4 == 3
    ensures Permission(i, AccMode(flag), c) <==> c.su && !(i.dev != 0 && i.nlinks == 0)
  {
  }

  /** Read-write access asks for both the read and the write bit of the class. */
  lemma ReadWriteNeedsBoth(i: MInode, c: Cred)
    requires 0 <= i.mode && !c.su
    ensures Permission(i, AccMode(O_RDWR), c) <==>
              Permission(i, MAY_READ, c) && Permission(i, MAY_WRITE, c)
  {
    assert Bit(6, 1) && Bit(6, 2) && !Bit(6, 0);
    assert Bit(4, 2) && !Bit(4, 1) && !Bit(4, 0);
    assert Bit(2, 1) && !Bit(2, 2) && !Bit(2, 0);
  }

  // ---------------------------------------------------------------------
  // match and the stored form of a name

  /** No NUL inside a name taken from a path. */
  predicate NulFree(s: seq<char>)
  {
    forall j :: 0 <= j < |s| ==> s[j] != NUL
  }

  /** The 14 name bytes add_entry stores: the first len characters of name,
      then NULs. */
  function Stored(name: seq<char>, len: int): (r: seq<char>)
    requires 0 <= len <= NAME_LEN && len <= |name|
    ensures |r| == NAME_LEN
    ensures r[..len] == name[..len]
    ensures forall j :: len <= j < NAME_LEN ==> r[j] == NUL
  {
    seq(NAME_LEN, j requires 0 <= j < NAME_LEN => if j < len then name[j] else NUL)
  }

  /** An entry of a directory block: its name is always 14 bytes. */
  predicate EntryOk(e: DirEntry)
  {
    |e.name| == NAME_LEN
  }

  /** match(len, name, de): no entry, a free entry or len > NAME_LEN never
      match; a stored name longer than len does not match; otherwise the
      first len bytes decide. */
  function Match(len: int, name: seq<char>, de: Option<DirEntry>): (r: bool)
    requires 0 < len <= |name|
    requires de.Some? ==> EntryOk(de.value)
    ensures r ==> de.Some? && de.value.inode != 0 && len <= NAME_LEN && name[..len] == de.value.name[..len]
  {
    if de.None? || de.value.inode == 0 || len > NAME_LEN then false
    else if len < NAME_LEN && de.value.name[len] != NUL then false
    else name[..len] == de.value.name[..len]
  }

  /** For names without NULs, match against an entry written by add_entry is
      exact name equality: a shorter name stops at a stored non-NUL byte and a
      longer one meets a stored NUL. */
  lemma MatchIsNameEquality(s: seq<char>, t: seq<char>, ino: int)
    requires 0 < |s| <= NAME_LEN && 0 < |t| <= NAME_LEN && NulFree(s) && NulFree(t)
    ensures Match(|s|, s, Some(DirEntry(ino, Stored(t, |t|)))) <==> ino != 0 && s == t
  {
    var st := Stored(t, |t|);
    if |s| < |t| {
      assert st[|s|] == t[|s|];
    } else if |s| > |t| {
      assert s[..|s|][|t|] != st[..|s|][|t|];
    } else if ino != 0 && s == t {
      assert st[..|s|] == t[..|t|];
    }
  }

  /** NAME_LEN truncation (NO_TRUNCATE is not defined). */
  function Truncated(namelen: int): (r: int)
    ensures r == if namelen > NAME_LEN then NAME_LEN else namelen
    ensures r <= NAME_LEN
  {
    if namelen > NAME_LEN then NAME_LEN else namelen
  }

  /** Names that agree on their first NAME_LEN characters cannot be told
      apart once truncated: both match the same entries. */
  lemma LongNamesCollide(a: seq<char>, b: seq<char>, de: DirEntry)
    requires |a| > NAME_LEN && |b| > NAME_LEN && a[..NAME_LEN] == b[..NAME_LEN] && EntryOk(de)
    ensures Match(Truncated(|a|), a, Some(de)) == Match(Truncated(|b|), b, Some(de))
  {
    assert a[..NAME_LEN] == b[..NAME_LEN];
  }

  /** How find_entry looks a component up: the truncated length, or -- for
      ".." -- length 1 (the entry ".") at the task's root, and a switch to
      the inode the file system is mounted on at the root inode of a mounted
      file system. */
  datatype Search = Search(len: int, crossMount: bool)

  function PrepareName(name: seq<char>, namelen: int, atTaskRoot: bool, atFsRoot: bool, mounted: bool): (r: Search)
    requires 0 <= namelen <= |name|
    ensures r.len == if namelen >= 2 && Truncated(namelen) == 2 && name[..2] == ".." && atTaskRoot then 1 else Truncated(namelen)
    ensures r.crossMount <==> Truncated(namelen) == 2 && name[..2] == ".." && !atTaskRoot && atFsRoot && mounted
  {
    var len := Truncated(namelen);
    if len == 2 && name[0] == '.' && name[1] == '.' then
      if atTaskRoot then Search(1, false)
      else Search(2, atFsRoot && mounted)
    else Search(len, false)
  }

  /** At the task's root ".." finds the entry ".", so the root is its own parent. */
  lemma DotDotAtRootIsDot(ino: int)
    requires ino != 0
    ensures Match(PrepareName("..", 2, true, false, false).len, "..", Some(DirEntry(ino, Stored(".", 1))))
  {
  }

  // ---------------------------------------------------------------------
  // directory blocks: find_entry and empty_dir

  datatype Slot = Hole | Unreadable | Loaded(entries: seq<DirEntry>)

  /** A directory: i_size, and its logical blocks as bmap and bread see them
      (blocks past the end of the list are holes). */
  datatype DirData = DirData(size: int, num: int, blocks: seq<Slot>)

  predicate DirOk(d: DirData)
  {
    0 <= d.size &&
    forall b :: 0 <= b < |d.blocks| && d.blocks[b].Loaded? ==>
      |d.blocks[b].entries| == DIR_ENTRIES_PER_BLOCK &&
      forall k :: 0 <= k < DIR_ENTRIES_PER_BLOCK ==> EntryOk(d.blocks[b].entries[k])
  }

  /** i_size / sizeof(struct dir_entry) */
  function Entries(d: DirData): int
  {
    d.size / DIR_ENTRY_SIZE
  }

  function SlotOf(d: DirData, b: int): Slot
  {
    if 0 <= b < |d.blocks| then d.blocks[b] else Hole
  }

  predicate IsLoaded(d: DirData, b: int)
  {
    SlotOf(d, b).Loaded?
  }

  /** Entry j of the directory, in block j / 64 at position j % 64. */
  function EntryAt(d: DirData, j: int): (e: DirEntry)
    requires DirOk(d) && 0 <= j && IsLoaded(d, j / DIR_ENTRIES_PER_BLOCK)
    ensures EntryOk(e)
  {
    d.blocks[j / DIR_ENTRIES_PER_BLOCK].entries[j % DIR_ENTRIES_PER_BLOCK]
  }

  /** find_entry reaches entry j and it matches. */
  predicate Hit(d: DirData, j: int, name: seq<char>, len: int)
    requires DirOk(d) && 0 < len <= |name|
  {
    0 <= j && HitAt(d, j / DIR_ENTRIES_PER_BLOCK, j % DIR_ENTRIES_PER_BLOCK, name, len)
  }

  /** Entry k of logical block b is in memory and matches. */
  predicate HitAt(d: DirData, b: int, k: int, name: seq<char>, len: int)
    requires DirOk(d) && 0 < len <= |name| && 0 <= k < DIR_ENTRIES_PER_BLOCK
  {
    IsLoaded(d, b) && Match(len, name, Some(d.blocks[b].entries[k]))
  }

  /** No entry before index n matches, stated by block and position. */
  ghost predicate NoHitBelow(d: DirData, n: int, name: seq<char>, len: int)
    requires DirOk(d) && 0 < len <= |name|
  {
    forall b, k :: 0 <= b && 0 <= k < DIR_ENTRIES_PER_BLOCK && DIR_ENTRIES_PER_BLOCK * b + k < n ==>
      !HitAt(d, b, k, name, len)
  }

  lemma NoHitHole(d: DirData, n: int, b: int, name: seq<char>, len: int)
    requires DirOk(d) && 0 < len <= |name| && 0 <= b && n == DIR_ENTRIES_PER_BLOCK * b
    requires NoHitBelow(d, n, name, len) && !IsLoaded(d, b)
    ensures NoHitBelow(d, n + DIR_ENTRIES_PER_BLOCK, name, len)
  {
    forall b', k' | 0 <= b' && 0 <= k' < DIR_ENTRIES_PER_BLOCK && DIR_ENTRIES_PER_BLOCK * b' + k' < n + DIR_ENTRIES_PER_BLOCK
      ensures !HitAt(d, b', k', name, len)
    {
      if b' != b {
        BeforeBlock(b', k', b);
      }
    }
  }

  /** An entry before the end of block b that is not in block b is before
      its start. */
  lemma BeforeBlock(b': int, k': int, b: int)
    requires 0 <= b' && 0 <= k' < DIR_ENTRIES_PER_BLOCK && b' != b
    requires DIR_ENTRIES_PER_BLOCK * b' + k' < DIR_ENTRIES_PER_BLOCK * b + DIR_ENTRIES_PER_BLOCK
    ensures DIR_ENTRIES_PER_BLOCK * b' + k' < DIR_ENTRIES_PER_BLOCK * b
  {
  }

  lemma NoHitStep(d: DirData, n: int, b: int, k: int, name: seq<char>, len: int)
    requires DirOk(d) && 0 < len <= |name| && 0 <= b && 0 <= k < DIR_ENTRIES_PER_BLOCK
    requires n == DIR_ENTRIES_PER_BLOCK * b + k && NoHitBelow(d, n, name, len) && !HitAt(d, b, k, name, len)
    ensures NoHitBelow(d, n + 1, name, len)
  {
    forall b', k' | 0 <= b' && 0 <= k' < DIR_ENTRIES_PER_BLOCK && DIR_ENTRIES_PER_BLOCK * b' + k' < n + 1
      ensures !HitAt(d, b', k', name, len)
    {
      if DIR_ENTRIES_PER_BLOCK * b' + k' == n {
        BlockOf(b', k');
        BlockOf(b, k);
      }
    }
  }

  lemma NoHitBelowMeans(d: DirData, n: int, name: seq<char>, len: int)
    requires DirOk(d) && 0 < len <= |name|
    ensures NoHitBelow(d, n, name, len) <==> forall j :: 0 <= j < n ==> !Hit(d, j, name, len)
  {
    if NoHitBelow(d, n, name, len) {
      forall j | 0 <= j < n
        ensures !Hit(d, j, name, len)
      {
        assert DIR_ENTRIES_PER_BLOCK * (j / DIR_ENTRIES_PER_BLOCK) + j % DIR_ENTRIES_PER_BLOCK == j;
      }
    }
    if forall j :: 0 <= j < n ==> !Hit(d, j, name, len) {
      forall b, k | 0 <= b && 0 <= k < DIR_ENTRIES_PER_BLOCK && DIR_ENTRIES_PER_BLOCK * b + k < n
        ensures !HitAt(d, b, k, name, len)
      {
        BlockOf(b, k);
        assert !Hit(d, DIR_ENTRIES_PER_BLOCK * b + k, name, len);
      }
    }
  }

  lemma BlockOf(b: int, k: int)
    requires 0 <= b && 0 <= k < DIR_ENTRIES_PER_BLOCK
    ensures (DIR_ENTRIES_PER_BLOCK * b + k) / DIR_ENTRIES_PER_BLOCK == b
    ensures (DIR_ENTRIES_PER_BLOCK * b + k) % DIR_ENTRIES_PER_BLOCK == k
  {
  }

  lemma EntryAtBlock(d: DirData, b: int, k: int)
    requires DirOk(d) && 0 <= b && 0 <= k < DIR_ENTRIES_PER_BLOCK && IsLoaded(d, b)
    ensures (DIR_ENTRIES_PER_BLOCK * b + k) / DIR_ENTRIES_PER_BLOCK == b
    ensures (DIR_ENTRIES_PER_BLOCK * b + k) % DIR_ENTRIES_PER_BLOCK == k
    ensures EntryAt(d, DIR_ENTRIES_PER_BLOCK * b + k) == d.blocks[b].entries[k]
  {
    BlockOf(b, k);
  }

  /** The scan of find_entry for an already prepared length len (see
      PrepareName): -1 for an empty name or an unreadable first block
      (i_zone[0] is read directly), else the first entry below
      i_size / 16 that matches, skipping blocks that are holes or cannot be
      read. */
  method FindEntry(d: DirData, name: seq<char>, len: int) returns (r: int)
    requires DirOk(d) && 0 <= len <= NAME_LEN && len <= |name|
    ensures r == -1 <==> len == 0 || !IsLoaded(d, 0) ||
                         forall j :: 0 <= j < Entries(d) ==> !Hit(d, j, name, len)
    ensures r != -1 ==> 0 <= r < Entries(d) && Hit(d, r, name, len) &&
                        forall j :: 0 <= j < r ==> !Hit(d, j, name, len)
  {
    if len == 0 || !IsLoaded(d, 0) {
      return -1;
    }
    r := ScanEntries(d, name, len);
  }

  /** The loop of find_entry once block 0 is in. */
  method ScanEntries(d: DirData, name: seq<char>, len: int) returns (r: int)
    requires DirOk(d) && 0 < len <= NAME_LEN && len <= |name| && IsLoaded(d, 0)
    ensures r == -1 <==> forall j :: 0 <= j < Entries(d) ==> !Hit(d, j, name, len)
    ensures r != -1 ==> 0 <= r < Entries(d) && Hit(d, r, name, len) &&
                        forall j :: 0 <= j < r ==> !Hit(d, j, name, len)
  {
    var entries := Entries(d);
    var i, blk, k := 0, 0, 0;
    while i < entries
      invariant 0 <= blk && 0 <= k <= DIR_ENTRIES_PER_BLOCK && i == DIR_ENTRIES_PER_BLOCK * blk + k
      invariant k < DIR_ENTRIES_PER_BLOCK ==> IsLoaded(d, blk)
      invariant NoHitBelow(d, i, name, len)
      decreases entries - i
    {
      if k == DIR_ENTRIES_PER_BLOCK {
        if !IsLoaded(d, blk + 1) {
          NoHitHole(d, i, blk + 1, name, len);
          blk, i := blk + 1, i + DIR_ENTRIES_PER_BLOCK;
          continue;
        }
        blk, k := blk + 1, 0;
      }
      if Match(len, name, Some(d.blocks[blk].entries[k])) {
        EntryAtBlock(d, blk, k);
        assert Hit(d, i, name, len);
        NoHitBelowMeans(d, i, name, len);
        return i;
      }
      NoHitStep(d, i, blk, k, name, len);
      k, i := k + 1, i + 1;
    }
    NoHitBelowMeans(d, i, name, len);
    NoHitBelowMeans(d, entries, name, len);
    return -1;
  }

  /** strcmp(lit, stored) == 0 for a 14-byte stored name: lit then a NUL. */
  predicate NameIs(stored: seq<char>, lit: seq<char>)
    requires |stored| == NAME_LEN && |lit| < NAME_LEN
  {
    stored[..|lit|] == lit && stored[|lit|] == NUL
  }

  /** The first block of a directory as empty_dir demands it: at least two
      entries, block 0 readable, entry 0 is "." naming the directory itself
      and entry 1 is ".." naming some inode. */
  predicate WellFormedDir(d: DirData)
    requires DirOk(d)
  {
    Entries(d) >= 2 && IsLoaded(d, 0) &&
    var e := d.blocks[0].entries;
    e[0].inode == d.num && e[1].inode != 0 && NameIs(e[0].name, ".") && NameIs(e[1].name, "..")
  }

  /** empty_dir: the directory is well formed, no block past the first that
      the scan reaches fails to read (holes are skipped), and every entry
      from index 2 on in a readable block is free. */
  method EmptyDir(d: DirData) returns (r: bool)
    requires DirOk(d)
    ensures r <==> WellFormedDir(d) &&
                   (forall b :: 1 <= b && DIR_ENTRIES_PER_BLOCK * b < Entries(d) ==> !SlotOf(d, b).Unreadable?) &&
                   (forall j :: 2 <= j < Entries(d) && IsLoaded(d, j / DIR_ENTRIES_PER_BLOCK) ==> EntryAt(d, j).inode == 0)
  {
    var len := Entries(d);
    if len < 2 || !IsLoaded(d, 0) {
      return false;
    }
    var e := d.blocks[0].entries;
    if e[0].inode != d.num || e[1].inode == 0 || !NameIs(e[0].name, ".") || !NameIs(e[1].name, "..") {
      return false;
    }
    var nr, blk, k := 2, 0, 2;
    while nr < len
      invariant 0 <= blk && 0 <= k <= DIR_ENTRIES_PER_BLOCK && nr == DIR_ENTRIES_PER_BLOCK * blk + k && 2 <= nr
      invariant k < DIR_ENTRIES_PER_BLOCK ==> IsLoaded(d, blk)
      invariant forall b :: 1 <= b <= blk ==> !SlotOf(d, b).Unreadable?
      invariant FreeBelow(d, nr)
      decreases len - nr
    {
      if k == DIR_ENTRIES_PER_BLOCK {
        if SlotOf(d, blk + 1).Hole? {
          FreeBelowHole(d, nr, blk + 1);
          blk, nr := blk + 1, nr + DIR_ENTRIES_PER_BLOCK;
          continue;
        }
        if SlotOf(d, blk + 1).Unreadable? {
          assert DIR_ENTRIES_PER_BLOCK * (blk + 1) < Entries(d);
          return false;
        }
        blk, k := blk + 1, 0;
      }
      if d.blocks[blk].entries[k].inode != 0 {
        EntryAtBlock(d, blk, k);
        return false;
      }
      FreeBelowStep(d, nr, blk, k);
      k, nr := k + 1, nr + 1;
    }
    FreeBelowMeans(d, nr);
    FreeBelowMeans(d, len);
    return true;
  }

  /** Every entry from index 2 up to n in a block in memory is free, stated by
      block and position. */
  ghost predicate FreeBelow(d: DirData, n: int)
    requires DirOk(d)
  {
    forall b, k ::
      (0 <= b && 0 <= k < DIR_ENTRIES_PER_BLOCK && 2 <= DIR_ENTRIES_PER_BLOCK * b + k < n && IsLoaded(d, b)) ==>
        d.blocks[b].entries[k].inode == 0
  }

  lemma FreeBelowHole(d: DirData, n: int, b: int)
    requires DirOk(d) && 0 <= b && n == DIR_ENTRIES_PER_BLOCK * b && FreeBelow(d, n) && !IsLoaded(d, b)
    ensures FreeBelow(d, n + DIR_ENTRIES_PER_BLOCK)
  {
    forall b', k' | 0 <= b' && 0 <= k' < DIR_ENTRIES_PER_BLOCK &&
                    2 <= DIR_ENTRIES_PER_BLOCK * b' + k' < n + DIR_ENTRIES_PER_BLOCK && IsLoaded(d, b')
      ensures d.blocks[b'].entries[k'].inode == 0
    {
      if b' != b {
        BeforeBlock(b', k', b);
      }
    }
  }

  lemma FreeBelowStep(d: DirData, n: int, b: int, k: int)
    requires DirOk(d) && 0 <= b && 0 <= k < DIR_ENTRIES_PER_BLOCK && n == DIR_ENTRIES_PER_BLOCK * b + k
    requires FreeBelow(d, n) && IsLoaded(d, b) && d.blocks[b].entries[k].inode == 0
    ensures FreeBelow(d, n + 1)
  {
    forall b', k' | 0 <= b' && 0 <= k' < DIR_ENTRIES_PER_BLOCK &&
                    2 <= DIR_ENTRIES_PER_BLOCK * b' + k' < n + 1 && IsLoaded(d, b')
      ensures d.blocks[b'].entries[k'].inode == 0
    {
      if DIR_ENTRIES_PER_BLOCK * b' + k' == n {
        BlockOf(b', k');
        BlockOf(b, k);
      }
    }
  }

  lemma FreeBelowMeans(d: DirData, n: int)
    requires DirOk(d)
    ensures FreeBelow(d, n) <==>
              forall j :: 2 <= j < n && IsLoaded(d, j / DIR_ENTRIES_PER_BLOCK) ==> EntryAt(d, j).inode == 0
  {
    if FreeBelow(d, n) {
      forall j | 2 <= j < n && IsLoaded(d, j / DIR_ENTRIES_PER_BLOCK)
        ensures EntryAt(d, j).inode == 0
      {
        assert DIR_ENTRIES_PER_BLOCK * (j / DIR_ENTRIES_PER_BLOCK) + j % DIR_ENTRIES_PER_BLOCK == j;
      }
    }
    if forall j :: 2 <= j < n && IsLoaded(d, j / DIR_ENTRIES_PER_BLOCK) ==> EntryAt(d, j).inode == 0 {
      forall b, k | 0 <= b && 0 <= k < DIR_ENTRIES_PER_BLOCK && 2 <= DIR_ENTRIES_PER_BLOCK * b + k < n && IsLoaded(d, b)
        ensures d.blocks[b].entries[k].inode == 0
      {
        BlockOf(b, k);
        assert EntryAt(d, DIR_ENTRIES_PER_BLOCK * b + k).inode == 0;
      }
    }
  }

  // ---------------------------------------------------------------------
  // get_dir and dir_namei

  datatype Namespace = Namespace(inodes: map<int, MInode>, lookup: map<(int, seq<char>), int>)

  predicate NamespaceOk(ns: Namespace)
  {
    forall n :: n in ns.inodes ==> 0 <= ns.inodes[n].mode
  }

  /** The index of the first '/' in p, or |p|. */
  function SlashAt(p: seq<char>): (j: int)
    ensures 0 <= j <= |p| && '/' !in p[..j] && (j < |p| ==> p[j] == '/')
  {
    if |p| == 0 || p[0] == '/' then 0 else 1 + SlashAt(p[1..])
  }

  /** The key find_entry-and-iget resolve a component of directory ino with:
      the truncated name, or "." for ".." at the task's root. */
  function Key(ino: int, root: int, comp: seq<char>): (int, seq<char>)
  {
    var s := PrepareName(comp, |comp|, ino == root, false, false);
    (ino, comp[..s.len])
  }

  /** A directory the walk may continue from: in memory, a directory, and
      searchable (MAY_EXEC). */
  predicate Searchable(ns: Namespace, ino: int, c: Cred)
    requires NamespaceOk(ns)
  {
    ino in ns.inodes && IsDir(ns.inodes[ino].mode) && Permission(ns.inodes[ino], MAY_EXEC, c)
  }

  /** The loop of get_dir from directory ino over the rest p of the path:
      every directory reached must be searchable; the text after the last
      '/' is never looked up; an empty component or a missing entry ends
      the walk with NULL. */
  function Walk(ns: Namespace, root: int, ino: int, p: seq<char>, c: Cred): Option<int>
    requires NamespaceOk(ns)
    decreases |p|
  {
    if !Searchable(ns, ino, c) then None
    else
      var j := SlashAt(p);
      if j == |p| then Some(ino)
      else if j == 0 || Key(ino, root, p[..j]) !in ns.lookup then None
      else Walk(ns, root, ns.lookup[Key(ino, root, p[..j])], p[j + 1..], c)
  }

  /** get_dir: panics without a root or working directory in use; NULL for
      an empty path; an absolute path starts at the root, a relative one at
      the working directory. */
  function GetDirOf(ns: Namespace, root: int, pwd: int, path: seq<char>, c: Cred): Result<Option<int>>
    requires NamespaceOk(ns)
  {
    if root !in ns.inodes || ns.inodes[root].count == 0 then Fail("No root inode")
    else if pwd !in ns.inodes || ns.inodes[pwd].count == 0 then Fail("No cwd inode")
    else if |path| == 0 then Ok(None)
    else if path[0] == '/' then Ok(Walk(ns, root, root, path[1..], c))
    else Ok(Walk(ns, root, pwd, path, c))
  }

  /** The directory get_dir returns is one the task may search. */
  lemma {:induction false} WalkEndsSearchable(ns: Namespace, root: int, ino: int, p: seq<char>, c: Cred)
    requires NamespaceOk(ns) && Walk(ns, root, ino, p, c).Some?
    ensures Searchable(ns, Walk(ns, root, ino, p, c).value, c)
    decreases |p|
  {
    var j := SlashAt(p);
    if j < |p| {
      WalkEndsSearchable(ns, root, ns.lookup[Key(ino, root, p[..j])], p[j + 1..], c);
    }
  }

  /** The index where the base name starts: just after the last '/'. */
  function BaseStart(p: seq<char>): (s: int)
    ensures 0 <= s <= |p| && '/' !in p[s..] && (s > 0 ==> p[s - 1] == '/')
  {
    if |p| == 0 then 0
    else if p[|p| - 1] == '/' then |p|
    else BaseStart(p[..|p| - 1])
  }

  /** get_dir never looks at the base name: the walk over the whole path and
      over the path cut just after its last '/' agree. */
  lemma {:induction false} WalkIgnoresBase(ns: Namespace, root: int, ino: int, p: seq<char>, c: Cred)
    requires NamespaceOk(ns)
    ensures Walk(ns, root, ino, p, c) == Walk(ns, root, ino, p[..BaseStart(p)], c)
    decreases |p|
  {
    var j := SlashAt(p);
    var q := p[..BaseStart(p)];
    if Searchable(ns, ino, c) {
      if j == |p| {
        assert p[..j] == p;
        NoSlashNoBaseStart(p);
        assert SlashAt(q) == 0;
      } else {
        BaseStartPastSlash(p, j);
        assert q[..j] == p[..j];
        SlashAtIs(q, j);
        var rest := p[j + 1..];
        BaseStartAfter(p, j);
        assert q[j + 1..] == rest[..BaseStart(rest)];
        if 0 < j && Key(ino, root, p[..j]) in ns.lookup {
          WalkIgnoresBase(ns, root, ns.lookup[Key(ino, root, p[..j])], rest, c);
        }
      }
    }
  }

  lemma {:induction false} NoSlashNoBaseStart(p: seq<char>)
    requires '/' !in p
    ensures BaseStart(p) == 0
    decreases |p|
  {
    if |p| > 0 {
      assert p[|p| - 1] in p;
      assert p[..|p| - 1] <= p;
      NoSlashNoBaseStart(p[..|p| - 1]);
    }
  }

  lemma {:induction false} BaseStartPastSlash(p: seq<char>, j: int)
    requires 0 <= j < |p| && p[j] == '/'
    ensures BaseStart(p) > j
    decreases |p|
  {
    if p[|p| - 1] != '/' {
      BaseStartPastSlash(p[..|p| - 1], j);
    }
  }

  lemma {:induction false} SlashAtIs(p: seq<char>, j: int)
    requires 0 <= j < |p| && '/' !in p[..j] && p[j] == '/'
    ensures SlashAt(p) == j
    decreases j
  {
    if j > 0 {
      assert p[..j][0] == p[0];
      assert p[1..][..j - 1] == p[..j][1..];
      SlashAtIs(p[1..], j - 1);
    }
  }

  /** Cutting a first component off the path moves the base-name start with it. */
  lemma BaseStartAfter(p: seq<char>, j: int)
    requires 0 <= j < |p| && p[j] == '/'
    ensures BaseStart(p[j + 1..]) == BaseStart(p) - (j + 1)
  {
    var rest := p[j + 1..];
    var s := BaseStart(p);
    BaseStartPastSlash(p, j);
    assert rest[s - (j + 1)..] == p[s..];
    if s - (j + 1) > 0 {
      assert rest[s - (j + 1) - 1] == p[s - 1];
    }
    BaseStartIs(rest, s - (j + 1));
  }

  /** get_dir as a loop: the start is chosen, then each '/'-terminated
      component is resolved in turn. */
  method GetDir(ns: Namespace, root: int, pwd: int, path: seq<char>, c: Cred) returns (r: Result<Option<int>>)
    requires NamespaceOk(ns)
    ensures r == GetDirOf(ns, root, pwd, path, c)
  {
    if root !in ns.inodes || ns.inodes[root].count == 0 {
      return Fail("No root inode");
    }
    if pwd !in ns.inodes || ns.inodes[pwd].count == 0 {
      return Fail("No cwd inode");
    }
    if |path| == 0 {
      return Ok(None);
    }
    var inode, pos;
    if path[0] == '/' {
      inode, pos := root, 1;
    } else {
      inode, pos := pwd, 0;
    }
    ghost var goal := Walk(ns, root, inode, path[pos..], c);
    assert Ok(goal) == GetDirOf(ns, root, pwd, path, c);
    while true
      invariant 0 <= pos <= |path|
      invariant Walk(ns, root, inode, path[pos..], c) == goal
      decreases |path| - pos
    {
      if !Searchable(ns, inode, c) {
        return Ok(None);
      }
      var rest := path[pos..];
      var namelen := ComponentLength(path, pos);
      if pos + namelen == |path| {
        return Ok(Some(inode));
      }
      var key := Key(inode, root, rest[..namelen]);
      if namelen == 0 || key !in ns.lookup {
        return Ok(None);
      }
      assert rest[namelen + 1..] == path[pos + namelen + 1..];
      inode, pos := ns.lookup[key], pos + namelen + 1;
    }
  }

  /** The for loop of get_dir that measures the next component. */
  method ComponentLength(path: seq<char>, pos: int) returns (n: int)
    requires 0 <= pos <= |path|
    ensures n == SlashAt(path[pos..])
  {
    var rest := path[pos..];
    n := 0;
    while pos + n < |path| && path[pos + n] != '/'
      invariant 0 <= n <= |path| - pos
      invariant '/' !in rest[..n]
    {
      assert rest[..n + 1] == rest[..n] + [rest[n]];
      n := n + 1;
    }
    if pos + n < |path| {
      SlashAtIs(rest, n);
    } else {
      assert rest[..n] == rest;
      NoSlashAt(rest);
    }
  }

  lemma {:induction false} NoSlashAt(p: seq<char>)
    requires '/' !in p
    ensures SlashAt(p) == |p|
    decreases |p|
  {
    if |p| > 0 {
      assert p[0] in p;
      assert p[1..] <= p[1..];
      assert forall x :: x in p[1..] ==> x in p;
      NoSlashAt(p[1..]);
    }
  }

  /** The split dir_namei makes: the directory from get_dir and the base
      name after the last '/', whose length is 0 when the path ends in '/'. */
  datatype Split = Split(dir: int, base: seq<char>)

  /** dir_namei: get_dir's outcome, then a scan for the text after the last '/'. */
  method DirNamei(ns: Namespace, root: int, pwd: int, path: seq<char>, c: Cred) returns (r: Result<Option<Split>>)
    requires NamespaceOk(ns)
    ensures GetDirOf(ns, root, pwd, path, c).Fail? ==> r == Fail(GetDirOf(ns, root, pwd, path, c).msg)
    ensures GetDirOf(ns, root, pwd, path, c) == Ok(None) ==> r == Ok(None)
    ensures GetDirOf(ns, root, pwd, path, c).Ok? && GetDirOf(ns, root, pwd, path, c).value.Some? ==>
              r == Ok(Some(Split(GetDirOf(ns, root, pwd, path, c).value.value, path[BaseStart(path)..])))
  {
    var g := GetDir(ns, root, pwd, path, c);
    if g.Fail? {
      return Fail(g.msg);
    }
    if g.value.None? {
      return Ok(None);
    }
    var base := 0;
    var i := 0;
    while i < |path|
      invariant 0 <= base <= i <= |path|
      invariant '/' !in path[base..i] && (base > 0 ==> path[base - 1] == '/')
    {
      if path[i] == '/' {
        base := i + 1;
      } else {
        assert path[base..i + 1] == path[base..i] + [path[i]];
      }
      i := i + 1;
    }
    BaseStartIs(path, base);
    return Ok(Some(Split(g.value.value, path[base..])));
  }

  lemma {:induction false} BaseStartIs(p: seq<char>, s: int)
    requires 0 <= s <= |p| && '/' !in p[s..] && (s > 0 ==> p[s - 1] == '/')
    ensures BaseStart(p) == s
    decreases |p|
  {
    if s < |p| {
      assert p[|p| - 1] in p[s..];
      assert p[..|p| - 1][s..] == p[s..|p| - 1];
      assert p[s..|p| - 1] <= p[s..];
      if s > 0 {
        assert p[..|p| - 1][s - 1] == p[s - 1];
      }
      BaseStartIs(p[..|p| - 1], s);
    }
  }

  // ---------------------------------------------------------------------
  // open_namei

  /** O_TRUNC with read-only access is turned into write-only. */
  function OpenFlag(flag: int): (r: int)
    ensures r % 4 == if Bit(flag, 9) && flag % 4 == O_RDONLY then O_WRONLY else flag % 4
    ensures forall k :: 2 <= k ==> (Bit(r, k) <==> Bit(flag, k))
  {
    if Bit(flag, 9) && flag % 4 == 0 then
      assert forall k :: 2 <= k ==> (Bit(flag + 1, k) <==> Bit(flag, k)) by {
        forall k | 2 <= k
          ensures Bit(flag + 1, k) <==> Bit(flag, k)
        {
          SetLowBit(flag, k);
        }
      }
      flag + 1
    else flag
  }

  /** The mode of a created file: (mode & 0777 & ~umask) | I_REGULAR. */
  function CreateMode(mode: int, umask: nat): (r: nat)
    ensures IsReg(r)
    ensures forall k :: 0 <= k < 9 ==> (Bit(r, k) <==> Bit(mode, k) && !Bit(umask, k))
    ensures forall k :: 9 <= k < 15 ==> !Bit(r, k)
  {
    Pow2Values();
    var perm := AndNot(mode % 512, umask);
    forall k | 0 <= k < 9
      ensures Bit(perm, k) <==> Bit(mode, k) && !Bit(umask, k)
    {
      AndNotBit(mode % 512, umask, k);
      LowBits(mode, 9, k);
    }
    forall k | 9 <= k < 15
      ensures !Bit(perm, k)
    {
      HighBitsClear(perm, 9, k);
    }
    var r := perm + S_IFREG;
    TypeBitsApart(perm, r);
    r
  }

  /** Adding S_IFREG to a value below 2^15 leaves its 15 low bits alone. */
  lemma TypeBitsApart(p: nat, r: int)
    requires r == p + S_IFREG
    ensures forall k :: 0 <= k < 15 ==> (Bit(r, k) <==> Bit(p, k))
  {
    forall k | 0 <= k < 15
      ensures Bit(r, k) <==> Bit(p, k)
    {
      Pow15();
      BitAddMultiple(p, 1, 15, k);
    }
  }

  lemma Pow15()
    ensures Pow2(15) == 0x8000
  {
    Pow2Values();
    assert Pow2(12) == 4096;
  }

  /** How open_namei ends: an error number, an existing inode (with or
      without truncation), or a newly created one with its mode and owner
      (new_inode gave its number, add_entry linked it into the directory). */
  datatype OpenOutcome = OpenError(errno: int) | Existing(ino: int, truncate: bool) | Created(ino: int, mode: int, uid: int)

  /** open_namei after dir_namei. found is the inode number find_entry and
      iget give for the base name (None when there is no entry, Some(-1)
      when iget fails); newIno is new_inode's result and added says whether
      add_entry found room. */
  function OpenNamei(ns: Namespace, split: Option<Split>, flag: int, mode: int, umask: nat, c: Cred,
                     found: Option<int>, newIno: Option<int>, added: bool): (r: OpenOutcome)
    requires NamespaceOk(ns) && (split.Some? ==> Searchable(ns, split.value.dir, c))
    ensures split.None? ==> r == OpenError(-ENOENT)
    ensures split.Some? && |split.value.base| == 0 ==>
              r == if OpenFlag(flag) % 4 == 0 && !Bit(flag, 6) && !Bit(flag, 9) then Existing(split.value.dir, false)
                   else OpenError(-EISDIR)
    ensures split.Some? && |split.value.base| > 0 && found.Some? && Bit(flag, 7) ==> r == OpenError(-EEXIST)
    ensures r.Created? ==> split.Some? && found.None? && Bit(flag, 6) && newIno == Some(r.ino) && added &&
                           Permission(ns.inodes[split.value.dir], MAY_WRITE, c) &&
                           r.mode == CreateMode(mode, umask) && r.uid == c.euid
    ensures r.Existing? && (split.Some? && |split.value.base| > 0) ==>
              found == Some(r.ino) && r.ino in ns.inodes && !Bit(flag, 7) &&
              Permission(ns.inodes[r.ino], AccMode(OpenFlag(flag)), c) &&
              !(IsDir(ns.inodes[r.ino].mode) && OpenFlag(flag) % 4 != 0) && r.truncate == Bit(flag, 9)
  {
    var f := OpenFlag(flag);
    if split.None? then OpenError(-ENOENT)
    else if |split.value.base| == 0 then
      if f % 4 == 0 && !Bit(f, 6) && !Bit(f, 9) then Existing(split.value.dir, false)
      else OpenError(-EISDIR)
    else if found.None? then
      if !Bit(f, 6) then OpenError(-ENOENT)
      else if !Permission(ns.inodes[split.value.dir], MAY_WRITE, c) then OpenError(-EACCES)
      else if newIno.None? then OpenError(-ENOSPC)
      else if !added then OpenError(-ENOSPC)
      else Created(newIno.value, CreateMode(mode, umask), c.euid)
    else if Bit(f, 7) then OpenError(-EEXIST)
    else
      var ino := found.value;
      if ino !in ns.inodes then OpenError(-EACCES)
      else
        var i := ns.inodes[ino];
        if (IsDir(i.mode) && f % 4 != 0) || !Permission(i, AccMode(f), c) then OpenError(-EPERM)
        else Existing(ino, Bit(f, 9))
  }

  /** O_TRUNC on a read-only open needs write permission on the file, since
      the access mode was turned into O_WRONLY first. */
  lemma TruncNeedsWrite(ns: Namespace, split: Option<Split>, flag: int, mode: int, umask: nat, c: Cred,
                        found: Option<int>, newIno: Option<int>, added: bool)
    requires NamespaceOk(ns) && (split.Some? ==> Searchable(ns, split.value.dir, c))
    requires flag % 4 == O_RDONLY && Bit(flag, 9)
    requires split.Some? && |split.value.base| > 0
    ensures OpenNamei(ns, split, flag, mode, umask, c, found, newIno, added).Existing? ==>
              found.value in ns.inodes && Permission(ns.inodes[found.value], MAY_WRITE, c) &&
              OpenNamei(ns, split, flag, mode, umask, c, found, newIno, added).truncate
  {
  }
}
