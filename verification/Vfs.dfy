/** fs/vfs.c: the static pool of open nodes over the ext2 driver. */
module Vfs {
  import opened Bits
  import opened Memory
  import opened Ext2

  const POOL := 8      // VFS_POOL_SIZE
  const NAME_MAX := 63
  const FS_FILE := 1

  /** fs_node_t. `reader` says whether the read operation is set. */
  datatype Node = Node(name: CString, flags: u32, inode: u32, length: u32, reader: bool, used: bool)

  type Pool = p: seq<Node> | |p| == POOL witness seq(POOL, _ => Node([], 0, 0, 0, false, false))

  /** The first unused node from i on. */
  function FirstFree(pool: Pool, i: nat): (r: Option<nat>)
    requires i <= POOL
    ensures match r
      case None => forall k :: i <= k < POOL ==> pool[k].used
      case Some(n) => i <= n < POOL && !pool[n].used && forall k :: i <= k < n ==> pool[k].used
    decreases POOL - i
  {
    if i == POOL then None else if !pool[i].used then Some(i) else FirstFree(pool, i + 1)
  }

  /** A path without its leading slash. */
  function Strip(path: CString): CString {
    if path != [] && path[0] == '/' as int then path[1..] else path
  }

  function Shortened(name: CString): (short: CString)
    ensures short <= name && |short| == if |name| < 63 then |name| else 63
  {
    if |name| < NAME_MAX then name else name[..NAME_MAX]
  }

  datatype Opening = Opening(pool: Pool, node: Option<nat>)

  /** The pool after an open that finds inode `ino` (0 if none) of `length` bytes. */
  function Opened(pool: Pool, name: CString, ino: u32, length: u32): Opening {
    match FirstFree(pool, 0)
    case None => Opening(pool, None)
    case Some(n) =>
      if ino == 0 then Opening(pool, None)
      else Opening(pool[n := Node(Shortened(name), FS_FILE, ino, length, true, true)], Some(n))
  }

  function Closed(pool: Pool, n: nat): Pool
    requires n < POOL
  {
    pool[n := pool[n].(used := false)]
  }

  class FileSystem {
    const ext2: Driver
    const pool: array<Node>  // node_pool

    ghost predicate Valid() {
      pool.Length == POOL && ext2.Buffers() && ext2.vol.Valid()
    }

    ghost function Nodes(): Pool
      requires pool.Length == POOL
      reads pool
    {
      pool[..]
    }

    /** vfs_init. */
    constructor (ext2: Driver)
      requires ext2.Buffers() && ext2.vol.Valid()
      ensures Valid() && this.ext2 == ext2 && fresh(pool)
      ensures forall k :: 0 <= k < POOL ==> !pool[k].used
    {
      this.ext2 := ext2;
      pool := new Node[POOL](_ => Node([], 0, 0, 0, false, false));
    }

    /** The inode a lookup in the root directory finds now. */
    ghost function Found(path: CString): u32
      requires Valid()
      reads ext2.blkB
    {
      Lookup(Scan(ext2.vol.DirView(ROOT_INODE, ext2.blkB[ext2.vol.blockSize..]), 0, ext2.vol.DirEnd(ROOT_INODE)),
          Strip(path))
    }

    /** The names a listing of the root directory prints now. */
    ghost function Names(): seq<CString>
      requires Valid()
      reads ext2.blkB
    {
      Listing(Scan(ext2.vol.DirView(ROOT_INODE, ext2.blkB[ext2.vol.blockSize..]), 0, ext2.vol.DirEnd(ROOT_INODE)))
    }

    /** ext2_ls of the root directory, as SYS_LS calls it. */
    method List() returns (lines: seq<CString>)
      requires Valid()
      modifies ext2.blkA, ext2.blkB
      ensures lines == old(Names())
    {
      lines := ext2.Ls(ROOT_INODE);
    }

    /** vfs_open. */
    method Open(path: CString) returns (node: Option<nat>)
      requires Valid()
      modifies pool, ext2.blkA, ext2.blkB
      ensures Opening(Nodes(), node) == Opened(old(Nodes()), Strip(path), old(Found(path)),
          ext2.vol.InodeAt(old(Found(path))).size)
    {
      hide Scan, Volume.InodeAt, Volume.DirView, Volume.DirEnd;
      ghost var before, found := Nodes(), Found(path);
      var n := 0;
      while n < POOL && pool[n].used
        invariant 0 <= n <= POOL && FirstFree(before, 0) == FirstFree(before, n)
      {
        n := n + 1;
      }
      if n == POOL {
        return None;
      }
      var name := if path != [] && path[0] == '/' as int then path[1..] else path;
      var ino := ext2.Find(ROOT_INODE, name);
      if ino == 0 {
        return None;
      }
      var length := ext2.InodeSize(ino);
      var short := CopyName(name);
      pool[n] := Node(short, FS_FILE, ino, length, true, true);
      return Some(n);
    }

    /** Copy at most 63 characters of the name. */
    method CopyName(name: CString) returns (short: CString)
      ensures short == Shortened(name)
    {
      short := [];
      var i := 0;
      while i < NAME_MAX && i < |name|
        invariant 0 <= i <= |name| && i <= NAME_MAX && short == name[..i]
      {
        short := short + [name[i]];
        i := i + 1;
      }
    }

    /** vfs_close. */
    method Close(node: Option<nat>)
      requires Valid() && (node.Some? ==> node.value < POOL)
      modifies pool
      ensures Nodes() == if node.Some? then Closed(old(Nodes()), node.value) else old(Nodes())
    {
      if node.Some? {
        pool[node.value] := pool[node.value].(used := false);
      }
    }

    /** vfs_read. */
    method Read(node: Option<nat>, offset: u32, size: u32, buf: array<u8>) returns (n: nat)
      requires Valid() && (node.Some? ==> node.value < POOL)
      requires buf != ext2.blkA && buf != ext2.blkB
      requires |ReadBytes(ext2.vol, Nodes(), node, offset, size)| <= buf.Length
      modifies ext2.blkA, buf
      ensures n <= buf.Length && buf[..n] == ReadBytes(ext2.vol, Nodes(), node, offset, size)
      ensures buf[n..] == old(buf[n..])
    {
      if node == None || !pool[node.value].reader {
        return 0;
      }
      n := ext2.Pread(pool[node.value].inode, buf, offset, size);
    }
  }

  /** What a read through a node delivers. */
  function ReadBytes(v: Volume, pool: Pool, node: Option<nat>, offset: u32, size: u32): seq<u8>
    requires v.Valid() && (node.Some? ==> node.value < POOL)
  {
    if node == None || !pool[node.value].reader then []
    else v.Pread(v.InodeAt(pool[node.value].inode), offset, size)
  }
}
