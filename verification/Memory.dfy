/** Physical memory and the two-level page tables that live in it. Translation is the walk of
    section 4.3 of the Intel SDM, volume 3A (32-bit paging, 4-KByte pages). */
module Memory {
  import opened Bits

  const IDENTITY := 4096    // frames below 16 MB are identity mapped in every directory
  const PAGES := 0x10_0000  // pages of a 32-bit address space

  const PRESENT := 1
  const WRITE := 2
  const USER := 4
  const ALL := PRESENT + WRITE + USER

  datatype Option<+T> = None | Some(value: T)

  /** One 4-KByte frame, as its 1024 words. */
  type Page = p: seq<u32> | |p| == 1024 witness seq(1024, _ => 0)

  /** A zeroed frame. */
  function ZeroPage(): (p: Page)
    ensures forall k :: 0 <= k < 1024 ==> p[k] == 0
  {
    seq(1024, _ => 0)
  }

  /** Physical memory: its frames in order. */
  type Ram = seq<Page>

  // ----- bytes inside a frame (little endian) -----

  /** Byte n of a word. */
  function ByteOf(w: nat, n: nat): u8 {
    if n == 0 then w % 0x100 else ByteOf(w / 0x100, n - 1)
  }

  // ----- words laid out as bytes -----

  function Word2(h: u16): seq<u8> {
    [h % 0x100, h / 0x100]
  }

  function Word4(w: u32): seq<u8> {
    [ByteOf(w, 0), ByteOf(w, 1), ByteOf(w, 2), ByteOf(w, 3)]
  }

  function Words(ws: seq<u32>): (b: seq<u8>)
    ensures |b| == 4 * |ws|
  {
    if ws == [] then [] else Word4(ws[0]) + Words(ws[1..])
  }

  lemma Word2At(b: seq<u8>, o: nat, h: u16)
    requires o + 2 <= |b| && b[o..o + 2] == Word2(h)
    ensures U16(b, o) == h
  {
    assert b[o] == b[o..o + 2][0] && b[o + 1] == b[o..o + 2][1];
  }

  lemma Word4At(b: seq<u8>, o: nat, w: u32)
    requires o + 4 <= |b| && b[o..o + 4] == Word4(w)
    ensures U32(b, o) == w
  {
    var s := b[o..o + 4];
    assert b[o] == s[0] && b[o + 1] == s[1] && b[o + 2] == s[2] && b[o + 3] == s[3];
    BytesOfWord(s[0], s[1], s[2], s[3]);
    SameWord(U32(b, o), w);
  }

  /** Word i of a row of words. */
  lemma {:induction false} WordsAt(b: seq<u8>, o: nat, ws: seq<u32>, i: nat)
    requires i < |ws| && o + 4 * |ws| <= |b| && b[o..o + 4 * |ws|] == Words(ws)
    ensures U32(b, o + 4 * i) == ws[i]
    decreases i
  {
    var s := b[o..o + 4 * |ws|];
    if i == 0 {
      assert b[o..o + 4] == s[..4] == Word4(ws[0]);
      Word4At(b, o, ws[0]);
    } else {
      assert b[o + 4..o + 4 + 4 * |ws[1..]|] == s[4..] == Words(ws[1..]);
      WordsAt(b, o + 4, ws[1..], i - 1);
    }
  }

  /** A word with byte n replaced. */
  function WithByte(w: u32, n: nat, b: u8): u32
    requires n < 4
  {
    LittleEndian(if n == 0 then b else ByteOf(w, 0), if n == 1 then b else ByteOf(w, 1),
                 if n == 2 then b else ByteOf(w, 2), if n == 3 then b else ByteOf(w, 3))
  }

  lemma Shift(q: nat, r: nat)
    requires r < 0x100
    ensures (r + 0x100 * q) / 0x100 == q && (r + 0x100 * q) % 0x100 == r
  {
  }

  lemma BytesOfWord(b0: u8, b1: u8, b2: u8, b3: u8)
    ensures var w := LittleEndian(b0, b1, b2, b3);
      ByteOf(w, 0) == b0 && ByteOf(w, 1) == b1 && ByteOf(w, 2) == b2 && ByteOf(w, 3) == b3
  {
    var w3, w2 := b3, b2 + 0x100 * b3;
    var w1 := b1 + 0x100 * w2;
    Shift(w1, b0);
    Shift(w2, b1);
    Shift(w3, b2);
    assert ByteOf(w3, 0) == b3;
    assert ByteOf(w2, 0) == b2 && ByteOf(w2, 1) == b3;
    assert ByteOf(w1, 0) == b1 && ByteOf(w1, 1) == b2 && ByteOf(w1, 2) == b3;
  }

  lemma ByteAfterSet(w: u32, n: nat, b: u8, k: nat)
    requires n < 4 && k < 4
    ensures ByteOf(WithByte(w, n, b), k) == if k == n then b else ByteOf(w, k)
  {
    BytesOfWord(if n == 0 then b else ByteOf(w, 0), if n == 1 then b else ByteOf(w, 1),
                if n == 2 then b else ByteOf(w, 2), if n == 3 then b else ByteOf(w, 3));
  }

  /** `fp[k]` for a byte pointer to the frame. */
  function GetByte(p: Page, k: nat): u8
    requires k < PAGE
  {
    ByteOf(p[k / 4], k % 4)
  }

  /** `fp[k] = b` */
  function SetByte(p: Page, k: nat, b: u8): Page
    requires k < PAGE
  {
    p[k / 4 := WithByte(p[k / 4], k % 4, b)]
  }

  lemma GetAfterSetByte(p: Page, k: nat, b: u8, j: nat)
    requires k < PAGE && j < PAGE
    ensures GetByte(SetByte(p, k, b), j) == if j == k then b else GetByte(p, j)
  {
    if j / 4 == k / 4 {
      ByteAfterSet(p[k / 4], k % 4, b, j % 4);
    }
  }

  /** A frame is determined by its bytes. */
  lemma SameBytes(p: Page, q: Page)
    requires forall k :: 0 <= k < PAGE ==> GetByte(p, k) == GetByte(q, k)
    ensures p == q
  {
    forall i | 0 <= i < 1024
      ensures p[i] == q[i]
    {
      assert ByteOf(p[i], 0) == GetByte(p, 4 * i) == GetByte(q, 4 * i) == ByteOf(q[i], 0);
      assert ByteOf(p[i], 1) == GetByte(p, 4 * i + 1) == GetByte(q, 4 * i + 1) == ByteOf(q[i], 1);
      assert ByteOf(p[i], 2) == GetByte(p, 4 * i + 2) == GetByte(q, 4 * i + 2) == ByteOf(q[i], 2);
      assert ByteOf(p[i], 3) == GetByte(p, 4 * i + 3) == GetByte(q, 4 * i + 3) == ByteOf(q[i], 3);
      SameWord(p[i], q[i]);
    }
  }

  lemma {:induction false} ZeroByteOf(n: nat)
    ensures ByteOf(0, n) == 0
  {
    if n > 0 {
      ZeroByteOf(n - 1);
    }
  }

  lemma ZeroBytes()
    ensures forall k :: 0 <= k < PAGE ==> GetByte(ZeroPage(), k) == 0
  {
    forall k | 0 <= k < PAGE
      ensures GetByte(ZeroPage(), k) == 0
    {
      ZeroByteOf(k % 4);
    }
  }

  lemma SameWord(w: u32, x: u32)
    requires ByteOf(w, 0) == ByteOf(x, 0) && ByteOf(w, 1) == ByteOf(x, 1) && ByteOf(w, 2) == ByteOf(x, 2)
        && ByteOf(w, 3) == ByteOf(x, 3)
    ensures w == x
  {
    TopByte(w);
    TopByte(x);
    assert w / 0x100 / 0x100 == x / 0x100 / 0x100;
    assert w / 0x100 == x / 0x100;
  }

  lemma TopByte(w: u32)
    ensures ByteOf(w, 1) == w / 0x100 % 0x100
    ensures ByteOf(w, 2) == w / 0x100 / 0x100 % 0x100
    ensures ByteOf(w, 3) == w / 0x100 / 0x100 / 0x100
  {
    assert ByteOf(w, 2) == ByteOf(w / 0x100, 1) == ByteOf(w / 0x100 / 0x100, 0);
    assert ByteOf(w, 3) == ByteOf(w / 0x100, 2) == ByteOf(w / 0x100 / 0x100, 1) == ByteOf(w / 0x100 / 0x100 / 0x100, 0);
  }

  // ----- entries -----

  predicate Present(e: u32) {
    e % 2 == 1
  }

  predicate Writable(e: u32) {
    e / 2 % 2 == 1
  }

  predicate UserOk(e: u32) {
    e / 4 % 2 == 1
  }

  /** `e & ~0xFFF`, as a frame number. */
  function FrameOf(e: u32): nat {
    e / PAGE
  }

  /** `(frame << 12) | flags` */
  function Entry(frame: nat, flags: nat): u32
    requires frame < PAGES && flags < PAGE
  {
    frame * PAGE + flags
  }

  lemma EntryFields(frame: nat, flags: nat)
    requires frame < PAGES && flags < 8
    ensures FrameOf(Entry(frame, flags)) == frame
    ensures Present(Entry(frame, flags)) == (flags % 2 == 1)
    ensures Writable(Entry(frame, flags)) == (flags / 2 % 2 == 1)
    ensures UserOk(Entry(frame, flags)) == (flags / 4 == 1)
  {
    var e := Entry(frame, flags);
    assert FrameOf(e) == frame;
    Halve(e, 2048 * frame + flags / 2, flags % 2);
    Halve(e / 2, 1024 * frame + flags / 4, flags / 2 % 2);
    assert e / 4 == e / 2 / 2;
    Halve(e / 4, 512 * frame, flags / 4);
  }

  lemma Halve(x: nat, q: nat, r: nat)
    requires x == 2 * q + r && r < 2
    ensures x / 2 == q && x % 2 == r
  {
  }

  // ----- translation -----

  /** The frame of the page table that slot i of directory d refers to. */
  function TableOf(m: Ram, d: nat, i: nat): Option<nat>
    requires d < |m| && i < 1024
  {
    var e := m[d][i];
    if Present(e) && FrameOf(e) < |m| then Some(FrameOf(e)) else None
  }

  /** A translation: the frame, and the access rights left by both levels. */
  datatype Leaf = Leaf(frame: nat, write: bool, user: bool)

  function Combine(pde: u32, pte: u32): Option<Leaf> {
    if !Present(pte) then None
    else Some(Leaf(FrameOf(pte), Writable(pde) && Writable(pte), UserOk(pde) && UserOk(pte)))
  }

  function Walk(m: Ram, d: nat, v: nat): Option<Leaf>
    requires d < |m| && v < PAGES
  {
    match TableOf(m, d, v / 1024)
    case None => None
    case Some(t) => Combine(m[d][v / 1024], m[t][v % 1024])
  }

  /** A walk through two known entries. */
  lemma WalkOf(m: Ram, d: nat, v: nat, t: nat, tf: nat, g: nat, gf: nat)
    requires d < |m| && v < PAGES && t < |m| && t < PAGES && g < PAGES && tf < 8 && gf < 8 && tf % 2 == 1 && gf % 2 == 1
    requires m[d][v / 1024] == Entry(t, tf) && m[t][v % 1024] == Entry(g, gf)
    ensures Walk(m, d, v) == Some(Leaf(g, tf / 2 % 2 == 1 && gf / 2 % 2 == 1, tf / 4 == 1 && gf / 4 == 1))
  {
    EntryFields(t, tf);
    EntryFields(g, gf);
  }

  // ----- the three stores that build page tables -----

  /** Zero frame f and hang it in slot i of directory d. */
  function Link(m: Ram, d: nat, i: nat, f: nat, flags: nat): Ram
    requires d < |m| && i < 1024 && f < |m| && f < PAGES && flags < 8
  {
    m[f := ZeroPage()][d := m[d][i := Entry(f, flags)]]
  }

  /** Memory once slot i of d has a table. */
  function Linked(m: Ram, d: nat, i: nat, f: nat, flags: nat): Ram
    requires d < |m| && i < 1024 && flags < 8
    requires !Present(m[d][i]) ==> f < |m| && f < PAGES
  {
    if Present(m[d][i]) then m else Link(m, d, i, f, flags)
  }

  /** Write entry j of table t. */
  function Store(m: Ram, t: nat, j: nat, e: u32): Ram
    requires t < |m| && j < 1024
  {
    m[t := m[t][j := e]]
  }

  /** What mapping page v does to memory: f is the frame for the page table, if one is needed. */
  function Mapped(m: Ram, d: nat, v: nat, e: u32, f: nat, flags: nat): (m': Ram)
    requires d < |m| && v < PAGES && flags < 8
    requires if Present(m[d][v / 1024]) then FrameOf(m[d][v / 1024]) < |m|
             else f < |m| && f < PAGES && d != f
  {
    if Present(m[d][v / 1024]) then
      Store(m, FrameOf(m[d][v / 1024]), v % 1024, e)
    else
      Store(Link(m, d, v / 1024, f, flags), f, v % 1024, e)
  }

  // ----- ownership of frames -----

  /** What a frame in use is for. A page table belongs to one slot of one directory. */
  datatype Owner = Reserved | Directory | Table(dir: nat, slot: nat) | UserPage(dir: nat) | KernelStack

  type Owners = map<nat, Owner>

  predicate IsDirectory(own: Owners, d: nat) {
    d in own && own[d] == Directory
  }

  /** Slot i of d holds a table of d's own, or a live table of the kernel directory k. */
  ghost predicate SlotOk(m: Ram, own: Owners, k: nat, d: nat, i: nat)
    requires d < |m| && k < |m| && i < 1024
  {
    Present(m[d][i]) ==>
      OwnedTable(m, own, k, d, i, FrameOf(m[d][i]))
  }

  ghost predicate OwnedTable(m: Ram, own: Owners, k: nat, d: nat, i: nat, t: nat)
    requires k < |m|
  {
      && t < |m| && t in own
      && (own[t] == Table(d, i)
          || (d != k && KernelTable(m, own, k, t)))
  }

  ghost predicate KernelTable(m: Ram, own: Owners, k: nat, t: nat)
    requires k < |m|
  {
    t in own && own[t].Table? && own[t].dir == k && own[t].slot < 1024 && TableOf(m, k, own[t].slot) == Some(t)
  }

  /** The ownership invariant: every table reachable from a directory is a frame in use that
      no other slot may be using, except for the kernel's tables, which directories share. */
  ghost predicate Owned(m: Ram, own: Owners, k: nat) {
    && (forall f :: f in own ==> f < |m|)
    && (forall f :: f in own && own[f].Table? ==> IsDirectory(own, own[f].dir))
    && IsDirectory(own, k)
    && forall d, i :: IsDirectory(own, d) && 0 <= i < 1024 ==> SlotOk(m, own, k, d, i)
  }

  /** Directory d uses the kernel's tables only in the slots in which the kernel directory does. */
  ghost predicate Straight(m: Ram, own: Owners, k: nat, d: nat) {
    d < |m| && forall i :: 0 <= i < 1024 ==> StraightAt(m, own, k, d, i)
  }

  ghost predicate StraightAt(m: Ram, own: Owners, k: nat, d: nat, i: nat)
    requires d < |m| && i < 1024
  {
    match TableOf(m, d, i)
    case None => true
    case Some(t) => t in own && own[t].Table? && own[t].dir == k ==> own[t].slot == i
  }

  /** Memory contents agree on every frame of a set. */
  ghost predicate AgreeOn(m: Ram, m': Ram, fs: set<nat>) {
    |m'| == |m| && forall f :: f in fs && f < |m| ==> m'[f] == m[f]
  }

  /** Translations depend only on frames in use. */
  lemma WalkFrame(m: Ram, m': Ram, own: Owners, k: nat, d: nat, v: nat)
    requires Owned(m, own, k) && AgreeOn(m, m', own.Keys)
    requires IsDirectory(own, d) && v < PAGES
    ensures Walk(m', d, v) == Walk(m, d, v)
  {
    assert SlotOk(m, own, k, d, v / 1024);
  }

  /** A frame not in use can be filled and put to use as data. */
  lemma TakeData(m: Ram, m': Ram, own: Owners, k: nat, f: nat, o: Owner)
    requires Owned(m, own, k) && AgreeOn(m, m', own.Keys)
    requires f !in own && f < |m| && (o.UserPage? || o.KernelStack?)
    ensures Owned(m', own[f := o], k)
  {
    var own' := own[f := o];
    forall d, i | IsDirectory(own', d) && 0 <= i < 1024
      ensures SlotOk(m', own', k, d, i)
    {
      assert SlotOk(m, own, k, d, i);
    }
  }

  /** Copying the kernel directory into a frame not in use makes a directory with the kernel's translations. */
  lemma TakeDirectory(m: Ram, m': Ram, own: Owners, k: nat, f: nat)
    requires Owned(m, own, k) && AgreeOn(m, m', own.Keys)
    requires f !in own && f < |m| && m'[f] == m[k]
    ensures Owned(m', own[f := Directory], k)
    ensures forall v :: 0 <= v < PAGES ==> Walk(m', f, v) == Walk(m, k, v)
  {
    var own' := own[f := Directory];
    forall d, i | IsDirectory(own', d) && 0 <= i < 1024
      ensures SlotOk(m', own', k, d, i)
    {
      assert SlotOk(m, own, k, if d == f then k else d, i);
    }
    forall v | 0 <= v < PAGES
      ensures Walk(m', f, v) == Walk(m, k, v)
    {
      WalkFrame(m, m', own, k, k, v);
    }
  }

  lemma LinkWords(m: Ram, d: nat, i: nat, f: nat, flags: nat)
    requires d < |m| && i < 1024 && f < |m| && f < PAGES && flags < 8 && d != f
    ensures forall j :: 0 <= j < 1024 ==> Link(m, d, i, f, flags)[d][j] == if j == i then Entry(f, flags) else m[d][j]
    ensures FrameOf(Entry(f, flags)) == f && Present(Entry(f, flags)) == (flags % 2 == 1)
  {
    EntryFields(f, flags);
    forall j | 0 <= j < 1024
      ensures Link(m, d, i, f, flags)[d][j] == if j == i then Entry(f, flags) else m[d][j]
    {
    }
  }

  /** Hanging a zeroed table in an empty slot keeps the invariant and changes no translation. */
  lemma LinkOwned(m: Ram, own: Owners, k: nat, d: nat, i: nat, f: nat, flags: nat)
    requires Owned(m, own, k) && IsDirectory(own, d) && i < 1024
    requires f !in own && f < |m| && f < PAGES && flags < 8 && flags % 2 == 1
    requires !Present(m[d][i])
    ensures Owned(Link(m, d, i, f, flags), own[f := Table(d, i)], k)
  {
    var m', own' := Link(m, d, i, f, flags), own[f := Table(d, i)];
    LinkWords(m, d, i, f, flags);
    forall d': nat, i': nat | IsDirectory(own', d') && 0 <= i' < 1024
      ensures SlotOk(m', own', k, d', i')
    {
      assert SlotOk(m, own, k, d', i');
      if Present(m[d'][i']) {
        var t := FrameOf(m[d'][i']);
        assert KernelTable(m, own, k, t) ==> KernelTable(m', own', k, t);
      }
    }
  }

  lemma LinkWalk(m: Ram, own: Owners, k: nat, d: nat, i: nat, f: nat, flags: nat, d': nat, v: nat)
    requires Owned(m, own, k) && IsDirectory(own, d) && i < 1024
    requires f !in own && f < |m| && f < PAGES && flags < 8 && flags % 2 == 1
    requires !Present(m[d][i])
    requires IsDirectory(own, d') && v < PAGES
    ensures Walk(Link(m, d, i, f, flags), d', v) == Walk(m, d', v)
  {
    LinkWords(m, d, i, f, flags);
    var m' := Link(m, d, i, f, flags);
    var i' := v / 1024;
    if d' == d && i' == i {
      assert TableOf(m', d, i) == Some(f) && m'[f] == ZeroPage();
    } else {
      assert m'[d'][i'] == m[d'][i'];
      assert SlotOk(m, own, k, d', i');
      assert TableOf(m', d', i') == TableOf(m, d', i');
      if Present(m[d'][i']) {
        assert m'[FrameOf(m[d'][i'])] == m[FrameOf(m[d'][i'])];
      }
    }
  }

  /** Writing entry j of a table changes exactly the page j of the slots that refer to that table. */
  lemma StoreWalk(m: Ram, own: Owners, k: nat, t: nat, j: nat, e: u32, d: nat, v: nat)
    requires Owned(m, own, k) && t in own && own[t].Table? && j < 1024
    requires IsDirectory(own, d) && v < PAGES
    ensures Walk(Store(m, t, j, e), d, v)
            == if TableOf(m, d, v / 1024) == Some(t) && v % 1024 == j then Combine(m[d][v / 1024], e)
               else Walk(m, d, v)
  {
  }

  lemma StoreKeeps(m: Ram, own: Owners, k: nat, t: nat, j: nat, e: u32)
    requires Owned(m, own, k) && t in own && own[t].Table? && j < 1024
    ensures Owned(Store(m, t, j, e), own, k)
  {
    forall d, i | IsDirectory(own, d) && 0 <= i < 1024
      ensures SlotOk(Store(m, t, j, e), own, k, d, i)
    {
      assert SlotOk(m, own, k, d, i);
    }
  }

  // ----- mapping a page -----

  /** Slot i of d is empty or holds a table of d's own. */
  ghost predicate Private(m: Ram, own: Owners, d: nat, i: nat)
    requires d < |m| && i < 1024
  {
    Present(m[d][i]) ==> FrameOf(m[d][i]) in own && own[FrameOf(m[d][i])] == Table(d, i)
  }

  /** The owners after page v has been mapped in d. */
  function MappedOwners(m: Ram, own: Owners, d: nat, v: nat, f: nat): Owners
    requires d < |m| && v < PAGES
  {
    if Present(m[d][v / 1024]) then own else own[f := Table(d, v / 1024)]
  }

  /** What a caller of the mapping code has to provide. */
  ghost predicate CanMap(m: Ram, own: Owners, k: nat, d: nat, v: nat, f: nat, flags: nat) {
    && Owned(m, own, k) && IsDirectory(own, d) && v < PAGES
    && flags < 8 && flags % 2 == 1
    && if Present(m[d][v / 1024]) then FrameOf(m[d][v / 1024]) < |m|
       else f !in own && f < |m| && f < PAGES
  }

  /** The page table that maps page v of d, once the page is mapped. */
  function TableFor(m: Ram, d: nat, v: nat, f: nat): nat
    requires d < |m| && v < PAGES
  {
    if Present(m[d][v / 1024]) then FrameOf(m[d][v / 1024]) else f
  }

  /** Entry of directory d that covers page v, once the page is mapped. */
  function SlotFor(m: Ram, d: nat, v: nat, f: nat, flags: nat): u32
    requires d < |m| && v < PAGES && flags < 8
    requires !Present(m[d][v / 1024]) ==> f < PAGES
  {
    if Present(m[d][v / 1024]) then m[d][v / 1024] else Entry(f, flags)
  }

  lemma MapKeeps(m: Ram, own: Owners, k: nat, d: nat, v: nat, e: u32, f: nat, flags: nat)
    requires CanMap(m, own, k, d, v, f, flags)
    ensures var m', own' := Mapped(m, d, v, e, f, flags), MappedOwners(m, own, d, v, f);
      && Owned(m', own', k)
      && AgreeOn(m, m', own.Keys - {d, TableFor(m, d, v, f)})
      && (forall i :: 0 <= i < 1024 ==> m'[d][i] == if i == v / 1024 then SlotFor(m, d, v, f, flags) else m[d][i])
      && TableFor(m, d, v, f) in own' && own'[TableFor(m, d, v, f)].Table?
      && (Private(m, own, d, v / 1024) ==> own'[TableFor(m, d, v, f)] == Table(d, v / 1024))
  {
    assert SlotOk(m, own, k, d, v / 1024);
    if Present(m[d][v / 1024]) {
      StoreKeeps(m, own, k, FrameOf(m[d][v / 1024]), v % 1024, e);
    } else {
      LinkOwned(m, own, k, d, v / 1024, f, flags);
      LinkWords(m, d, v / 1024, f, flags);
      StoreKeeps(Link(m, d, v / 1024, f, flags), own[f := Table(d, v / 1024)], k, f, v % 1024, e);
    }
  }

  /** Which translations a map changes: page v of d, and the same entry of every slot that refers
      to the same table. */
  lemma MapWalk(m: Ram, own: Owners, k: nat, d: nat, v: nat, e: u32, f: nat, flags: nat, d': nat, v': nat)
    requires CanMap(m, own, k, d, v, f, flags)
    requires IsDirectory(own, d') && v' < PAGES
    ensures Walk(Mapped(m, d, v, e, f, flags), d', v')
            == if d' == d && v' == v then Combine(SlotFor(m, d, v, f, flags), e)
               else if TableOf(m, d', v' / 1024) == Some(TableFor(m, d, v, f)) && v' % 1024 == v % 1024
                 then Combine(m[d'][v' / 1024], e)
               else Walk(m, d', v')
  {
    assert SlotOk(m, own, k, d, v / 1024);
    assert SlotOk(m, own, k, d', v' / 1024);
    SamePage(v, v');
    if Present(m[d][v / 1024]) {
      StoreWalk(m, own, k, FrameOf(m[d][v / 1024]), v % 1024, e, d', v');
    } else {
      MapWalkFresh(m, own, k, d, v, e, f, flags, d', v');
    }
  }

  /** In a slot of its own, a directory's map changes page v of that directory only; for the kernel
      directory, also the pages of other directories that go through the same kernel table. */
  lemma MapPrivate(m: Ram, own: Owners, k: nat, d: nat, v: nat, e: u32, f: nat, flags: nat, d': nat, v': nat)
    requires CanMap(m, own, k, d, v, f, flags) && Private(m, own, d, v / 1024)
    requires IsDirectory(own, d') && v' < PAGES
    ensures Walk(Mapped(m, d, v, e, f, flags), d', v')
            == if d' == d && v' == v then Combine(SlotFor(m, d, v, f, flags), e)
               else if d == k && d' != k && TableOf(m, d', v' / 1024) == Some(TableFor(m, d, v, f))
                       && v' % 1024 == v % 1024
                 then Combine(m[d'][v' / 1024], e)
               else Walk(m, d', v')
  {
    assert SlotOk(m, own, k, d, v / 1024);
    assert SlotOk(m, own, k, d', v' / 1024);
    SamePage(v, v');
    MapWalk(m, own, k, d, v, e, f, flags, d', v');
  }

  /** Every translation of every other directory is as before. */
  ghost predicate OthersKept(m: Ram, m': Ram, own: Owners, d: nat)
    requires |m'| == |m| && forall f :: f in own ==> f < |m|
  {
    forall d', v' :: IsDirectory(own, d') && d' != d && 0 <= v' < PAGES ==> Walk(m', d', v') == Walk(m, d', v')
  }

  /** A map in a directory other than the kernel's leaves the others alone, whatever it enters,
      exactly when the slot is empty or the directory's own. */
  lemma MapLeavesOthers(m: Ram, own: Owners, k: nat, d: nat, v: nat, f: nat, flags: nat)
    requires CanMap(m, own, k, d, v, f, flags) && d != k
    ensures (forall e: u32 :: OthersKept(m, Mapped(m, d, v, e, f, flags), own, d)) <==> Private(m, own, d, v / 1024)
  {
    if Private(m, own, d, v / 1024) {
      forall e: u32, d': nat, v': nat | IsDirectory(own, d') && d' != d && 0 <= v' < PAGES
        ensures Walk(Mapped(m, d, v, e, f, flags), d', v') == Walk(m, d', v')
      {
        MapPrivate(m, own, k, d, v, e, f, flags, d', v');
      }
    } else {
      var w := MapInherited(m, own, k, d, v, 0, f, flags);
      var w' := MapInherited(m, own, k, d, v, PRESENT, f, flags);
      assert !OthersKept(m, Mapped(m, d, v, if Walk(m, k, w).Some? then 0 else PRESENT, f, flags), own, d);
    }
  }

  /** In a slot inherited from the kernel directory, it overwrites a translation of the kernel. */
  lemma MapInherited(m: Ram, own: Owners, k: nat, d: nat, v: nat, e: u32, f: nat, flags: nat) returns (w: nat)
    requires CanMap(m, own, k, d, v, f, flags) && d != k && !Private(m, own, d, v / 1024)
    ensures w < PAGES && w % 1024 == v % 1024 && TableOf(m, k, w / 1024) == TableOf(m, d, v / 1024)
    ensures Walk(Mapped(m, d, v, e, f, flags), k, w) == Combine(m[k][w / 1024], e)
  {
    assert SlotOk(m, own, k, d, v / 1024);
    var t := FrameOf(m[d][v / 1024]);
    assert KernelTable(m, own, k, t);
    w := own[t].slot * 1024 + v % 1024;
    assert w / 1024 == own[t].slot && w % 1024 == v % 1024;
    MapWalk(m, own, k, d, v, e, f, flags, k, w);
  }

  lemma SamePage(v: nat, v': nat)
    ensures v == v' <==> v / 1024 == v' / 1024 && v % 1024 == v' % 1024
  {
  }

  lemma MapWalkFresh(m: Ram, own: Owners, k: nat, d: nat, v: nat, e: u32, f: nat, flags: nat, d': nat, v': nat)
    requires CanMap(m, own, k, d, v, f, flags)
    requires IsDirectory(own, d') && v' < PAGES
    requires !Present(m[d][v / 1024])
    ensures Walk(Mapped(m, d, v, e, f, flags), d', v')
            == if d' == d && v' == v then Combine(Entry(f, flags), e) else Walk(m, d', v')
  {
    var i, i' := v / 1024, v' / 1024;
    var m1 := Link(m, d, i, f, flags);
    LinkOwned(m, own, k, d, i, f, flags);
    LinkWords(m, d, i, f, flags);
    LinkWalk(m, own, k, d, i, f, flags, d', v');
    StoreWalk(m1, own[f := Table(d, i)], k, f, v % 1024, e, d', v');
    SamePage(v, v');
    if d' != d || i' != i {
      assert SlotOk(m, own, k, d', i');
      assert TableOf(m1, d', i') != Some(f);
    } else {
      assert TableOf(m1, d', i') == Some(f);
    }
  }
}
