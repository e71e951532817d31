/** The page tables of kernel/arch/x86_64/pt.c: a three-level tree in word-addressed physical memory
    (Intel 64 and IA-32 Architectures Software Developer's Manual, vol. 3A, section 4.5). */
module PageTables {
  import opened Words
  import opened Wrappers

  const PAGE_SIZE: nat := 0x20_0000
  const PAGE_TABLE_BYTES: nat := 0x1000
  const PRESENT: nat := 1
  /** Present and writable. */
  const LINK_FLAGS: nat := 0x3
  /** Present, writable, and the end of the walk: a 2 MB page instead of a further table. */
  const LEAF_FLAGS: nat := 0x83

  // ---- Entries and address fields ------------------------------------------------------------

  /** Whether an entry is in use: its lowest bit. */
  predicate IsPresent(e: nat) {
    e % 2 == 1
  }

  /** The 4 KB page an address or entry names. */
  function PageOf(x: nat): nat {
    x - x % PAGE_TABLE_BYTES
  }

  /** `e & PT_PRESENT_FLAG`, as a truth value. */
  function TestPresent(e: nat): (r: bool)
    ensures r <==> IsPresent(e)
  {
    MaskIsMod(e, 1);
    assert Pow2(1) == 2;
    BitAnd(e, PRESENT) != 0
  }

  /** `ALIGN_DOWN`. */
  function AlignDown(x: nat): (r: nat)
    ensures r == PageOf(x)
  {
    MaskIsMod(x, 12);
    assert Pow2(12) == 0x1000;
    BitClear(x, 0xfff)
  }

  /** An entry with flag bits or-ed in. */
  function WithFlags(e: DWord, flags: nat): (r: DWord)
    requires flags < 0x1000 && flags % 2 == 1
    ensures IsPresent(r) && PageOf(r) == PageOf(e)
    ensures forall i: nat :: Bit(r, i) <==> Bit(e, i) || Bit(flags, i)
  {
    hide Bit;
    OrKeepsHigh(e, flags, 12);
    assert Pow2(12) == 0x1000;
    SamePage(e, BitOr(e, flags));
    OrOdd(e, flags);
    OrBits(e, flags);
    BitOr(e, flags)
  }

  /** An upper-level entry that leads to a table: bits 0 and 1 are set, the others stay. */
  function LinkEntry(e: DWord): (r: DWord)
    ensures IsPresent(r) && PageOf(r) == PageOf(e)
    ensures forall i: nat :: Bit(r, i) <==> Bit(e, i) || i == 0 || i == 1
  {
    hide Bit, WithFlags;
    FlagBits();
    WithFlags(e, LINK_FLAGS)
  }

  /** A last-level entry for a physical page: bits 0, 1 and 7 are set, the others are the address's. */
  function LeafEntry(phy: DWord): (r: DWord)
    ensures IsPresent(r) && PageOf(r) == PageOf(phy)
    ensures forall i: nat :: Bit(r, i) <==> Bit(phy, i) || i == 0 || i == 1 || i == 7
    ensures phy % PAGE_TABLE_BYTES == 0 ==> r == phy + 0x83
  {
    hide Bit;
    FlagBits();
    assert Pow2(12) == PAGE_TABLE_BYTES;
    assert phy % PAGE_TABLE_BYTES == 0 ==> BitOr(phy, LEAF_FLAGS) == phy + LEAF_FLAGS by {
      if phy % PAGE_TABLE_BYTES == 0 {
        OrIsSum(phy, LEAF_FLAGS, 12);
      }
    }
    WithFlags(phy, LEAF_FLAGS)
  }

  lemma FlagBits()
    ensures forall i: nat :: Bit(LINK_FLAGS, i) <==> i == 0 || i == 1
    ensures forall i: nat :: Bit(LEAF_FLAGS, i) <==> i == 0 || i == 1 || i == 7
  {
    hide Bit;
    forall i: nat
      ensures Bit(LINK_FLAGS, i) <==> i == 0 || i == 1
      ensures Bit(LEAF_FLAGS, i) <==> i == 0 || i == 1 || i == 7
    {
      if i >= 8 {
        NoBitAbove(LEAF_FLAGS, i, 8);
        NoBitAbove(LINK_FLAGS, i, 8);
      } else {
        FlagBitsBelow(i);
      }
    }
  }

  lemma FlagBitsBelow(i: nat)
    requires i < 8
    ensures Bit(LINK_FLAGS, i) <==> i == 0 || i == 1
    ensures Bit(LEAF_FLAGS, i) <==> i == 0 || i == 1 || i == 7
  {
    assert Pow2(0) == 1 && Pow2(1) == 2 && Pow2(2) == 4 && Pow2(3) == 8;
    assert Pow2(4) == 16 && Pow2(5) == 32 && Pow2(6) == 64 && Pow2(7) == 128;
  }

  lemma OrOdd(a: nat, b: nat)
    requires b % 2 == 1
    ensures BitOr(a, b) % 2 == 1
  {
  }

  lemma SamePage(e: DWord, r: nat)
    requires r / 0x1000 == e / 0x1000
    ensures r < B64 && r - r % 0x1000 == e - e % 0x1000
  {
  }

  /** An entry with the present bit cleared. */
  function WithoutPresent(e: DWord): (r: DWord)
    ensures !IsPresent(r) && PageOf(r) == PageOf(e)
    ensures r == e - e % 2
  {
    MaskIsMod(e, 1);
    assert Pow2(1) == 2;
    DropLowBit(e);
    BitClear(e, PRESENT)
  }

  lemma DropLowBit(e: nat)
    ensures PageOf(e - e % 2) == PageOf(e)
  {
    var q := e / PAGE_TABLE_BYTES;
    QuotientIs(e - e % 2, PAGE_TABLE_BYTES, q, e % PAGE_TABLE_BYTES - e % 2);
  }

  /** Nine bits of a virtual address, from position `shift`. */
  function Field(virt: DWord, shift: nat): (r: nat)
    ensures r == virt / Pow2(shift) % 512
  {
    DivAtMost(virt, Pow2(shift));
    LowNine(virt / Pow2(shift))
  }

  function LowNine(x: nat): (r: nat)
    ensures r == x % 512
  {
    MaskIsMod(x, 9);
    assert Pow2(9) == 512;
    BitAnd(x, 0x1ff)
  }

  /** The page number a virtual address is translated by: its bits 21 to 47. */
  function Vpn(virt: DWord): (v: nat)
    ensures v < 0x800_0000
  {
    virt / 0x20_0000 % 0x800_0000
  }

  lemma FieldsOfVpn(virt: DWord)
    ensures Field(virt, 39) == Vpn(virt) / 0x4_0000
    ensures Field(virt, 30) == Vpn(virt) / 512 % 512
    ensures Field(virt, 21) == Vpn(virt) % 512
  {
    Pow2Values();
    var p := virt / 0x20_0000;
    NestedDiv(virt, 0x20_0000, 512);
    NestedDiv(virt, 0x20_0000, 0x4_0000);
    ModThenDiv(p, 0x4_0000, 512);
    ModThenDiv(p, 512, 0x4_0000);
    ModThenDiv(p / 512, 1, 512);
    ModOfMod(p, 512, 0x4_0000);
    ModOfMod(p / 512, 512, 512);
  }

  lemma Pow2Values()
    ensures Pow2(21) == 0x20_0000 && Pow2(30) == 0x4000_0000 && Pow2(39) == 0x80_0000_0000
  {
    assert Pow2(10) == 0x400;
    Pow2Add(10, 10);
    Pow2Add(20, 1);
    Pow2Add(20, 10);
    Pow2Add(30, 9);
    assert Pow2(9) == 512;
  }

  lemma ModOfMod(n: nat, a: nat, b: nat)
    requires a > 0 && b > 0
    ensures a * b > 0 && n % (a * b) % a == n % a
  {
    var q, r := n / (a * b), n % (a * b);
    var q', r' := r / a, r % a;
    assert n == (q * b + q') * a + r' by {
      assert q * (a * b) == (q * b) * a;
    }
    QuotientIs(n, a, q * b + q', r');
  }

  /** The three table indices cut from a virtual address, as parts of its page number. */
  method Indices(virt: DWord) returns (i: nat, j: nat, k: nat)
    ensures i == Vpn(virt) / 0x4_0000 && j == Vpn(virt) / 512 % 512 && k == Vpn(virt) % 512
    ensures i < 512
  {
    FieldsOfVpn(virt);
    i, j, k := Field(virt, 39), Field(virt, 30), Field(virt, 21);
  }

  // ---- The tree ------------------------------------------------------------------------------

  /** Where a table sits: the root, below entry i of the root, or below entry j of that one. */
  datatype Place = Root | Pdp(i: nat) | Pd(i: nat, j: nat)
  {
    predicate Valid() {
      match this
      case Root => true
      case Pdp(i) => i < 512
      case Pd(i, j) => i < 512 && j < 512
    }

    /** The place below entry k of this one. */
    function Below(k: nat): Place
      requires !Pd?
    {
      if Root? then Pdp(k) else Pd(i, k)
    }
  }

  function Entry(m: seq<DWord>, table: nat, k: nat): DWord {
    if table / 8 + k < |m| then m[table / 8 + k] else 0
  }

  function Child(m: seq<DWord>, table: nat, k: nat): nat {
    if table != 0 && IsPresent(Entry(m, table, k)) then PageOf(Entry(m, table, k)) else 0
  }

  /** The address of the table at a place, or 0 when there is none. */
  function Locate(m: seq<DWord>, root: nat, p: Place): nat {
    match p
    case Root => root
    case Pdp(i) => Child(m, root, i)
    case Pd(i, j) => Child(m, Child(m, root, i), j)
  }

  /** The last-level entry for page v, or 0 when there is no table for it. */
  function Leaf(m: seq<DWord>, root: nat, v: nat): DWord {
    var t := Locate(m, root, Pd(v / 0x4_0000, v / 512 % 512));
    if t == 0 then 0 else Entry(m, t, v % 512)
  }

  /** The translation the tables hold: from virtual pages to 4 KB-aligned physical addresses. */
  ghost function Mapping(m: seq<DWord>, root: nat): map<nat, nat> {
    map v | 0 <= v < 0x800_0000 && IsPresent(Leaf(m, root, v)) :: PageOf(Leaf(m, root, v))
  }

  predicate IsTable(size: nat, t: nat) {
    t % PAGE_TABLE_BYTES == 0 && t != 0 && t + PAGE_TABLE_BYTES <= 8 * size
  }

  /** Present entries of the upper two levels lead to tables, and no table is reached twice. */
  ghost predicate Tree(m: seq<DWord>, root: nat) {
    && (forall p: Place :: p.Valid() && Locate(m, root, p) != 0 ==> IsTable(|m|, Locate(m, root, p)))
    && (forall p: Place, q: Place :: p.Valid() && q.Valid() && p != q && Locate(m, root, p) != 0 ==>
        Locate(m, root, p) != Locate(m, root, q))
    && (forall p: Place, k: nat {:trigger Entry(m, Locate(m, root, p), k)} ::
        p.Valid() && !p.Pd? && k < 512 && Locate(m, root, p) != 0 && IsPresent(Entry(m, Locate(m, root, p), k)) ==>
        PageOf(Entry(m, Locate(m, root, p), k)) != 0)
  }

  // ---- The supply of tables ------------------------------------------------------------------

  /** The stack of 4 KB tables cut from the last 2 MB page, and what the page allocator will answer:
      page numbers, with 0 for "out of memory". */
  datatype Pool = Pool(top: nat, bottom: nat, answers: seq<nat>)

  /** The allocator hands out pages that exist, are not page 0, and were never handed out before. */
  ghost predicate Fresh(size: nat, pool: Pool) {
    && 8 * size <= B64
    && pool.bottom % PAGE_SIZE == 0 && pool.top % PAGE_TABLE_BYTES == 0
    && pool.bottom <= pool.top <= pool.bottom + PAGE_SIZE
    && (pool.bottom < pool.top ==>
        0 < pool.bottom && pool.top <= 8 * size && pool.bottom / PAGE_SIZE !in pool.answers)
    && (forall i :: 0 <= i < |pool.answers| ==> (pool.answers[i] + 1) * PAGE_SIZE <= 8 * size)
    && (forall i, j :: 0 <= i < j < |pool.answers| && pool.answers[i] != 0 ==> pool.answers[i] != pool.answers[j])
  }

  /** The pool may still hand out the table at address t. */
  ghost predicate Holds(pool: Pool, t: nat) {
    pool.bottom <= t < pool.top || (t / PAGE_SIZE != 0 && t / PAGE_SIZE in pool.answers)
  }

  function TablesLeft(pool: Pool): nat {
    if pool.bottom <= pool.top then (pool.top - pool.bottom) / PAGE_TABLE_BYTES else 0
  }

  /** How many tables can be had before the allocator next says no (at most one page ahead). */
  function Supply(pool: Pool): nat {
    TablesLeft(pool) + if pool.answers != [] && pool.answers[0] != 0 then 512 else 0
  }

  /** What `get_phy_page_table` does to the pool, and the table it takes (0 for none). */
  function Take(pool: Pool): (r: (Pool, nat)) {
    if pool.bottom + PAGE_TABLE_BYTES > pool.top then
      var page := if pool.answers == [] then 0 else pool.answers[0];
      var rest := if pool.answers == [] then [] else pool.answers[1..];
      if page == 0 then (pool.(answers := rest), 0)
      else
        var bottom := page * PAGE_SIZE;
        var top := bottom + PAGE_SIZE - PAGE_TABLE_BYTES;
        (Pool(top, bottom, rest), top)
    else
      (pool.(top := pool.top - PAGE_TABLE_BYTES), pool.top - PAGE_TABLE_BYTES)
  }

  /** A taken table is one the pool held and will never hand out again. */
  lemma TakeFresh(size: nat, pool: Pool)
    requires Fresh(size, pool)
    ensures Fresh(size, Take(pool).0)
    ensures Take(pool).1 != 0 <==> Supply(pool) >= 1
    ensures var (pool', t) := Take(pool);
            t != 0 ==> IsTable(size, t) && Holds(pool, t) && !Holds(pool', t) && Supply(pool') + 1 >= Supply(pool)
    ensures 1 <= Supply(pool) < 512 ==> Supply(Take(pool).0) == Supply(pool) - 1
    ensures forall u: nat :: u % PAGE_TABLE_BYTES == 0 && Holds(Take(pool).0, u) ==> Holds(pool, u)
  {
    if pool.bottom + PAGE_TABLE_BYTES > pool.top {
      if pool.answers != [] {
        assert pool.answers == [pool.answers[0]] + pool.answers[1..];
        if pool.answers[0] != 0 {
          TakeFromPage(size, pool, pool.answers[0], pool.answers[1..]);
        }
      }
    } else {
      TakeFromStack(size, pool);
    }
  }

  lemma TakeFromStack(size: nat, pool: Pool)
    requires Fresh(size, pool) && pool.bottom + PAGE_TABLE_BYTES <= pool.top
    ensures var (pool', t) := Take(pool);
            && Fresh(size, pool') && IsTable(size, t) && Holds(pool, t) && !Holds(pool', t)
            && TablesLeft(pool') + 1 == TablesLeft(pool) && pool'.answers == pool.answers
  {
    assert pool.bottom / PAGE_SIZE * PAGE_SIZE == pool.bottom;
    InPage(pool.bottom / PAGE_SIZE, pool.top - PAGE_TABLE_BYTES);
  }

  lemma InPage(page: nat, u: nat)
    requires page * PAGE_SIZE <= u < page * PAGE_SIZE + PAGE_SIZE
    ensures u / PAGE_SIZE == page
  {
    QuotientIs(u, PAGE_SIZE, page, u - page * PAGE_SIZE);
  }

  lemma TakeFromPage(size: nat, pool: Pool, page: nat, rest: seq<nat>)
    requires Fresh(size, pool) && pool.bottom + PAGE_TABLE_BYTES > pool.top
    requires pool.answers == [page] + rest && page != 0
    ensures var (pool', t) := Take(pool);
            && Fresh(size, pool') && IsTable(size, t) && Holds(pool, t) && !Holds(pool', t)
            && TablesLeft(pool') == 511 && TablesLeft(pool) == 0
    ensures forall u: nat :: Take(pool).0.bottom <= u < Take(pool).0.top ==> u / PAGE_SIZE == page
    ensures forall a :: a in rest ==> a in pool.answers
  {
    assert pool.answers[0] == page && pool.answers[1..] == rest;
    forall i | 0 <= i < |rest|
      ensures rest[i] == pool.answers[i + 1] && rest[i] != page
    {
    }
    var pool' := Take(pool).0;
    assert pool' == Pool(page * PAGE_SIZE + PAGE_SIZE - PAGE_TABLE_BYTES, page * PAGE_SIZE, rest);
    assert (page + 1) * PAGE_SIZE <= 8 * size;
    InPage(page, pool'.top);
    InPage(page, pool'.bottom);
    forall u: nat | pool'.bottom <= u < pool'.top
      ensures u / PAGE_SIZE == page
    {
      InPage(page, u);
    }
  }

  // ---- Framing: what one write changes ---------------------------------------------------------

  /** The tables form a tree, and the pool holds none of them. */
  ghost predicate Inv(m: seq<DWord>, root: nat, pool: Pool) {
    && Fresh(|m|, pool)
    && Tree(m, root)
    && (forall p: Place :: p.Valid() && Locate(m, root, p) != 0 ==> !Holds(pool, Locate(m, root, p)))
  }

  /** Memory with entry k of a table set to e. */
  function SetEntry(m: seq<DWord>, table: nat, k: nat, e: DWord): (m': seq<DWord>)
    requires IsTable(|m|, table) && k < 512
    ensures |m'| == |m|
  {
    m[table / 8 + k := e]
  }

  /** Writing one entry of one table leaves every other entry of every table alone. */
  lemma EntryFrame(m: seq<DWord>, table: nat, k: nat, e: DWord, t: nat, x: nat)
    requires IsTable(|m|, table) && k < 512 && IsTable(|m|, t) && x < 512
    ensures Entry(SetEntry(m, table, k, e), t, x) == if t == table && x == k then e else Entry(m, t, x)
  {
    if t < table {
      assert t + PAGE_TABLE_BYTES <= table;
    } else if table < t {
      assert table + PAGE_TABLE_BYTES <= t;
    }
  }

  /** After writing an entry of an upper-level table, a place is found where it was, except for the
      place the written entry leads to and the places below that. */
  lemma LocateFrame(m: seq<DWord>, root: nat, p: Place, k: nat, e: DWord, q: Place)
    requires Tree(m, root) && p.Valid() && k < 512 && q.Valid()
    requires Locate(m, root, p) != 0
    ensures var m' := SetEntry(m, Locate(m, root, p), k, e);
            && (p.Pd? || (q != p.Below(k) && (q.Pd? ==> Pdp(q.i) != p.Below(k))) ==>
              Locate(m', root, q) == Locate(m, root, q))
            && (!p.Pd? && q == p.Below(k) ==>
              Locate(m', root, q) == if IsPresent(e) then PageOf(e) else 0)
  {
    var t := Locate(m, root, p);
    var m' := SetEntry(m, t, k, e);
    assert Locate(m, root, Root) == root;
    if q.Pdp? && root != 0 {
      EntryFrame(m, t, k, e, root, q.i);
    } else if q.Pd? && root != 0 {
      EntryFrame(m, t, k, e, root, q.i);
      var c := Locate(m, root, Pdp(q.i));
      if c != 0 {
        EntryFrame(m, t, k, e, c, q.j);
      }
    }
  }

  /** Two memories in which every place is found at the same address, with the same leaf entries. */
  ghost predicate SameTables(m: seq<DWord>, m': seq<DWord>, root: nat) {
    && (forall p: Place :: p.Valid() ==> Locate(m', root, p) == Locate(m, root, p))
    && (forall v: nat :: v < 0x800_0000 ==> Leaf(m', root, v) == Leaf(m, root, v))
  }

  /** All entries of the tables of m are in m' what they were. */
  ghost predicate SameEntries(m: seq<DWord>, m': seq<DWord>, root: nat) {
    forall q: Place, x: nat {:trigger Entry(m', Locate(m, root, q), x)} ::
      q.Valid() && x < 512 && Locate(m, root, q) != 0 ==>
        Entry(m', Locate(m, root, q), x) == Entry(m, Locate(m, root, q), x)
  }

  /** Entry k of the table at place p became e, and no other entry of any table changed. */
  ghost predicate OnlyEntry(m: seq<DWord>, m': seq<DWord>, root: nat, p: Place, k: nat, e: DWord) {
    forall q: Place, x: nat {:trigger Entry(m', Locate(m, root, q), x)} ::
      q.Valid() && x < 512 && Locate(m, root, q) != 0 ==>
        Entry(m', Locate(m, root, q), x) == if q == p && x == k then e else Entry(m, Locate(m, root, q), x)
  }

  /** Rewriting an upper-level entry so that it leads where it led before changes nothing. */
  lemma RewriteEntry(m: seq<DWord>, root: nat, pool: Pool, p: Place, k: nat, e: DWord)
    requires Inv(m, root, pool) && p.Valid() && !p.Pd? && k < 512 && Locate(m, root, p) != 0
    requires var old' := Entry(m, Locate(m, root, p), k);
             IsPresent(e) == IsPresent(old') && (IsPresent(e) ==> PageOf(e) == PageOf(old'))
    ensures var m' := SetEntry(m, Locate(m, root, p), k, e);
            SameTables(m, m', root) && Inv(m', root, pool) && OnlyEntry(m, m', root, p, k, e)
  {
    var t := Locate(m, root, p);
    var m' := SetEntry(m, t, k, e);
    forall q: Place | q.Valid()
      ensures Locate(m', root, q) == Locate(m, root, q)
    {
      RewriteLocate(m, root, p, k, e, q);
    }
    forall q: Place, x: nat | q.Valid() && x < 512 && Locate(m, root, q) != 0
      ensures Entry(m', Locate(m, root, q), x) == if q == p && x == k then e else Entry(m, Locate(m, root, q), x)
    {
      EntryFrame(m, t, k, e, Locate(m, root, q), x);
    }
  }

  lemma RewriteLocate(m: seq<DWord>, root: nat, p: Place, k: nat, e: DWord, q: Place)
    requires Tree(m, root) && p.Valid() && !p.Pd? && k < 512 && Locate(m, root, p) != 0 && q.Valid()
    requires var old' := Entry(m, Locate(m, root, p), k);
             IsPresent(e) == IsPresent(old') && (IsPresent(e) ==> PageOf(e) == PageOf(old'))
    ensures Locate(SetEntry(m, Locate(m, root, p), k, e), root, q) == Locate(m, root, q)
  {
    var t := Locate(m, root, p);
    var m' := SetEntry(m, t, k, e);
    LocateFrame(m, root, p, k, e, q);
    if q.Pd? && Pdp(q.i) == p.Below(k) {
      LocateFrame(m, root, p, k, e, Pdp(q.i));
      var c := Locate(m, root, Pdp(q.i));
      if c != 0 {
        EntryFrame(m, t, k, e, c, q.j);
      }
    }
  }

  /** A zeroed table outside the tree. */
  ghost predicate Blank(m: seq<DWord>, root: nat, t: nat) {
    && IsTable(|m|, t)
    && (forall x: nat :: x < 512 ==> Entry(m, t, x) == 0)
    && (forall p: Place :: p.Valid() ==> Locate(m, root, p) != t)
  }

  lemma LinkLocate(m: seq<DWord>, root: nat, p: Place, k: nat, e: DWord, q: Place)
    requires Tree(m, root) && p.Valid() && !p.Pd? && k < 512 && Locate(m, root, p) != 0 && q.Valid()
    requires !IsPresent(Entry(m, Locate(m, root, p), k)) && IsPresent(e) && Blank(m, root, PageOf(e))
    ensures Locate(SetEntry(m, Locate(m, root, p), k, e), root, q) ==
            if q == p.Below(k) then PageOf(e) else Locate(m, root, q)
  {
    LocateFrame(m, root, p, k, e, q);
    if q.Pd? && Pdp(q.i) == p.Below(k) {
      LocateFrame(m, root, p, k, e, Pdp(q.i));
      EntryFrame(m, Locate(m, root, p), k, e, PageOf(e), q.j);
    }
  }

  /** Linking a blank table below an absent entry adds one empty table to the tree and no translation. */
  lemma LinkTable(m: seq<DWord>, root: nat, pool: Pool, p: Place, k: nat, e: DWord)
    requires Inv(m, root, pool) && p.Valid() && !p.Pd? && k < 512 && Locate(m, root, p) != 0
    requires !IsPresent(Entry(m, Locate(m, root, p), k))
    requires IsPresent(e) && Blank(m, root, PageOf(e)) && !Holds(pool, PageOf(e))
    ensures var m' := SetEntry(m, Locate(m, root, p), k, e);
            && Inv(m', root, pool) && OnlyEntry(m, m', root, p, k, e)
            && (forall q: Place :: q.Valid() ==>
              Locate(m', root, q) == if q == p.Below(k) then PageOf(e) else Locate(m, root, q))
            && (forall v: nat :: v < 0x800_0000 ==> Leaf(m', root, v) == Leaf(m, root, v))
  {
    var t, n := Locate(m, root, p), PageOf(e);
    var m' := SetEntry(m, t, k, e);
    forall q: Place | q.Valid()
      ensures Locate(m', root, q) == if q == p.Below(k) then n else Locate(m, root, q)
    {
      LinkLocate(m, root, p, k, e, q);
    }
    forall q: Place, x: nat | q.Valid() && x < 512 && Locate(m, root, q) != 0
      ensures Entry(m', Locate(m, root, q), x) == if q == p && x == k then e else Entry(m, Locate(m, root, q), x)
    {
      EntryFrame(m, t, k, e, Locate(m, root, q), x);
    }
    forall x: nat | x < 512
      ensures Entry(m', n, x) == 0
    {
      EntryFrame(m, t, k, e, n, x);
    }
  }

  /** Writing a last-level entry moves no table and changes the leaf of one page only. */
  lemma WriteLeaf(m: seq<DWord>, root: nat, pool: Pool, v: nat, e: DWord)
    requires Inv(m, root, pool) && v < 0x800_0000
    requires Locate(m, root, Pd(v / 0x4_0000, v / 512 % 512)) != 0
    ensures var m' := SetEntry(m, Locate(m, root, Pd(v / 0x4_0000, v / 512 % 512)), v % 512, e);
            && Inv(m', root, pool) && OnlyEntry(m, m', root, Pd(v / 0x4_0000, v / 512 % 512), v % 512, e)
            && (forall q: Place :: q.Valid() ==> Locate(m', root, q) == Locate(m, root, q))
            && (forall w: nat :: w < 0x800_0000 ==>
              Leaf(m', root, w) == if w == v then e else Leaf(m, root, w))
  {
    var p := Pd(v / 0x4_0000, v / 512 % 512);
    var t := Locate(m, root, p);
    var m' := SetEntry(m, t, v % 512, e);
    forall q: Place | q.Valid()
      ensures Locate(m', root, q) == Locate(m, root, q)
    {
      LocateFrame(m, root, p, v % 512, e, q);
    }
    forall q: Place, x: nat | q.Valid() && x < 512 && Locate(m, root, q) != 0
      ensures Entry(m', Locate(m, root, q), x) == if q == p && x == v % 512 then e else Entry(m, Locate(m, root, q), x)
    {
      EntryFrame(m, t, v % 512, e, Locate(m, root, q), x);
    }
    forall w: nat | w < 0x800_0000
      ensures Leaf(m', root, w) == if w == v then e else Leaf(m, root, w)
    {
      WriteLeafAt(m, root, v, e, w);
    }
  }

  lemma WriteLeafAt(m: seq<DWord>, root: nat, v: nat, e: DWord, w: nat)
    requires Tree(m, root) && v < 0x800_0000 && w < 0x800_0000
    requires Locate(m, root, Pd(v / 0x4_0000, v / 512 % 512)) != 0
    ensures Leaf(SetEntry(m, Locate(m, root, Pd(v / 0x4_0000, v / 512 % 512)), v % 512, e), root, w)
         == if w == v then e else Leaf(m, root, w)
  {
    var p, q := Pd(v / 0x4_0000, v / 512 % 512), Pd(w / 0x4_0000, w / 512 % 512);
    SplitVpn(v);
    SplitVpn(w);
    LocateFrame(m, root, p, v % 512, e, q);
    if Locate(m, root, q) != 0 {
      EntryFrame(m, Locate(m, root, p), v % 512, e, Locate(m, root, q), w % 512);
    }
  }

  lemma LocatedIsTable(m: seq<DWord>, root: nat, p: Place)
    requires Tree(m, root) && p.Valid() && Locate(m, root, p) != 0
    ensures IsTable(|m|, Locate(m, root, p))
  {
  }

  lemma SplitVpn(v: nat)
    requires v < 0x800_0000
    ensures v == v / 0x4_0000 * 0x4_0000 + v / 512 % 512 * 512 + v % 512
    ensures Pd(v / 0x4_0000, v / 512 % 512).Valid()
  {
  }

  /** Writing the last-level entry of page v sets or removes the translation of v and no other. */
  lemma WriteTranslation(m: seq<DWord>, root: nat, pool: Pool, v: nat, e: DWord)
    requires Inv(m, root, pool) && v < 0x800_0000
    requires Locate(m, root, Pd(v / 0x4_0000, v / 512 % 512)) != 0
    ensures var m' := SetEntry(m, Locate(m, root, Pd(v / 0x4_0000, v / 512 % 512)), v % 512, e);
            && Inv(m', root, pool)
            && Mapping(m', root) ==
              if IsPresent(e) then Mapping(m, root)[v := PageOf(e)] else Mapping(m, root) - {v}
  {
    WriteLeaf(m, root, pool, v, e);
    var p := Pd(v / 0x4_0000, v / 512 % 512);
    MappingUpdate(m, SetEntry(m, Locate(m, root, p), v % 512, e), root, v, e);
  }

  lemma MappingUpdate(m: seq<DWord>, m': seq<DWord>, root: nat, v: nat, e: DWord)
    requires v < 0x800_0000
    requires forall w: nat :: w < 0x800_0000 ==> Leaf(m', root, w) == if w == v then e else Leaf(m, root, w)
    ensures Mapping(m', root) ==
            if IsPresent(e) then Mapping(m, root)[v := PageOf(e)] else Mapping(m, root) - {v}
  {
    var t, t' := Mapping(m, root), Mapping(m', root);
    var u := if IsPresent(e) then t[v := PageOf(e)] else t - {v};
    forall w: nat
      ensures w in t' <==> w in u
      ensures w in t' ==> t'[w] == u[w]
    {
      if w < 0x800_0000 {
        MappingAt(m, root, w);
        MappingAt(m', root, w);
      }
    }
  }

  lemma MappingAt(m: seq<DWord>, root: nat, v: nat)
    requires v < 0x800_0000
    ensures v in Mapping(m, root) <==> IsPresent(Leaf(m, root, v))
    ensures v in Mapping(m, root) ==> Mapping(m, root)[v] == PageOf(Leaf(m, root, v))
    ensures v !in Mapping(m, root) ==> Mapping(m, root) - {v} == Mapping(m, root)
  {
  }

  /** m' is m with the 4 KB at t set to zero. */
  ghost predicate Zeroed(m: seq<DWord>, m': seq<DWord>, t: nat) {
    && |m'| == |m|
    && (forall x: nat :: x < |m| ==> m'[x] == if t / 8 <= x < t / 8 + 512 then 0 else m[x])
  }

  /** Zeroing a table outside the tree makes it blank and leaves the tree alone. */
  lemma ZeroFrame(m: seq<DWord>, m': seq<DWord>, root: nat, t: nat)
    requires Tree(m, root) && Zeroed(m, m', t) && IsTable(|m|, t)
    requires forall p: Place :: p.Valid() ==> Locate(m, root, p) != t
    ensures Tree(m', root) && SameTables(m, m', root) && Blank(m', root, t) && SameEntries(m, m', root)
  {
    forall p: Place, x: nat | p.Valid() && x < 512 && Locate(m, root, p) != 0
      ensures Entry(m', Locate(m, root, p), x) == Entry(m, Locate(m, root, p), x)
    {
      ZeroEntry(m, m', t, Locate(m, root, p), x);
    }
    forall p: Place | p.Valid()
      ensures Locate(m', root, p) == Locate(m, root, p)
    {
      assert Locate(m, root, Root) == root;
      if p.Pd? {
        var c := Locate(m, root, Pdp(p.i));
        assert Locate(m', root, Pdp(p.i)) == c;
      }
    }
    forall v: nat | v < 0x800_0000
      ensures Leaf(m', root, v) == Leaf(m, root, v)
    {
      SplitVpn(v);
    }
  }

  lemma ZeroEntry(m: seq<DWord>, m': seq<DWord>, t: nat, u: nat, x: nat)
    requires Zeroed(m, m', t) && IsTable(|m|, t) && IsTable(|m|, u) && u != t && x < 512
    ensures Entry(m', u, x) == Entry(m, u, x)
  {
    if u < t {
      assert u + PAGE_TABLE_BYTES <= t;
    } else {
      assert t + PAGE_TABLE_BYTES <= u;
    }
  }

  /** How many tables are missing on the way to page v. */
  function Need(m: seq<DWord>, root: nat, v: nat): (n: nat)
    ensures n <= 3
  {
    if root == 0 then 3
    else if Locate(m, root, Pdp(v / 0x4_0000)) == 0 then 2
    else if Locate(m, root, Pd(v / 0x4_0000, v / 512 % 512)) == 0 then 1
    else 0
  }

  /** One find-or-allocate step as the pool sees it, for a table that was at `was` (0 if missing): a missing
      table is taken from the pool, costs one from the supply and is had exactly when there is one. */
  ghost predicate Drawn(pool: Pool, pool': Pool, was: nat, child: nat) {
    && (was != 0 ==> child == was && pool' == pool)
    && (was == 0 ==> (pool', child) == Take(pool))
    && (was == 0 ==> (child != 0 <==> Supply(pool) >= 1))
    && (was == 0 && child != 0 ==> Supply(pool') + 1 >= Supply(pool))
    && (was == 0 && child != 0 && Supply(pool) < 512 ==> Supply(pool') == Supply(pool) - 1)
  }

  /** The pool after n tables were asked of it. */
  function Takes(pool: Pool, n: nat): Pool {
    if n == 0 then pool else Take(Takes(pool, n - 1)).0
  }

  lemma UpToThree(pool: Pool)
    ensures Takes(pool, 0) == pool && Takes(pool, 1) == Take(pool).0
    ensures Takes(pool, 2) == Take(Take(pool).0).0 && Takes(pool, 3) == Take(Take(Take(pool).0).0).0
  {
    assert Takes(pool, 1) == Take(Takes(pool, 0)).0;
    assert Takes(pool, 2) == Take(Takes(pool, 1)).0;
  }

  /** The entry a find-or-allocate step leaves: the one there was or the address of the new table, flagged;
      0 when there is no table to be had. */
  function Linked(was: nat, entry: DWord, child: DWord): DWord {
    if child == 0 then 0 else LinkEntry(if was != 0 then entry else child)
  }

  /** Every table stays where it was, and the root stays the root. */
  ghost predicate KeepsTables(m: seq<DWord>, root: nat, m': seq<DWord>, root': nat) {
    && (root != 0 ==> root' == root)
    && (forall q: Place :: q.Valid() && Locate(m, root, q) != 0 ==> Locate(m', root', q) == Locate(m, root, q))
  }

  /** The two upper-level entries on the way to page v are present and writable. */
  ghost predicate LinksTo(m: seq<DWord>, root: nat, v: nat) {
    && Writable(Entry(m, root, v / 0x4_0000))
    && Writable(Entry(m, Locate(m, root, Pdp(v / 0x4_0000)), v / 512 % 512))
  }

  predicate Writable(e: DWord) { Bit(e, 0) && Bit(e, 1) }

  lemma RootIs(m: seq<DWord>, root: nat)
    ensures Locate(m, root, Root) == root
  {
  }

  /** Nothing lies below a missing table. */
  lemma NoRoot(m: seq<DWord>, root: nat)
    ensures root == 0 ==> forall q: Place :: Locate(m, root, q) == 0
  {
  }

  lemma NothingBelow(m: seq<DWord>, root: nat, i: nat, j: nat)
    ensures Locate(m, root, Pdp(i)) == 0 ==> Locate(m, root, Pd(i, j)) == 0
  {
  }

  /** The links written on the way down are there at the end. */
  lemma PathLinked(m1: seq<DWord>, m2: seq<DWord>, m3: seq<DWord>, root: nat, i: nat, j: nat, pdpe: DWord, pde: DWord)
    requires i < 512 && j < 512 && root != 0 && pdpe != 0 && pde != 0
    requires Locate(m2, root, Pdp(i)) == pdpe
    requires OnlyEntry(m1, m2, root, Root, i, Linked(Locate(m1, root, Pdp(i)), Entry(m1, root, i), pdpe))
    requires OnlyEntry(m2, m3, root, Pdp(i), j, Linked(Locate(m2, root, Pd(i, j)), Entry(m2, pdpe, j), pde))
    ensures Writable(Entry(m3, root, i)) && Writable(Entry(m3, pdpe, j))
  {
    hide Locate, Bit, Entry, LinkEntry;
    RootIs(m1, root);
    RootIs(m2, root);
    assert Entry(m3, Locate(m2, root, Root), i) == Entry(m2, Locate(m1, root, Root), i);
    assert Writable(Entry(m3, Locate(m2, root, Pdp(i)), j));
  }

  /** A write to a last-level table leaves the links alone. */
  lemma LinksStay(m: seq<DWord>, m': seq<DWord>, root: nat, v: nat, e: DWord)
    requires v < 0x800_0000 && Locate(m, root, Pd(v / 0x4_0000, v / 512 % 512)) != 0
    requires OnlyEntry(m, m', root, Pd(v / 0x4_0000, v / 512 % 512), v % 512, e)
    requires Locate(m', root, Pdp(v / 0x4_0000)) == Locate(m, root, Pdp(v / 0x4_0000))
    ensures LinksTo(m, root, v) ==> LinksTo(m', root, v)
  {
    hide Locate, Bit, Entry;
    SplitVpn(v);
    NoRoot(m, root);
    NothingBelow(m, root, v / 0x4_0000, v / 512 % 512);
    RootIs(m, root);
    assert Entry(m', Locate(m, root, Root), v / 0x4_0000) == Entry(m, root, v / 0x4_0000);
    assert Entry(m', Locate(m, root, Pdp(v / 0x4_0000)), v / 512 % 512)
        == Entry(m, Locate(m, root, Pdp(v / 0x4_0000)), v / 512 % 512);
  }

  // ---- The page table structure --------------------------------------------------------------

  /** `struct page_table_mem` over the physical memory it lives in. */
  class PageTableMem {
    const mem: array<DWord>
    var pml4e: nat
    var tableStackTop: nat
    var tableStackBottom: nat
    /** What `mm_phy_alloc_page` will return, call by call; 0 (or the end) means out of memory. */
    var answers: seq<nat>

    ghost function ThePool(): Pool
      reads this
    {
      Pool(tableStackTop, tableStackBottom, answers)
    }

    ghost predicate Valid()
      reads this, mem
    {
      Inv(mem[..], pml4e, ThePool())
    }

    /** The translation this structure holds. */
    ghost function Translation(): map<nat, nat>
      reads this, mem
    {
      Mapping(mem[..], pml4e)
    }

    /** An empty structure over arbitrary memory. */
    constructor (memory: array<DWord>, answers: seq<nat>)
      requires Fresh(memory.Length, Pool(0, 0, answers))
      ensures Valid() && Translation() == map[] && mem == memory
      ensures pml4e == 0 && ThePool() == Pool(0, 0, answers)
    {
      mem := memory;
      pml4e, tableStackTop, tableStackBottom := 0, 0, 0;
      this.answers := answers;
    }

    /** `mm_phy_alloc_page`. */
    method AllocPage() returns (page: nat)
      modifies this`answers
      ensures page == if old(answers) == [] then 0 else old(answers)[0]
      ensures answers == if old(answers) == [] then [] else old(answers)[1..]
    {
      if answers == [] {
        page := 0;
      } else {
        page := answers[0];
        answers := answers[1..];
      }
    }

    /** `get_phy_page_table`: a zeroed 4 KB table, or 0. */
    method GetPhyPageTable() returns (ret: nat)
      requires Fresh(mem.Length, ThePool())
      modifies this`tableStackTop, this`tableStackBottom, this`answers, mem
      ensures (ThePool(), ret) == Take(old(ThePool()))
      ensures ret == 0 ==> mem[..] == old(mem[..])
      ensures ret != 0 ==> IsTable(mem.Length, ret) && Zeroed(old(mem[..]), mem[..], ret)
    {
      TakeFresh(mem.Length, ThePool());
      ret := 0;
      if tableStackBottom + PAGE_TABLE_BYTES > tableStackTop {
        var phyPage := AllocPage();
        if phyPage == 0 {
          return;
        }
        tableStackBottom := phyPage * PAGE_SIZE;
        tableStackTop := tableStackBottom + PAGE_SIZE;
      }
      tableStackTop := tableStackTop - PAGE_TABLE_BYTES;
      ret := tableStackTop;
      if ret != 0 {
        var x := 0;
        while x < 512
          invariant x <= 512
          invariant forall y: nat :: y < mem.Length ==>
            mem[y] == if ret / 8 <= y < ret / 8 + x then 0 else old(mem[y])
          modifies mem
        {
          mem[ret / 8 + x] := 0;
          x := x + 1;
        }
      }
    }

    /** The find-or-allocate step of `_mmap`: the table below entry k of the table at place p, linked in
        and flagged present; 0 when a table is missing and none can be had. */
    method FindOrAllocate(table: nat, k: nat, ghost p: Place) returns (child: nat)
      requires Valid() && p.Valid() && !p.Pd? && k < 512
      requires table != 0 && table == Locate(mem[..], pml4e, p)
      modifies this`tableStackTop, this`tableStackBottom, this`answers, mem
      ensures Valid()
      ensures forall q: Place :: q.Valid() && (child == 0 || q != p.Below(k)) ==>
                Locate(mem[..], pml4e, q) == old(Locate(mem[..], pml4e, q))
      ensures forall v: nat :: v < 0x800_0000 ==> Leaf(mem[..], pml4e, v) == old(Leaf(mem[..], pml4e, v))
      ensures child != 0 ==> child == Locate(mem[..], pml4e, p.Below(k))
      ensures Drawn(old(ThePool()), ThePool(), old(Locate(mem[..], pml4e, p.Below(k))), child)
      ensures child < B64 && OnlyEntry(old(mem[..]), mem[..], pml4e, p, k,
                Linked(old(Locate(mem[..], pml4e, p.Below(k))), old(Entry(mem[..], table, k)), child))
    {
      hide LinkEntry;
      ghost var m0 := mem[..];
      assert Locate(m0, pml4e, p.Below(k)) == Child(m0, table, k);
      LocatedIsTable(m0, pml4e, p);
      var slot := table / 8 + k;
      if !TestPresent(mem[slot]) {
        child := AllocateBelow(table, k, p);
      } else {
        child := AlignDown(mem[slot]);
        mem[slot] := LinkEntry(mem[slot]);
        assert mem[..] == SetEntry(m0, table, k, mem[slot]);
        RewriteEntry(m0, pml4e, ThePool(), p, k, mem[slot]);
      }
    }

    /** The allocating half of that step: entry k is absent. */
    method AllocateBelow(table: nat, k: nat, ghost p: Place) returns (child: nat)
      requires Valid() && p.Valid() && !p.Pd? && k < 512
      requires table != 0 && table == Locate(mem[..], pml4e, p)
      requires !IsPresent(Entry(mem[..], table, k))
      modifies this`tableStackTop, this`tableStackBottom, this`answers, mem
      ensures Valid() && Drawn(old(ThePool()), ThePool(), 0, child)
      ensures child < B64 && OnlyEntry(old(mem[..]), mem[..], pml4e, p, k, Linked(0, 0, child))
      ensures forall q: Place :: q.Valid() && (child == 0 || q != p.Below(k)) ==>
                Locate(mem[..], pml4e, q) == old(Locate(mem[..], pml4e, q))
      ensures forall v: nat :: v < 0x800_0000 ==> Leaf(mem[..], pml4e, v) == old(Leaf(mem[..], pml4e, v))
      ensures child != 0 ==> child == Locate(mem[..], pml4e, p.Below(k))
    {
      hide Locate, Leaf, Take, Supply, LinkEntry, Entry;
      ghost var m0 := mem[..];
      LocatedIsTable(m0, pml4e, p);
      TakeFresh(mem.Length, ThePool());
      child := GetPhyPageTable();
      ghost var m1 := mem[..];
      if child != 0 {
        ZeroFrame(m0, m1, pml4e, child);
        ZeroEntry(m0, m1, child, table, k);
      }
      assert Inv(m1, pml4e, ThePool());
      var slot := table / 8 + k;
      mem[slot] := child;
      if child == 0 {
        RewriteEntry(m1, pml4e, ThePool(), p, k, 0);
        assert mem[..] == SetEntry(m1, table, k, 0);
        return;
      }
      mem[slot] := LinkEntry(mem[slot]);
      assert mem[..] == SetEntry(m1, table, k, mem[slot]);
      LinkTable(m1, pml4e, ThePool(), p, k, mem[slot]);
    }

    /** The first step of `_mmap`: a root table for a structure that has none. */
    method AllocateRoot()
      requires Valid() && pml4e == 0
      modifies this, mem
      ensures Valid() && Drawn(old(ThePool()), ThePool(), 0, pml4e)
      ensures forall v: nat :: v < 0x800_0000 ==> Leaf(mem[..], pml4e, v) == old(Leaf(mem[..], pml4e, v))
      ensures forall p: Place :: p.Valid() && p != Root ==> Locate(mem[..], pml4e, p) == 0
    {
      ghost var m0 := mem[..];
      TakeFresh(mem.Length, ThePool());
      pml4e := GetPhyPageTable();
      if pml4e != 0 {
        PlantRoot(m0, mem[..], pml4e, ThePool());
      }
    }

    /** Loads the last-level entry of page v from its table. */
    method ReadLast(pde: nat, k: nat, ghost v: nat) returns (e: DWord)
      requires Valid() && v < 0x800_0000 && k == v % 512
      requires pde != 0 && pde == Locate(mem[..], pml4e, Pd(v / 0x4_0000, v / 512 % 512))
      ensures e == Leaf(mem[..], pml4e, v)
      ensures IsPresent(e) <==> v in Translation()
      ensures v in Translation() ==> Translation()[v] == PageOf(e)
    {
      SplitVpn(v);
      LocatedIsTable(mem[..], pml4e, Pd(v / 0x4_0000, v / 512 % 512));
      MappingAt(mem[..], pml4e, v);
      e := mem[pde / 8 + k];
    }

    /** Stores the last-level entry of page v in its table: sets or removes that one translation. */
    method WriteLast(pde: nat, k: nat, e: DWord, ghost v: nat)
      requires Valid() && v < 0x800_0000 && k == v % 512
      requires pde != 0 && pde == Locate(mem[..], pml4e, Pd(v / 0x4_0000, v / 512 % 512))
      modifies mem
      ensures Valid()
      ensures OnlyEntry(old(mem[..]), mem[..], pml4e, Pd(v / 0x4_0000, v / 512 % 512), v % 512, e)
      ensures forall q: Place :: q.Valid() ==> Locate(mem[..], pml4e, q) == old(Locate(mem[..], pml4e, q))
      ensures forall w: nat :: w < 0x800_0000 ==>
                Leaf(mem[..], pml4e, w) == if w == v then e else old(Leaf(mem[..], pml4e, w))
      ensures Translation() ==
              if IsPresent(e) then old(Translation())[v := PageOf(e)] else old(Translation()) - {v}
    {
      ghost var m := mem[..];
      SplitVpn(v);
      LocatedIsTable(m, pml4e, Pd(v / 0x4_0000, v / 512 % 512));
      WriteTranslation(m, pml4e, ThePool(), v, e);
      WriteLeaf(m, pml4e, ThePool(), v, e);
      mem[pde / 8 + k] := e;
      assert mem[..] == SetEntry(m, pde, k, e);
    }

    /** The descent of `_mmap` to the last-level table for page v, by its first two indices: every missing
        table is had and linked in, or the answer is 0 for want of memory. No translation changes. */
    method TableFor(i: nat, j: nat, ghost v: nat) returns (pde: nat)
      requires Valid() && v < 0x800_0000 && i == v / 0x4_0000 && j == v / 512 % 512
      modifies this, mem
      ensures Valid()
      ensures pde != 0 <==> Need(old(mem[..]), old(pml4e), v) <= Supply(old(ThePool()))
      ensures ThePool() == Takes(old(ThePool()), if pde != 0 then Need(old(mem[..]), old(pml4e), v)
                                                 else Supply(old(ThePool())) + 1)
      ensures forall w: nat :: w < 0x800_0000 ==> Leaf(mem[..], pml4e, w) == old(Leaf(mem[..], pml4e, w))
      ensures KeepsTables(old(mem[..]), old(pml4e), mem[..], pml4e)
      ensures pde != 0 ==> pde == Locate(mem[..], pml4e, Pd(i, j)) && LinksTo(mem[..], pml4e, v)
    {
      hide Locate, Leaf, Tree, Take, Takes, Supply, LinkEntry, Entry, Bit;
      ghost var m0, root0 := mem[..], pml4e;
      UpToThree(ThePool());
      RootIs(m0, root0);
      NoRoot(m0, root0);
      NothingBelow(m0, root0, i, j);
      if pml4e == 0 {
        AllocateRoot();
        if pml4e == 0 {
          return 0;
        }
      }
      ghost var root, m1 := pml4e, mem[..];
      RootIs(m1, root);
      var pdpe := FindOrAllocate(pml4e, i, Root);
      ghost var m2 := mem[..];
      if pdpe == 0 {
        return 0;
      }
      pde := FindOrAllocate(pdpe, j, Pdp(i));
      if pde != 0 {
        PathLinked(m1, m2, mem[..], root, i, j, pdpe, pde);
      }
    }

    /** `_mmap`: maps the page of `virt` to the 4 KB page of `phy`, or fails for want of memory with
        every translation as it was. It fails exactly when more tables are missing than can be had. */
    method Mmap(phy: DWord, virt: DWord) returns (success: int)
      requires Valid()
      modifies this, mem
      ensures Valid()
      ensures success == if Need(old(mem[..]), old(pml4e), Vpn(virt)) <= Supply(old(ThePool())) then 0 else -1
      ensures ThePool() == Takes(old(ThePool()), if success == 0 then Need(old(mem[..]), old(pml4e), Vpn(virt))
                                                 else Supply(old(ThePool())) + 1)
      ensures Translation() ==
              if success == 0 then old(Translation())[Vpn(virt) := PageOf(phy)] else old(Translation())
      ensures forall w: nat :: w < 0x800_0000 ==>
                Leaf(mem[..], pml4e, w) ==
                if success == 0 && w == Vpn(virt) then LeafEntry(phy) else old(Leaf(mem[..], pml4e, w))
      ensures KeepsTables(old(mem[..]), old(pml4e), mem[..], pml4e)
      ensures success == 0 ==> LinksTo(mem[..], pml4e, Vpn(virt))
    {
      hide Locate, Leaf, Tree, Take, Supply, LinkEntry, LeafEntry, Entry, Need, Takes, Bit;
      ghost var v, m0, root0 := Vpn(virt), mem[..], pml4e;
      var i, j, k := Indices(virt);
      var pde := TableFor(i, j, v);
      ghost var m1 := mem[..];
      SameTranslation(m0, root0, m1, pml4e);
      if pde == 0 {
        return -1;
      }
      WriteLast(pde, k, LeafEntry(phy), v);
      LinksStay(m1, mem[..], pml4e, v, LeafEntry(phy));
      return 0;
    }

    /** `_munmap`: removes the translation of the page of `virt` and returns it (0 if there is none). */
    method Munmap(virt: DWord) returns (phy: nat)
      requires Valid()
      modifies mem
      ensures Valid()
      ensures phy == if Vpn(virt) in old(Translation()) then old(Translation())[Vpn(virt)] else 0
      ensures Translation() == old(Translation()) - {Vpn(virt)}
      ensures forall w: nat :: w < 0x800_0000 ==>
                var e := old(Leaf(mem[..], pml4e, w));
                Leaf(mem[..], pml4e, w) == if w == Vpn(virt) then e - e % 2 else e
      ensures Vpn(virt) !in old(Translation()) ==> mem[..] == old(mem[..])
      ensures Vpn(virt) in old(Translation()) ==>
                && OnlyEntry(old(mem[..]), mem[..], pml4e, Pd(Vpn(virt) / 0x4_0000, Vpn(virt) / 512 % 512),
                  Vpn(virt) % 512, WithoutPresent(old(Leaf(mem[..], pml4e, Vpn(virt)))))
      ensures KeepsTables(old(mem[..]), pml4e, mem[..], pml4e)
    {
      hide Locate, Tree;
      var i, j, k := Indices(virt);
      MappingAt(mem[..], pml4e, Vpn(virt));
      var pde := Walk(i, j);
      if pde == 0 {
        return 0;
      }
      var e := ReadLast(pde, k, Vpn(virt));
      if !TestPresent(e) {
        return 0;
      }
      ghost var before := Translation();
      var cleared := WithoutPresent(e);
      WriteLast(pde, k, cleared, Vpn(virt));
      assert Translation() == before - {Vpn(virt)};
      return AlignDown(cleared);
    }

    /** Any run of `_mmap` and `_munmap` calls: the translation afterwards is the one the calls, with their
        answers, make of the translation before, and every `_munmap` answered what they had made of it. */
    method Run(requests: seq<Request>) returns (answered: seq<int>)
      requires Valid()
      modifies this, mem
      ensures Valid() && Ran(old(Translation()), requests, answered, Translation())
      ensures LeavesRan(old(mem[..]), old(pml4e), Calls(requests, answered), mem[..], pml4e)
    {
      hide Inv, Mapping, Ran, Locate, Leaf, Tree, LeafEntry, Need, Supply, Takes, LeavesRan, KeepsTables, LinksTo,
        Calls;
      answered := [];
      ghost var m0, root0 := mem[..], pml4e;
      RanNothing(Translation());
      LeavesRanNothing(m0, root0);
      while |answered| < |requests|
        invariant |answered| <= |requests| && Valid()
        invariant Ran(old(Translation()), requests[..|answered|], answered, Translation())
        invariant LeavesRan(m0, root0, Calls(requests[..|answered|], answered), mem[..], pml4e)
      {
        ghost var n, done, before := |answered|, answered, Translation();
        ghost var m1, root1 := mem[..], pml4e;
        var request := requests[|answered|];
        var r: int;
        match request {
          case Map(phy, virt) => r := Mmap(phy, virt);
          case Unmap(virt) => r := Munmap(virt);
        }
        answered := answered + [r];
        assert requests[..n + 1] == requests[..n] + [request];
        RanMore(old(Translation()), requests[..n], done, before, request, r, Translation());
        LeavesRanMore(m0, root0, requests[..n], done, m1, root1, request, r, mem[..], pml4e);
      }
      assert requests[..|answered|] == requests;
    }

    /** The walk both lookups make: the last-level table below entries i and j, or 0. */
    method Walk(i: nat, j: nat) returns (pde: nat)
      requires Valid() && i < 512 && j < 512
      ensures pde == Locate(mem[..], pml4e, Pd(i, j))
    {
      ghost var m := mem[..];
      if pml4e == 0 {
        return 0;
      }
      assert Locate(m, pml4e, Root) == pml4e;
      var slot := pml4e / 8 + i;
      if !TestPresent(mem[slot]) {
        return 0;
      }
      var pdpe := AlignDown(mem[slot]);
      assert pdpe == Locate(m, pml4e, Pdp(i));
      slot := pdpe / 8 + j;
      if !TestPresent(mem[slot]) {
        return 0;
      }
      pde := AlignDown(mem[slot]);
    }

    /** `virt_to_pde`: the last-level entry for `virt`, present or not (0 when a table is missing). */
    method VirtToPde(virt: DWord) returns (pde: DWord)
      requires Valid() && pml4e != 0
      ensures pde == Leaf(mem[..], pml4e, Vpn(virt))
    {
      var i, j, k := Indices(virt);
      var table := Walk(i, j);
      if table == 0 {
        return 0;
      }
      pde := ReadLast(table, k, Vpn(virt));
    }

    /** `virt_to_phy`: the translation of `virt`, with 0 both for "none" and for physical page 0. */
    method VirtToPhy(virt: DWord) returns (phy: nat)
      requires Valid() && pml4e != 0
      ensures phy == if Vpn(virt) in Translation() then Translation()[Vpn(virt)] else 0
    {
      MappingAt(mem[..], pml4e, Vpn(virt));
      var pde := VirtToPde(virt);
      if !TestPresent(pde) {
        return 0;
      }
      return AlignDown(pde);
    }
  }

  /** A first, blank root gives an empty tree. */
  lemma PlantRoot(m: seq<DWord>, m': seq<DWord>, root: nat, pool: Pool)
    requires IsTable(|m|, root) && Zeroed(m, m', root) && Fresh(|m|, pool) && !Holds(pool, root)
    ensures Inv(m', root, pool)
    ensures forall p: Place :: p.Valid() && p != Root ==> Locate(m', root, p) == 0
    ensures forall v: nat :: v < 0x800_0000 ==> Leaf(m', root, v) == 0
  {
    forall x: nat | x < 512
      ensures Entry(m', root, x) == 0
    {
    }
    forall v: nat | v < 0x800_0000
      ensures Leaf(m', root, v) == 0
    {
      SplitVpn(v);
    }
  }

  /** Equal leaves, equal translations; no root, no translation. */
  lemma SameTranslation(m: seq<DWord>, root: nat, m': seq<DWord>, root': nat)
    requires forall v: nat :: v < 0x800_0000 ==> Leaf(m', root', v) == Leaf(m, root, v)
    ensures Mapping(m', root') == Mapping(m, root)
  {
  }

  // ---- What follows for the tables and for whole runs ------------------------------------------

  /** Every table but the root is pointed to by exactly one present entry of the upper levels, and no
      entry points back to the root. */
  lemma OneParent(m: seq<DWord>, root: nat, p: Place, k: nat, q: Place, l: nat)
    requires Tree(m, root)
    requires p.Valid() && !p.Pd? && k < 512 && Locate(m, root, p) != 0 && IsPresent(Entry(m, Locate(m, root, p), k))
    requires q.Valid() && !q.Pd? && l < 512 && Locate(m, root, q) != 0 && IsPresent(Entry(m, Locate(m, root, q), l))
    ensures PageOf(Entry(m, Locate(m, root, p), k)) == PageOf(Entry(m, Locate(m, root, q), l)) <==> p == q && k == l
    ensures PageOf(Entry(m, Locate(m, root, p), k)) == Locate(m, root, p.Below(k)) != root
  {
    assert Locate(m, root, p.Below(k)) == Child(m, Locate(m, root, p), k);
    assert Locate(m, root, q.Below(l)) == Child(m, Locate(m, root, q), l);
    assert p.Below(k).Valid() && q.Below(l).Valid();
    assert Locate(m, root, Root) == root;
  }

  /** A call on the page tables. */
  datatype Request = Map(phy: DWord, virt: DWord) | Unmap(virt: DWord)

  /** A call together with its answer: page v mapped to phy, page v unmapped, or a failed `_mmap`. */
  datatype Call = Mapped(v: nat, phy: DWord) | Unmapped(v: nat) | OutOfMemory

  function Answered(request: Request, answer: int): Call {
    match request
    case Map(phy, virt) => if answer == 0 then Mapped(Vpn(virt), phy) else OutOfMemory
    case Unmap(virt) => Unmapped(Vpn(virt))
  }

  function Calls(requests: seq<Request>, answers: seq<int>): (calls: seq<Call>)
    requires |answers| == |requests|
    ensures |calls| == |requests|
  {
    seq(|requests|, i requires 0 <= i < |requests| => Answered(requests[i], answers[i]))
  }

  /** The translation after one call, and after a run of calls. */
  function Apply(t: map<nat, nat>, c: Call): map<nat, nat> {
    match c
    case Mapped(v, phy) => t[v := PageOf(phy)]
    case Unmapped(v) => t - {v}
    case OutOfMemory => t
  }

  function After(t: map<nat, nat>, calls: seq<Call>): map<nat, nat> {
    if calls == [] then t else Apply(After(t, calls[..|calls| - 1]), calls[|calls| - 1])
  }

  /** The last-level entry of page v after a run of calls, from the one before it: an `_munmap` clears
      bit 0. */
  function LeafAfter(e: DWord, calls: seq<Call>, v: nat): DWord {
    if calls == [] then e
    else
      var before := LeafAfter(e, calls[..|calls| - 1], v);
      LeafApply(before, calls[|calls| - 1], v)
  }

  function LeafApply(e: DWord, c: Call, v: nat): DWord {
    if c.OutOfMemory? || c.v != v then e else if c.Mapped? then LeafEntry(c.phy) else e - e % 2
  }

  ghost predicate LeavesRan(m: seq<DWord>, root: nat, calls: seq<Call>, m': seq<DWord>, root': nat) {
    forall v: nat :: v < 0x800_0000 ==> Leaf(m', root', v) == LeafAfter(Leaf(m, root, v), calls, v)
  }

  lemma LeavesRanNothing(m: seq<DWord>, root: nat)
    ensures LeavesRan(m, root, Calls([], []), m, root)
  {
  }

  lemma LeavesRanMore(m0: seq<DWord>, root0: nat, requests: seq<Request>, answers: seq<int>, m: seq<DWord>, root: nat,
                      request: Request, answer: int, m': seq<DWord>, root': nat)
    requires |answers| == |requests| && LeavesRan(m0, root0, Calls(requests, answers), m, root)
    requires forall v: nat :: v < 0x800_0000 ==>
               Leaf(m', root', v) == LeafApply(Leaf(m, root, v), Answered(request, answer), v)
    ensures LeavesRan(m0, root0, Calls(requests + [request], answers + [answer]), m', root')
  {
    hide Leaf, LeafAfter, LeafApply;
    var calls, c := Calls(requests, answers), Answered(request, answer);
    assert Calls(requests + [request], answers + [answer]) == calls + [c];
    forall v: nat | v < 0x800_0000
      ensures Leaf(m', root', v) == LeafAfter(Leaf(m0, root0, v), calls + [c], v)
    {
      LeafAfterSnoc(Leaf(m0, root0, v), calls, c, v);
    }
  }

  lemma LeafAfterSnoc(e: DWord, calls: seq<Call>, c: Call, v: nat)
    ensures LeafAfter(e, calls + [c], v) == LeafApply(LeafAfter(e, calls, v), c, v)
  {
    assert (calls + [c])[..|calls|] == calls;
  }

  /** The physical address the last `_mmap` in a run gave to page v. */
  function LastMapped(calls: seq<Call>, v: nat): Option<DWord> {
    if calls == [] then None
    else
      var c := calls[|calls| - 1];
      if c.Mapped? && c.v == v then Some(c.phy) else LastMapped(calls[..|calls| - 1], v)
  }

  /** The entry the last `_mmap` of page v wrote, or the one before the run. */
  function LastWritten(e: DWord, calls: seq<Call>, v: nat): DWord {
    match LastMapped(calls, v)
    case Some(phy) => LeafEntry(phy)
    case None => e
  }

  /** What `virt_to_pde` answers for page v after a run: the entry last written for v, or the one before the
      run, and without its lowest bit if the last call on v was an `_munmap`. */
  lemma {:induction false} LastCallMakesEntry(e: DWord, calls: seq<Call>, v: nat)
    ensures match LastOn(calls, v)
            case Some(Mapped(_, phy)) => LeafAfter(e, calls, v) == LeafEntry(phy) == LastWritten(e, calls, v)
            case Some(Unmapped(_)) => LeafAfter(e, calls, v) == WithoutPresent(LastWritten(e, calls, v))
            case _ => LeafAfter(e, calls, v) == e == LastWritten(e, calls, v)
  {
    hide LeafEntry;
    if calls != [] {
      LastCallMakesEntry(e, calls[..|calls| - 1], v);
    }
  }

  /** What a lookup of page v answers under a translation. */
  function Found(t: map<nat, nat>, v: nat): nat { if v in t then t[v] else 0 }

  /** Call i of a run, if it is an `_munmap`, answered with the translation the calls before it had made. */
  ghost predicate UnmapAnswers(t: map<nat, nat>, requests: seq<Request>, answers: seq<int>, i: nat)
    requires |answers| == |requests| && i < |requests|
  {
    requests[i].Unmap? ==> answers[i] == Found(After(t, Calls(requests, answers)[..i]), Vpn(requests[i].virt))
  }

  /** A run of calls with these answers leads from one translation to another. */
  ghost predicate Ran(before: map<nat, nat>, requests: seq<Request>, answers: seq<int>, after: map<nat, nat>) {
    && |answers| == |requests| && after == After(before, Calls(requests, answers))
    && forall i :: 0 <= i < |requests| ==> UnmapAnswers(before, requests, answers, i)
  }

  lemma RanNothing(t: map<nat, nat>)
    ensures Ran(t, [], [], t)
  {
  }

  lemma RanMore(t: map<nat, nat>, requests: seq<Request>, answers: seq<int>, before: map<nat, nat>,
                request: Request, answer: int, after: map<nat, nat>)
    requires Ran(t, requests, answers, before) && after == Apply(before, Answered(request, answer))
    requires request.Unmap? ==> answer == Found(before, Vpn(request.virt))
    ensures Ran(t, requests + [request], answers + [answer], after)
  {
    hide After;
    var requests', answers' := requests + [request], answers + [answer];
    var calls, calls' := Calls(requests, answers), Calls(requests', answers');
    var n := |requests|;
    assert calls' == calls + [Answered(request, answer)];
    AfterSnoc(t, calls, Answered(request, answer));
    forall i | 0 <= i < |requests'|
      ensures UnmapAnswers(t, requests', answers', i)
    {
      if i < n {
        assert UnmapAnswers(t, requests, answers, i);
        assert calls'[..i] == calls[..i];
      } else {
        assert calls'[..i] == calls;
      }
    }
  }

  lemma AfterSnoc(t: map<nat, nat>, calls: seq<Call>, c: Call)
    ensures After(t, calls + [c]) == Apply(After(t, calls), c)
  {
    assert (calls + [c])[..|calls|] == calls;
  }

  /** The last call of a run that concerned page v. */
  function LastOn(calls: seq<Call>, v: nat): Option<Call> {
    if calls == [] then None
    else
      var c := calls[|calls| - 1];
      if !c.OutOfMemory? && c.v == v then Some(c) else LastOn(calls[..|calls| - 1], v)
  }

  lemma {:induction false} LastDecides(t: map<nat, nat>, calls: seq<Call>, v: nat)
    ensures match LastOn(calls, v)
            case Some(Mapped(_, phy)) => v in After(t, calls) && After(t, calls)[v] == PageOf(phy)
            case Some(Unmapped(_)) => v !in After(t, calls)
            case _ => (v in After(t, calls) <==> v in t) && (v in t ==> After(t, calls)[v] == t[v])
  {
    if calls != [] {
      LastDecides(t, calls[..|calls| - 1], v);
    }
  }

  /** After any run on the page tables, each page is translated as the last call that concerned it left it,
      whatever the calls for other pages did; a page no call concerned is translated as before the run. */
  lemma LastCallDecides(before: map<nat, nat>, requests: seq<Request>, answers: seq<int>, after: map<nat, nat>,
                        v: nat)
    requires Ran(before, requests, answers, after)
    ensures match LastOn(Calls(requests, answers), v)
            case Some(Mapped(_, phy)) => v in after && after[v] == PageOf(phy)
            case Some(Unmapped(_)) => v !in after
            case _ => (v in after <==> v in before) && (v in before ==> after[v] == before[v])
  {
    LastDecides(before, Calls(requests, answers), v);
  }

  /** In any run, an `_munmap` of a page that was last mapped to phy answers the 4 KB page of phy, which is
      phy itself exactly when phy is a multiple of 4096; of a page last unmapped it answers 0. */
  lemma UnmapReturnsMapped(before: map<nat, nat>, requests: seq<Request>, answers: seq<int>, after: map<nat, nat>,
                           i: nat)
    requires Ran(before, requests, answers, after) && i < |requests| && requests[i].Unmap?
    ensures match LastOn(Calls(requests, answers)[..i], Vpn(requests[i].virt))
            case Some(Mapped(_, phy)) =>
              && answers[i] == PageOf(phy)
              && (answers[i] == phy <==> phy % PAGE_TABLE_BYTES == 0)
            case Some(Unmapped(_)) => answers[i] == 0
            case _ => answers[i] == Found(before, Vpn(requests[i].virt))
  {
    assert UnmapAnswers(before, requests, answers, i);
    LastDecides(before, Calls(requests, answers)[..i], Vpn(requests[i].virt));
  }
}
