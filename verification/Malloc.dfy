/** The first-fit allocator of w2/libc/malloc.c: headers in address order over a growing break. */
module Malloc {
  import opened Words

  const BLOCK_SIZE: nat := 24 // sizeof(struct mem_block)

  /** Where the fields of a `struct mem_block` lie: 8 bytes of size, 4 of the free flag, 8 of the pointer. */
  const SIZE_AT: nat := 0
  const FREE_AT: nat := 8
  const NEXT_AT: nat := 16

  /** The next multiple of `a` from x on. */
  function AlignUp(x: nat, a: nat): nat
    requires a > 0
  {
    if x % a == 0 then x else x + a - x % a
  }

  /** The fields one after the other, each aligned to its size and the whole to the largest. */
  lemma HeaderLayout()
    ensures FREE_AT == AlignUp(SIZE_AT + 8, 4) && NEXT_AT == AlignUp(FREE_AT + 4, 8)
    ensures BLOCK_SIZE == AlignUp(NEXT_AT + 8, 8)
  {
  }

  /** A `struct mem_block` as it lies in memory; `next` is an address, 0 for NULL. */
  datatype Header = Header(size: DWord, free: bool, next: DWord)

  // ---- What the list stands for ------------------------------------------------------------------

  /** A block: where its header lies, how many bytes follow the header, and whether it is free. */
  datatype Block = Block(addr: nat, size: nat, free: bool)

  function Payload(b: Block): nat { b.addr + BLOCK_SIZE }

  function End(b: Block): nat { b.addr + BLOCK_SIZE + b.size }

  /** Header and payload of the blocks, one after the other, fill the heap from `at` to `brk`. */
  predicate Tiles(at: nat, bs: seq<Block>, brk: nat)
    decreases |bs|
  {
    if bs == [] then at == brk else bs[0].addr == at && Tiles(End(bs[0]), bs[1..], brk)
  }

  predicate Fits(b: Block, size: nat) { b.free && b.size >= size }

  /** The first free block of at least `size` bytes, or the number of blocks. */
  function FirstFit(bs: seq<Block>, size: nat): (i: nat)
    ensures i <= |bs|
    ensures i < |bs| ==> Fits(bs[i], size)
    ensures forall k :: 0 <= k < i ==> !Fits(bs[k], size)
  {
    if bs == [] || Fits(bs[0], size) then 0 else FirstFit(bs[1..], size) + 1
  }

  /** The block whose payload starts at p, or the number of blocks. */
  function Find(bs: seq<Block>, p: nat): (i: nat)
    ensures i <= |bs|
    ensures i < |bs| ==> Payload(bs[i]) == p
    ensures i == |bs| ==> forall k :: 0 <= k < |bs| ==> Payload(bs[k]) != p
  {
    if bs == [] || Payload(bs[0]) == p then 0 else Find(bs[1..], p) + 1
  }

  datatype View = MakeView(start: nat, brk: nat, blocks: seq<Block>)

  predicate Tiled(v: View) { Tiles(v.start, v.blocks, v.brk) }

  predicate Reuses(v: View, size: nat) { FirstFit(v.blocks, size) < |v.blocks| }

  /** What `malloc` means: nothing for 0, else the first free block that fits, whole, else a new one. */
  function Allocated(v: View, size: nat): View {
    if size == 0 then v
    else if Reuses(v, size) then
      var i := FirstFit(v.blocks, size);
      v.(blocks := v.blocks[i := v.blocks[i].(free := false)])
    else
      v.(brk := v.brk + BLOCK_SIZE + size, blocks := v.blocks + [Block(v.brk, size, false)])
  }

  function Answer(v: View, size: nat): nat {
    if size == 0 then 0
    else if Reuses(v, size) then Payload(v.blocks[FirstFit(v.blocks, size)])
    else v.brk + BLOCK_SIZE
  }

  /** What `free` means. */
  function Released(v: View, p: nat): View {
    var i := Find(v.blocks, p);
    if i == |v.blocks| then v else v.(blocks := v.blocks[i := v.blocks[i].(free := true)])
  }

  // ---- Tiling ------------------------------------------------------------------------------------

  lemma {:induction false} TilesAppend(at: nat, bs: seq<Block>, brk: nat, b: Block)
    requires Tiles(at, bs, brk)
    ensures Tiles(at, bs + [b], End(b)) <==> b.addr == brk
    ensures forall top :: Tiles(at, bs + [b], top) ==> top == End(b)
    decreases |bs|
  {
    if bs == [] {
      assert ([] + [b])[1..] == [];
    } else {
      assert (bs + [b])[1..] == bs[1..] + [b];
      TilesAppend(End(bs[0]), bs[1..], brk, b);
    }
  }

  lemma {:induction false} TilesUpdate(at: nat, bs: seq<Block>, brk: nat, i: nat, free: bool)
    requires Tiles(at, bs, brk) && i < |bs|
    ensures Tiles(at, bs[i := bs[i].(free := free)], brk)
    decreases |bs|
  {
    var cs := bs[i := bs[i].(free := free)];
    if i == 0 {
      assert cs[1..] == bs[1..];
    } else {
      assert cs[1..] == bs[1..][i - 1 := bs[1..][i - 1].(free := free)];
      TilesUpdate(End(bs[0]), bs[1..], brk, i - 1, free);
    }
  }

  /** In a tiled heap every block lies inside, and before every later one. */
  lemma {:induction false} InOrder(at: nat, bs: seq<Block>, brk: nat, i: nat)
    requires Tiles(at, bs, brk) && i < |bs|
    ensures at <= bs[i].addr && End(bs[i]) <= brk
    ensures forall j :: i < j < |bs| ==> End(bs[i]) <= bs[j].addr
  {
    TilesRest(at, bs, brk, i);
    TilesUp(bs[i].addr, bs[i..], brk);
    assert bs[i..][1..] == bs[i + 1..];
    TilesUp(End(bs[i]), bs[i + 1..], brk);
    forall j | i < j < |bs|
      ensures End(bs[i]) <= bs[j].addr
    {
      TilesRest(End(bs[i]), bs[i + 1..], brk, j - i - 1);
    }
  }

  lemma {:induction false} TilesUp(at: nat, bs: seq<Block>, brk: nat)
    requires Tiles(at, bs, brk)
    ensures at <= brk
    decreases |bs|
  {
    if bs != [] {
      TilesUp(End(bs[0]), bs[1..], brk);
    }
  }

  lemma {:induction false} TilesRest(at: nat, bs: seq<Block>, brk: nat, i: nat)
    requires Tiles(at, bs, brk) && i < |bs|
    ensures at <= bs[i].addr && Tiles(bs[i].addr, bs[i..], brk)
    decreases |bs|
  {
    if i > 0 {
      TilesRest(End(bs[0]), bs[1..], brk, i - 1);
      assert bs[1..][i - 1..] == bs[i..];
    }
  }

  lemma AddressesDiffer(v: View, i: nat, j: nat)
    requires Tiled(v) && i < |v.blocks| && j < |v.blocks| && i != j
    ensures v.blocks[i].addr != v.blocks[j].addr
  {
    InOrder(v.start, v.blocks, v.brk, if i < j then i else j);
  }

  lemma FindPayload(v: View, i: nat)
    requires Tiled(v) && i < |v.blocks|
    ensures Find(v.blocks, Payload(v.blocks[i])) == i
  {
    var k := Find(v.blocks, Payload(v.blocks[i]));
    if k != i {
      AddressesDiffer(v, i, k);
    }
  }

  // ---- Runs --------------------------------------------------------------------------------------

  datatype Call = Malloc(size: nat) | Free(ptr: nat)

  /** The heap together with what its client holds: each live pointer and the bytes asked for. */
  datatype Client = Client(view: View, live: map<nat, nat>)

  /** A client frees NULL or a pointer it holds. */
  predicate MayCall(c: Client, call: Call) {
    call.Free? ==> call.ptr == 0 || call.ptr in c.live
  }

  function After(c: Client, call: Call): Client {
    match call
    case Malloc(size) =>
      Client(Allocated(c.view, size), if size == 0 then c.live else c.live[Answer(c.view, size) := size])
    case Free(p) =>
      if p == 0 then c else Client(Released(c.view, p), c.live - {p})
  }

  ghost predicate MayRun(c: Client, calls: seq<Call>)
    decreases |calls|
  {
    calls == [] || (MayCall(c, calls[0]) && MayRun(After(c, calls[0]), calls[1..]))
  }

  function AfterAll(c: Client, calls: seq<Call>): Client
    decreases |calls|
  {
    if calls == [] then c else AfterAll(After(c, calls[0]), calls[1..])
  }

  /** The used blocks are exactly the client's, each at least as large as it asked. */
  ghost predicate Served(c: Client) {
    && Tiled(c.view) && c.view.start > 0
    && (forall p :: p in c.live ==> Find(c.view.blocks, p) < |c.view.blocks|)
    && forall i :: 0 <= i < |c.view.blocks| ==> HoldsBlock(c.live, c.view.blocks[i])
  }

  predicate HoldsBlock(live: map<nat, nat>, b: Block) {
    if b.free then Payload(b) !in live else Payload(b) in live && 0 < live[Payload(b)] <= b.size
  }

  lemma CallKeepsServed(c: Client, call: Call)
    requires Served(c) && MayCall(c, call)
    ensures Served(After(c, call))
  {
    var v, live, c' := c.view, c.live, After(c, call);
    match call
    case Malloc(size) =>
      if size != 0 {
        if Reuses(v, size) {
          Retag(c, FirstFit(v.blocks, size), false, c'.live);
        } else {
          Extend(c, size);
        }
      }
    case Free(p) =>
      if p != 0 {
        Retag(c, Find(v.blocks, p), true, c'.live);
      }
  }

  /** Marking one block free or used, and taking it from or giving it to the client. */
  lemma Retag(c: Client, i: nat, free: bool, live: map<nat, nat>)
    requires Served(c) && i < |c.view.blocks|
    requires forall p :: p != Payload(c.view.blocks[i]) ==>
               (p in live <==> p in c.live) && (p in live ==> live[p] == c.live[p])
    requires HoldsBlock(live, c.view.blocks[i].(free := free))
    ensures Served(Client(c.view.(blocks := c.view.blocks[i := c.view.blocks[i].(free := free)]), live))
  {
    var v := c.view;
    var bs := v.blocks[i := v.blocks[i].(free := free)];
    TilesUpdate(v.start, v.blocks, v.brk, i, free);
    forall k | 0 <= k < |bs|
      ensures HoldsBlock(live, bs[k])
    {
      if k != i {
        AddressesDiffer(v, i, k);
      }
    }
    forall p | p in live
      ensures Find(bs, p) < |bs|
    {
      var k := if p in c.live then Find(v.blocks, p) else i;
      assert Payload(bs[k]) == p;
    }
  }

  lemma Extend(c: Client, size: nat)
    requires Served(c) && size > 0 && !Reuses(c.view, size)
    ensures Served(After(c, Malloc(size)))
  {
    var v, b := c.view, Block(c.view.brk, size, false);
    var bs, live := v.blocks + [b], c.live[Payload(b) := size];
    TilesAppend(v.start, v.blocks, v.brk, b);
    hide Tiles;
    forall k | 0 <= k < |bs|
      ensures HoldsBlock(live, bs[k])
    {
      if k < |v.blocks| {
        InOrder(v.start, v.blocks, v.brk, k);
      }
    }
    forall p | p in live
      ensures Find(bs, p) < |bs|
    {
      var k := if p in c.live then Find(v.blocks, p) else |v.blocks|;
      assert Payload(bs[k]) == p;
    }
  }

  /** Every run: from a fresh heap, after any calls a client may make, the blocks tile the heap and the used
      ones are exactly the client's. */
  lemma {:induction false} RunKeepsServed(c: Client, calls: seq<Call>)
    requires Served(c) && MayRun(c, calls)
    ensures Served(AfterAll(c, calls))
    decreases |calls|
  {
    if calls != [] {
      CallKeepsServed(c, calls[0]);
      RunKeepsServed(After(c, calls[0]), calls[1..]);
    }
  }

  /** Live allocations lie inside the heap and never overlap each other. */
  lemma LiveDisjoint(c: Client, p: nat, q: nat)
    requires Served(c) && p in c.live && q in c.live && p != q
    ensures c.view.start < p && p + c.live[p] <= c.view.brk
    ensures p + c.live[p] <= q || q + c.live[q] <= p
  {
    var bs := c.view.blocks;
    var i, j := Find(bs, p), Find(bs, q);
    InOrder(c.view.start, bs, c.view.brk, i);
    InOrder(c.view.start, bs, c.view.brk, j);
    assert HoldsBlock(c.live, bs[i]) && HoldsBlock(c.live, bs[j]);
  }

  /** What a client writes to its memory never reaches a field of a header. */
  lemma HeadersAreSafe(c: Client, p: nat, i: nat)
    requires Served(c) && p in c.live && i < |c.view.blocks|
    ensures var h := c.view.blocks[i].addr;
            (h + SIZE_AT + 8 <= p && h + FREE_AT + 4 <= p && h + NEXT_AT + 8 <= p) || p + c.live[p] <= h
  {
    var bs := c.view.blocks;
    var j := Find(bs, p);
    InOrder(c.view.start, bs, c.view.brk, i);
    InOrder(c.view.start, bs, c.view.brk, j);
    assert HoldsBlock(c.live, bs[j]);
  }

  function FreshHeap(start: nat): Client { Client(MakeView(start, start, []), map[]) }

  /** Whatever a client does from a fresh heap on: the blocks tile the heap, and no two of its allocations
      overlap. */
  lemma EveryRunIsSafe(start: nat, calls: seq<Call>)
    requires start > 0 && MayRun(FreshHeap(start), calls)
    ensures var c := AfterAll(FreshHeap(start), calls);
            && Tiled(c.view)
            && forall p, q :: p in c.live && q in c.live && p != q ==> p + c.live[p] <= q || q + c.live[q] <= p
  {
    RunKeepsServed(FreshHeap(start), calls);
    var c := AfterAll(FreshHeap(start), calls);
    forall p, q | p in c.live && q in c.live && p != q
      ensures p + c.live[p] <= q || q + c.live[q] <= p
    {
      LiveDisjoint(c, p, q);
    }
  }

  /** The heap grows exactly when no free block fits, and never shrinks. */
  lemma GrowsOnlyWhenFull(c: Client, call: Call)
    requires Served(c) && MayCall(c, call)
    ensures After(c, call).view.brk >= c.view.brk
    ensures After(c, call).view.brk > c.view.brk <==>
              call.Malloc? && call.size > 0 &&
              forall i :: 0 <= i < |c.view.blocks| ==> !Fits(c.view.blocks[i], call.size)
  {
  }

  /** What was freed last is handed out again to a request it can hold, unless an earlier block can. */
  lemma FreedIsReused(c: Client, p: nat, size: nat)
    requires Served(c) && p in c.live && 0 < size
    ensures var v := After(c, Free(p)).view;
            size <= c.live[p] ==> Answer(v, size) <= p && Allocated(v, size).brk == v.brk
  {
    var v := After(c, Free(p)).view;
    var i, k := Find(c.view.blocks, p), FirstFit(v.blocks, size);
    assert HoldsBlock(c.live, c.view.blocks[i]);
    CallKeepsServed(c, Free(p));
    if size <= c.live[p] {
      assert Fits(v.blocks[i], size);
      if k < i {
        InOrder(v.start, v.blocks, v.brk, k);
      }
    }
  }

  /** Freeing what `malloc` just gave out undoes it: a reused block is as it was, and a new one stays as a
      free block at the end of the heap. */
  lemma FreeUndoesMalloc(c: Client, size: nat)
    requires Served(c) && size > 0
    ensures var p := Answer(c.view, size);
            var c' := After(After(c, Malloc(size)), Free(p));
            && p !in c.live && c'.live == c.live
            && c'.view == if Reuses(c.view, size) then c.view
                          else c.view.(brk := c.view.brk + BLOCK_SIZE + size,
                                       blocks := c.view.blocks + [Block(c.view.brk, size, true)])
  {
    hide Tiles, FirstFit, Find, Served;
    var v, p := c.view, Answer(c.view, size);
    var i, w := FirstFit(v.blocks, size), Allocated(v, size);
    AnswerIsNew(c, size);
    FindPayload(w, i);
    if Reuses(v, size) {
      assert w.blocks[i := w.blocks[i].(free := true)] == v.blocks;
    } else {
      assert w.blocks[i := w.blocks[i].(free := true)] == v.blocks + [Block(v.brk, size, true)];
    }
    assert After(c, Malloc(size)).live - {p} == c.live;
  }

  lemma AnswerIsNew(c: Client, size: nat)
    requires Served(c) && size > 0
    ensures Answer(c.view, size) !in c.live && Tiled(Allocated(c.view, size))
  {
    CallKeepsServed(c, Malloc(size));
    hide Tiles;
    var v, p := c.view, Answer(c.view, size);
    if Reuses(v, size) {
      assert HoldsBlock(c.live, v.blocks[FirstFit(v.blocks, size)]);
    } else if p in c.live {
      InOrder(v.start, v.blocks, v.brk, Find(v.blocks, p));
    }
  }

  // ---- The allocator -----------------------------------------------------------------------------

  /** `sbrk` moves the break by 64-bit addition; `brk(0)` only asks. */
  function Moved(brk: DWord, increment: DWord): DWord {
    var top := (brk + increment) % B64;
    if top == 0 then brk else top
  }

  /** The break ends up just behind a new block exactly when that address fits 64 bits. */
  lemma MovedPast(brk: DWord, size: DWord)
    requires brk != 0
    ensures Moved(brk, (size + BLOCK_SIZE) % B64) == brk + BLOCK_SIZE + size <==> brk + BLOCK_SIZE + size < B64
  {
  }

  // ---- The list in memory ------------------------------------------------------------------------

  function AddrAt(bs: seq<Block>, i: nat): nat { if i < |bs| then bs[i].addr else 0 }

  /** The header of block i says what the block is and where the next header lies. */
  predicate HeaderAt(hdr: map<DWord, Header>, bs: seq<Block>, i: nat)
    requires i < |bs|
  {
    && bs[i].addr in hdr && bs[i].addr != 0
    && hdr[bs[i].addr].size == bs[i].size && hdr[bs[i].addr].free == bs[i].free
    && hdr[bs[i].addr].next == AddrAt(bs, i + 1)
  }

  /** The list from `head` is the block sequence. */
  ghost predicate IsList(head: DWord, hdr: map<DWord, Header>, bs: seq<Block>) {
    head == AddrAt(bs, 0) && forall i :: 0 <= i < |bs| ==> HeaderAt(hdr, bs, i)
  }

  lemma ListMark(v: View, head: DWord, hdr: map<DWord, Header>, i: nat, free: bool)
    requires Tiled(v) && IsList(head, hdr, v.blocks) && i < |v.blocks|
    ensures HeaderAt(hdr, v.blocks, i)
    ensures var a := v.blocks[i].addr;
            IsList(head, hdr[a := hdr[a].(free := free)], v.blocks[i := v.blocks[i].(free := free)])
  {
    assert HeaderAt(hdr, v.blocks, i);
    var a := v.blocks[i].addr;
    var hdr', bs := hdr[a := hdr[a].(free := free)], v.blocks[i := v.blocks[i].(free := free)];
    forall k | 0 <= k < |bs|
      ensures HeaderAt(hdr', bs, k)
    {
      assert HeaderAt(hdr, v.blocks, k);
      assert AddrAt(bs, k + 1) == AddrAt(v.blocks, k + 1);
      if k != i {
        AddressesDiffer(v, i, k);
      }
    }
    assert AddrAt(bs, 0) == AddrAt(v.blocks, 0);
  }

  lemma ListAppend(v: View, head: DWord, hdr: map<DWord, Header>, size: DWord)
    requires Tiled(v) && IsList(head, hdr, v.blocks) && 0 < v.start && v.brk < B64 && v.blocks != []
    ensures v.brk != v.blocks[|v.blocks| - 1].addr && HeaderAt(hdr, v.blocks, |v.blocks| - 1)
    ensures var last, h := v.blocks[|v.blocks| - 1].addr, hdr[v.brk := Header(size, false, 0)];
            IsList(head, h[last := h[last].(next := v.brk)], v.blocks + [Block(v.brk, size, false)])
  {
    var bs, top := v.blocks + [Block(v.brk, size, false)], |v.blocks| - 1;
    var last, h := v.blocks[top].addr, hdr[v.brk := Header(size, false, 0)];
    assert HeaderAt(hdr, v.blocks, top);
    InOrder(v.start, v.blocks, v.brk, top);
    var h' := h[last := h[last].(next := v.brk)];
    forall k | 0 <= k < |bs|
      ensures HeaderAt(h', bs, k)
    {
      if k < top {
        assert HeaderAt(hdr, v.blocks, k);
        InOrder(v.start, v.blocks, v.brk, k);
      }
    }
  }

  lemma HeadIsNull(head: DWord, hdr: map<DWord, Header>, bs: seq<Block>)
    requires IsList(head, hdr, bs)
    ensures head == 0 <==> bs == []
  {
    if bs != [] {
      assert HeaderAt(hdr, bs, 0);
    }
  }

  lemma ListFirst(head: DWord, hdr: map<DWord, Header>, b: Block)
    requires b.addr < B64 && b.size < B64 && b.addr != 0 && !b.free
    ensures IsList(b.addr, hdr[b.addr := Header(b.size, false, 0)], [b])
  {
  }

  /** Taking over the first free block that fits keeps list and tiling. */
  lemma Reuse(v: View, head: DWord, hdr: map<DWord, Header>, size: DWord)
    requires Tiled(v) && IsList(head, hdr, v.blocks) && size != 0 && Reuses(v, size) && v.brk < B64
    ensures var a := v.blocks[FirstFit(v.blocks, size)].addr;
            && a in hdr && Payload(v.blocks[FirstFit(v.blocks, size)]) < B64
            && IsList(head, hdr[a := hdr[a].(free := false)], Allocated(v, size).blocks)
            && Tiled(Allocated(v, size))
  {
    var i := FirstFit(v.blocks, size);
    ListMark(v, head, hdr, i, false);
    TilesUpdate(v.start, v.blocks, v.brk, i, false);
    InOrder(v.start, v.blocks, v.brk, i);
  }

  /** A new block at the old break is covered by the new one exactly when the sum fits 64 bits. */
  lemma Grow(v: View, size: DWord)
    requires Tiled(v) && 0 < v.start && v.brk < B64
    ensures v.brk != 0
    ensures Tiles(v.start, v.blocks + [Block(v.brk, size, false)], Moved(v.brk, (size + BLOCK_SIZE) % B64))
            <==> v.brk + BLOCK_SIZE + size < B64
    ensures v.brk + BLOCK_SIZE + size < B64 ==>
              Moved(v.brk, (size + BLOCK_SIZE) % B64) == v.brk + BLOCK_SIZE + size
  {
    TilesUp(v.start, v.blocks, v.brk);
    TilesAppend(v.start, v.blocks, v.brk, Block(v.brk, size, false));
    MovedPast(v.brk, size);
  }

  class Heap {
    var head: DWord
    var brk: DWord
    var hdr: map<DWord, Header>
    ghost const start: DWord
    ghost var blocks: seq<Block>

    ghost function Now(): View
      reads this
    {
      MakeView(start, brk, blocks)
    }

    ghost predicate Linked()
      reads this
    {
      IsList(head, hdr, blocks)
    }

    ghost predicate Valid()
      reads this
    {
      Linked() && Tiled(Now()) && start != 0
    }

    constructor (start: DWord)
      requires start != 0
      ensures Valid() && Now() == MakeView(start, start, [])
    {
      this.start := start;
      head, brk, hdr := 0, start, map[];
      blocks := [];
    }

    method Sbrk(increment: DWord) returns (addr: DWord)
      modifies this`brk
      ensures addr == old(brk) && brk == Moved(old(brk), increment)
    {
      addr := brk;
      if increment == 0 {
        return;
      }
      var top := (brk + increment) % B64;
      if top != 0 {
        brk := top;
      }
    }

    /** `allocateMemory`: a used block at the old break, or NULL (0) when sbrk answers (void*)-1. */
    method AllocateMemory(size: DWord) returns (current: DWord)
      modifies this`brk, this`hdr
      ensures brk == Moved(old(brk), (size + BLOCK_SIZE) % B64)
      ensures old(brk) == B64 - 1 ==> current == 0 && hdr == old(hdr)
      ensures old(brk) != B64 - 1 ==> current == old(brk) && hdr == old(hdr)[current := Header(size, false, 0)]
    {
      current := Sbrk(0);
      var addr := Sbrk((size + BLOCK_SIZE) % B64);
      if addr == B64 - 1 {
        return 0;
      }
      hdr := hdr[current := Header(size, false, 0)];
    }

    /** `find_free_mem_block`: walks the list to the first free block that fits, `last` one behind. */
    method FindFree(size: DWord) returns (temp: DWord, last: DWord)
      requires Linked() && blocks != []
      ensures temp == AddrAt(blocks, FirstFit(blocks, size))
      ensures temp == 0 <==> !Reuses(Now(), size)
      ensures temp == 0 ==> last == blocks[|blocks| - 1].addr
    {
      ghost var i: nat := 0;
      temp, last := head, head;
      assert HeaderAt(hdr, blocks, 0);
      while temp != 0 && !(hdr[temp].free && hdr[temp].size >= size)
        invariant i <= FirstFit(blocks, size) && temp == AddrAt(blocks, i)
        invariant temp in hdr || temp == 0
        invariant i < |blocks| ==> HeaderAt(hdr, blocks, i)
        invariant i > 0 ==> last == blocks[i - 1].addr
        decreases |blocks| - i
      {
        last := temp;
        temp := hdr[temp].next;
        i := i + 1;
        assert i < |blocks| ==> HeaderAt(hdr, blocks, i);
      }
    }

    /** `malloc`. While the new break fits 64 bits it is what Allocated says. When it does not, a block is
        handed out that the break does not cover: the heap is tiled only if a free block was reused. */
    method Malloc(size: DWord) returns (p: DWord)
      requires Valid()
      modifies this
      ensures Linked()
      ensures size == 0 || Reuses(old(Now()), size) || old(brk) + BLOCK_SIZE + size < B64 ==>
                Valid() && Now() == Allocated(old(Now()), size) && p == Answer(old(Now()), size)
      ensures size != 0 && !Reuses(old(Now()), size) && old(brk) + BLOCK_SIZE + size >= B64 ==>
                && brk == Moved(old(brk), (size + BLOCK_SIZE) % B64)
                && p == (if old(brk) == B64 - 1 then 0 else (old(brk) + BLOCK_SIZE) % B64)
                && blocks == old(blocks) + (if old(brk) == B64 - 1 then [] else [Block(old(brk), size, false)])
      ensures p != 0 ==> (Tiled(Now()) <==> Reuses(old(Now()), size) || old(brk) + BLOCK_SIZE + size < B64)
    {
      hide IsList, FirstFit, Tiles, Moved, HeaderAt;
      if size == 0 {
        return 0;
      }
      ghost var v := Now();
      HeadIsNull(head, hdr, blocks);
      Grow(v, size);
      var block;
      if head == 0 {
        assert !Reuses(v, size);
        block := AllocateMemory(size);
        if block == 0 {
          return 0;
        }
        head := block;
        ListFirst(head, old(hdr), Block(v.brk, size, false));
        assert v.blocks + [Block(v.brk, size, false)] == [Block(v.brk, size, false)];
        blocks := blocks + [Block(v.brk, size, false)];
      } else {
        var last;
        block, last := FindFree(size);
        if block == 0 {
          ListAppend(v, head, hdr, size);
          block := AllocateMemory(size);
          if block == 0 {
            return 0;
          }
          hdr := hdr[last := hdr[last].(next := block)];
          blocks := blocks + [Block(v.brk, size, false)];
        } else {
          Reuse(v, head, hdr, size);
          hdr := hdr[block := hdr[block].(free := false)];
          blocks := Allocated(v, size).blocks;
        }
      }
      p := (block + BLOCK_SIZE) % B64;
    }

    /** `free`: NULL is ignored; the header just below a pointer `malloc` gave out is marked free. */
    method Free(ptr: DWord)
      requires Valid() && (ptr == 0 || Find(blocks, ptr) < |blocks|)
      modifies this`hdr, this`blocks
      ensures Valid()
      ensures Now() == if ptr == 0 then old(Now()) else Released(old(Now()), ptr)
    {
      if ptr == 0 {
        return;
      }
      ghost var i := Find(blocks, ptr);
      ListMark(Now(), head, hdr, i, true);
      TilesUpdate(start, blocks, brk, i, true);
      var block := ptr - BLOCK_SIZE;
      hdr := hdr[block := hdr[block].(free := true)];
      blocks := blocks[i := blocks[i].(free := true)];
    }
  }
}
