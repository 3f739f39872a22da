/** Where the blocks of the ten regions lie in physical memory. */
module MallocMemory {
  import opened Arithmetic
  import opened BuddyTree
  import opened Malloc
  import Screen
  import T = Terminals

  /** Where a 4 MB page entry sends a virtual address: the top ten bits of the base, then the offset. */
  function Physical(base: nat, address: nat): nat {
    base / 1024 * BIG_PAGE_SIZE + address % BIG_PAGE_SIZE
  }

  lemma PhysicalIsOffset(region: nat, offset: nat)
    requires region < MALLOC_PD_SIZE && offset < BIG_PAGE_SIZE
    ensures Physical(RegionBase(region), (MALLOC_PD_START + region) * BIG_PAGE_SIZE + offset) == offset
  {
    assert RegionBase(region) == 0;
  }

  /** The byte of memory that is byte x of the block. */
  function Byte(b: Block, x: nat): nat {
    Physical(RegionBase(b.region), Address(b) + x)
  }

  /** The first page of the block within its region, and the first page after it. */
  function Low(b: Block): nat {
    b.slot * Pow2(b.order)
  }

  function High(b: Block): nat {
    (b.slot + 1) * Pow2(b.order)
  }

  /** A byte of a block lies at its offset in the region, which is the same memory for all regions. */
  lemma ByteIs(b: Block, x: nat)
    requires ValidBlock(b) && x < Bytes(b)
    ensures Byte(b, x) == PAGE_SIZE * Low(b) + x < PAGE_SIZE * High(b) <= BIG_PAGE_SIZE
  {
    AddressIs(b);
    HighInRegion(b);
    SizeIs(b);
    PhysicalIsOffset(b.region, PAGE_SIZE * Low(b) + x);
  }

  lemma HighInRegion(b: Block)
    requires ValidBlock(b)
    ensures High(b) <= 1024
  {
    SlotInRegion(MAX_ORDER, b.order, b.slot);
    Pow2Ten();
  }

  lemma SizeIs(b: Block)
    ensures PAGE_SIZE * High(b) == PAGE_SIZE * Low(b) + Bytes(b) && Bytes(b) >= PAGE_SIZE
  {
    MulDistributes(b.slot, 1, Pow2(b.order));
  }

  /** The blocks share no byte of memory. */
  ghost predicate Apart(b: Block, c: Block) {
    forall x: nat, y: nat :: x < Bytes(b) && y < Bytes(c) ==> Byte(b, x) != Byte(c, y)
  }

  lemma SharedByte(b: Block, c: Block, x: nat, y: nat)
    requires ValidBlock(b) && ValidBlock(c) && x < Bytes(b) && y < Bytes(c)
    requires PAGE_SIZE * Low(b) + x == PAGE_SIZE * Low(c) + y
    ensures !Apart(b, c)
  {
    ByteIs(b, x);
    ByteIs(c, y);
    assert Byte(b, x) == Byte(c, y);
  }

  /** The base is stored unshifted, so its 20 bits are zero for every region and the ten regions lie on the same 4 MB
      of memory: two blocks share no byte exactly when their page ranges within their regions are disjoint, whatever
      the regions. */
  lemma ApartExactly(b: Block, c: Block)
    requires ValidBlock(b) && ValidBlock(c)
    ensures Apart(b, c) <==> High(b) <= Low(c) || High(c) <= Low(b)
  {
    SizeIs(b);
    SizeIs(c);
    if High(b) <= Low(c) || High(c) <= Low(b) {
      forall x: nat, y: nat | x < Bytes(b) && y < Bytes(c)
        ensures Byte(b, x) != Byte(c, y)
      {
        ByteIs(b, x);
        ByteIs(c, y);
      }
    } else if Low(b) < Low(c) {
      SharedByte(b, c, PAGE_SIZE * (Low(c) - Low(b)), 0);
    } else {
      SharedByte(b, c, 0, PAGE_SIZE * (Low(b) - Low(c)));
    }
  }

  /** Blocks of different regions are disjoint in address, and share no byte of memory exactly when their page ranges
      within their regions are disjoint. */
  lemma RegionsShareMemory(b: Block, c: Block)
    requires ValidBlock(b) && ValidBlock(c) && b.region != c.region
    ensures Disjoint(b, c)
    ensures Apart(b, c) <==> High(b) <= Low(c) || High(c) <= Low(b)
  {
    BlockInRegion(b);
    BlockInRegion(c);
    ApartExactly(b, c);
  }

  /** A page of the shared 4 MB belongs to a block in any region exactly when it is in the block's page range. */
  lemma PageOverlapsExactly(b: Block, page: nat)
    requires ValidBlock(b) && page < 1024
    ensures (exists x: nat :: x < Bytes(b) && Byte(b, x) / PAGE_SIZE == page) <==> Low(b) <= page < High(b)
  {
    SizeIs(b);
    if x: nat :| x < Bytes(b) && Byte(b, x) / PAGE_SIZE == page {
      ByteIs(b, x);
    }
    if Low(b) <= page < High(b) {
      var x := PAGE_SIZE * (page - Low(b));
      ByteIs(b, x);
      assert Byte(b, x) / PAGE_SIZE == page;
    }
  }

  /** Some byte of the block is a byte of the screen page or of a terminal's backing page. */
  ghost predicate OverlapsScreens(b: Block) {
    exists x: nat :: x < Bytes(b) && T.Mapped(Byte(b, x))
  }

  predicate HasPage(b: Block, page: nat) {
    Low(b) <= page < High(b)
  }

  predicate IsScreenPage(page: nat) {
    page == 184 || page == 186 || page == 187 || page == 188
  }

  lemma MappedIsScreenPage(a: nat)
    ensures T.Mapped(a) <==> IsScreenPage(a / PAGE_SIZE)
  {
  }

  /** The screen is page 184 of the shared 4 MB and the backing pages are 186 to 188: a block of any region overlaps
      one of them exactly when it has one of these pages. */
  lemma OverlapsScreensExactly(b: Block)
    requires ValidBlock(b)
    ensures OverlapsScreens(b) <==> HasPage(b, 184) || HasPage(b, 186) || HasPage(b, 187) || HasPage(b, 188)
  {
    if x: nat :| x < Bytes(b) && T.Mapped(Byte(b, x)) {
      MappedIsScreenPage(Byte(b, x));
      PageOverlapsExactly(b, Byte(b, x) / PAGE_SIZE);
      assert HasPage(b, Byte(b, x) / PAGE_SIZE);
    }
    forall page: nat | IsScreenPage(page) && HasPage(b, page)
      ensures OverlapsScreens(b)
    {
      PageOverlaps(b, page);
    }
  }

  lemma PageOverlaps(b: Block, page: nat)
    requires ValidBlock(b) && HasPage(b, page) && IsScreenPage(page)
    ensures OverlapsScreens(b)
  {
    PageOverlapsExactly(b, page);
    var x: nat :| x < Bytes(b) && Byte(b, x) / PAGE_SIZE == page;
    MappedIsScreenPage(Byte(b, x));
  }

  /** A program stores through an address of a malloc region. */
  function HeapStore(m: T.Machine, a: nat, v: Screen.byte): T.Machine {
    m.(mem := Screen.Store(m.mem, a, v))
  }

  /** A store into a block changes the screen of a terminal, the program's own or another, exactly when the byte is one
      of the page that holds that screen and held something else. */
  lemma HeapStoreExactly(m: T.Machine, b: Block, x: nat, v: Screen.byte, t: int)
    requires T.Ready(m, m.active) && T.IsTerminal(t) && ValidBlock(b) && x < Bytes(b)
    ensures var m' := HeapStore(m, Byte(b, x), v);
      && T.Ready(m', m.active)
      && (T.Logical(m', m.active, t) == T.Logical(m, m.active, t) <==> !T.Hits(m, t, Byte(b, x), v))
  {
    var a, at := Byte(b, x), T.PageOf(m, t);
    T.TwoStores(m.mem, Screen.Store(m.mem, a, v), at, true, a, v, false, 0, 0);
  }

  // ---------------------------------------------------------------------------------------------
  // Memory over runs
  // ---------------------------------------------------------------------------------------------

  lemma {:induction false} RunPrefix(sizes: seq<int>, i: nat)
    requires i <= |sizes|
    ensures Run(sizes).answers[..i] == Run(sizes[..i]).answers
    decreases |sizes|
  {
    if i == |sizes| {
      assert sizes[..i] == sizes;
    } else {
      var init := sizes[..|sizes| - 1];
      LastAnswer(sizes);
      RunPrefix(init, i);
      assert init[..i] == sizes[..i];
    }
  }

  /** The heap that request i of a run finds. */
  function HeapBefore(sizes: seq<int>, i: nat): (h: Heap)
    requires i < |sizes|
    ensures ValidHeap(h)
  {
    Run(sizes[..i]).heap
  }

  predicate Given(sizes: seq<int>, i: int) {
    0 <= i < |sizes| && Run(sizes).answers[i].Given?
  }

  function BlockOf(sizes: seq<int>, i: nat): Block
    requires Given(sizes, i)
  {
    Run(sizes).answers[i].block
  }

  lemma AnswerPlaced(sizes: seq<int>, i: nat)
    requires Given(sizes, i)
    ensures var b := BlockOf(sizes, i);
      ValidSize(sizes[i]) && b.order == OrderFor(sizes[i]) <= MAX_ORDER && FirstFree(HeapBefore(sizes, i), 0, b)
  {
    RunPrefix(sizes, i + 1);
    assert sizes[..i + 1][..i] == sizes[..i] && sizes[..i + 1][i] == sizes[i];
    LastAnswer(sizes[..i + 1]);
    OrderBrackets(sizes[i]);
  }

  /** malloc_tree on region 0 answers other than -1. */
  predicate RegionZeroServes(h: Heap, size: int)
    requires ValidHeap(h) && ValidSize(size)
  {
    OrderBrackets(size);
    Alloc(h[0], MAX_ORDER, OrderFor(size)).Found?
  }

  /** A request that is granted gets its block in region 0 exactly when region 0 has a free run of its order. */
  lemma InRegionZeroExactly(sizes: seq<int>, i: nat)
    requires Given(sizes, i)
    ensures ValidSize(sizes[i])
    ensures BlockOf(sizes, i).region == 0 <==> RegionZeroServes(HeapBefore(sizes, i), sizes[i])
  {
    AnswerPlaced(sizes, i);
    FirstFreeInRegionZero(HeapBefore(sizes, i), BlockOf(sizes, i));
  }

  lemma FirstFreeInRegionZero(h: Heap, b: Block)
    requires ValidHeap(h) && b.order <= MAX_ORDER && FirstFree(h, 0, b)
    ensures b.region == 0 <==> Alloc(h[0], MAX_ORDER, b.order).Found?
  {
    AllocComplete(h[0], MAX_ORDER, b.order);
    if b.region == 0 {
      assert RunFree(h[0], MAX_ORDER, b.order, b.slot);
    } else if slot: nat :| RunFree(h[0], MAX_ORDER, b.order, slot) {
      assert FreeBlock(h, Block(0, b.order, slot));
    }
  }

  lemma Overlapping(b: Block, c: Block, p: int)
    requires ValidBlock(b) && ValidBlock(c) && InRun(b.order, b.slot, p) && InRun(c.order, c.slot, p)
    ensures !Apart(b, c)
  {
    ApartExactly(b, c);
  }

  /** Answer j was a block of region 0 that shares memory with the block of answer i. */
  ghost predicate SharesFromRegionZero(sizes: seq<int>, j: int, i: int) {
    && Given(sizes, i) && Given(sizes, j) && BlockOf(sizes, j).region == 0
    && !Apart(BlockOf(sizes, j), BlockOf(sizes, i))
  }

  /** A block outside region 0 always shares memory with an earlier block of region 0. */
  lemma OutsideRegionZeroShares(sizes: seq<int>, i: nat)
    requires Given(sizes, i) && BlockOf(sizes, i).region > 0
    ensures exists j :: 0 <= j < i && SharesFromRegionZero(sizes, j, i)
  {
    AnswerPlaced(sizes, i);
    var h, b := HeapBefore(sizes, i), BlockOf(sizes, i);
    assert !FreeBlock(h, Block(0, b.order, b.slot));
    var p :| InRun(b.order, b.slot, p) && Occupied(h[0], MAX_ORDER, p);
    RunOccupiedExactly(sizes[..i], 0, p);
    var j :| GivenAt(Run(sizes[..i]).answers, j, 0, p);
    RunPrefix(sizes, i);
    assert Run(sizes).answers[j] == Run(sizes[..i]).answers[j];
    AnswerPlaced(sizes, j);
    Overlapping(BlockOf(sizes, j), b, p);
    assert SharesFromRegionZero(sizes, j, i);
  }

  lemma AddressIs(b: Block)
    requires ValidBlock(b)
    ensures Address(b) == (MALLOC_PD_START + b.region) * BIG_PAGE_SIZE + PAGE_SIZE * Low(b)
    ensures Address(b) + Bytes(b) == (MALLOC_PD_START + b.region) * BIG_PAGE_SIZE + PAGE_SIZE * High(b)
  {
    BlockInRegion(b);
  }

  lemma PagesFromAddresses(base: nat, low: nat, high: nat)
    requires base + PAGE_SIZE * low <= base + PAGE_SIZE * high
    ensures low <= high
  {
  }

  lemma SameRegionApart(b: Block, c: Block)
    requires ValidBlock(b) && ValidBlock(c) && b.region == c.region && Disjoint(b, c)
    ensures Apart(b, c)
  {
    var base := (MALLOC_PD_START + b.region) * BIG_PAGE_SIZE;
    AddressIs(b);
    AddressIs(c);
    if Address(b) + Bytes(b) <= Address(c) {
      PagesFromAddresses(base, High(b), Low(c));
    } else {
      PagesFromAddresses(base, High(c), Low(b));
    }
    ApartExactly(b, c);
  }

  lemma InRegionZeroApart(sizes: seq<int>, i: nat, j: nat)
    requires i < j && Given(sizes, i) && Given(sizes, j) && BlockOf(sizes, i).region == BlockOf(sizes, j).region == 0
    ensures Apart(BlockOf(sizes, i), BlockOf(sizes, j))
  {
    RunBlocksDisjoint(sizes, i, j);
    AnswerPlaced(sizes, i);
    AnswerPlaced(sizes, j);
    SameRegionApart(BlockOf(sizes, i), BlockOf(sizes, j));
  }

  ghost predicate AllApart(sizes: seq<int>) {
    forall i, j :: 0 <= i < j && Given(sizes, i) && Given(sizes, j) ==> Apart(BlockOf(sizes, i), BlockOf(sizes, j))
  }

  /** Memory safety over runs, exactly: the blocks given share no byte of memory if and only if region 0 could serve
      every request that was granted. */
  lemma RunMemorySafeExactly(sizes: seq<int>)
    ensures forall i :: Given(sizes, i) ==> ValidSize(sizes[i])
    ensures AllApart(sizes) <==> forall i :: Given(sizes, i) ==> RegionZeroServes(HeapBefore(sizes, i), sizes[i])
  {
    forall i | Given(sizes, i)
      ensures ValidSize(sizes[i])
      ensures BlockOf(sizes, i).region == 0 <==> RegionZeroServes(HeapBefore(sizes, i), sizes[i])
    {
      InRegionZeroExactly(sizes, i);
    }
    if i :| Given(sizes, i) && BlockOf(sizes, i).region > 0 {
      OutsideRegionZeroShares(sizes, i);
    } else {
      forall i, j | 0 <= i < j && Given(sizes, i) && Given(sizes, j)
        ensures Apart(BlockOf(sizes, i), BlockOf(sizes, j))
      {
        InRegionZeroApart(sizes, i, j);
      }
    }
  }

  lemma BigOrder()
    ensures OrderFor(BIG_PAGE_SIZE) == MAX_ORDER
  {
    Pow2Ten();
  }

  lemma FirstBigRequest()
    ensures Run([BIG_PAGE_SIZE]).answers == [Answer.Given(Block(0, MAX_ORDER, 0))]
    ensures var h := Run([BIG_PAGE_SIZE]).heap; h[0].mark.unavail && h[1] == Blank(MAX_ORDER)
  {
    BigOrder();
    FirstRequest(BIG_PAGE_SIZE);
    assert [BIG_PAGE_SIZE][..0] == [];
    assert Run([]) == History(BlankHeap(), []);
    LastAnswer([BIG_PAGE_SIZE]);
    var h := BlankHeap();
    assert FirstFit(h, 0, MAX_ORDER) == Placed(h[0 := h[0].(mark := Mark(true, false))], Block(0, MAX_ORDER, 0));
  }

  lemma SecondBigRequest(h: Heap)
    requires ValidHeap(h) && h[0].mark.unavail && h[1] == Blank(MAX_ORDER)
    ensures Allocate(h, BIG_PAGE_SIZE).Placed? && Allocate(h, BIG_PAGE_SIZE).block == Block(1, MAX_ORDER, 0)
  {
    BigOrder();
    assert FirstFit(h, 0, MAX_ORDER) == FirstFit(h, 1, MAX_ORDER);
  }

  /** A failing run: of two requests of 4 MB from boot, the second gets region 1 and all the memory of the first. */
  lemma TwoBigRequests(x: nat)
    requires x < BIG_PAGE_SIZE
    ensures var sizes := [BIG_PAGE_SIZE, BIG_PAGE_SIZE];
      && Given(sizes, 0) && BlockOf(sizes, 0) == Block(0, MAX_ORDER, 0)
      && Given(sizes, 1) && BlockOf(sizes, 1) == Block(1, MAX_ORDER, 0)
      && Byte(BlockOf(sizes, 0), x) == Byte(BlockOf(sizes, 1), x)
  {
    var sizes := [BIG_PAGE_SIZE, BIG_PAGE_SIZE];
    assert sizes[..1] == [BIG_PAGE_SIZE];
    FirstBigRequest();
    SecondBigRequest(Run([BIG_PAGE_SIZE]).heap);
    Pow2Ten();
    ByteIs(Block(0, MAX_ORDER, 0), x);
    ByteIs(Block(1, MAX_ORDER, 0), x);
  }
}
