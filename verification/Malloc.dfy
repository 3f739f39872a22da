/** The ten-region heap as a value: what one syscall_malloc does to it, where it places a block,
    and what holds over every run of requests. */
module Malloc {
  import opened Arithmetic
  import opened BuddyTree

  const PAGE_SIZE := 4096
  const BIG_PAGE_SIZE := 4194304
  const MALLOC_PD_START := 40
  const MALLOC_PD_SIZE := 10
  const MAX_ORDER := 10

  /** One tree per region. */
  type Heap = seq<Tree>

  predicate ValidHeap(h: Heap) {
    |h| == MALLOC_PD_SIZE && forall i :: 0 <= i < |h| ==> Shape(h[i], MAX_ORDER) && Inv(h[i])
  }

  function BlankHeap(): (h: Heap)
    ensures ValidHeap(h)
  {
    seq(MALLOC_PD_SIZE, _ => Blank(MAX_ORDER))
  }

  // ---------------------------------------------------------------------------------------------
  // Order selection
  // ---------------------------------------------------------------------------------------------

  predicate ValidSize(size: int) {
    0 < size <= BIG_PAGE_SIZE
  }

  function OrderFrom(size: int, order: nat): nat {
    if PAGE_SIZE * Pow2(order) > size && order > 0 then OrderFrom(size, order - 1) else order
  }

  function OrderFor(size: int): nat {
    OrderFrom(size, MAX_ORDER)
  }

  lemma {:induction false} OrderFromBrackets(size: int, order: nat)
    requires 0 < size < PAGE_SIZE * Pow2(order + 1)
    ensures var k := OrderFrom(size, order);
      && k <= order
      && size < PAGE_SIZE * Pow2(k + 1)
      && (if size >= PAGE_SIZE then PAGE_SIZE * Pow2(k) <= size else k == 0)
  {
    if PAGE_SIZE * Pow2(order) > size && order > 0 {
      OrderFromBrackets(size, order - 1);
    } else if order > 0 {
      Pow2Monotone(0, order);
    }
  }

  /** The order is rounded down: the largest block not above the request, and a single page below one page. */
  lemma OrderBrackets(size: int)
    requires ValidSize(size)
    ensures var k := OrderFor(size);
      && k <= MAX_ORDER
      && size < PAGE_SIZE * Pow2(k + 1)
      && (if size >= PAGE_SIZE then PAGE_SIZE * Pow2(k) <= size else k == 0)
  {
    Pow2Ten();
    OrderFromBrackets(size, MAX_ORDER);
  }

  /** The block is as large as the request exactly for requests of at most a page and of a power of two of pages. */
  lemma CoversRequestExactly(size: int)
    requires ValidSize(size)
    ensures PAGE_SIZE * Pow2(OrderFor(size)) >= size <==>
      size <= PAGE_SIZE || exists k: nat :: k <= MAX_ORDER && size == PAGE_SIZE * Pow2(k)
  {
    OrderBrackets(size);
    var chosen := OrderFor(size);
    if k: nat :| k <= MAX_ORDER && size == PAGE_SIZE * Pow2(k) {
      if k < chosen {
        Pow2Monotone(k + 1, chosen);
      } else if chosen < k {
        Pow2Monotone(chosen + 1, k);
      }
    }
    if PAGE_SIZE * Pow2(chosen) >= size && size > PAGE_SIZE {
      assert size == PAGE_SIZE * Pow2(chosen);
    }
  }

  // ---------------------------------------------------------------------------------------------
  // One request
  // ---------------------------------------------------------------------------------------------

  datatype Block = Block(region: nat, order: nat, slot: nat)

  predicate ValidBlock(b: Block) {
    b.region < MALLOC_PD_SIZE && b.order <= MAX_ORDER && b.slot < Pow2(MAX_ORDER - b.order)
  }

  function Bytes(b: Block): nat {
    PAGE_SIZE * Pow2(b.order)
  }

  /** The virtual address handed to the caller. */
  function Address(b: Block): nat {
    (MALLOC_PD_START + b.region) * BIG_PAGE_SIZE + b.slot * Pow2(b.order) * PAGE_SIZE
  }

  datatype Outcome = NoRoom | Placed(heap: Heap, block: Block)

  function FirstFit(h: Heap, region: nat, order: nat): Outcome
    requires ValidHeap(h) && order <= MAX_ORDER && region <= MALLOC_PD_SIZE
    decreases MALLOC_PD_SIZE - region
  {
    if region == MALLOC_PD_SIZE then NoRoom
    else
      match Alloc(h[region], MAX_ORDER, order)
      case Found(t, slot) => Placed(h[region := t], Block(region, order, slot))
      case NotFound => FirstFit(h, region + 1, order)
  }

  function Allocate(h: Heap, size: int): Outcome
    requires ValidHeap(h)
  {
    if ValidSize(size) then
      OrderBrackets(size);
      FirstFit(h, 0, OrderFor(size))
    else NoRoom
  }

  ghost predicate FreeBlock(h: Heap, b: Block)
    requires ValidHeap(h)
  {
    ValidBlock(b) && RunFree(h[b.region], MAX_ORDER, b.order, b.slot)
  }

  ghost predicate NoneFreeFrom(h: Heap, region: nat, order: nat)
    requires ValidHeap(h)
  {
    forall b: Block :: b.order == order && b.region >= region ==> !FreeBlock(h, b)
  }

  ghost predicate FirstFree(h: Heap, region: nat, b: Block)
    requires ValidHeap(h)
  {
    && FreeBlock(h, b) && region <= b.region
    && forall c: Block :: c.order == b.order && region <= c.region && FreeBlock(h, c) ==>
         b.region < c.region || (b.region == c.region && b.slot <= c.slot)
  }

  function Pages(t: Tree): nat
    requires Shape(t, MAX_ORDER)
  {
    Tally(t, MAX_ORDER, Pow2(MAX_ORDER))
  }

  /** h' is h with the block b marked, and nothing else changed. */
  ghost predicate MarkedBlock(h: Heap, h': Heap, b: Block)
    requires ValidHeap(h) && ValidBlock(b)
  {
    && ValidHeap(h') && h' == h[b.region := h'[b.region]]
    && MarkedRun(h[b.region], h'[b.region], MAX_ORDER, b.order, b.slot)
    && Touched(h'[b.region])
    && Pages(h'[b.region]) == Pages(h[b.region]) + Pow2(b.order)
  }

  lemma RegionPlaces(h: Heap, region: nat, order: nat)
    requires ValidHeap(h) && order <= MAX_ORDER && region < MALLOC_PD_SIZE
    ensures var r := Alloc(h[region], MAX_ORDER, order);
      && (r.NotFound? ==> forall b: Block :: b.order == order && b.region == region ==> !FreeBlock(h, b))
      && (r.Found? ==>
          && FirstFree(h, region, Block(region, order, r.slot))
          && MarkedBlock(h, h[region := r.tree], Block(region, order, r.slot)))
  {
    AllocComplete(h[region], MAX_ORDER, order);
    if Alloc(h[region], MAX_ORDER, order).Found? {
      AllocKeepsInv(h[region], MAX_ORDER, order);
      AllocLowest(h[region], MAX_ORDER, order);
      AllocMarksRun(h[region], MAX_ORDER, order);
      AllocConserves(h[region], MAX_ORDER, order);
    }
  }

  lemma {:induction false} FirstFitPlaces(h: Heap, region: nat, order: nat)
    requires ValidHeap(h) && order <= MAX_ORDER && region <= MALLOC_PD_SIZE
    ensures match FirstFit(h, region, order)
      case NoRoom => NoneFreeFrom(h, region, order)
      case Placed(h', b) => b.order == order && FirstFree(h, region, b) && MarkedBlock(h, h', b)
    decreases MALLOC_PD_SIZE - region
  {
    if region < MALLOC_PD_SIZE {
      RegionPlaces(h, region, order);
      if Alloc(h[region], MAX_ORDER, order).NotFound? {
        FirstFitPlaces(h, region + 1, order);
      }
    }
  }

  /** Completeness: a valid request is refused exactly when no region has a free aligned run of its order. */
  lemma RefusedIffNoFreeRun(h: Heap, size: int)
    requires ValidHeap(h) && ValidSize(size)
    ensures Allocate(h, size).NoRoom? <==> forall b: Block :: b.order == OrderFor(size) ==> !FreeBlock(h, b)
  {
    OrderBrackets(size);
    FirstFitPlaces(h, 0, OrderFor(size));
  }

  lemma BlockInRegion(b: Block)
    requires ValidBlock(b)
    ensures (MALLOC_PD_START + b.region) * BIG_PAGE_SIZE <= Address(b)
    ensures Address(b) + Bytes(b) <= (MALLOC_PD_START + b.region + 1) * BIG_PAGE_SIZE
    ensures Address(b) == (MALLOC_PD_START + b.region) * BIG_PAGE_SIZE + PAGE_SIZE * (b.slot * Pow2(b.order))
    ensures Address(b) + Bytes(b) ==
      (MALLOC_PD_START + b.region) * BIG_PAGE_SIZE + PAGE_SIZE * ((b.slot + 1) * Pow2(b.order))
  {
    Pow2Ten();
    SlotInRegion(MAX_ORDER, b.order, b.slot);
  }

  /** The address counted in blocks of this order. */
  function BlockIndex(b: Block): nat
    requires ValidBlock(b)
  {
    (MALLOC_PD_START + b.region) * Pow2(MAX_ORDER - b.order) + b.slot
  }

  lemma CountInBlocks(base: nat, per: nat, pages: nat, slot: nat)
    requires per * pages == 1024
    ensures (base * per + slot) * (PAGE_SIZE * pages) == base * BIG_PAGE_SIZE + slot * pages * PAGE_SIZE
  {
    MulAssociates(base, per, pages);
    MulDistributes(base * per, slot, pages);
    MulAssociates(base * per + slot, pages, PAGE_SIZE);
  }

  lemma BlockAligned(b: Block)
    requires ValidBlock(b)
    ensures Address(b) == BlockIndex(b) * Bytes(b)
  {
    Pow2Ten();
    Pow2Add(MAX_ORDER - b.order, b.order);
    CountInBlocks(MALLOC_PD_START + b.region, Pow2(MAX_ORDER - b.order), Pow2(b.order), b.slot);
  }

  /** Placement: the block is the lowest-addressed free aligned run of its order, aligned to its own
      size and inside its region. */
  lemma LowestAddress(h: Heap, size: int)
    requires ValidHeap(h) && Allocate(h, size).Placed?
    ensures var b := Allocate(h, size).block;
      && b.order == OrderFor(size) && FreeBlock(h, b)
      && Address(b) == BlockIndex(b) * Bytes(b)
      && (MALLOC_PD_START + b.region) * BIG_PAGE_SIZE <= Address(b)
      && Address(b) + Bytes(b) <= (MALLOC_PD_START + b.region + 1) * BIG_PAGE_SIZE
      && forall c: Block :: c.order == b.order && FreeBlock(h, c) ==> Address(b) <= Address(c)
  {
    OrderBrackets(size);
    FirstFitPlaces(h, 0, OrderFor(size));
    var b := Allocate(h, size).block;
    BlockInRegion(b);
    BlockAligned(b);
    forall c: Block | c.order == b.order && FreeBlock(h, c)
      ensures Address(b) <= Address(c)
    {
      BlockInRegion(c);
      if b.region == c.region {
        MulMonotone(b.slot, c.slot, Pow2(b.order));
      }
    }
  }

  // ---------------------------------------------------------------------------------------------
  // The answer, in numbers
  // ---------------------------------------------------------------------------------------------

  /** The order k of a request: 2^k pages is the largest block not above it, and a single page below one page. */
  predicate RoundsDownTo(size: int, k: nat) {
    k <= 10 && size < 4096 * Pow2(k + 1) && (k > 0 ==> 4096 * Pow2(k) <= size)
  }

  /** The 2^k pages of region r from page slot * 2^k on lie in the region and are free. */
  ghost predicate FreeRun(h: Heap, k: nat, r: nat, slot: nat)
    requires ValidHeap(h)
  {
    && r < 10 && (slot + 1) * Pow2(k) <= 1024
    && forall p :: slot * Pow2(k) <= p < (slot + 1) * Pow2(k) ==> !Occupied(h[r], 10, p)
  }

  ghost predicate NoFreeRun(h: Heap, k: nat)
    requires ValidHeap(h)
  {
    forall r: nat, slot: nat :: !FreeRun(h, k, r, slot)
  }

  /** That run was free, no run of its size at a lower address was, and it is what became occupied. */
  ghost predicate HandsOut(h: Heap, h': Heap, k: nat, r: nat, slot: nat)
    requires ValidHeap(h) && ValidHeap(h')
  {
    && FreeRun(h, k, r, slot)
    && (forall r', slot' :: FreeRun(h, k, r', slot') ==> r < r' || (r == r' && slot <= slot'))
    && (forall r': nat, p :: r' < 10 ==>
         (Occupied(h'[r'], 10, p) <==>
           Occupied(h[r'], 10, p) || (r' == r && slot * Pow2(k) <= p < (slot + 1) * Pow2(k))))
  }

  /** The answer to a request of order k: 0 exactly when no region has a free run of 2^k pages, and otherwise the
      address of the lowest one, region r being mapped at (40 + r) * 4 MB. */
  ghost predicate Serves(h: Heap, h': Heap, k: nat, address: nat)
    requires ValidHeap(h) && ValidHeap(h')
  {
    if address == 0 then NoFreeRun(h, k) && h' == h
    else exists r: nat, slot: nat ::
      HandsOut(h, h', k, r, slot) && address == (40 + r) * 0x40_0000 + slot * Pow2(k) * 4096
  }

  function AnswerAddress(h: Heap, size: int): nat
    requires ValidHeap(h)
  {
    match Allocate(h, size)
    case NoRoom => 0
    case Placed(_, b) => Address(b)
  }

  function AnswerHeap(h: Heap, size: int): (h': Heap)
    requires ValidHeap(h)
    ensures ValidHeap(h')
  {
    if ValidSize(size) then
      OrderBrackets(size);
      FirstFitPlaces(h, 0, OrderFor(size));
      match FirstFit(h, 0, OrderFor(size))
      case NoRoom => h
      case Placed(h', _) => h'
    else h
  }

  lemma OneOrder(size: int, k: nat)
    requires ValidSize(size) && RoundsDownTo(size, k)
    ensures OrderFor(size) == k
  {
    OrderBrackets(size);
    var chosen := OrderFor(size);
    if k < chosen {
      Pow2Monotone(k + 1, chosen);
    } else if chosen < k {
      Pow2Monotone(chosen + 1, k);
    }
  }

  lemma FreeRunIsFreeBlock(h: Heap, k: nat, r: nat, slot: nat)
    requires ValidHeap(h) && k <= 10
    ensures FreeRun(h, k, r, slot) <==> FreeBlock(h, Block(r, k, slot))
  {
    Pow2Ten();
    Pow2Add(10 - k, k);
    if slot < Pow2(10 - k) {
      SlotInRegion(10, k, slot);
    } else {
      MulMonotone(Pow2(10 - k) + 1, slot + 1, Pow2(k));
      MulDistributes(Pow2(10 - k), 1, Pow2(k));
    }
    if FreeRun(h, k, r, slot) {
      assert forall p :: InRun(k, slot, p) ==> !Occupied(h[r], 10, p);
    }
    if FreeBlock(h, Block(r, k, slot)) {
      assert forall p :: slot * Pow2(k) <= p < (slot + 1) * Pow2(k) ==> InRun(k, slot, p);
    }
  }

  lemma PlacedHandsOut(h: Heap, h': Heap, b: Block)
    requires ValidHeap(h) && b.order <= 10 && FirstFree(h, 0, b) && MarkedBlock(h, h', b)
    ensures HandsOut(h, h', b.order, b.region, b.slot)
  {
    FreeRunIsFreeBlock(h, b.order, b.region, b.slot);
    forall r', slot' | FreeRun(h, b.order, r', slot')
      ensures b.region < r' || (b.region == r' && b.slot <= slot')
    {
      FreeRunIsFreeBlock(h, b.order, r', slot');
    }
    forall r': nat, p | r' < 10
      ensures Occupied(h'[r'], 10, p) <==>
        Occupied(h[r'], 10, p) || (r' == b.region && b.slot * Pow2(b.order) <= p < (b.slot + 1) * Pow2(b.order))
    {
      assert InRun(b.order, b.slot, p) <==> b.slot * Pow2(b.order) <= p < (b.slot + 1) * Pow2(b.order);
    }
  }

  lemma PlacedServes(h: Heap, h': Heap, b: Block)
    requires ValidHeap(h) && b.order <= 10 && FirstFree(h, 0, b) && MarkedBlock(h, h', b)
    ensures Address(b) > 0 && Serves(h, h', b.order, Address(b))
  {
    PlacedHandsOut(h, h', b);
    BlockInRegion(b);
  }

  lemma RefusedHasNoRun(h: Heap, k: nat)
    requires ValidHeap(h) && k <= 10 && NoneFreeFrom(h, 0, k)
    ensures NoFreeRun(h, k)
  {
    forall r: nat, slot: nat
      ensures !FreeRun(h, k, r, slot)
    {
      FreeRunIsFreeBlock(h, k, r, slot);
    }
  }

  lemma FirstFitServes(h: Heap, k: nat)
    requires ValidHeap(h) && k <= 10
    ensures match FirstFit(h, 0, k)
      case NoRoom => Serves(h, h, k, 0)
      case Placed(h', b) => ValidHeap(h') && Address(b) > 0 && Serves(h, h', k, Address(b))
  {
    FirstFitPlaces(h, 0, k);
    match FirstFit(h, 0, k)
    case NoRoom => RefusedHasNoRun(h, k);
    case Placed(h', b) => PlacedServes(h, h', b);
  }

  /** Every request, with the bounds written out: one of no bytes or of more than 4 MB is answered 0 and changes
      nothing; any other has an order, and is answered 0 exactly when no region has a free aligned run of it. */
  lemma AnswersExactly(h: Heap, size: int, k: nat)
    requires ValidHeap(h)
    ensures size <= 0 || size > 4194304 ==> AnswerAddress(h, size) == 0 && AnswerHeap(h, size) == h
    ensures 0 < size <= 4194304 ==> exists order :: RoundsDownTo(size, order)
    ensures 0 < size <= 4194304 && RoundsDownTo(size, k) ==> Serves(h, AnswerHeap(h, size), k, AnswerAddress(h, size))
  {
    if ValidSize(size) {
      OrderBrackets(size);
      assert RoundsDownTo(size, OrderFor(size));
      if RoundsDownTo(size, k) {
        OneOrder(size, k);
        FirstFitServes(h, k);
      }
    }
  }

  /** What a caller sees of a request: the answer, and the heap before and after. */
  ghost predicate Answered(h: Heap, h': Heap, size: int, address: nat)
    requires ValidHeap(h) && ValidHeap(h')
  {
    && (size <= 0 || size > 4194304 ==> address == 0 && h' == h)
    && (0 < size <= 4194304 ==> forall k: nat :: RoundsDownTo(size, k) ==> Serves(h, h', k, address))
  }

  lemma AllocateAnswers(h: Heap, size: int)
    requires ValidHeap(h)
    ensures Answered(h, AnswerHeap(h, size), size, AnswerAddress(h, size))
  {
    forall k: nat
      ensures 0 < size <= 4194304 && RoundsDownTo(size, k) ==> Serves(h, AnswerHeap(h, size), k, AnswerAddress(h, size))
    {
      AnswersExactly(h, size, k);
    }
    AnswersExactly(h, size, 0);
  }

  // ---------------------------------------------------------------------------------------------
  // Runs
  // ---------------------------------------------------------------------------------------------

  datatype Answer = Null | Given(block: Block)

  datatype History = History(heap: Heap, answers: seq<Answer>)

  /** The heap and the answers after a run of requests from boot. */
  function Run(sizes: seq<int>): (r: History)
    ensures ValidHeap(r.heap) && |r.answers| == |sizes|
  {
    if sizes == [] then History(BlankHeap(), [])
    else
      var last := |sizes| - 1;
      var before := Run(sizes[..last]);
      match Allocate(before.heap, sizes[last])
      case NoRoom => History(before.heap, before.answers + [Null])
      case Placed(h, b) =>
        OrderBrackets(sizes[last]);
        FirstFitPlaces(before.heap, 0, OrderFor(sizes[last]));
        History(h, before.answers + [Given(b)])
  }

  predicate PagesOccupied(h: Heap, b: Block)
    requires ValidHeap(h) && ValidBlock(b)
  {
    forall p | b.slot * Pow2(b.order) <= p < (b.slot + 1) * Pow2(b.order) :: Occupied(h[b.region], MAX_ORDER, p)
  }

  lemma MarkedKeepsPages(h: Heap, h': Heap, b: Block, c: Block)
    requires ValidHeap(h) && ValidBlock(b) && ValidBlock(c) && MarkedBlock(h, h', b)
    requires b == c || PagesOccupied(h, c)
    ensures PagesOccupied(h', c)
  {
    forall p | c.slot * Pow2(c.order) <= p < (c.slot + 1) * Pow2(c.order)
      ensures Occupied(h'[c.region], MAX_ORDER, p)
    {
      if b == c {
        assert InRun(b.order, b.slot, p);
      } else {
        assert Occupied(h[c.region], MAX_ORDER, p);
      }
    }
  }

  lemma {:induction false} RunKeepsBlocks(sizes: seq<int>, i: nat)
    requires i < |sizes| && Run(sizes).answers[i].Given?
    ensures var b := Run(sizes).answers[i].block; ValidBlock(b) && PagesOccupied(Run(sizes).heap, b)
  {
    var last := |sizes| - 1;
    var before := Run(sizes[..last]);
    if i < last {
      RunKeepsBlocks(sizes[..last], i);
    }
    if ValidSize(sizes[last]) {
      OrderBrackets(sizes[last]);
      FirstFitPlaces(before.heap, 0, OrderFor(sizes[last]));
      if Allocate(before.heap, sizes[last]).Placed? {
        MarkedKeepsPages(before.heap, Run(sizes).heap, Allocate(before.heap, sizes[last]).block,
                         Run(sizes).answers[i].block);
      }
    }
  }

  predicate Disjoint(b: Block, c: Block) {
    Address(b) + Bytes(b) <= Address(c) || Address(c) + Bytes(c) <= Address(b)
  }

  lemma FreeApartFromOccupied(h: Heap, b: Block, c: Block)
    requires ValidHeap(h) && ValidBlock(b) && PagesOccupied(h, b) && FreeBlock(h, c)
    ensures Disjoint(b, c)
  {
    BlockInRegion(b);
    BlockInRegion(c);
    if b.region == c.region && !Disjoint(b, c) {
      var lowB, lowC := b.slot * Pow2(b.order), c.slot * Pow2(c.order);
      var shared := if lowB < lowC then lowC else lowB;
      assert InRun(c.order, c.slot, shared);
    }
  }

  /** Safety over runs: no two blocks ever handed out share an address. */
  lemma {:induction false} RunBlocksDisjoint(sizes: seq<int>, i: nat, j: nat)
    requires i < j < |sizes|
    requires Run(sizes).answers[i].Given? && Run(sizes).answers[j].Given?
    ensures Disjoint(Run(sizes).answers[i].block, Run(sizes).answers[j].block)
  {
    var last := |sizes| - 1;
    if j < last {
      RunBlocksDisjoint(sizes[..last], i, j);
    } else {
      var before := Run(sizes[..last]);
      RunKeepsBlocks(sizes[..last], i);
      OrderBrackets(sizes[last]);
      FirstFitPlaces(before.heap, 0, OrderFor(sizes[last]));
      FreeApartFromOccupied(before.heap, Run(sizes).answers[i].block, Run(sizes).answers[j].block);
    }
  }

  function HeapTally(h: Heap, regions: nat): nat
    requires ValidHeap(h) && regions <= |h|
  {
    if regions == 0 then 0
    else HeapTally(h, regions - 1) + Pages(h[regions - 1])
  }

  function PagesGiven(answers: seq<Answer>): nat {
    if answers == [] then 0
    else
      var last := |answers| - 1;
      PagesGiven(answers[..last]) + (if answers[last].Given? then Pow2(answers[last].block.order) else 0)
  }

  lemma {:induction false} HeapTallyUpdate(h: Heap, h': Heap, region: nat, regions: nat)
    requires ValidHeap(h) && ValidHeap(h') && region < |h| && regions <= |h|
    requires h' == h[region := h'[region]]
    ensures HeapTally(h', regions) == HeapTally(h, regions) +
      (if region < regions then Pages(h'[region]) - Pages(h[region]) else 0)
  {
    if regions > 0 {
      HeapTallyUpdate(h, h', region, regions - 1);
    }
  }

  /** Conservation: over all ten regions there are as many occupied pages as pages handed out. */
  lemma {:induction false} RunConserves(sizes: seq<int>)
    ensures HeapTally(Run(sizes).heap, MALLOC_PD_SIZE) == PagesGiven(Run(sizes).answers)
  {
    if sizes == [] {
      BlankTally(MALLOC_PD_SIZE);
    } else {
      var last := |sizes| - 1;
      var before := Run(sizes[..last]);
      RunConserves(sizes[..last]);
      var after := Run(sizes);
      assert after.answers[..last] == before.answers;
      if ValidSize(sizes[last]) {
        OrderBrackets(sizes[last]);
        FirstFitPlaces(before.heap, 0, OrderFor(sizes[last]));
        if after.answers[last].Given? {
          HeapTallyUpdate(before.heap, after.heap, after.answers[last].block.region, MALLOC_PD_SIZE);
        }
      }
    }
  }

  lemma {:induction false} BlankTally(regions: nat)
    requires regions <= MALLOC_PD_SIZE
    ensures HeapTally(BlankHeap(), regions) == 0
  {
    if regions > 0 {
      BlankTally(regions - 1);
      BlankTallyPages(Pow2(MAX_ORDER));
    }
  }

  lemma {:induction false} BlankTallyPages(n: nat)
    ensures Tally(Blank(MAX_ORDER), MAX_ORDER, n) == 0
  {
    if n > 0 {
      BlankTallyPages(n - 1);
      UntouchedIsFree(Blank(MAX_ORDER), MAX_ORDER, n - 1);
    }
  }

  // ---------------------------------------------------------------------------------------------
  // Page by page
  // ---------------------------------------------------------------------------------------------

  /** Page p of region r belongs to the block. */
  predicate Covers(b: Block, r: nat, p: int) {
    b.region == r && InRun(b.order, b.slot, p)
  }

  /** Answer i of a run was a block that covers the page. */
  predicate GivenAt(answers: seq<Answer>, i: int, r: nat, p: int) {
    0 <= i < |answers| && answers[i].Given? && Covers(answers[i].block, r, p)
  }

  /** The last request of a run: an answer more, and its block's run marked. */
  lemma LastAnswer(sizes: seq<int>)
    requires sizes != []
    ensures var last := |sizes| - 1;
      var before, after := Run(sizes[..last]), Run(sizes);
      && after.answers[..last] == before.answers && |after.answers| == last + 1
      && (after.answers[last].Null? ==> after.heap == before.heap)
      && (after.answers[last].Given? ==>
          var b := after.answers[last].block;
          && ValidSize(sizes[last]) && b.order == OrderFor(sizes[last])
          && FirstFree(before.heap, 0, b) && MarkedBlock(before.heap, after.heap, b))
  {
    var last := |sizes| - 1;
    if ValidSize(sizes[last]) {
      OrderBrackets(sizes[last]);
      FirstFitPlaces(Run(sizes[..last]).heap, 0, OrderFor(sizes[last]));
    }
  }

  lemma OccupiedThenGiven(before: History, after: History, r: nat, p: int)
    requires ValidHeap(before.heap) && ValidHeap(after.heap) && r < MALLOC_PD_SIZE && after.answers != []
    requires var last := |after.answers| - 1;
      && after.answers[..last] == before.answers
      && (after.answers[last].Null? ==> after.heap == before.heap)
      && (after.answers[last].Given? ==>
          ValidBlock(after.answers[last].block) && MarkedBlock(before.heap, after.heap, after.answers[last].block))
    requires Occupied(before.heap[r], MAX_ORDER, p) ==> exists i :: GivenAt(before.answers, i, r, p)
    requires Occupied(after.heap[r], MAX_ORDER, p)
    ensures exists i :: GivenAt(after.answers, i, r, p)
  {
    var last := |after.answers| - 1;
    if Occupied(before.heap[r], MAX_ORDER, p) {
      var i :| GivenAt(before.answers, i, r, p);
      assert after.answers[i] == before.answers[i];
      assert GivenAt(after.answers, i, r, p);
    } else {
      assert GivenAt(after.answers, last, r, p);
    }
  }

  lemma {:induction false} OccupiedWasGiven(sizes: seq<int>, r: nat, p: int)
    requires r < MALLOC_PD_SIZE && Occupied(Run(sizes).heap[r], MAX_ORDER, p)
    ensures exists i :: GivenAt(Run(sizes).answers, i, r, p)
    decreases |sizes|
  {
    if sizes == [] {
      UntouchedIsFree(Blank(MAX_ORDER), MAX_ORDER, p);
    } else {
      var init := sizes[..|sizes| - 1];
      LastAnswer(sizes);
      if Occupied(Run(init).heap[r], MAX_ORDER, p) {
        OccupiedWasGiven(init, r, p);
      }
      OccupiedThenGiven(Run(init), Run(sizes), r, p);
    }
  }

  /** Page by page, over any run: the occupied pages are exactly the pages of the blocks given. */
  lemma RunOccupiedExactly(sizes: seq<int>, r: nat, p: int)
    requires r < MALLOC_PD_SIZE
    ensures Occupied(Run(sizes).heap[r], MAX_ORDER, p) <==> exists i :: GivenAt(Run(sizes).answers, i, r, p)
  {
    if Occupied(Run(sizes).heap[r], MAX_ORDER, p) {
      OccupiedWasGiven(sizes, r, p);
    }
    if i :| GivenAt(Run(sizes).answers, i, r, p) {
      RunKeepsBlocks(sizes, i);
    }
  }

  /** The pages given in one region. */
  function PagesGivenIn(answers: seq<Answer>, r: nat): nat {
    if answers == [] then 0
    else
      var last := |answers| - 1;
      PagesGivenIn(answers[..last], r)
        + (if answers[last].Given? && answers[last].block.region == r then Pow2(answers[last].block.order) else 0)
  }

  /** Region by region, over any run: occupied pages are the pages given, and at most 1024. */
  lemma {:induction false} RunConservesRegion(sizes: seq<int>, r: nat)
    requires r < MALLOC_PD_SIZE
    ensures PagesGivenIn(Run(sizes).answers, r) == Pages(Run(sizes).heap[r]) <= 1024
    decreases |sizes|
  {
    Pow2Ten();
    if sizes == [] {
      BlankTallyPages(Pow2(MAX_ORDER));
    } else {
      LastAnswer(sizes);
      RunConservesRegion(sizes[..|sizes| - 1], r);
    }
  }

  // ---------------------------------------------------------------------------------------------
  // What the runs do not give
  // ---------------------------------------------------------------------------------------------

  /** From boot, the first request gets the first slot of the first region. */
  lemma FirstRequest(size: int)
    requires ValidSize(size)
    ensures Allocate(BlankHeap(), size).Placed? && Allocate(BlankHeap(), size).block == Block(0, OrderFor(size), 0)
  {
    var h, k := BlankHeap(), OrderFor(size);
    OrderBrackets(size);
    assert FreeBlock(h, Block(0, k, 0)) by {
      forall p
        ensures !Occupied(h[0], MAX_ORDER, p)
      {
        UntouchedIsFree(h[0], MAX_ORDER, p);
      }
    }
    FirstFitPlaces(h, 0, k);
  }

  lemma SecondPage(h: Heap)
    requires ValidHeap(h) && MarkedBlock(BlankHeap(), h, Block(0, 0, 0))
    ensures FirstFit(h, 0, 0).Placed? && FirstFit(h, 0, 0).block == Block(0, 0, 1)
  {
    Pow2Ten();
    assert InRun(0, 0, 0) && Occupied(h[0], MAX_ORDER, 0);
    assert !FreeBlock(h, Block(0, 0, 0));
    assert FreeBlock(h, Block(0, 0, 1)) by {
      forall p | InRun(0, 1, p)
        ensures !Occupied(h[0], MAX_ORDER, p)
      {
        UntouchedIsFree(BlankHeap()[0], MAX_ORDER, p);
        assert !InRun(0, 0, p);
      }
    }
    FirstFitPlaces(h, 0, 0);
  }

  lemma OnePage(size: int)
    requires PAGE_SIZE < size < 2 * PAGE_SIZE
    ensures OrderFor(size) == 0
  {
    OrderBrackets(size);
    Pow2Monotone(if OrderFor(size) == 0 then 0 else 1, OrderFor(size));
  }

  lemma FirstPageGiven(size: int)
    requires PAGE_SIZE < size < 2 * PAGE_SIZE
    ensures Run([size]).answers == [Given(Block(0, 0, 0))]
    ensures MarkedBlock(BlankHeap(), Run([size]).heap, Block(0, 0, 0))
  {
    OnePage(size);
    FirstRequest(size);
    assert [size][..0] == [];
    assert Run([]) == History(BlankHeap(), []);
    LastAnswer([size]);
  }

  /** Because the order is rounded down, two requests of more than one page and less than two from boot are given one
      page each, and the second begins inside the bytes the first asked for. */
  lemma RequestedBytesCanOverlap(size: int)
    requires PAGE_SIZE < size < 2 * PAGE_SIZE
    ensures var answers := Run([size, size]).answers;
      && answers[0].Given? && answers[1].Given?
      && Address(answers[1].block) == Address(answers[0].block) + PAGE_SIZE < Address(answers[0].block) + size
  {
    OnePage(size);
    FirstPageGiven(size);
    assert [size, size][..1] == [size];
    SecondPage(Run([size]).heap);
  }

  /** What the directory entry of a region holds: the region's address cut to the 20 bits of pt_base_addr. */
  function RegionBase(region: nat): nat {
    ((MALLOC_PD_START + region) * BIG_PAGE_SIZE) % 0x10_0000
  }
}
