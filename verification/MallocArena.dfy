/** The allocator as the kernel runs it: a 2047-entry mark array for each of ten regions, marked in place. */
module MallocArena {
  import opened Arithmetic
  import opened BuddyTree
  import opened Malloc

  const MMAP_SIZE := 2047
  const NUM_PT := 1024
  const NUM_PD := 1024

  // ---------------------------------------------------------------------------------------------
  // The array of one region, read as a tree
  // ---------------------------------------------------------------------------------------------

  /** Depth of a node: parents are taken as TREE_PARENT does. */
  function Level(idx: nat): nat {
    if idx == 0 then 0 else 1 + Level((idx - 1) / 2)
  }

  lemma {:induction false} LevelBounds(idx: nat)
    ensures Pow2(Level(idx)) <= idx + 1 < Pow2(Level(idx) + 1)
  {
    if idx > 0 {
      LevelBounds((idx - 1) / 2);
    }
  }

  /** Node idx roots a tree of this order whose leaves are the bottom level of the array. */
  predicate Rooted(idx: nat, order: nat) {
    Level(idx) + order == MAX_ORDER
  }

  /** The region page of the leftmost leaf below node idx. */
  function FirstPage(idx: nat, order: nat): int
    decreases order
  {
    if order == 0 then idx - (MMAP_SIZE - NUM_PT) else FirstPage(2 * idx + 1, order - 1)
  }

  lemma {:induction false} NextFirstPage(idx: nat, order: nat)
    ensures FirstPage(idx + 1, order) == FirstPage(idx, order) + Pow2(order)
    decreases order
  {
    if order > 0 {
      NextFirstPage(2 * idx + 1, order - 1);
      NextFirstPage(2 * idx + 2, order - 1);
    }
  }

  lemma {:induction false} FirstPageInRegion(idx: nat, order: nat)
    requires Rooted(idx, order)
    ensures 0 <= FirstPage(idx, order)
    decreases order
  {
    if order == 0 {
      LevelBounds(idx);
      Pow2Ten();
    } else {
      FirstPageInRegion(2 * idx + 1, order - 1);
    }
  }

  lemma RootedChildren(idx: nat, order: nat)
    requires Rooted(idx, order) && order > 0
    ensures Rooted(2 * idx + 1, order - 1) && FirstPage(2 * idx + 1, order - 1) == FirstPage(idx, order)
    ensures Rooted(2 * idx + 2, order - 1)
    ensures FirstPage(2 * idx + 2, order - 1) == FirstPage(idx, order) + Pow2(order - 1)
  {
    NextFirstPage(2 * idx + 1, order - 1);
  }

  lemma RootedInArray(idx: nat, order: nat)
    requires Rooted(idx, order)
    ensures idx < MMAP_SIZE
  {
    LevelBounds(idx);
    Pow2Monotone(Level(idx) + 1, MAX_ORDER + 1);
    Pow2Ten();
  }

  function TreeAt(row: seq<Mark>, idx: nat, order: nat): (t: Tree)
    requires |row| == MMAP_SIZE && Rooted(idx, order)
    ensures Shape(t, order) && idx < MMAP_SIZE && t.mark == row[idx]
    decreases row, order
  {
    RootedInArray(idx, order);
    if order == 0 then Leaf(row[idx])
    else
      RootedChildren(idx, order);
      Node(row[idx], TreeAt(row, 2 * idx + 1, order - 1), TreeAt(row, 2 * idx + 2, order - 1))
  }

  /** Node x is node idx or lies below it: parents are taken as TREE_PARENT does. */
  predicate Under(idx: nat, x: nat) {
    x == idx || (x > idx && Under(idx, (x - 1) / 2))
  }

  lemma {:induction false} UnderChild(idx: nat, child: nat, x: nat)
    requires child == 2 * idx + 1 || child == 2 * idx + 2
    requires Under(child, x)
    ensures Under(idx, x)
  {
    if x != child {
      UnderChild(idx, child, (x - 1) / 2);
    }
  }

  lemma {:induction false} SiblingsApart(idx: nat, x: nat)
    ensures !(Under(2 * idx + 1, x) && Under(2 * idx + 2, x))
  {
    if x > 2 * idx + 2 {
      SiblingsApart(idx, (x - 1) / 2);
    }
  }

  /** The tree depends only on the entries below its root. */
  lemma {:induction false} TreeAtFrame(row: seq<Mark>, row': seq<Mark>, idx: nat, order: nat)
    requires |row| == |row'| == MMAP_SIZE && Rooted(idx, order)
    requires forall x :: 0 <= x < MMAP_SIZE && Under(idx, x) ==> row[x] == row'[x]
    ensures TreeAt(row, idx, order) == TreeAt(row', idx, order)
    decreases order
  {
    RootedInArray(idx, order);
    assert Under(idx, idx);
    if order > 0 {
      RootedChildren(idx, order);
      forall x | 0 <= x < MMAP_SIZE && (Under(2 * idx + 1, x) || Under(2 * idx + 2, x))
        ensures row[x] == row'[x]
      {
        UnderChild(idx, if Under(2 * idx + 1, x) then 2 * idx + 1 else 2 * idx + 2, x);
      }
      TreeAtFrame(row, row', 2 * idx + 1, order - 1);
      TreeAtFrame(row, row', 2 * idx + 2, order - 1);
    }
  }

  lemma RootFirstPage()
    ensures FirstPage(0, MAX_ORDER) == 0
  {
    assert FirstPage(31, 5) == FirstPage(1023, 0);
    assert FirstPage(0, MAX_ORDER) == FirstPage(31, 5) by {
      assert FirstPage(1, 9) == FirstPage(3, 8) == FirstPage(7, 7) == FirstPage(15, 6);
    }
  }

  lemma {:induction false} ZeroRowIsBlank(row: seq<Mark>, idx: nat, order: nat)
    requires |row| == MMAP_SIZE && Rooted(idx, order)
    requires forall x :: 0 <= x < MMAP_SIZE ==> row[x] == Mark(false, false)
    ensures TreeAt(row, idx, order) == Blank(order)
    decreases order
  {
    RootedInArray(idx, order);
    if order > 0 {
      RootedChildren(idx, order);
      ZeroRowIsBlank(row, 2 * idx + 1, order - 1);
      ZeroRowIsBlank(row, 2 * idx + 2, order - 1);
    }
  }

  /** Only entries below idx differ between the two rows. */
  ghost predicate OnlyUnder(row: seq<Mark>, row': seq<Mark>, idx: nat) {
    |row| == |row'| == MMAP_SIZE && forall x :: 0 <= x < MMAP_SIZE && !Under(idx, x) ==> row[x] == row'[x]
  }

  lemma ChildFrames(row: seq<Mark>, row': seq<Mark>, idx: nat, order: nat, right: bool)
    requires Rooted(idx, order) && order > 0
    requires OnlyUnder(row, row', if right then 2 * idx + 2 else 2 * idx + 1)
    ensures OnlyUnder(row, row', idx) && idx < MMAP_SIZE && row'[idx] == row[idx]
    ensures Rooted(2 * idx + 1, order - 1) && Rooted(2 * idx + 2, order - 1)
    ensures if right then TreeAt(row', 2 * idx + 1, order - 1) == TreeAt(row, 2 * idx + 1, order - 1)
            else TreeAt(row', 2 * idx + 2, order - 1) == TreeAt(row, 2 * idx + 2, order - 1)
  {
    RootedChildren(idx, order);
    var changed, kept := if right then 2 * idx + 2 else 2 * idx + 1, if right then 2 * idx + 1 else 2 * idx + 2;
    forall x | 0 <= x < MMAP_SIZE
      ensures Under(changed, x) ==> Under(idx, x) && !Under(kept, x)
    {
      SiblingsApart(idx, x);
      if Under(changed, x) {
        UnderChild(idx, changed, x);
      }
    }
    TreeAtFrame(row, row', kept, order - 1);
  }

  lemma RootMarkFrame(row: seq<Mark>, mark: Mark, idx: nat, order: nat)
    requires |row| == MMAP_SIZE && Rooted(idx, order)
    ensures idx < MMAP_SIZE && OnlyUnder(row, row[idx := mark], idx)
    ensures TreeAt(row[idx := mark], idx, order) == TreeAt(row, idx, order).(mark := mark)
  {
    RootedInArray(idx, order);
    if order > 0 {
      RootedChildren(idx, order);
      TreeAtFrame(row, row[idx := mark], 2 * idx + 1, order - 1);
      TreeAtFrame(row, row[idx := mark], 2 * idx + 2, order - 1);
    }
  }

  /** What a search below node idx does to the array of its region, and what it answers: the tree below
      idx becomes the tree Alloc describes, the answer is the first page of its slot, and nothing else changes. */
  ghost predicate Searched(row: seq<Mark>, row': seq<Mark>, idx: nat, order: nat, target: nat, pt: int)
    requires |row| == |row'| == MMAP_SIZE && Rooted(idx, order) && target <= order
  {
    && OnlyUnder(row, row', idx)
    && match Alloc(TreeAt(row, idx, order), order, target)
       case NotFound => pt == -1 && row' == row
       case Found(t, slot) => TreeAt(row', idx, order) == t && 0 <= pt == FirstPage(idx, order) + slot * Pow2(target)
  }

  lemma SearchedHere(row: seq<Mark>, idx: nat, order: nat, target: nat, pt: int)
    requires |row| == MMAP_SIZE && Rooted(idx, order) && target <= order
    ensures idx < MMAP_SIZE
    ensures row[idx].unavail || (row[idx].split && order == target) ==> Searched(row, row, idx, order, target, -1)
    ensures !row[idx].unavail && !row[idx].split && order == target && pt == FirstPage(idx, order) ==>
      Searched(row, row[idx := row[idx].(unavail := true)], idx, order, target, pt)
  {
    RootedInArray(idx, order);
    RootMarkFrame(row, row[idx].(unavail := true), idx, order);
    FirstPageInRegion(idx, order);
  }

  lemma SearchedLeft(row: seq<Mark>, row1: seq<Mark>, idx: nat, order: nat, target: nat, pt: int)
    requires |row| == |row1| == MMAP_SIZE && Rooted(idx, order) && target < order
    requires Rooted(2 * idx + 1, order - 1) && Searched(row, row1, 2 * idx + 1, order - 1, target, pt) && pt != -1
    ensures idx < MMAP_SIZE && (!row[idx].unavail ==>
      Searched(row, row1[idx := row1[idx].(split := true)], idx, order, target, pt))
  {
    RootedChildren(idx, order);
    ChildFrames(row, row1, idx, order, false);
    RootMarkFrame(row1, row1[idx].(split := true), idx, order);
  }

  lemma SearchedRight(row: seq<Mark>, row1: seq<Mark>, row2: seq<Mark>, idx: nat, order: nat, target: nat, pt: int)
    requires |row| == |row1| == |row2| == MMAP_SIZE && Rooted(idx, order) && target < order
    requires Rooted(2 * idx + 1, order - 1) && Searched(row, row1, 2 * idx + 1, order - 1, target, -1)
    requires Rooted(2 * idx + 2, order - 1) && Searched(row1, row2, 2 * idx + 2, order - 1, target, pt)
    ensures idx < MMAP_SIZE && (!row[idx].unavail ==>
      if pt != -1 then Searched(row, row2[idx := row2[idx].(split := true)], idx, order, target, pt)
      else Searched(row, row2, idx, order, target, -1))
  {
    RootedChildren(idx, order);
    ChildFrames(row, row2, idx, order, true);
    RootMarkFrame(row2, row2[idx].(split := true), idx, order);
    var r := Alloc(TreeAt(row, 2 * idx + 2, order - 1), order - 1, target);
    if r.Found? {
      SlotHalves(order, target, r.slot);
    }
  }

  // ---------------------------------------------------------------------------------------------
  // The allocator
  // ---------------------------------------------------------------------------------------------

  /** A page directory entry, as far as the malloc regions use it. */
  datatype Pde = Pde(present: bool, ptBaseAddr: nat)

  const WORD := 0x1_0000_0000

  /** An int32 result of arithmetic that wraps around. */
  function Int32(n: int): (r: int)
    ensures -WORD / 2 <= r < WORD / 2
  {
    var m := n % WORD;
    if m < WORD / 2 then m else m - WORD
  }

  lemma Int32Shift(n: int, q: int)
    ensures Int32(n + q * WORD) == Int32(n)
  {
  }

  /** Wrapping after every multiplication is wrapping once at the end. */
  lemma Int32Mul(a: int, b: int)
    ensures Int32(Int32(a) * b) == Int32(a * b)
  {
    var q := (a - Int32(a)) / WORD;
    assert a == Int32(a) + q * WORD;
    MulDistributes(Int32(a), q * WORD, b);
    assert q * WORD * b == q * b * WORD;
    Int32Shift(Int32(a) * b, q * b);
  }

  /** pow of lib.c on 32-bit integers. An exponent below 0 leaves the base, as the counting loop does; otherwise the
      result is the power cut to 32 bits, and for powers of 2 up to 2^30 it is the power. */
  method Pow(base: int, exp: int) returns (ret: int)
    requires -WORD / 2 <= base < WORD / 2
    ensures exp < 0 ==> ret == base
    ensures exp >= 0 ==> ret == Int32(Power(base, exp))
    ensures base == 2 && 0 <= exp <= 30 ==> ret == Pow2(exp)
  {
    ret := base;
    if exp == 0 {
      return 1;
    }
    assert Power(base, 1) == Power(base, 0) * base == base;
    var i := 0;
    while i < exp - 1
      invariant 0 <= i && (i <= exp - 1 || exp < 0)
      invariant exp < 0 ==> ret == base
      invariant ret == Int32(Power(base, i + 1))
    {
      Int32Mul(Power(base, i + 1), base);
      ret := Int32(ret * base);
      i := i + 1;
    }
    if base == 2 && 0 <= exp <= 30 {
      SmallPower(exp);
    }
  }

  lemma SmallPower(exp: nat)
    requires exp <= 30
    ensures Int32(Power(2, exp)) == Pow2(exp)
  {
    PowerOfTwoIs(exp);
    Pow2Ten();
    Pow2Add(10, 10);
    Pow2Add(20, 10);
    Pow2Monotone(exp, 30);
  }

  /** The loop that picks the block order for a request. */
  method ChooseOrder(size: int) returns (order: nat)
    requires ValidSize(size)
    ensures order == OrderFor(size)
    ensures order <= MAX_ORDER
    ensures size < PAGE_SIZE * Pow2(order + 1)
    ensures size >= PAGE_SIZE ==> PAGE_SIZE * Pow2(order) <= size
    ensures size < PAGE_SIZE ==> order == 0
  {
    order := MAX_ORDER;
    var power := Pow(2, order);
    while PAGE_SIZE * power > size && order > 0
      invariant order <= MAX_ORDER && power == Pow2(order)
      invariant OrderFrom(size, order) == OrderFor(size)
    {
      order := order - 1;
      power := Pow(2, order);
    }
    OrderBrackets(size);
  }

  /** A region's directory entry is present exactly when something was allocated in it. */
  predicate EntriesAgree(h: Heap, entries: seq<Pde>)
    requires |h| == MALLOC_PD_SIZE && |entries| == NUM_PD
  {
    forall i :: 0 <= i < MALLOC_PD_SIZE ==>
      && entries[MALLOC_PD_START + i].ptBaseAddr == RegionBase(i)
      && (entries[MALLOC_PD_START + i].present <==> Touched(h[i]))
  }

  class MallocState {
    const metadata: array2<Mark>       // malloc_metadata
    const pageDirectory: array<Pde>    // page_directory

    ghost function Row(pd: nat): (row: seq<Mark>)
      requires pd < metadata.Length0 && metadata.Length1 == MMAP_SIZE
      reads metadata
      ensures |row| == MMAP_SIZE
    {
      seq(MMAP_SIZE, x requires 0 <= x < MMAP_SIZE reads metadata => metadata[pd, x])
    }

    ghost predicate Sized() {
      metadata.Length0 == MALLOC_PD_SIZE && metadata.Length1 == MMAP_SIZE && pageDirectory.Length == NUM_PD
    }

    ghost function Regions(): (h: Heap)
      requires Sized()
      reads metadata
      ensures |h| == MALLOC_PD_SIZE
      ensures forall i :: 0 <= i < MALLOC_PD_SIZE ==> h[i] == TreeAt(Row(i), 0, MAX_ORDER)
    {
      seq(MALLOC_PD_SIZE, i requires 0 <= i < MALLOC_PD_SIZE reads metadata => TreeAt(Row(i), 0, MAX_ORDER))
    }

    /** The heap invariant holds and the directory entries agree with the heap. */
    ghost predicate Valid()
      reads this, metadata, pageDirectory
    {
      Sized() && ValidHeap(Regions()) && EntriesAgree(Regions(), pageDirectory[..])
    }

    /** Boot: zeroed metadata, and the directory entries as paging_init leaves them. */
    constructor ()
      ensures Valid() && Regions() == BlankHeap()
      ensures fresh(metadata) && fresh(pageDirectory)
      ensures forall d :: 40 <= d < 50 ==> pageDirectory[d] == Pde(false, 0)
    {
      metadata := new Mark[MALLOC_PD_SIZE, MMAP_SIZE]((_, _) => Mark(false, false));
      pageDirectory := new Pde[NUM_PD](i =>
        if MALLOC_PD_START <= i < MALLOC_PD_START + MALLOC_PD_SIZE then Pde(false, RegionBase(i - MALLOC_PD_START))
        else Pde(false, 0));
      new;
      forall i | 0 <= i < MALLOC_PD_SIZE
        ensures Regions()[i] == Blank(MAX_ORDER)
      {
        ZeroRowIsBlank(Row(i), 0, MAX_ORDER);
      }
    }

    method SetMark(pd: nat, idx: nat, mark: Mark)
      requires Sized() && pd < MALLOC_PD_SIZE && idx < MMAP_SIZE
      modifies metadata
      ensures Row(pd) == old(Row(pd))[idx := mark]
      ensures forall d :: 0 <= d < MALLOC_PD_SIZE && d != pd ==> Row(d) == old(Row(d))
    {
      metadata[pd, idx] := mark;
    }

    /** malloc_tree: search the tree below treeIdx and mark a block, or change nothing and answer -1. */
    method MallocTree(treeIdx: nat, currOrder: nat, targetOrder: nat, pd: nat) returns (pt: int)
      requires Sized() && pd < MALLOC_PD_SIZE
      requires Rooted(treeIdx, currOrder) && targetOrder <= currOrder
      modifies metadata
      ensures forall d :: 0 <= d < MALLOC_PD_SIZE && d != pd ==> Row(d) == old(Row(d))
      ensures Searched(old(Row(pd)), Row(pd), treeIdx, currOrder, targetOrder, pt)
      decreases currOrder
    {
      ghost var row := Row(pd);
      SearchedHere(row, treeIdx, currOrder, targetOrder, FirstPage(treeIdx, currOrder));
      if metadata[pd, treeIdx].unavail || (metadata[pd, treeIdx].split && currOrder == targetOrder) {
        return -1;
      } else if currOrder == targetOrder {
        SetMark(pd, treeIdx, metadata[pd, treeIdx].(unavail := true));
        var idx: nat, order: nat := treeIdx, currOrder;
        while order > 0
          modifies {}
          invariant Rooted(idx, order) && FirstPage(idx, order) == FirstPage(treeIdx, currOrder)
        {
          RootedChildren(idx, order);
          idx := 2 * idx + 1;
          order := order - 1;
        }
        return idx - (MMAP_SIZE - NUM_PT);
      } else {
        RootedChildren(treeIdx, currOrder);
        var left := MallocTree(2 * treeIdx + 1, currOrder - 1, targetOrder, pd);
        ghost var row1 := Row(pd);
        if left != -1 {
          SearchedLeft(row, row1, treeIdx, currOrder, targetOrder, left);
          SetMark(pd, treeIdx, metadata[pd, treeIdx].(split := true));
          return left;
        }
        var right := MallocTree(2 * treeIdx + 2, currOrder - 1, targetOrder, pd);
        SearchedRight(row, row1, Row(pd), treeIdx, currOrder, targetOrder, right);
        if right != -1 {
          SetMark(pd, treeIdx, metadata[pd, treeIdx].(split := true));
          return right;
        }
        return -1;
      }
    }

    /** malloc_tree from the root of one region. */
    method SearchRegion(region: nat, order: nat) returns (pt: int)
      requires Sized() && region < MALLOC_PD_SIZE && order <= MAX_ORDER
      modifies metadata
      ensures var r := Alloc(old(Regions())[region], MAX_ORDER, order);
        && (r.NotFound? ==> pt == -1 && Regions() == old(Regions()))
        && (r.Found? ==> pt == r.slot * Pow2(order) >= 0 && Regions() == old(Regions())[region := r.tree])
    {
      RootFirstPage();
      pt := MallocTree(0, MAX_ORDER, order, region);
    }

    /** The directory entry of a region that now holds a block. */
    method SetPresent(region: nat, ghost h: Heap, ghost tree: Tree)
      requires Sized() && region < MALLOC_PD_SIZE && |h| == MALLOC_PD_SIZE && EntriesAgree(h, pageDirectory[..])
      requires Touched(tree)
      modifies pageDirectory
      ensures forall d :: 0 <= d < NUM_PD && d != MALLOC_PD_START + region ==> pageDirectory[d] == old(pageDirectory[d])
      ensures EntriesAgree(h[region := tree], pageDirectory[..])
    {
      var pd := MALLOC_PD_START + region;
      pageDirectory[pd] := pageDirectory[pd].(present := true);
    }

    /** One round of syscall_malloc's loop: a block of this region, or 0 and nothing changed. */
    method TryRegion(i: nat, targetOrder: nat) returns (address: nat)
      requires Valid() && i < MALLOC_PD_SIZE && targetOrder <= MAX_ORDER
      modifies metadata, pageDirectory
      ensures Valid()
      ensures var r := Alloc(old(Regions())[i], MAX_ORDER, targetOrder);
        && (r.NotFound? ==> address == 0 && Regions() == old(Regions()) && pageDirectory[..] == old(pageDirectory[..]))
        && (r.Found? ==>
            address == Address(Block(i, targetOrder, r.slot)) > 0 && Regions() == old(Regions())[i := r.tree])
      ensures forall d :: 0 <= d < NUM_PD && !(MALLOC_PD_START <= d < MALLOC_PD_START + MALLOC_PD_SIZE) ==>
        pageDirectory[d] == old(pageDirectory[d])
    {
      ghost var h := Regions();
      var currPd := MALLOC_PD_START + i;
      RegionPlaces(h, i, targetOrder);
      var currPt := SearchRegion(i, targetOrder);
      if currPt == -1 {
        return 0;
      }
      SetPresent(i, h, Regions()[i]);
      return currPd * BIG_PAGE_SIZE + currPt * PAGE_SIZE;
    }

    /** The loop of syscall_malloc over the regions. */
    method PlaceBlock(size: int, targetOrder: nat) returns (address: nat)
      requires Valid() && ValidSize(size) && targetOrder == OrderFor(size) <= MAX_ORDER
      modifies metadata, pageDirectory
      ensures Valid()
      ensures match Allocate(old(Regions()), size)
        case NoRoom => address == 0 && Regions() == old(Regions()) && pageDirectory[..] == old(pageDirectory[..])
        case Placed(h, b) => address == Address(b) > 0 && Regions() == h
      ensures forall d :: 0 <= d < NUM_PD && !(MALLOC_PD_START <= d < MALLOC_PD_START + MALLOC_PD_SIZE) ==>
        pageDirectory[d] == old(pageDirectory[d])
    {
      for i := 0 to MALLOC_PD_SIZE
        invariant Regions() == old(Regions()) && Valid() && pageDirectory[..] == old(pageDirectory[..])
        invariant FirstFit(Regions(), i, targetOrder) == Allocate(Regions(), size)
      {
        address := TryRegion(i, targetOrder);
        if address != 0 {
          return;
        }
      }
      return 0;
    }

    /** syscall_malloc: 0 (NULL), or the address of the lowest free aligned run of the order of the request, which is
        occupied from then on. A region's directory entry is present exactly when one of its pages is occupied. */
    method SyscallMalloc(size: int) returns (address: nat)
      requires Valid()
      modifies metadata, pageDirectory
      ensures Valid()
      ensures size <= 0 || size > 4194304 ==>
        address == 0 && Regions() == old(Regions()) && pageDirectory[..] == old(pageDirectory[..])
      ensures 0 < size <= 4194304 ==>
        forall k: nat :: RoundsDownTo(size, k) ==> Serves(old(Regions()), Regions(), k, address)
      ensures address == 0 ==> pageDirectory[..] == old(pageDirectory[..])
      ensures forall r: nat :: r < 10 ==>
        (pageDirectory[..][40 + r].present <==> SomeOccupied(Regions()[r], 10))
      ensures forall d :: 0 <= d < 1024 && !(40 <= d < 50) ==> pageDirectory[d] == old(pageDirectory[d])
      ensures address == AnswerAddress(old(Regions()), size) && Regions() == AnswerHeap(old(Regions()), size)
    {
      ghost var h := Regions();
      AllocateAnswers(h, size);
      if size <= 0 || size > BIG_PAGE_SIZE {
        address := 0;
      } else {
        var targetOrder := ChooseOrder(size);
        address := PlaceBlock(size, targetOrder);
      }
      PresentExactly(Regions(), pageDirectory[..]);
    }
  }

  lemma PresentExactly(h: Heap, entries: seq<Pde>)
    requires ValidHeap(h) && |entries| == NUM_PD && EntriesAgree(h, entries)
    ensures forall r: nat :: r < 10 ==> (entries[40 + r].present <==> SomeOccupied(h[r], 10))
  {
    forall r: nat | r < 10
      ensures entries[40 + r].present <==> SomeOccupied(h[r], 10)
    {
      assert entries[MALLOC_PD_START + r].present <==> Touched(h[r]);
      TouchedExactly(h[r], 10);
    }
  }
}
