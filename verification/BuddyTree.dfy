/** The buddy tree of one 4 MB region as a value: what the search and marking of
    malloc_tree does to it, and what that means for the pages of the region.

    A tree of order n covers 2^n pages, numbered from 0. */
module BuddyTree {
  import opened Arithmetic

  /** malloc_map_t */
  datatype Mark = Mark(unavail: bool, split: bool)

  datatype Tree =
    | Leaf(mark: Mark)
    | Node(mark: Mark, left: Tree, right: Tree)

  predicate Shape(t: Tree, order: nat) {
    match t
    case Leaf(_) => order == 0
    case Node(_, l, r) => order > 0 && Shape(l, order - 1) && Shape(r, order - 1)
  }

  function Blank(order: nat): (t: Tree)
    ensures Shape(t, order) && Inv(t) && !Touched(t)
  {
    if order == 0 then Leaf(Mark(false, false))
    else Node(Mark(false, false), Blank(order - 1), Blank(order - 1))
  }

  predicate Touched(t: Tree) {
    t.mark.unavail || t.mark.split
  }

  /** The kept invariant, node by node. InvIsAntichain says what it means for the tree as a whole. */
  predicate Inv(t: Tree) {
    && !(t.mark.unavail && t.mark.split)
    && match t
       case Leaf(m) => !m.split
       case Node(m, l, r) => Inv(l) && Inv(r) && (m.split <==> Touched(l) || Touched(r))
  }

  // ---------------------------------------------------------------------------------------------
  // The invariant, globally: nodes are named by the path that leads to them (false is left)
  // ---------------------------------------------------------------------------------------------

  predicate IsPath(t: Tree, path: seq<bool>) {
    path == [] || (t.Node? && IsPath(if path[0] then t.right else t.left, path[1..]))
  }

  function Subtree(t: Tree, path: seq<bool>): Tree
    requires IsPath(t, path)
  {
    if path == [] then t else Subtree(if path[0] then t.right else t.left, path[1..])
  }

  ghost predicate UnavailBelow(t: Tree) {
    exists path :: path != [] && IsPath(t, path) && Subtree(t, path).mark.unavail
  }

  ghost predicate WellMarked(t: Tree) {
    && (t.mark.unavail ==> !UnavailBelow(t))
    && (t.mark.split <==> UnavailBelow(t))
  }

  /** Unavailable nodes form an antichain, and a node is split exactly when a proper descendant is unavailable. */
  ghost predicate Antichain(t: Tree) {
    forall path | IsPath(t, path) :: WellMarked(Subtree(t, path))
  }

  lemma StepDown(t: Tree, right: bool)
    requires t.Node?
    ensures IsPath(t, [right]) && Subtree(t, [right]) == if right then t.right else t.left
  {
    var child := if right then t.right else t.left;
    assert IsPath(child, []) && Subtree(child, []) == child;
    assert [right][1..] == [];
  }

  lemma UnavailBelowNode(t: Tree)
    ensures t.Leaf? ==> !UnavailBelow(t)
    ensures t.Node? ==> (UnavailBelow(t) <==>
      t.left.mark.unavail || t.right.mark.unavail || UnavailBelow(t.left) || UnavailBelow(t.right))
  {
    if t.Node? {
      StepDown(t, false);
      StepDown(t, true);
      forall path | path != [] && IsPath(t.left, path) && Subtree(t.left, path).mark.unavail
        ensures UnavailBelow(t)
      {
        assert ([false] + path)[1..] == path;
        assert IsPath(t, [false] + path) && Subtree(t, [false] + path).mark.unavail;
      }
      forall path | path != [] && IsPath(t.right, path) && Subtree(t.right, path).mark.unavail
        ensures UnavailBelow(t)
      {
        assert ([true] + path)[1..] == path;
        assert IsPath(t, [true] + path) && Subtree(t, [true] + path).mark.unavail;
      }
      forall path | path != [] && IsPath(t, path) && Subtree(t, path).mark.unavail
        ensures t.left.mark.unavail || t.right.mark.unavail || UnavailBelow(t.left) || UnavailBelow(t.right)
      {
        var child := if path[0] then t.right else t.left;
        assert IsPath(child, path[1..]) && Subtree(child, path[1..]).mark.unavail;
      }
    }
  }

  lemma AntichainNode(t: Tree)
    ensures Antichain(t) <==> WellMarked(t) && (t.Node? ==> Antichain(t.left) && Antichain(t.right))
  {
    assert IsPath(t, []) && Subtree(t, []) == t;
    if t.Node? {
      forall path
        ensures IsPath(t.left, path) ==>
          IsPath(t, [false] + path) && Subtree(t, [false] + path) == Subtree(t.left, path)
        ensures IsPath(t.right, path) ==>
          IsPath(t, [true] + path) && Subtree(t, [true] + path) == Subtree(t.right, path)
      {
        assert ([false] + path)[1..] == path && ([true] + path)[1..] == path;
      }
      if Antichain(t) {
        forall path | IsPath(t.left, path) ensures WellMarked(Subtree(t.left, path)) {
          assert WellMarked(Subtree(t, [false] + path));
        }
        forall path | IsPath(t.right, path) ensures WellMarked(Subtree(t.right, path)) {
          assert WellMarked(Subtree(t, [true] + path));
        }
      } else if WellMarked(t) && Antichain(t.left) && Antichain(t.right) {
        forall path | IsPath(t, path) ensures WellMarked(Subtree(t, path)) {
          assert path != [] ==> IsPath(if path[0] then t.right else t.left, path[1..]);
        }
      }
    }
  }

  lemma {:induction false} InvIsAntichain(t: Tree)
    ensures Inv(t) <==> Antichain(t)
    ensures Inv(t) ==> (t.mark.split <==> UnavailBelow(t))
  {
    AntichainNode(t);
    UnavailBelowNode(t);
    if t.Node? {
      InvIsAntichain(t.left);
      InvIsAntichain(t.right);
    }
  }

  // ---------------------------------------------------------------------------------------------
  // Pages
  // ---------------------------------------------------------------------------------------------

  /** Page p of the region is inside an allocated block. */
  predicate Occupied(t: Tree, order: nat, p: int)
    requires Shape(t, order)
  {
    && 0 <= p < Pow2(order)
    && (t.mark.unavail
        || (t.Node? && (Occupied(t.left, order - 1, p) || Occupied(t.right, order - 1, p - Pow2(order - 1)))))
  }

  predicate InRun(target: nat, slot: nat, p: int) {
    slot * Pow2(target) <= p < (slot + 1) * Pow2(target)
  }

  /** The slot-th aligned run of 2^target pages lies in the region and is wholly free. */
  ghost predicate RunFree(t: Tree, order: nat, target: nat, slot: nat)
    requires Shape(t, order) && target <= order
  {
    && slot < Pow2(order - target)
    && forall p :: InRun(target, slot, p) ==> !Occupied(t, order, p)
  }

  lemma {:induction false} UntouchedIsFree(t: Tree, order: nat, p: int)
    requires Shape(t, order) && Inv(t) && !Touched(t)
    ensures !Occupied(t, order, p)
  {
    if t.Node? {
      UntouchedIsFree(t.left, order - 1, p);
      UntouchedIsFree(t.right, order - 1, p - Pow2(order - 1));
    }
  }

  lemma {:induction false} TouchedIsOccupied(t: Tree, order: nat) returns (p: nat)
    requires Shape(t, order) && Inv(t) && Touched(t)
    ensures Occupied(t, order, p)
  {
    if t.mark.unavail {
      p := 0;
    } else if Touched(t.left) {
      p := TouchedIsOccupied(t.left, order - 1);
    } else {
      p := TouchedIsOccupied(t.right, order - 1);
      p := p + Pow2(order - 1);
    }
  }

  /** Some page of the region is inside an allocated block. */
  ghost predicate SomeOccupied(t: Tree, order: nat)
    requires Shape(t, order)
  {
    exists p :: Occupied(t, order, p)
  }

  /** The root is marked in one way or the other exactly when some page is occupied. */
  lemma TouchedExactly(t: Tree, order: nat)
    requires Shape(t, order) && Inv(t)
    ensures Touched(t) <==> SomeOccupied(t, order)
  {
    if Touched(t) {
      var p := TouchedIsOccupied(t, order);
    } else {
      forall p
        ensures !Occupied(t, order, p)
      {
        UntouchedIsFree(t, order, p);
      }
    }
  }

  /** Where a run of a tree falls in the two halves. */
  lemma SlotHalves(order: nat, target: nat, slot: nat)
    requires target < order
    ensures var half := Pow2(order - 1 - target);
      && Pow2(order - target) == 2 * half
      && half * Pow2(target) == Pow2(order - 1)
      && (slot + half) * Pow2(target) == slot * Pow2(target) + Pow2(order - 1)
      && (slot + half + 1) * Pow2(target) == (slot + 1) * Pow2(target) + Pow2(order - 1)
      && (slot < half ==> (slot + 1) * Pow2(target) <= Pow2(order - 1))
  {
    var half := Pow2(order - 1 - target);
    Pow2Add(order - 1 - target, target);
    MulDistributes(slot, half, Pow2(target));
    MulDistributes(slot + 1, half, Pow2(target));
    if slot < half {
      MulMonotone(slot + 1, half, Pow2(target));
    }
  }

  /** Every slot lies inside the region. */
  lemma SlotInRegion(order: nat, target: nat, slot: nat)
    requires target <= order && slot < Pow2(order - target)
    ensures 0 <= slot * Pow2(target) && slot * Pow2(target) + Pow2(target) == (slot + 1) * Pow2(target) <= Pow2(order)
  {
    Pow2Add(order - target, target);
    MulMonotone(slot + 1, Pow2(order - target), Pow2(target));
    MulMonotone(0, slot, Pow2(target));
    MulDistributes(slot, 1, Pow2(target));
  }

  lemma RunFreeLeft(t: Tree, order: nat, target: nat, slot: nat)
    requires Shape(t, order) && t.Node? && target < order && !t.mark.unavail
    requires slot < Pow2(order - 1 - target)
    ensures RunFree(t, order, target, slot) <==> RunFree(t.left, order - 1, target, slot)
  {
    SlotHalves(order, target, slot);
    forall p | InRun(target, slot, p)
      ensures Occupied(t, order, p) <==> Occupied(t.left, order - 1, p)
    {
    }
  }

  lemma RunFreeRight(t: Tree, order: nat, target: nat, slot: nat)
    requires Shape(t, order) && t.Node? && target < order && !t.mark.unavail
    requires slot < Pow2(order - 1 - target)
    ensures RunFree(t, order, target, slot + Pow2(order - 1 - target)) <==> RunFree(t.right, order - 1, target, slot)
  {
    var half := Pow2(order - 1 - target);
    SlotHalves(order, target, slot);
    forall p | InRun(target, slot + half, p)
      ensures InRun(target, slot, p - Pow2(order - 1))
      ensures Occupied(t, order, p) <==> Occupied(t.right, order - 1, p - Pow2(order - 1))
    {
    }
    if RunFree(t, order, target, slot + half) {
      forall p | InRun(target, slot, p)
        ensures !Occupied(t.right, order - 1, p)
      {
        assert InRun(target, slot + half, p + Pow2(order - 1));
      }
    }
  }

  // ---------------------------------------------------------------------------------------------
  // Allocation
  // ---------------------------------------------------------------------------------------------

  datatype Found = NotFound | Found(tree: Tree, slot: nat)

  /** What malloc_tree does to the tree under a node: the marked tree and the slot handed out. */
  function Alloc(t: Tree, order: nat, target: nat): Found
    requires Shape(t, order) && target <= order
  {
    if t.mark.unavail || (t.mark.split && order == target) then
      NotFound
    else if order == target then
      Found(t.(mark := t.mark.(unavail := true)), 0)
    else
      match Alloc(t.left, order - 1, target)
      case Found(l, q) => Found(t.(mark := t.mark.(split := true), left := l), q)
      case NotFound =>
        match Alloc(t.right, order - 1, target)
        case Found(r, q) => Found(t.(mark := t.mark.(split := true), right := r), q + Pow2(order - 1 - target))
        case NotFound => NotFound
  }

  ghost predicate MarkedRun(t: Tree, t': Tree, order: nat, target: nat, slot: nat)
    requires Shape(t, order) && Shape(t', order)
  {
    forall p :: Occupied(t', order, p) <==> Occupied(t, order, p) || InRun(target, slot, p)
  }

  /** The invariant is kept by every successful search. */
  lemma {:induction false} AllocKeepsInv(t: Tree, order: nat, target: nat)
    requires Shape(t, order) && Inv(t) && target <= order
    ensures var r := Alloc(t, order, target);
      r.Found? ==> Shape(r.tree, order) && Inv(r.tree) && Touched(r.tree) && r.slot < Pow2(order - target)
  {
    if t.mark.unavail || order == target {
    } else {
      AllocKeepsInv(t.left, order - 1, target);
      AllocKeepsInv(t.right, order - 1, target);
      SlotHalves(order, target, 0);
    }
  }

  /** Completeness: the search fails exactly when no aligned run of that order is free. */
  lemma {:induction false} AllocComplete(t: Tree, order: nat, target: nat)
    requires Shape(t, order) && Inv(t) && target <= order
    ensures Alloc(t, order, target).NotFound? <==> forall slot :: !RunFree(t, order, target, slot)
  {
    if t.mark.unavail {
      forall slot
        ensures !RunFree(t, order, target, slot)
      {
        NoFreeRunWhenUnavail(t, order, target, slot);
      }
    } else if order == target {
      RootRun(t, order);
    } else {
      var below := order - 1;
      AllocComplete(t.left, below, target);
      AllocComplete(t.right, below, target);
      var half := Pow2(below - target);
      SlotHalves(order, target, 0);
      forall slot
        ensures RunFree(t, order, target, slot) <==>
          if slot < half then RunFree(t.left, below, target, slot) else RunFree(t.right, below, target, slot - half)
      {
        if slot < half {
          RunFreeLeft(t, order, target, slot);
        } else if slot < 2 * half {
          RunFreeRight(t, order, target, slot - half);
        }
      }
      if left: nat :| RunFree(t.left, below, target, left) {
        assert RunFree(t, order, target, left);
      }
      if right: nat :| RunFree(t.right, below, target, right) {
        assert RunFree(t, order, target, right + half);
      }
    }
  }

  lemma NoFreeRunWhenUnavail(t: Tree, order: nat, target: nat, slot: nat)
    requires Shape(t, order) && target <= order && t.mark.unavail
    ensures !RunFree(t, order, target, slot)
  {
    if slot < Pow2(order - target) {
      SlotInRegion(order, target, slot);
      assert InRun(target, slot, slot * Pow2(target)) && Occupied(t, order, slot * Pow2(target));
    }
  }

  /** At the order of the tree itself there is one run, and it is free exactly when the root is untouched. */
  lemma RootRun(t: Tree, order: nat)
    requires Shape(t, order) && Inv(t)
    ensures RunFree(t, order, order, 0) <==> !Touched(t)
    ensures forall slot :: RunFree(t, order, order, slot) ==> slot == 0
  {
    if Touched(t) {
      var p := TouchedIsOccupied(t, order);
      assert InRun(order, 0, p);
    } else {
      forall p
        ensures !Occupied(t, order, p)
      {
        UntouchedIsFree(t, order, p);
      }
    }
  }

  /** Placement: a successful search hands out the lowest free run. */
  lemma {:induction false} AllocLowest(t: Tree, order: nat, target: nat)
    requires Shape(t, order) && Inv(t) && target <= order && Alloc(t, order, target).Found?
    ensures var slot := Alloc(t, order, target).slot;
      && RunFree(t, order, target, slot)
      && forall earlier: nat :: earlier < slot ==> !RunFree(t, order, target, earlier)
  {
    if order == target {
      RootRun(t, order);
    } else {
      var half := Pow2(order - 1 - target);
      AllocKeepsInv(t.left, order - 1, target);
      AllocKeepsInv(t.right, order - 1, target);
      var left := Alloc(t.left, order - 1, target);
      if left.Found? {
        AllocLowest(t.left, order - 1, target);
        RunFreeLeft(t, order, target, left.slot);
        forall earlier: nat | earlier < left.slot
          ensures !RunFree(t, order, target, earlier)
        {
          RunFreeLeft(t, order, target, earlier);
        }
      } else {
        var right := Alloc(t.right, order - 1, target);
        AllocComplete(t.left, order - 1, target);
        AllocLowest(t.right, order - 1, target);
        RunFreeRight(t, order, target, right.slot);
        forall earlier: nat | earlier < right.slot + half
          ensures !RunFree(t, order, target, earlier)
        {
          if earlier < half {
            RunFreeLeft(t, order, target, earlier);
          } else {
            RunFreeRight(t, order, target, earlier - half);
          }
        }
      }
    }
  }

  /** Marking: exactly the pages of the run that is handed out become occupied. */
  lemma {:induction false} AllocMarksRun(t: Tree, order: nat, target: nat)
    requires Shape(t, order) && Inv(t) && target <= order && Alloc(t, order, target).Found?
    ensures var r := Alloc(t, order, target);
      Shape(r.tree, order) && MarkedRun(t, r.tree, order, target, r.slot)
  {
    AllocKeepsInv(t, order, target);
    var r := Alloc(t, order, target);
    if order == target {
      forall p
        ensures Occupied(r.tree, order, p) <==> Occupied(t, order, p) || InRun(target, 0, p)
      {
      }
    } else {
      AllocKeepsInv(t.left, order - 1, target);
      var left := Alloc(t.left, order - 1, target);
      if left.Found? {
        AllocMarksRun(t.left, order - 1, target);
        SlotHalves(order, target, left.slot);
      } else {
        var right := Alloc(t.right, order - 1, target);
        AllocKeepsInv(t.right, order - 1, target);
        AllocMarksRun(t.right, order - 1, target);
        SlotHalves(order, target, right.slot);
        forall p
          ensures InRun(target, r.slot, p) <==> InRun(target, right.slot, p - Pow2(order - 1))
        {
        }
        forall p
          ensures Occupied(r.tree, order, p) <==> Occupied(t, order, p) || InRun(target, r.slot, p)
        {
          assert InRun(target, right.slot, p - Pow2(order - 1)) ==> 0 <= p - Pow2(order - 1) < Pow2(order - 1);
        }
      }
    }
  }

  // ---------------------------------------------------------------------------------------------
  // Page accounting
  // ---------------------------------------------------------------------------------------------

  /** Number of occupied pages among the first n. */
  function Tally(t: Tree, order: nat, n: nat): (count: nat)
    requires Shape(t, order)
    ensures count <= n
  {
    if n == 0 then 0 else Tally(t, order, n - 1) + (if Occupied(t, order, n - 1) then 1 else 0)
  }

  /** Occupying size free pages from page lo on adds those pages to the tally and nothing else. */
  lemma {:induction false} TallyMarked(t: Tree, t': Tree, order: nat, lo: nat, size: nat, n: nat)
    requires Shape(t, order) && Shape(t', order)
    requires forall p :: lo <= p < lo + size ==> !Occupied(t, order, p)
    requires forall p :: Occupied(t', order, p) <==> Occupied(t, order, p) || lo <= p < lo + size
    ensures Tally(t', order, n) == Tally(t, order, n) + (if n <= lo then 0 else if n <= lo + size then n - lo else size)
  {
    if n > 0 {
      TallyMarked(t, t', order, lo, size, n - 1);
    }
  }

  /** A successful search uses up 2^target of the region's free pages. */
  lemma AllocConserves(t: Tree, order: nat, target: nat)
    requires Shape(t, order) && Inv(t) && target <= order && Alloc(t, order, target).Found?
    ensures var t' := Alloc(t, order, target).tree;
      Shape(t', order) && Tally(t', order, Pow2(order)) == Tally(t, order, Pow2(order)) + Pow2(target)
  {
    var r := Alloc(t, order, target);
    AllocKeepsInv(t, order, target);
    AllocLowest(t, order, target);
    AllocMarksRun(t, order, target);
    SlotInRegion(order, target, r.slot);
    var lo := r.slot * Pow2(target);
    forall p
      ensures InRun(target, r.slot, p) <==> lo <= p < lo + Pow2(target)
    {
    }
    TallyMarked(t, r.tree, order, lo, Pow2(target), Pow2(order));
  }
}
