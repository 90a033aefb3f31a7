/** The progress of GscObfuscator::CreateTrampolines over the free list. */
module SlotPass {
  import opened Bytes
  import opened Results
  import opened GscFormat
  import opened Grouping
  import Trampolines
  import Jumps

  ghost predicate SlotsFree(size: nat, table: nat, count: nat, free: seq<nat>) {
    && (forall i :: 0 <= i < |free| ==>
         && HEADER_SIZE <= free[i] && free[i] + 4 <= size
         && (free[i] + 4 <= table || table + EXPORT_SIZE * count <= free[i]) && free[i] % 4 == 0)
    && forall i, j :: 0 <= i < j < |free| ==> free[i] + 4 <= free[j] || free[j] + 4 <= free[i]
  }

  lemma SlotPositive(size: nat, table: nat, count: nat, free: seq<nat>, i: nat)
    requires SlotsFree(size, table, count, free) && i < |free|
    ensures 0 < free[i] && free[i] + 4 <= size
  {
  }

  lemma SlotsFreeWithout(size: nat, table: nat, count: nat, free: seq<nat>, i: nat)
    requires SlotsFree(size, table, count, free) && i < |free|
    ensures SlotsFree(size, table, count, Trampolines.Without(free, i))
    ensures 0 < free[i] && free[i] + 4 <= size
  {
  }

  lemma SortedSlotsFree(size: nat, table: nat, count: nat, free: seq<nat>)
    requires SlotsFree(size, table, count, free)
    ensures SlotsFree(size, table, count, Trampolines.Sorted(free))
  {
    var r := Trampolines.Sorted(free);
    Trampolines.SortedIsPermutation(free);
    PermutationNoRepeat(free, r);
    forall i | 0 <= i < |r|
      ensures r[i] in free
    {
      assert r[i] in r;
    }
  }

  lemma SlotsFreeAllocation(size: nat, table: nat, free: seq<nat>, dests: seq<nat>)
    requires HEADER_SIZE <= table && table + EXPORT_SIZE * |dests| <= size && SlotsFree(size, table, |dests|, free)
    ensures var a := Trampolines.Allocate(free, dests);
      Jumps.SlotsClear(size, table, |dests|, a.slots) && AllocatedUpTo(a, free, dests, 0)
  {
    Jumps.AllocationIsClear(size, table, free, dests);
    var a := Trampolines.Allocate(free, dests);
    assert a.slots[0..] == a.slots && dests[0..] == dests;
  }

  // ----- What became of the freed slots

  /** The slots of a run: the junk slot, the others freed, those given to exports, those
      left, and whether trampolines are made at all. */
  datatype SlotUse = SlotUse(junk: nat, freed: seq<nat>, given: seq<Option<nat>>, left: seq<nat>, on: bool)

  /** Trampolines off, no slot is given. On, every freed slot is given or left, each
      export's slot reaches it, an export goes without only when no slot left reaches it,
      and for exports in address order no other choice would serve more. */
  ghost predicate SlotsShared(dests: seq<nat>, g: SlotUse) {
    && |g.given| == |dests|
    && if g.on then
         && multiset(Trampolines.Used(g.given)) + multiset(g.left) == multiset(g.freed)
         && Trampolines.Matching(g.given, g.freed, dests)
         && (forall i, f :: 0 <= i < |dests| && g.given[i].None? && f in g.left ==> !Trampolines.InReach(dests[i], f))
         && (Trampolines.OrderedUpToReach(Trampolines.RoundedAll(dests)) ==>
              forall m :: Trampolines.Matching(m, g.freed, dests) ==> Trampolines.Count(m) <= Trampolines.Count(g.given))
       else g.left == g.freed && forall i :: 0 <= i < |g.given| ==> g.given[i].None?
  }

  lemma AllocationShares(size: nat, table: nat, count: nat, free: seq<nat>, dests: seq<nat>, junk: nat)
    requires SlotsFree(size, table, count, free)
    ensures var a := Trampolines.Allocate(Trampolines.Sorted(free), dests);
      SlotsShared(dests, SlotUse(junk, free, a.slots, a.left, true))
  {
    hide Trampolines.Allocate, Trampolines.Sorted, Trampolines.InReach, Trampolines.OrderedUpToReach, Trampolines.RoundedAll,
         Trampolines.Matching, Trampolines.Used;
    var r := Trampolines.Sorted(free);
    var a := Trampolines.Allocate(r, dests);
    Trampolines.SortedIsPermutation(free);
    Trampolines.SlotsConserved(r, dests);
    FreeMatching(size, table, count, free, dests);
    forall i, f | 0 <= i < |dests| && a.slots[i].None? && f in a.left
      ensures !Trampolines.InReach(dests[i], f)
    {
      Trampolines.NoReachableSlotLeft(r, dests, i, f);
    }
    forall m | Trampolines.Matching(m, free, dests) && Trampolines.OrderedUpToReach(Trampolines.RoundedAll(dests))
      ensures Trampolines.Count(m) <= Trampolines.Count(a.slots)
    {
      Trampolines.AlignedGreedyIsOptimal(free, dests, m);
    }
  }

  lemma FreeMatching(size: nat, table: nat, count: nat, free: seq<nat>, dests: seq<nat>)
    requires SlotsFree(size, table, count, free)
    ensures Trampolines.Distinct(free) && Trampolines.Aligned(free)
    ensures Trampolines.Matching(Trampolines.Allocate(Trampolines.Sorted(free), dests).slots, free, dests)
  {
    hide Trampolines.Allocate, Trampolines.Sorted, Trampolines.InReach;
    var r := Trampolines.Sorted(free);
    Trampolines.SortedIsPermutation(free);
    PermutationNoRepeat(free, r);
    Trampolines.AllocationIsMatching(r, dests);
    forall f | f in r
      ensures f in free
    {
      assert f in multiset(r);
    }
  }

  /** The rest of an allocation is the allocation of the rest. */
  ghost predicate AllocatedUpTo(a: Trampolines.Allocation, free: seq<nat>, dests: seq<nat>, i: nat) {
    && |a.slots| == |dests| && i <= |dests|
    && Trampolines.Allocate(free, dests[i..]) == Trampolines.Allocation(a.slots[i..], a.left)
  }

  lemma AllocateNext(a: Trampolines.Allocation, free: seq<nat>, dests: seq<nat>, i: nat)
    requires AllocatedUpTo(a, free, dests, i) && i < |dests|
    ensures var k := Trampolines.FirstInReach(free, dests[i]);
      && a.slots[i] == (if k == |free| then None else Some(free[k]))
      && AllocatedUpTo(a, if k == |free| then free else Trampolines.Without(free, k), dests, i + 1)
  {
    assert dests[i..][0] == dests[i] && dests[i..][1..] == dests[i + 1..];
    assert a.slots[i..][0] == a.slots[i] && a.slots[i..][1..] == a.slots[i + 1..];
  }

  lemma AllocationDone(a: Trampolines.Allocation, free: seq<nat>, dests: seq<nat>)
    requires AllocatedUpTo(a, free, dests, |dests|)
    ensures a.left == free
  {
  }

  lemma FirstIs(free: seq<nat>, dest: nat, i: nat)
    requires i <= |free| && forall j :: 0 <= j < i ==> !Trampolines.InReach(dest, free[j])
    requires i < |free| ==> Trampolines.InReach(dest, free[i])
    ensures Trampolines.FirstInReach(free, dest) == i
  {
  }
}
