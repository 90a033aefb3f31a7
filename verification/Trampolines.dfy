/** Which free slot each export takes (GscObfuscator::CreateTrampolines), what
    that choice guarantees, and what the written jumps mean. */
module Trampolines {
  import opened Bytes
  import opened Results

  /** A jump starts at the end of its four bytes and carries a signed 16-bit delta. */
  predicate InReach(dest: nat, slot: nat) {
    -0x8000 <= dest - (slot + 4) <= 0x7fff
  }

  /** The index of the first slot in reach, or the number of slots. */
  function FirstInReach(free: seq<nat>, dest: nat): (i: nat)
    ensures i <= |free|
    ensures i < |free| ==> InReach(dest, free[i])
    ensures forall j :: 0 <= j < i ==> !InReach(dest, free[j])
  {
    if free == [] || InReach(dest, free[0]) then 0 else 1 + FirstInReach(free[1..], dest)
  }

  function Without<T>(s: seq<T>, i: nat): (r: seq<T>)
    requires i < |s|
    ensures |r| == |s| - 1
  {
    s[..i] + s[i + 1..]
  }

  datatype Allocation = Allocation(slots: seq<Option<nat>>, left: seq<nat>)

  /** The allocation in export order: each export takes the first slot in reach. */
  function Allocate(free: seq<nat>, dests: seq<nat>): (r: Allocation)
    ensures |r.slots| == |dests|
    decreases |dests|
  {
    if dests == [] then Allocation([], free)
    else
      var i := FirstInReach(free, dests[0]);
      if i == |free| then
        var rest := Allocate(free, dests[1..]);
        Allocation([None] + rest.slots, rest.left)
      else
        var rest := Allocate(Without(free, i), dests[1..]);
        Allocation([Some(free[i])] + rest.slots, rest.left)
  }

  function Used(slots: seq<Option<nat>>): seq<nat> {
    if slots == [] then []
    else (if slots[0].Some? then [slots[0].value] else []) + Used(slots[1..])
  }

  function Count(slots: seq<Option<nat>>): nat {
    if slots == [] then 0 else (if slots[0].Some? then 1 else 0) + Count(slots[1..])
  }

  ghost predicate Distinct(s: seq<nat>) {
    forall i, j :: 0 <= i < j < |s| ==> s[i] != s[j]
  }

  ghost predicate Ascending(s: seq<nat>) {
    forall i, j :: 0 <= i < j < |s| ==> s[i] < s[j]
  }

  ghost predicate Nondecreasing(s: seq<nat>) {
    forall i, j :: 0 <= i < j < |s| ==> s[i] <= s[j]
  }

  /** An assignment of slots to exports, one to one and within reach. */
  ghost predicate Matching(m: seq<Option<nat>>, free: seq<nat>, dests: seq<nat>) {
    && |m| == |dests|
    && (forall i :: 0 <= i < |m| && m[i].Some? ==> m[i].value in free && InReach(dests[i], m[i].value))
    && (forall i, j :: 0 <= i < j < |m| && m[i].Some? && m[j].Some? ==> m[i].value != m[j].value)
  }

  lemma WithoutMembers<T>(s: seq<T>, i: nat)
    requires i < |s|
    ensures multiset(s) == multiset(Without(s, i)) + multiset{s[i]}
    ensures forall x :: x in Without(s, i) ==> x in s
    ensures forall x :: x in s && x != s[i] ==> x in Without(s, i)
  {
    assert s == s[..i] + [s[i]] + s[i + 1..];
  }

  // ----- Conservation and maximality, in any order

  /** Used slots and remaining slots are exactly the initial free list. */
  lemma {:induction false} SlotsConserved(free: seq<nat>, dests: seq<nat>)
    ensures var a := Allocate(free, dests); multiset(Used(a.slots)) + multiset(a.left) == multiset(free)
    decreases |dests|
  {
    if dests != [] {
      var i := FirstInReach(free, dests[0]);
      var a := Allocate(free, dests);
      if i == |free| {
        SlotsConserved(free, dests[1..]);
        assert a.slots[1..] == Allocate(free, dests[1..]).slots;
      } else {
        SlotsConserved(Without(free, i), dests[1..]);
        assert a.slots[1..] == Allocate(Without(free, i), dests[1..]).slots;
        WithoutMembers(free, i);
      }
    }
  }

  lemma {:induction false} LeftComesFromFree(free: seq<nat>, dests: seq<nat>)
    ensures forall f :: f in Allocate(free, dests).left ==> f in free
    decreases |dests|
  {
    if dests != [] {
      var i := FirstInReach(free, dests[0]);
      if i == |free| {
        LeftComesFromFree(free, dests[1..]);
      } else {
        LeftComesFromFree(Without(free, i), dests[1..]);
        WithoutMembers(free, i);
      }
    }
  }

  /** An export is left without a trampoline only if no remaining slot reaches it. */
  lemma {:induction false} NoReachableSlotLeft(free: seq<nat>, dests: seq<nat>, k: nat, f: nat)
    requires k < |dests| && Allocate(free, dests).slots[k].None? && f in Allocate(free, dests).left
    ensures !InReach(dests[k], f)
    decreases |dests|
  {
    var i := FirstInReach(free, dests[0]);
    if k == 0 {
      LeftComesFromFree(free, dests[1..]);
      assert i == |free|;
    } else {
      var rest := if i == |free| then free else Without(free, i);
      NoReachableSlotLeft(rest, dests[1..], k - 1, f);
    }
  }

  lemma MatchingCons(x: Option<nat>, n: seq<Option<nat>>, rest: seq<nat>, free: seq<nat>, dests: seq<nat>)
    requires dests != [] && Matching(n, rest, dests[1..]) && forall f :: f in rest ==> f in free
    requires x.Some? ==> x.value in free && InReach(dests[0], x.value) && x.value !in rest
    ensures Matching([x] + n, free, dests)
  {
    var m := [x] + n;
    forall a | 0 <= a < |m| && m[a].Some?
      ensures m[a].value in free && InReach(dests[a], m[a].value)
    {
      if a > 0 {
        assert m[a] == n[a - 1] && dests[a] == dests[1..][a - 1];
      }
    }
    forall a, b | 0 <= a < b < |m| && m[a].Some? && m[b].Some?
      ensures m[a].value != m[b].value
    {
      assert m[b] == n[b - 1];
      if a > 0 {
        assert m[a] == n[a - 1];
      }
    }
  }

  /** The allocation is itself one to one and within reach. */
  lemma {:induction false} AllocationIsMatching(free: seq<nat>, dests: seq<nat>)
    requires Distinct(free)
    ensures Matching(Allocate(free, dests).slots, free, dests)
    decreases |dests|
  {
    hide Matching, InReach;
    if dests == [] {
      NothingMatches(free);
    } else {
      var i := FirstInReach(free, dests[0]);
      var rest := if i == |free| then free else Without(free, i);
      if i < |free| {
        WithoutMembers(free, i);
        assert free[i] !in rest;
      }
      AllocationIsMatching(rest, dests[1..]);
      var n := Allocate(rest, dests[1..]).slots;
      MatchingCons(if i == |free| then None else Some(free[i]), n, rest, free, dests);
    }
  }

  lemma NothingMatches(free: seq<nat>)
    ensures Matching([], free, [])
  {
  }

  // ----- Optimality for exports in address order, or far from it

  /** Exports come in address order, but for pairs no slot can serve both of. */
  ghost predicate OrderedUpToReach(dests: seq<nat>) {
    forall i, j :: 0 <= i < j < |dests| ==> dests[i] <= dests[j] || dests[i] > dests[j] + 0xffff
  }

  lemma {:induction false} CountUpdate(m: seq<Option<nat>>, j: nat, x: Option<nat>)
    requires j < |m|
    ensures Count(m[j := x]) == Count(m) - (if m[j].Some? then 1 else 0) + (if x.Some? then 1 else 0)
  {
    if j == 0 {
      assert m[0 := x][1..] == m[1..];
    } else {
      CountUpdate(m[1..], j - 1, x);
      assert m[j := x][1..] == m[1..][j - 1 := x];
    }
  }

  /** The exchange: any matching can give the first export its least slot in
      reach without losing a trampoline. */
  lemma Exchange(free: seq<nat>, dests: seq<nat>, m: seq<Option<nat>>, i: nat)
    returns (m': seq<Option<nat>>)
    requires Ascending(free) && OrderedUpToReach(dests) && dests != []
    requires Matching(m, free, dests)
    requires i == FirstInReach(free, dests[0]) < |free|
    ensures Matching(m', free, dests) && Count(m') >= Count(m) && m'[0] == Some(free[i])
  {
    var f := free[i];
    if j: nat :| 0 < j < |m| && m[j] == Some(f) {
      // the slot is taken by a later export, which takes over the first one's
      m' := m[0 := Some(f)][j := m[0]];
      CountUpdate(m, 0, Some(f));
      CountUpdate(m[0 := Some(f)], j, m[0]);
      if m[0].Some? {
        var g := m[0].value;
        assert g != f;
        assert f < g by {
          var k :| 0 <= k < |free| && free[k] == g;
          assert k > i;
        }
        assert dests[0] <= dests[j];
        assert InReach(dests[j], g);
      }
    } else {
      m' := m[0 := Some(f)];
      CountUpdate(m, 0, Some(f));
    }
  }

  lemma MatchingTail(free: seq<nat>, dests: seq<nat>, m: seq<Option<nat>>, i: nat)
    requires Distinct(free) && dests != [] && i < |free|
    requires Matching(m, free, dests) && m[0] == Some(free[i])
    ensures Matching(m[1..], Without(free, i), dests[1..])
  {
    WithoutMembers(free, i);
    var n := m[1..];
    forall a | 0 <= a < |n| && n[a].Some?
      ensures n[a].value in Without(free, i) && InReach(dests[1..][a], n[a].value)
    {
      assert n[a] == m[a + 1] && m[0].value != m[a + 1].value;
    }
  }

  /** For distinct sorted slots and exports in address order, up to pairs too far
      apart to share a slot, no assignment within reach creates more trampolines
      than the greedy choice. */
  lemma {:induction false} GreedyIsOptimal(free: seq<nat>, dests: seq<nat>, m: seq<Option<nat>>)
    requires Ascending(free) && OrderedUpToReach(dests) && Matching(m, free, dests)
    ensures Count(m) <= Count(Allocate(free, dests).slots)
    decreases |dests|
  {
    if dests != [] {
      var i := FirstInReach(free, dests[0]);
      var a := Allocate(free, dests).slots;
      if i == |free| {
        assert m[0].None?;
        assert Matching(m[1..], free, dests[1..]);
        GreedyIsOptimal(free, dests[1..], m[1..]);
        assert a[1..] == Allocate(free, dests[1..]).slots;
      } else {
        var m' := Exchange(free, dests, m, i);
        MatchingTail(free, dests, m', i);
        var rest := Without(free, i);
        assert Ascending(rest);
        GreedyIsOptimal(rest, dests[1..], m'[1..]);
        assert a[1..] == Allocate(rest, dests[1..]).slots;
      }
    }
  }

  // ----- Sorting the free list

  function Insert(x: nat, s: seq<nat>): seq<nat> {
    if s == [] || x <= s[0] then [x] + s else [s[0]] + Insert(x, s[1..])
  }

  function Sorted(s: seq<nat>): seq<nat> {
    if s == [] then [] else Insert(s[0], Sorted(s[1..]))
  }

  lemma {:induction false} InsertMembers(x: nat, s: seq<nat>)
    ensures multiset(Insert(x, s)) == multiset(s) + multiset{x}
  {
    if s != [] && x > s[0] {
      InsertMembers(x, s[1..]);
      assert s == [s[0]] + s[1..];
    }
  }

  lemma {:induction false} InsertKeepsOrder(x: nat, s: seq<nat>)
    requires Nondecreasing(s)
    ensures Nondecreasing(Insert(x, s)) && multiset(Insert(x, s)) == multiset(s) + multiset{x}
  {
    InsertMembers(x, s);
    if s != [] && x > s[0] {
      var r := Insert(x, s[1..]);
      InsertKeepsOrder(x, s[1..]);
      forall j | 0 <= j < |r|
        ensures s[0] <= r[j]
      {
        InsertMembers(x, s[1..]);
        assert r[j] in multiset(r);
        assert r[j] in s[1..] || r[j] == x;
      }
    }
  }

  lemma {:induction false} SortedIsPermutation(s: seq<nat>)
    ensures Nondecreasing(Sorted(s)) && multiset(Sorted(s)) == multiset(s)
  {
    if s != [] {
      SortedIsPermutation(s[1..]);
      InsertKeepsOrder(s[0], Sorted(s[1..]));
      assert s == [s[0]] + s[1..];
    }
  }

  /** The allocation over the sorted free list is optimal for such exports,
      whatever order the slots were freed in. */
  lemma SortedGreedyIsOptimal(free: seq<nat>, dests: seq<nat>, m: seq<Option<nat>>)
    requires Distinct(free) && OrderedUpToReach(dests) && Matching(m, free, dests)
    ensures Count(m) <= Count(Allocate(Sorted(free), dests).slots)
    ensures Matching(Allocate(Sorted(free), dests).slots, free, dests)
  {
    var r := Sorted(free);
    SortedIsPermutation(free);
    SortedMembers(free);
    AscendingFromDistinct(free);
    forall i | 0 <= i < |m| && m[i].Some?
      ensures m[i].value in r
    {
    }
    GreedyIsOptimal(r, dests, m);
    AllocationIsMatching(r, dests);
  }

  lemma SortedMembers(free: seq<nat>)
    ensures forall x :: x in Sorted(free) <==> x in free
  {
    SortedIsPermutation(free);
    forall x
      ensures x in Sorted(free) <==> x in free
    {
      assert x in Sorted(free) <==> x in multiset(Sorted(free));
      assert x in free <==> x in multiset(free);
    }
  }

  lemma {:induction false} DistinctOnce(s: seq<nat>, x: nat)
    requires Distinct(s)
    ensures multiset(s)[x] <= 1
    decreases |s|
  {
    if s != [] {
      DistinctOnce(s[1..], x);
      assert s == [s[0]] + s[1..] && s[0] !in s[1..];
    }
  }

  lemma TwicePresent(r: seq<nat>, i: nat, j: nat)
    requires i < j < |r| && r[i] == r[j]
    ensures multiset(r)[r[i]] >= 2
  {
    var a, b := r[..j], r[j..];
    assert r == a + b;
    assert a[i] in multiset(a) && b[0] in multiset(b);
  }

  lemma AscendingFromDistinct(free: seq<nat>)
    requires Distinct(free)
    ensures Ascending(Sorted(free))
  {
    hide Sorted;
    var r := Sorted(free);
    SortedIsPermutation(free);
    forall i, j | 0 <= i < j < |r|
      ensures r[i] < r[j]
    {
      DistinctOnce(free, r[i]);
      if r[i] == r[j] {
        TwicePresent(r, i, j);
      }
    }
  }

  // ----- Out of address order the greedy choice loses a trampoline

  /** The furthest slot above an address that still reaches it. */
  function Above(d: nat): nat { d + 0x7ffc }

  lemma AboveReaches(d: nat, e: nat)
    ensures InReach(e, Above(d)) <==> d <= e <= d + 0xffff
  {
  }

  lemma WithoutAscends(free: seq<nat>, n: nat)
    requires Ascending(free) && n < |free|
    ensures Ascending(Without(free, n))
    ensures forall k :: 0 <= k < |free| - 1 ==> Without(free, n)[k] == free[if k < n then k else k + 1]
  {
  }

  lemma LeastInReach(free: seq<nat>, dest: nat, g: nat)
    requires Ascending(free) && FirstInReach(free, dest) < |free| && InReach(dest, g)
    requires g in Without(free, FirstInReach(free, dest))
    ensures free[FirstInReach(free, dest)] < g
  {
    hide InReach;
    var n := FirstInReach(free, dest);
    WithoutAscends(free, n);
    var k :| 0 <= k < |free| - 1 && Without(free, n)[k] == g;
    assert k >= n;
  }

  lemma AllocationUnfolds(free: seq<nat>, dests: seq<nat>) returns (rest: seq<nat>)
    requires Ascending(free) && dests != []
    ensures Ascending(rest)
    ensures Allocate(free, dests).slots[1..] == Allocate(rest, dests[1..]).slots
    ensures Allocate(free, dests).slots[0].Some? ==> forall g :: g in rest && InReach(dests[0], g) ==>
      Allocate(free, dests).slots[0].value < g
  {
    hide Ascending, InReach;
    var n := FirstInReach(free, dests[0]);
    rest := free;
    if n < |free| {
      rest := Without(free, n);
      WithoutAscends(free, n);
      forall g | g in rest && InReach(dests[0], g)
        ensures free[n] < g
      {
        LeastInReach(free, dests[0], g);
      }
    }
  }

  /** Of two slots it reaches, an export took the lower before the other was used. */
  lemma {:induction false} TakesLeast(free: seq<nat>, dests: seq<nat>, i: nat, j: nat)
    requires Ascending(free) && i < j < |dests|
    requires var a := Allocate(free, dests).slots;
      a[i].Some? && a[j].Some? && InReach(dests[i], a[j].value)
    ensures Allocate(free, dests).slots[i].value < Allocate(free, dests).slots[j].value
    decreases |dests|
  {
    hide InReach, Allocate, Ascending;
    var a := Allocate(free, dests).slots;
    var rest := AllocationUnfolds(free, dests);
    var b := Allocate(rest, dests[1..]).slots;
    assert a[j] == b[j - 1];
    if i == 0 {
      UsedComesFromFree(rest, dests[1..], j - 1);
    } else {
      assert a[i] == b[i - 1];
      TakesLeast(rest, dests[1..], i - 1, j - 1);
    }
  }

  lemma UsedComesFromFree(free: seq<nat>, dests: seq<nat>, i: nat)
    requires Ascending(free) && i < |dests| && Allocate(free, dests).slots[i].Some?
    ensures Allocate(free, dests).slots[i].value in free
  {
    AllocationIsMatching(free, dests);
  }

  ghost predicate IsFurthest(dests: seq<nat>, f: nat) {
    exists e :: 0 <= e < |dests| && f == Above(dests[e])
  }

  lemma ReachedSlot(free: seq<nat>, dests: seq<nat>, m: seq<Option<nat>>, k: nat) returns (e: nat)
    requires Matching(m, free, dests) && k < |m| && m[k].Some?
    requires forall f :: f in free ==> IsFurthest(dests, f)
    ensures e < |dests| && m[k].value == Above(dests[e]) && dests[e] <= dests[k]
  {
    assert IsFurthest(dests, m[k].value);
    e :| 0 <= e < |dests| && m[k].value == Above(dests[e]);
    AboveReaches(dests[e], dests[k]);
  }

  lemma OnlyOnce(free: seq<nat>, dests: seq<nat>, m: seq<Option<nat>>, e: nat, k: nat)
    requires Matching(m, free, dests) && e < |m| && k < |m| && m[k].Some? && m[e] == m[k]
    ensures e == k
  {
  }

  /** When every export gets a slot out of one furthest slot each, each gets its
      own: the lower ones' slots are the only others that reach it, and taken. */
  lemma {:induction false} OwnSlot(free: seq<nat>, dests: seq<nat>, m: seq<Option<nat>>, k: nat)
    requires Matching(m, free, dests) && |m| == |dests| && k < |m| && forall i :: 0 <= i < |m| ==> m[i].Some?
    requires forall f :: f in free ==> IsFurthest(dests, f)
    ensures m[k] == Some(Above(dests[k]))
    decreases dests[k]
  {
    hide Matching, IsFurthest;
    var e := ReachedSlot(free, dests, m, k);
    if dests[e] < dests[k] {
      OwnSlot(free, dests, m, e);
      OnlyOnce(free, dests, m, e, k);
      assert false;
    }
  }

  lemma {:induction false} CountAll(m: seq<Option<nat>>)
    ensures Count(m) <= |m|
    ensures Count(m) == |m| <==> forall i :: 0 <= i < |m| ==> m[i].Some?
  {
    if m != [] {
      CountAll(m[1..]);
      assert forall i :: 1 <= i < |m| ==> m[i] == m[1..][i - 1];
      assert forall i :: 0 <= i < |m[1..]| ==> m[1..][i] == m[i + 1];
    }
  }

  /** The slots with which an order close to wrong shows. */
  function FurthestSlots(dests: seq<nat>): (r: seq<nat>)
    ensures |r| == |dests| && forall i :: 0 <= i < |r| ==> r[i] == Above(dests[i])
  {
    seq(|dests|, i requires 0 <= i < |dests| => Above(dests[i]))
  }

  /** With the furthest slots, every export can have a trampoline. */
  lemma FurthestSlotsMatch(dests: seq<nat>) returns (m: seq<Option<nat>>)
    requires Distinct(dests)
    ensures Matching(m, FurthestSlots(dests), dests) && Count(m) == |dests|
  {
    var free := FurthestSlots(dests);
    m := seq(|dests|, i requires 0 <= i < |dests| => Some(free[i]));
    CountAll(m);
    forall i | 0 <= i < |m|
      ensures InReach(dests[i], m[i].value)
    {
      AboveReaches(dests[i], dests[i]);
    }
  }

  /** The greedy choice never makes fewer trampolines than are possible, whatever
      slots there are, exactly when any two exports out of address order are too
      far apart to share a slot. */
  lemma GreedyNeedsAddressOrder(dests: seq<nat>)
    requires Distinct(dests)
    ensures OrderedUpToReach(dests) <==>
      forall free: seq<nat>, m: seq<Option<nat>> :: Distinct(free) && Matching(m, free, dests) ==>
        Count(m) <= Count(Allocate(Sorted(free), dests).slots)
  {
    hide OrderedUpToReach, Distinct, Matching;
    if OrderedUpToReach(dests) {
      forall free: seq<nat>, m: seq<Option<nat>> | Distinct(free) && Matching(m, free, dests)
        ensures Count(m) <= Count(Allocate(Sorted(free), dests).slots)
      {
        SortedGreedyIsOptimal(free, dests, m);
      }
    } else {
      GreedyLosesOne(dests);
      var m := FurthestSlotsMatch(dests);
      FurthestSlotsDistinct(dests);
    }
  }

  lemma FurthestSlotsDistinct(dests: seq<nat>)
    requires Distinct(dests)
    ensures Distinct(FurthestSlots(dests))
  {
  }

  lemma {:induction false} SlotsAreFurthest(dests: seq<nat>)
    ensures forall f :: f in Sorted(FurthestSlots(dests)) ==> IsFurthest(dests, f)
  {
    SortedMembers(FurthestSlots(dests));
    forall f | f in Sorted(FurthestSlots(dests))
      ensures IsFurthest(dests, f)
    {
      var e :| 0 <= e < |dests| && FurthestSlots(dests)[e] == f;
      assert f == Above(dests[e]);
    }
  }

  lemma GreedyLosesOne(dests: seq<nat>)
    requires Distinct(dests) && !OrderedUpToReach(dests)
    ensures Count(Allocate(Sorted(FurthestSlots(dests)), dests).slots) < |dests|
  {
    var i, j :| 0 <= i < j < |dests| && dests[j] < dests[i] <= dests[j] + 0xffff;
    var free := Sorted(FurthestSlots(dests));
    FurthestSlotsDistinct(dests);
    AscendingFromDistinct(FurthestSlots(dests));
    SlotsAreFurthest(dests);
    hide Ascending, Distinct, OrderedUpToReach, Sorted, FurthestSlots, IsFurthest, Allocate, Matching, InReach;
    NotAllServed(free, dests, i, j);
  }

  lemma NotAllServed(free: seq<nat>, dests: seq<nat>, i: nat, j: nat)
    requires Ascending(free) && (forall f :: f in free ==> IsFurthest(dests, f))
    requires i < j < |dests| && dests[j] < dests[i] <= dests[j] + 0xffff
    ensures Count(Allocate(free, dests).slots) < |dests|
  {
    hide IsFurthest, InReach, Matching;
    var m := Allocate(free, dests).slots;
    assert Distinct(free);
    AllocationIsMatching(free, dests);
    CountAll(m);
    hide Allocate, Ascending;
    if Count(m) == |m| {
      OwnSlot(free, dests, m, i);
      OwnSlot(free, dests, m, j);
      AboveReaches(dests[j], dests[i]);
      TakesLeast(free, dests, i, j);
      assert false;
    }
  }

  // ----- Slots as the program frees them

  /** Every slot the program frees is a multiple of four. */
  ghost predicate Aligned(free: seq<nat>) {
    forall i :: 0 <= i < |free| ==> free[i] % 4 == 0
  }

  /** An address as far as such slots can tell. */
  function Rounded(d: nat): (r: nat)
    ensures r % 4 == 0 && r <= d < r + 4
  {
    d / 4 * 4
  }

  function RoundedAll(dests: seq<nat>): (r: seq<nat>)
    ensures |r| == |dests| && forall i :: 0 <= i < |r| ==> r[i] == Rounded(dests[i])
  {
    seq(|dests|, i requires 0 <= i < |dests| => Rounded(dests[i]))
  }

  lemma AlignedReach(d: nat, slot: nat)
    requires slot % 4 == 0
    ensures InReach(d, slot) <==> InReach(Rounded(d), slot)
  {
  }

  lemma {:induction false} SameFirst(free: seq<nat>, d: nat)
    requires Aligned(free)
    ensures FirstInReach(free, Rounded(d)) == FirstInReach(free, d)
    decreases |free|
  {
    hide InReach, Rounded;
    if free != [] {
      AlignedReach(d, free[0]);
      assert Aligned(free[1..]);
      SameFirst(free[1..], d);
    }
  }

  lemma AlignedWithout(free: seq<nat>, i: nat)
    requires Aligned(free) && i < |free|
    ensures Aligned(Without(free, i))
  {
  }

  /** Over aligned slots the allocation depends on the rounded addresses only. */
  lemma {:induction false} SameAllocation(free: seq<nat>, dests: seq<nat>)
    requires Aligned(free)
    ensures Allocate(free, RoundedAll(dests)) == Allocate(free, dests)
    decreases |dests|
  {
    hide InReach, Rounded;
    if dests != [] {
      var i := FirstInReach(free, dests[0]);
      SameFirst(free, dests[0]);
      assert RoundedAll(dests)[1..] == RoundedAll(dests[1..]);
      if i == |free| {
        SameAllocation(free, dests[1..]);
      } else {
        AlignedWithout(free, i);
        SameAllocation(Without(free, i), dests[1..]);
      }
    }
  }

  lemma SameMatchings(free: seq<nat>, dests: seq<nat>, m: seq<Option<nat>>)
    requires Aligned(free)
    ensures Matching(m, free, dests) <==> Matching(m, free, RoundedAll(dests))
  {
    hide InReach, Rounded;
    forall i | 0 <= i < |m| && |m| == |dests| && m[i].Some? && m[i].value in free
      ensures InReach(dests[i], m[i].value) <==> InReach(RoundedAll(dests)[i], m[i].value)
    {
      AlignedReach(dests[i], m[i].value);
    }
  }

  lemma AlignedSorted(free: seq<nat>)
    requires Aligned(free)
    ensures Aligned(Sorted(free))
  {
    hide Sorted;
    SortedMembers(free);
    forall i | 0 <= i < |Sorted(free)|
      ensures Sorted(free)[i] % 4 == 0
    {
      assert Sorted(free)[i] in free;
    }
  }

  /** The same with the slots the program frees: addresses are told apart by their
      quarter, and any number of exports may share one. */
  lemma AlignedGreedyIsOptimal(free: seq<nat>, dests: seq<nat>, m: seq<Option<nat>>)
    requires Distinct(free) && Aligned(free) && OrderedUpToReach(RoundedAll(dests)) && Matching(m, free, dests)
    ensures Count(m) <= Count(Allocate(Sorted(free), dests).slots)
  {
    hide InReach, Matching, Sorted, Allocate, OrderedUpToReach;
    SameMatchings(free, dests, m);
    AlignedSorted(free);
    SameAllocation(Sorted(free), dests);
    SortedGreedyIsOptimal(free, RoundedAll(dests), m);
  }

  lemma AlignedFurthest(dests: seq<nat>)
    ensures Aligned(FurthestSlots(RoundedAll(dests)))
  {
  }

  /** With those slots the greedy choice never makes fewer trampolines than are
      possible exactly when of any two exports out of address order the quarters of
      the addresses are more than 0x3fff apart. */
  lemma AlignedGreedyIff(dests: seq<nat>)
    requires forall i, j :: 0 <= i < j < |dests| ==> dests[i] / 4 != dests[j] / 4
    ensures (forall i, j :: 0 <= i < j < |dests| ==> dests[i] / 4 <= dests[j] / 4 || dests[i] / 4 > dests[j] / 4 + 0x3fff)
      <==>
      forall free: seq<nat>, m: seq<Option<nat>> :: Distinct(free) && Aligned(free) && Matching(m, free, dests) ==>
        Count(m) <= Count(Allocate(Sorted(free), dests).slots)
  {
    var rs := RoundedAll(dests);
    assert Distinct(rs);
    RoundedOrder(dests);
    hide InReach, Matching, Sorted, Allocate, OrderedUpToReach, RoundedAll, Distinct;
    if OrderedUpToReach(rs) {
      forall free: seq<nat>, m: seq<Option<nat>> | Distinct(free) && Aligned(free) && Matching(m, free, dests)
        ensures Count(m) <= Count(Allocate(Sorted(free), dests).slots)
      {
        AlignedGreedyIsOptimal(free, dests, m);
      }
    } else {
      var free := FurthestSlots(rs);
      AlignedFurthest(dests);
      AlignedSorted(free);
      SameAllocation(Sorted(free), dests);
      GreedyLosesOne(rs);
      FurthestSlotsDistinct(rs);
      var m := FurthestSlotsMatch(rs);
      SameMatchings(free, dests, m);
      assert Distinct(free) && Aligned(free) && Matching(m, free, dests);
    }
  }

  lemma RoundedOrder(dests: seq<nat>)
    ensures OrderedUpToReach(RoundedAll(dests)) <==>
      forall i, j :: 0 <= i < j < |dests| ==> dests[i] / 4 <= dests[j] / 4 || dests[i] / 4 > dests[j] / 4 + 0x3fff
  {
    var rs := RoundedAll(dests);
    assert forall i :: 0 <= i < |dests| ==> rs[i] == 4 * (dests[i] / 4);
  }
}
