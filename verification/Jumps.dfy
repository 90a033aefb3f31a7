/** The bytes of a trampoline, what running them means, and the script that
    GscObfuscator::CreateTrampolines leaves. */
module Jumps {
  import opened Bytes
  import opened Results
  import opened GscFormat
  import opened Trampolines

  const JUMP_OPCODES: seq<u16> := [
    0x22, 0x3c, 0x7d, 0x140, 0x14b, 0x25f, 0x4b9, 0x4fa, 0x541, 0x5ac, 0x652, 0x6c3, 0x6f9,
    0x840, 0x89f, 0x945, 0xa95, 0xb1c, 0xb3f, 0xba0, 0xbc9, 0xc3f, 0xc51, 0xc5f, 0xdbf, 0xde4,
    0xdee, 0xe51, 0xeb9, 0xf26, 0xf82, 0xfd9, 0x10a9, 0x11c8, 0x1222, 0x1259, 0x12a9, 0x1307, 0x131b,
    0x1341, 0x1365, 0x1400, 0x1436, 0x1452, 0x14dc, 0x1735, 0x17a7, 0x184d, 0x18b2, 0x18b3, 0x1b0a, 0x1c22,
    0x1c56, 0x1ca5, 0x1cf3, 0x1dc9, 0x1dd2, 0x1e21, 0x1e99, 0x1ebe, 0x1ebf, 0x1ef8, 0x1f22, 0x1f45, 0x201c,
    0x2127, 0x217b, 0x21bf, 0x21e9, 0x23b9, 0x25a3, 0x25d8, 0x268e, 0x273b, 0x27f0, 0x28ed, 0x299d, 0x2b1b,
    0x2b92, 0x2bb7, 0x2be6, 0x2bed, 0x2ce2, 0x2d32, 0x2e06, 0x2eea, 0x2f4b, 0x2fd8, 0x2fe2, 0x3037, 0x30d3,
    0x3122, 0x315b, 0x3179, 0x31f8, 0x3284, 0x32c1, 0x3304, 0x344f, 0x34e2, 0x353b, 0x3596, 0x36b4, 0x36bd,
    0x37c4, 0x384a, 0x3906, 0x3933, 0x398c, 0x39c1, 0x3a48, 0x3a64, 0x3ae0, 0x3b79, 0x3b85, 0x3c54, 0x3df9,
    0x3e03, 0x3e5e, 0x3ea1, 0x3ee7
  ]

  /** Where the instruction at `pc` jumps, when it is a jump. */
  function JumpTarget(s: bytes, pc: nat): Option<int> {
    if pc + 4 <= |s| && Get16(s, pc) in JUMP_OPCODES then Some(pc + 4 + Signed16(Get16(s, pc + 2))) else None
  }

  /** Running from `from` is at `dest` at once, or after one jump. */
  predicate Reaches(s: bytes, from: nat, dest: nat) {
    from == dest || JumpTarget(s, from) == Some(dest)
  }

  /** The 16-bit truncation of a delta. */
  function Truncate16(d: int): u16
    requires -0x8000 <= d <= 0x7fff
  {
    if d < 0 then d + 0x1_0000 else d
  }

  predicate IsTrampoline(s: bytes, slot: nat, dest: nat) {
    && slot + 4 <= |s| && InReach(dest, slot)
    && Get16(s, slot) in JUMP_OPCODES
    && Get16(s, slot + 2) == Truncate16(dest - (slot + 4))
  }

  /** The truncated delta, read back with its sign, lands on the destination. */
  lemma TrampolineLands(s: bytes, slot: nat, dest: nat)
    requires IsTrampoline(s, slot, dest)
    ensures JumpTarget(s, slot) == Some(dest)
  {
  }

  function WriteTrampoline(s: bytes, slot: nat, op: u16, dest: nat): (r: bytes)
    requires slot + 4 <= |s| && InReach(dest, slot)
    ensures |r| == |s|
    ensures forall k :: 0 <= k < |s| && !(slot <= k < slot + 4) ==> r[k] == s[k]
    ensures op in JUMP_OPCODES ==> IsTrampoline(r, slot, dest)
  {
    Put16(Put16(s, slot, op), slot + 2, Truncate16(dest - (slot + 4)))
  }

  /** The addresses of the exports, in table order. */
  function Addresses(s: bytes, table: nat, count: nat): (r: seq<nat>)
    requires table + EXPORT_SIZE * count <= |s|
    ensures |r| == count
    ensures forall i :: 0 <= i < count ==> r[i] == ExportAddress(s, ExportAt(table, i))
  {
    seq(count, i requires 0 <= i < count => ExportAddress(s, ExportAt(table, i)) as nat)
  }

  /** The bytes the first `n` exports may change: their slot and address field. */
  ghost predicate Touched(table: nat, slots: seq<Option<nat>>, n: nat, k: int)
    requires n <= |slots|
  {
    exists i :: 0 <= i < n && slots[i].Some? &&
      (slots[i].value <= k < slots[i].value + 4 || ExportAt(table, i) + 4 <= k < ExportAt(table, i) + 8)
  }

  /** Export `i` is entered through a jump to its old address. */
  ghost predicate Entered(s: bytes, t: bytes, table: nat, i: nat, slot: nat)
    requires ExportAt(table, i) + EXPORT_SIZE <= |s| == |t|
  {
    && ExportAddress(t, ExportAt(table, i)) == slot
    && IsTrampoline(t, slot, ExportAddress(s, ExportAt(table, i)))
  }

  /** After the first `n` exports: each one with a slot is entered through a
      jump to its old address, and every other byte is unchanged. */
  ghost predicate Redirected(s: bytes, t: bytes, table: nat, slots: seq<Option<nat>>, n: nat)
    requires n <= |slots| && table + EXPORT_SIZE * |slots| <= |s|
  {
    && |t| == |s|
    && (forall i :: 0 <= i < n && slots[i].Some? ==> Entered(s, t, table, i, slots[i].value))
    && forall k :: 0 <= k < |s| && !Touched(table, slots, n, k) ==> t[k] == s[k]
  }

  /** Slots in the script, apart from one another, from the header and from the
      export table. */
  ghost predicate SlotsClear(size: nat, table: nat, count: nat, slots: seq<Option<nat>>) {
    && |slots| == count && HEADER_SIZE <= table && table + EXPORT_SIZE * count <= size
    && (forall i :: 0 <= i < count && slots[i].Some? ==>
         && HEADER_SIZE <= slots[i].value && slots[i].value + 4 <= size
         && (slots[i].value + 4 <= table || table + EXPORT_SIZE * count <= slots[i].value))
    && forall i, j :: 0 <= i < j < count && slots[i].Some? && slots[j].Some? ==>
         slots[i].value + 4 <= slots[j].value || slots[j].value + 4 <= slots[i].value
  }

  /** A byte of the header or the export table, other than an address field of
      an export already handled, is as before. */
  lemma TableByteKept(s: bytes, t: bytes, table: nat, slots: seq<Option<nat>>, n: nat, k: nat)
    requires SlotsClear(|s|, table, |slots|, slots) && n <= |slots| && Redirected(s, t, table, slots, n)
    requires k < HEADER_SIZE || table <= k < table + EXPORT_SIZE * |slots|
    requires forall i :: 0 <= i < n && slots[i].Some? ==> !(ExportAt(table, i) + 4 <= k < ExportAt(table, i) + 8)
    ensures t[k] == s[k]
  {
    assert !Touched(table, slots, n, k);
  }

  lemma FieldsApart(table: nat, i: nat, j: nat, k: nat)
    requires i != j && ExportAt(table, i) <= k < ExportAt(table, i) + EXPORT_SIZE
    ensures !(ExportAt(table, j) <= k < ExportAt(table, j) + EXPORT_SIZE)
  {
  }

  lemma AddressKept(s: bytes, t: bytes, table: nat, slots: seq<Option<nat>>, n: nat, i: nat)
    requires SlotsClear(|s|, table, |slots|, slots) && n <= |slots| && Redirected(s, t, table, slots, n)
    requires i < |slots| && (n <= i || slots[i].None?)
    ensures ExportAddress(t, ExportAt(table, i)) == ExportAddress(s, ExportAt(table, i))
  {
    var e := ExportAt(table, i);
    assert e + EXPORT_SIZE <= table + EXPORT_SIZE * |slots|;
    forall k | e + 4 <= k < e + 8
      ensures t[k] == s[k]
    {
      forall j | 0 <= j < n && slots[j].Some?
        ensures !(ExportAt(table, j) + 4 <= k < ExportAt(table, j) + 8)
      {
        FieldsApart(table, i, j, k);
      }
      TableByteKept(s, t, table, slots, n, k);
    }
  }

  lemma SameTrampoline(u: bytes, v: bytes, slot: nat, dest: nat)
    requires IsTrampoline(u, slot, dest) && |v| == |u|
    requires forall k :: slot <= k < slot + 4 ==> v[k] == u[k]
    ensures IsTrampoline(v, slot, dest)
  {
  }

  /** Only the four bytes at `a` and the four at `b` may differ. */
  ghost predicate SameOutside(t: bytes, v: bytes, a: nat, b: nat) {
    && |v| == |t|
    && forall k :: 0 <= k < |t| && !(a <= k < a + 4) && !(b <= k < b + 4) ==> v[k] == t[k]
  }

  /** A later trampoline overwrites no earlier one. */
  lemma EarlierKept(s: bytes, t: bytes, v: bytes, table: nat, slots: seq<Option<nat>>, n: nat, i: nat)
    requires SlotsClear(|s|, table, |slots|, slots) && i < n < |slots| && |s| == |t|
    requires slots[i].Some? && slots[n].Some? && Entered(s, t, table, i, slots[i].value)
    requires SameOutside(t, v, slots[n].value, ExportAt(table, n) + 4)
    ensures Entered(s, v, table, i, slots[i].value)
  {
    var e, f := ExportAt(table, i), slots[i].value;
    assert e + EXPORT_SIZE <= ExportAt(table, n) && ExportAt(table, n) + EXPORT_SIZE <= table + EXPORT_SIZE * |slots|;
    assert forall k :: e + 4 <= k < e + 8 ==> v[k] == t[k];
    SameTrampoline(t, v, f, ExportAddress(s, e));
  }

  /** Giving the next export its slot. */
  lemma RedirectOne(s: bytes, t: bytes, v: bytes, table: nat, slots: seq<Option<nat>>, n: nat)
    requires SlotsClear(|s|, table, |slots|, slots) && n < |slots| && Redirected(s, t, table, slots, n)
    requires slots[n].Some? && SameOutside(t, v, slots[n].value, ExportAt(table, n) + 4)
    requires Entered(s, v, table, n, slots[n].value)
    ensures Redirected(s, v, table, slots, n + 1)
  {
    hide Entered;
    forall i | 0 <= i < n && slots[i].Some?
      ensures Entered(s, v, table, i, slots[i].value)
    {
      EarlierKept(s, t, v, table, slots, n, i);
    }
    forall k | 0 <= k < |s| && !Touched(table, slots, n + 1, k)
      ensures v[k] == s[k]
    {
      TouchedStep(table, slots, n, k);
    }
  }

  /** An export without a slot is passed over. */
  lemma RedirectNone(s: bytes, t: bytes, table: nat, slots: seq<Option<nat>>, n: nat)
    requires SlotsClear(|s|, table, |slots|, slots) && n < |slots| && Redirected(s, t, table, slots, n)
    requires slots[n].None?
    ensures Redirected(s, t, table, slots, n + 1)
  {
    forall k | 0 <= k < |s| && !Touched(table, slots, n + 1, k)
      ensures t[k] == s[k]
    {
      TouchedStep(table, slots, n, k);
    }
  }

  lemma TouchedStep(table: nat, slots: seq<Option<nat>>, n: nat, k: int)
    requires n < |slots|
    ensures Touched(table, slots, n + 1, k) <==>
      || Touched(table, slots, n, k)
      || (slots[n].Some? &&
          (slots[n].value <= k < slots[n].value + 4 || ExportAt(table, n) + 4 <= k < ExportAt(table, n) + 8))
  {
  }

  lemma RedirectStart(s: bytes, table: nat, slots: seq<Option<nat>>)
    requires table + EXPORT_SIZE * |slots| <= |s|
    ensures Redirected(s, s, table, slots, 0)
  {
  }

  /** With no slot left the remaining exports are left as they are. */
  lemma {:induction false} NothingLeft(dests: seq<nat>)
    ensures Allocate([], dests).left == [] && forall i :: 0 <= i < |dests| ==> Allocate([], dests).slots[i].None?
    decreases |dests|
  {
    if dests != [] {
      NothingLeft(dests[1..]);
    }
  }

  lemma {:induction false} RedirectRest(s: bytes, t: bytes, table: nat, a: Allocation, dests: seq<nat>, n: nat)
    requires |dests| == |a.slots| && n <= |dests|
    requires Allocate([], dests[n..]) == Allocation(a.slots[n..], a.left)
    requires SlotsClear(|s|, table, |a.slots|, a.slots) && Redirected(s, t, table, a.slots, n)
    ensures Redirected(s, t, table, a.slots, |a.slots|) && a.left == []
    decreases |dests| - n
  {
    NothingLeft(dests[n..]);
    if n < |dests| {
      assert a.slots[n] == a.slots[n..][0];
      RedirectNone(s, t, table, a.slots, n);
      assert dests[n..][1..] == dests[n + 1..] && a.slots[n..][1..] == a.slots[n + 1..];
      RedirectRest(s, t, table, a, dests, n + 1);
    }
  }

  lemma ExportCountKept(s: bytes, t: bytes, table: nat, slots: seq<Option<nat>>, n: nat)
    requires SlotsClear(|s|, table, |slots|, slots) && n <= |slots| && Redirected(s, t, table, slots, n)
    ensures Get16(t, EXPORT_COUNT) == Get16(s, EXPORT_COUNT)
  {
    TableByteKept(s, t, table, slots, n, EXPORT_COUNT);
    TableByteKept(s, t, table, slots, n, EXPORT_COUNT + 1);
  }

  /** The jump just written enters export `n` at its old address. */
  lemma EnteredHere(s: bytes, t: bytes, v: bytes, table: nat, slots: seq<Option<nat>>, n: nat, op: u16)
    requires SlotsClear(|s|, table, |slots|, slots) && n < |slots| && Redirected(s, t, table, slots, n)
    requires slots[n].Some? && op in JUMP_OPCODES && slots[n].value < 0x1_0000_0000
    requires InReach(ExportAddress(s, ExportAt(table, n)), slots[n].value)
    requires v == Put32(WriteTrampoline(t, slots[n].value, op, ExportAddress(s, ExportAt(table, n))),
                        ExportAt(table, n) + 4, slots[n].value)
    ensures SameOutside(t, v, slots[n].value, ExportAt(table, n) + 4)
    ensures Entered(s, v, table, n, slots[n].value)
  {
    var slot, e := slots[n].value, ExportAt(table, n);
    assert e + EXPORT_SIZE <= table + EXPORT_SIZE * |slots|;
    SameTrampoline(WriteTrampoline(t, slot, op, ExportAddress(s, e)), v, slot, ExportAddress(s, e));
  }

  /** After the whole loop every export, entered at its new address, reaches its
      old address in at most one jump. */
  lemma EveryExportReached(s: bytes, t: bytes, table: nat, slots: seq<Option<nat>>, i: nat)
    requires SlotsClear(|s|, table, |slots|, slots) && Redirected(s, t, table, slots, |slots|) && i < |slots|
    ensures Reaches(t, ExportAddress(t, ExportAt(table, i)), ExportAddress(s, ExportAt(table, i)))
  {
    if slots[i].Some? {
      TrampolineLands(t, slots[i].value, ExportAddress(s, ExportAt(table, i)));
    } else {
      AddressKept(s, t, table, slots, |slots|, i);
    }
  }

  /** The slots of an allocation are clear when the free list is. */
  lemma AllocationIsClear(size: nat, table: nat, free: seq<nat>, dests: seq<nat>)
    requires HEADER_SIZE <= table && table + EXPORT_SIZE * |dests| <= size
    requires forall i :: 0 <= i < |free| ==>
      && HEADER_SIZE <= free[i] && free[i] + 4 <= size
      && (free[i] + 4 <= table || table + EXPORT_SIZE * |dests| <= free[i])
    requires forall i, j :: 0 <= i < j < |free| ==> free[i] + 4 <= free[j] || free[j] + 4 <= free[i]
    ensures SlotsClear(size, table, |dests|, Allocate(free, dests).slots)
  {
    AllocationIsMatching(free, dests);
    var slots := Allocate(free, dests).slots;
    forall i, j | 0 <= i < j < |dests| && slots[i].Some? && slots[j].Some?
      ensures slots[i].value + 4 <= slots[j].value || slots[j].value + 4 <= slots[i].value
    {
      var a :| 0 <= a < |free| && free[a] == slots[i].value;
      var b :| 0 <= b < |free| && free[b] == slots[j].value;
    }
  }
}
