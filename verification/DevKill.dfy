/** Harvesting trampoline slots from dead dev-block operands
    (GscObfuscator::KillDevByteCodeOp and its two callers), as runs of events
    over the script, the free list and the junk slot. */
module DevKill {
  import opened Bytes
  import opened Results
  import opened GscFormat
  import Bits

  const TRAMPOLINE_SIZE: nat := 4

  /** Alignment of a location relative to the script, for the sizes in use. */
  function AlignUp(x: nat, a: nat): nat
    requires a in {2, 4, 8}
  {
    if a == 2 then (x + 1) / 2 * 2
    else if a == 4 then (x + 3) / 4 * 4
    else (x + 7) / 8 * 8
  }

  lemma AlignUpBounds(x: nat, a: nat)
    requires a in {2, 4, 8}
    ensures AlignUp(x, a) % a == 0 && x <= AlignUp(x, a) < x + a
    ensures a >= 4 ==> AlignUp(x, a) % 4 == 0
    ensures AlignUp(x, a) == (x + (a - 1)) - (x + (a - 1)) % a
  {
    if a == 2 {
    } else if a == 4 {
    } else {
    }
  }

  /** The masked sum the code computes is this alignment. */
  lemma AlignedIsAlignUp(x: nat, a: nat)
    requires a in {2, 4, 8} && x < 0x1_0000_0000_0000
    ensures Bits.Aligned(x, a) == AlignUp(x, a)
  {
    assert Bits.Pow2(1) == 2 && Bits.Pow2(2) == 4 && Bits.Pow2(3) == 8;
    Bits.AlignedValue(x, a, if a == 2 then 1 else if a == 4 then 2 else 3);
    AlignUpBounds(x, a);
  }

  /** What one pass does: plain writes, and the killing of one operand whose
      offset is stored at `at`. */
  datatype Event = Write(at: nat, data: bytes) | Kill(at: nat, len: nat, delta: nat)

  datatype State = State(script: bytes, free: seq<nat>, junk: nat)

  ghost predicate WellFormed(s: bytes, e: Event) {
    match e
    case Write(at, data) => at + |data| <= |s|
    case Kill(at, len, delta) => at + 4 <= |s| && len in {4, 8} && delta <= 1
  }

  /** The aligned operand of a killed instruction. */
  function Operand(floc: nat, len: nat, delta: nat): nat
    requires len in {4, 8}
  {
    AlignUp(floc + delta, len)
  }

  /** The bounds test of the code: room for both two-byte marks. */
  predicate Accepts(size: nat, floc: nat, len: nat, delta: nat)
    requires len in {4, 8}
  {
    floc >= 2 + delta && AlignUp(Operand(floc, len, delta) + len, 2) + 2 <= size
  }

  function Chunks(bc: nat, len: nat): (r: seq<nat>)
    ensures |r| == len / TRAMPOLINE_SIZE
    ensures forall i :: 0 <= i < |r| ==> r[i] == bc + TRAMPOLINE_SIZE * i
  {
    seq(len / TRAMPOLINE_SIZE, i => bc + TRAMPOLINE_SIZE * i)
  }

  /** The first slot ever seen becomes the junk slot; the others are freed. */
  function Gather(chunks: seq<nat>, free: seq<nat>, junk: nat): (seq<nat>, nat)
    decreases |chunks|
  {
    if chunks == [] then (free, junk)
    else if junk == 0 then Gather(chunks[1..], free, chunks[0])
    else if junk != chunks[0] then Gather(chunks[1..], free + [chunks[0]], junk)
    else Gather(chunks[1..], free, junk)
  }

  function MarkKilled(s: bytes, at: nat, floc: nat, end: nat, junk: nat): (r: bytes)
    requires at + 4 <= |s| && 2 <= floc <= |s| && end + 2 <= |s| && junk < 0x1_0000_0000
    ensures |r| == |s|
  {
    var marked := Put16(Put16(s, floc - 2, 0xdead), end, 0xbeef);
    if junk != 0 then Put32(marked, at, junk) else marked
  }

  lemma OperandBounds(size: nat, floc: u32, len: nat, delta: nat)
    requires len in {4, 8} && delta <= 1
    ensures Operand(floc, len, delta) % 4 == 0 && floc + delta <= Operand(floc, len, delta)
    ensures AlignUp(Operand(floc, len, delta) + len, 2) == Operand(floc, len, delta) + len
    ensures Accepts(size, floc, len, delta) ==>
      4 <= Operand(floc, len, delta) && Operand(floc, len, delta) + len + 2 <= size && 2 <= floc <= size
  {
    AlignUpBounds(floc + delta, len);
    AlignedStays(Operand(floc, len, delta), len);
  }

  lemma AlignedStays(x: nat, len: nat)
    requires x % 4 == 0 && len in {4, 8}
    ensures AlignUp(x + len, 2) == x + len
    ensures x > 0 ==> x >= 4
  {
    var h := 2 * (x / 4) + if len == 4 then 2 else 4;
    assert x + len == 2 * h;
    Bits.DivModUnique(x + len + 1, h, 1, 2);
  }

  /** One event. Events the script has no room for change nothing. */
  function Apply(st: State, e: Event): (r: State)
    requires |st.script| < 0x1_0000_0000 && st.junk < 0x1_0000_0000
    ensures |r.script| == |st.script| && r.junk < 0x1_0000_0000
  {
    match e
    case Write(at, data) =>
      if at + |data| <= |st.script| then st.(script := Over(st.script, at, data)) else st
    case Kill(at, len, delta) =>
      if at + 4 > |st.script| || len !in {4, 8} || delta > 1 then st
      else
        var floc := Get32(st.script, at);
        var bc := Operand(floc, len, delta);
        if !Accepts(|st.script|, floc, len, delta) then st
        else
          OperandBounds(|st.script|, floc, len, delta);
          GatherBound(Chunks(bc, len), st.free, st.junk, |st.script|);
          var (free, junk) := Gather(Chunks(bc, len), st.free, st.junk);
          State(MarkKilled(st.script, at, floc, AlignUp(bc + len, 2), junk), free, junk)
  }

  /** Both alignments of the code, and when an operand is accepted: both marks lie in
      the script, with the instruction's byte between the first and the operand. */
  lemma OperandAlignment(floc: u32, len: nat, delta: nat, size: nat)
    requires len in {4, 8} && delta <= 1
    ensures Bits.Aligned(floc + delta, len) == Operand(floc, len, delta)
    ensures Bits.Aligned(Operand(floc, len, delta) + len, 2) == Operand(floc, len, delta) + len
    ensures Accepts(size, floc, len, delta) <==>
      floc as int - delta - 2 >= 0 && Bits.Aligned(floc + delta, len) + len + 2 <= size
  {
    AlignedIsAlignUp(floc + delta, len);
    OperandBounds(size, floc, len, delta);
    AlignedIsAlignUp(Operand(floc, len, delta) + len, 2);
  }

  lemma KillRejected(st: State, at: nat, len: nat, delta: nat)
    requires |st.script| < 0x1_0000_0000 && st.junk < 0x1_0000_0000
    requires at + 4 <= |st.script| && len in {4, 8} && delta <= 1
    requires var floc := Get32(st.script, at);
      floc < 2 + delta || Operand(floc, len, delta) + len + 2 > |st.script|
    ensures Apply(st, Kill(at, len, delta)) == st
  {
    OperandBounds(|st.script|, Get32(st.script, at), len, delta);
  }

  lemma KillAccepted(st: State, at: nat, len: nat, delta: nat, r: State)
    requires |st.script| < 0x1_0000_0000 && st.junk < 0x1_0000_0000
    requires at + 4 <= |st.script| && len in {4, 8} && delta <= 1
    requires Accepts(|st.script|, Get32(st.script, at), len, delta) && r.junk < 0x1_0000_0000
    requires (r.free, r.junk) == Gather(Chunks(Operand(Get32(st.script, at), len, delta), len), st.free, st.junk)
    requires var floc := Get32(st.script, at); var bc := Operand(floc, len, delta);
      2 <= floc <= |st.script| && bc + len + 2 <= |st.script| &&
      r.script == MarkKilled(st.script, at, floc, bc + len, r.junk)
    ensures Apply(st, Kill(at, len, delta)) == r
  {
    hide Get32, Gather, Chunks, MarkKilled, Over, Operand, AlignUp;
    OperandBounds(|st.script|, Get32(st.script, at), len, delta);
  }

  lemma {:induction false} GatherBound(chunks: seq<nat>, free: seq<nat>, junk: nat, size: nat)
    requires forall i :: 0 <= i < |chunks| ==> chunks[i] < size
    ensures Gather(chunks, free, junk).1 == junk || Gather(chunks, free, junk).1 < size
    decreases |chunks|
  {
    if chunks != [] {
      if junk == 0 {
        GatherBound(chunks[1..], free, chunks[0], size);
      } else if junk != chunks[0] {
        GatherBound(chunks[1..], free + [chunks[0]], junk, size);
      } else {
        GatherBound(chunks[1..], free, junk, size);
      }
    }
  }

  function Run(st: State, es: seq<Event>): (r: State)
    requires |st.script| < 0x1_0000_0000 && st.junk < 0x1_0000_0000
    ensures |r.script| == |st.script| && r.junk < 0x1_0000_0000
    decreases |es|
  {
    if es == [] then st else Apply(Run(st, es[..|es| - 1]), es[|es| - 1])
  }

  lemma {:induction false} RunConcat(st: State, a: seq<Event>, b: seq<Event>)
    requires |st.script| < 0x1_0000_0000 && st.junk < 0x1_0000_0000
    ensures Run(st, a + b) == Run(Run(st, a), b)
    decreases |b|
  {
    if b == [] {
      assert a + b == a;
    } else {
      assert (a + b)[..|a + b| - 1] == a + b[..|b| - 1];
      RunConcat(st, a, b[..|b| - 1]);
    }
  }

  // ----- What a run reads and writes, told from the script it starts with

  predicate Accepted(s: bytes, e: Event) {
    && e.Kill? && e.at + 4 <= |s| && e.len in {4, 8} && e.delta <= 1
    && Accepts(|s|, Get32(s, e.at), e.len, e.delta)
  }

  function OperandOf(s: bytes, e: Event): nat
    requires Accepted(s, e)
  {
    Operand(Get32(s, e.at), e.len, e.delta)
  }

  /** The two marks left around a killed operand. */
  predicate Marks(s: bytes, e: Event, k: int)
    requires Accepted(s, e)
  {
    || Get32(s, e.at) - 2 <= k < Get32(s, e.at)
    || OperandOf(s, e) + e.len <= k < OperandOf(s, e) + e.len + 2
  }

  predicate Writes(s: bytes, e: Event, k: int) {
    match e
    case Write(at, data) => at <= k < at + |data|
    case Kill(at, _, _) => Accepted(s, e) && (at <= k < at + 4 || Marks(s, e, k))
  }

  ghost predicate Written(s: bytes, es: seq<Event>, k: int) {
    exists i :: 0 <= i < |es| && Writes(s, es[i], k)
  }

  /** No event overwrites the operand offset a later one still has to read. */
  ghost predicate Undisturbed(s: bytes, es: seq<Event>) {
    && (forall i :: 0 <= i < |es| ==> WellFormed(s, es[i]))
    && forall i, j, k :: 0 <= i < j < |es| && es[j].Kill? && es[j].at <= k < es[j].at + 4 ==>
         !Writes(s, es[i], k)
  }

  /** The slots of all accepted operands, in the order they are met. */
  function Harvest(s: bytes, es: seq<Event>): seq<nat>
    decreases |es|
  {
    if es == [] then []
    else
      var e := es[|es| - 1];
      Harvest(s, es[..|es| - 1]) + if Accepted(s, e) then Chunks(OperandOf(s, e), e.len) else []
  }

  function JunkOf(slots: seq<nat>): nat { if slots == [] then 0 else slots[0] }

  function Others(slots: seq<nat>, x: nat): seq<nat>
    decreases |slots|
  {
    if slots == [] then []
    else Others(slots[..|slots| - 1], x) + if slots[|slots| - 1] == x then [] else [slots[|slots| - 1]]
  }

  ghost predicate NoZero(slots: seq<nat>) {
    forall i :: 0 <= i < |slots| ==> slots[i] != 0
  }

  lemma OthersAppend(seen: seq<nat>, c: nat)
    requires NoZero(seen)
    ensures JunkOf(seen + [c]) == if seen == [] then c else JunkOf(seen)
    ensures Others(seen + [c], JunkOf(seen + [c]))
         == if seen == [] || c == JunkOf(seen) then Others(seen, JunkOf(seen)) else Others(seen, JunkOf(seen)) + [c]
  {
    var more := seen + [c];
    assert more[..|more| - 1] == seen;
  }

  /** The running state after any slots is fixed by the slots alone. */
  lemma {:induction false} GatherClosed(seen: seq<nat>, chunks: seq<nat>)
    requires NoZero(seen) && NoZero(chunks)
    ensures Gather(chunks, Others(seen, JunkOf(seen)), JunkOf(seen))
         == (Others(seen + chunks, JunkOf(seen + chunks)), JunkOf(seen + chunks))
    decreases |chunks|
  {
    if chunks == [] {
      assert seen + chunks == seen;
    } else {
      OthersAppend(seen, chunks[0]);
      assert seen + [chunks[0]] + chunks[1..] == seen + chunks;
      GatherClosed(seen + [chunks[0]], chunks[1..]);
    }
  }

  lemma {:induction false} HarvestPlacement(s: bytes, es: seq<Event>)
    ensures forall c :: c in Harvest(s, es) ==> c % 4 == 0 && 4 <= c && c + 4 + 2 <= |s|
    decreases |es|
  {
    hide Get32, AlignUp, Operand, Accepts;
    if es != [] {
      HarvestPlacement(s, es[..|es| - 1]);
      var e := es[|es| - 1];
      if Accepted(s, e) {
        OperandBounds(|s|, Get32(s, e.at), e.len, e.delta);
      }
    }
  }

  lemma HarvestHasNoZero(s: bytes, es: seq<Event>)
    ensures NoZero(Harvest(s, es))
  {
    HarvestPlacement(s, es);
    assert forall i :: 0 <= i < |Harvest(s, es)| ==> Harvest(s, es)[i] in Harvest(s, es);
  }

  /** One event, when the offset it reads is still the one in `s`. */
  lemma ApplyGathers(st: State, e: Event, s: bytes, seen: seq<nat>)
    requires |st.script| == |s| < 0x1_0000_0000 && st.junk < 0x1_0000_0000
    requires e.Kill? && e.at + 4 <= |s| ==> Get32(st.script, e.at) == Get32(s, e.at)
    requires NoZero(seen) && st.junk == JunkOf(seen) && st.free == Others(seen, JunkOf(seen))
    ensures var all := seen + if Accepted(s, e) then Chunks(OperandOf(s, e), e.len) else [];
      Apply(st, e).junk == JunkOf(all) && Apply(st, e).free == Others(all, JunkOf(all))
    ensures Accepted(s, e) ==> Get32(Apply(st, e).script, e.at) == Apply(st, e).junk != 0
  {
    if Accepted(s, e) {
      OperandBounds(|s|, Get32(s, e.at), e.len, e.delta);
      var chunks := Chunks(OperandOf(s, e), e.len);
      GatherClosed(seen, chunks);
      assert (seen + chunks)[0] != 0;
    } else {
      assert seen + [] == seen;
    }
  }

  /** The state reached, told entirely from the first script: the junk slot is
      the first slot met and the free list is every other one, in order. */
  ghost predicate Told(s: bytes, es: seq<Event>, st: State) {
    && |st.script| == |s|
    && st.junk == JunkOf(Harvest(s, es))
    && st.free == Others(Harvest(s, es), st.junk)
  }

  lemma UndisturbedPrefix(s: bytes, es: seq<Event>, n: nat)
    requires Undisturbed(s, es) && n <= |es|
    ensures Undisturbed(s, es[..n])
  {
    assert forall i :: 0 <= i < n ==> es[..n][i] == es[i];
  }

  /** From any state, a run changes only the bytes its events list. */
  lemma {:induction false} RunFrame(st: State, es: seq<Event>)
    requires |st.script| < 0x1_0000_0000 && st.junk < 0x1_0000_0000 && Undisturbed(st.script, es)
    ensures forall k :: 0 <= k < |st.script| && !Written(st.script, es, k) ==> Run(st, es).script[k] == st.script[k]
    decreases |es|
  {
    if es != [] {
      var s := st.script;
      var front, e := es[..|es| - 1], es[|es| - 1];
      UndisturbedPrefix(s, es, |es| - 1);
      RunFrame(st, front);
      var pre := Run(st, front);
      if e.Kill? {
        FieldUnchanged(s, es, pre.script);
      }
      forall k | 0 <= k < |s| && !Written(s, es, k)
        ensures Run(st, es).script[k] == s[k]
      {
        UnwrittenStep(s, es, k);
        ApplyKeeps(pre, e, s, k);
      }
    }
  }

  lemma ToldStep(s: bytes, es: seq<Event>)
    requires |s| < 0x1_0000_0000 && Undisturbed(s, es) && es != []
    requires Told(s, es[..|es| - 1], Run(State(s, [], 0), es[..|es| - 1]))
    ensures Told(s, es, Run(State(s, [], 0), es))
    ensures Accepted(s, es[|es| - 1]) ==>
      Get32(Run(State(s, [], 0), es).script, es[|es| - 1].at) == Run(State(s, [], 0), es).junk != 0
  {
    var front, e := es[..|es| - 1], es[|es| - 1];
    var pre := Run(State(s, [], 0), front);
    UndisturbedPrefix(s, es, |es| - 1);
    RunFrame(State(s, [], 0), front);
    if e.Kill? {
      FieldUnchanged(s, es, pre.script);
    }
    HarvestHasNoZero(s, front);
    ApplyGathers(pre, e, s, Harvest(s, front));
  }

  /** Every state of a run from an empty free list is the one told. */
  lemma {:induction false} RunIsTold(s: bytes, es: seq<Event>)
    requires |s| < 0x1_0000_0000 && Undisturbed(s, es)
    ensures Told(s, es, Run(State(s, [], 0), es))
    decreases |es|
  {
    if es != [] {
      UndisturbedPrefix(s, es, |es| - 1);
      RunIsTold(s, es[..|es| - 1]);
      ToldStep(s, es);
    }
  }

  /** Once set, the junk slot is the same for the rest of the run. */
  lemma JunkIsStable(s: bytes, upTo: seq<Event>, es: seq<Event>)
    requires |s| < 0x1_0000_0000 && Undisturbed(s, es) && upTo <= es
    requires Run(State(s, [], 0), upTo).junk != 0
    ensures Run(State(s, [], 0), es).junk == Run(State(s, [], 0), upTo).junk
  {
    assert es[..|upTo|] == upTo;
    UndisturbedPrefix(s, es, |upTo|);
    RunIsTold(s, upTo);
    RunIsTold(s, es);
    HarvestPrefix(s, es, |upTo|);
    var a, b := Harvest(s, upTo), Harvest(s, es);
    assert a != [] && a[0] == b[0];
  }

  lemma LastIsRedirected(s: bytes, es: seq<Event>)
    requires |s| < 0x1_0000_0000 && Undisturbed(s, es) && es != [] && Accepted(s, es[|es| - 1])
    ensures Get32(Run(State(s, [], 0), es).script, es[|es| - 1].at) == Run(State(s, [], 0), es).junk != 0
  {
    UndisturbedPrefix(s, es, |es| - 1);
    RunIsTold(s, es[..|es| - 1]);
    ToldStep(s, es);
  }

  /** Once an accepted operand has been killed its offset is the junk slot, the
      same one for the whole run. */
  lemma AcceptedIsRedirected(s: bytes, upTo: seq<Event>, es: seq<Event>)
    requires |s| < 0x1_0000_0000 && Undisturbed(s, es) && upTo <= es
    requires upTo != [] && Accepted(s, upTo[|upTo| - 1])
    ensures Get32(Run(State(s, [], 0), upTo).script, upTo[|upTo| - 1].at) == Run(State(s, [], 0), es).junk != 0
  {
    UndisturbedPrefix(s, es, |upTo|);
    LastIsRedirected(s, upTo);
    JunkIsStable(s, upTo, es);
  }

  lemma {:induction false} HarvestPrefix(s: bytes, es: seq<Event>, n: nat)
    requires n <= |es|
    ensures Harvest(s, es[..n]) <= Harvest(s, es)
    decreases |es|
  {
    if n < |es| {
      HarvestPrefix(s, es[..|es| - 1], n);
      assert es[..|es| - 1][..n] == es[..n];
    } else {
      assert es[..n] == es;
    }
  }

  lemma UnwrittenStep(s: bytes, es: seq<Event>, k: int)
    requires es != [] && !Written(s, es, k)
    ensures !Written(s, es[..|es| - 1], k) && !Writes(s, es[|es| - 1], k)
  {
    var front := es[..|es| - 1];
    assert forall i :: 0 <= i < |front| ==> front[i] == es[i];
  }

  /** The offset of the last event is still the one in the first script. */
  lemma FieldUnchanged(s: bytes, es: seq<Event>, now: bytes)
    requires Undisturbed(s, es) && es != [] && es[|es| - 1].Kill? && |now| == |s|
    requires forall k :: 0 <= k < |s| && !Written(s, es[..|es| - 1], k) ==> now[k] == s[k]
    ensures Get32(now, es[|es| - 1].at) == Get32(s, es[|es| - 1].at)
  {
    var at := es[|es| - 1].at;
    assert WellFormed(s, es[|es| - 1]);
    forall k | at <= k < at + 4
      ensures now[k] == s[k]
    {
      assert !Written(s, es[..|es| - 1], k);
    }
  }

  lemma ApplyKeeps(st: State, e: Event, s: bytes, k: nat)
    requires |st.script| == |s| < 0x1_0000_0000 && st.junk < 0x1_0000_0000 && k < |s|
    requires e.Kill? && e.at + 4 <= |s| ==> Get32(st.script, e.at) == Get32(s, e.at)
    requires !Writes(s, e, k)
    ensures Apply(st, e).script[k] == st.script[k]
  {
    if e.Kill? && Accepted(s, e) {
      OperandBounds(|s|, Get32(s, e.at), e.len, e.delta);
    }
  }

  /** A byte is settled by the last event that writes it. */
  lemma {:induction false} LaterKeeps(s: bytes, es: seq<Event>, n: nat, k: nat)
    requires |s| < 0x1_0000_0000 && Undisturbed(s, es) && n <= |es| && k < |s|
    requires forall m :: n <= m < |es| ==> !Writes(s, es[m], k)
    ensures Run(State(s, [], 0), es).script[k] == Run(State(s, [], 0), es[..n]).script[k]
    decreases |es|
  {
    if n < |es| {
      var front, e := es[..|es| - 1], es[|es| - 1];
      UndisturbedPrefix(s, es, |es| - 1);
      RunFrame(State(s, [], 0), front);
      var pre := Run(State(s, [], 0), front);
      if e.Kill? {
        FieldUnchanged(s, es, pre.script);
      }
      ApplyKeeps(pre, e, s, k);
      assert front[..n] == es[..n];
      LaterKeeps(s, front, n, k);
    } else {
      assert es[..n] == es;
    }
  }

  /** What a plain write leaves behind. */
  lemma WriteLands(s: bytes, es: seq<Event>, k: nat)
    requires |s| < 0x1_0000_0000 && es != [] && es[|es| - 1].Write?
    requires var e := es[|es| - 1]; e.at + |e.data| <= |s| && e.at <= k < e.at + |e.data|
    ensures k < |s|
    ensures var e := es[|es| - 1]; Run(State(s, [], 0), es).script[k] == e.data[k - e.at]
  {
  }

  // ----- What the harvest guarantees

  ghost predicate Distinct(s: seq<nat>) {
    forall i, j :: 0 <= i < j < |s| ==> s[i] != s[j]
  }

  /** No two accepted operands share a byte. */
  ghost predicate OperandsApart(s: bytes, es: seq<Event>) {
    forall i, j :: 0 <= i < j < |es| && Accepted(s, es[i]) && Accepted(s, es[j]) ==>
      || OperandOf(s, es[i]) + es[i].len <= OperandOf(s, es[j])
      || OperandOf(s, es[j]) + es[j].len <= OperandOf(s, es[i])
  }

  lemma {:induction false} HarvestOrigin(s: bytes, es: seq<Event>, c: nat)
    returns (i: nat)
    requires c in Harvest(s, es)
    ensures i < |es| && Accepted(s, es[i])
    ensures OperandOf(s, es[i]) <= c && c + 4 <= OperandOf(s, es[i]) + es[i].len
    ensures (c - OperandOf(s, es[i])) % 4 == 0
    decreases |es|
  {
    var e := es[|es| - 1];
    if Accepted(s, e) && c in Chunks(OperandOf(s, e), e.len) {
      i := |es| - 1;
    } else {
      i := HarvestOrigin(s, es[..|es| - 1], c);
    }
  }

  /** Every word of an accepted operand is harvested. */
  lemma {:induction false} WordHarvested(s: bytes, es: seq<Event>, i: nat, c: nat)
    requires i < |es| && Accepted(s, es[i])
    requires OperandOf(s, es[i]) <= c && c + 4 <= OperandOf(s, es[i]) + es[i].len
    requires (c - OperandOf(s, es[i])) % 4 == 0
    ensures c in Harvest(s, es)
    decreases |es|
  {
    hide Operand, Accepts, Get32;
    if i < |es| - 1 {
      WordHarvested(s, es[..|es| - 1], i, c);
    } else {
      var chunks := Chunks(OperandOf(s, es[i]), es[i].len);
      assert chunks[(c - OperandOf(s, es[i])) / 4] == c;
    }
  }

  /** A mark's byte: 0xdead before the operand's instruction, 0xbeef behind the operand. */
  function MarkByte(s: bytes, e: Event, k: int): byte
    requires Accepted(s, e) && Marks(s, e, k)
  {
    if k == Get32(s, e.at) - 2 then 0xad
    else if k == Get32(s, e.at) - 1 then 0xde
    else if k == OperandOf(s, e) + e.len then 0xef
    else 0xbe
  }

  /** What a kill leaves around its operand. */
  lemma KillMarks(s: bytes, es: seq<Event>, k: nat)
    requires |s| < 0x1_0000_0000 && Undisturbed(s, es) && es != [] && Accepted(s, es[|es| - 1])
    requires Marks(s, es[|es| - 1], k) && !(es[|es| - 1].at <= k < es[|es| - 1].at + 4)
    ensures k < |s| && Run(State(s, [], 0), es).script[k] == MarkByte(s, es[|es| - 1], k)
  {
    hide Undisturbed, Get32, Gather, Chunks, Operand, Accepts, AlignUp, Harvest, MarkKilled;
    var e, front := es[|es| - 1], es[..|es| - 1];
    UndisturbedPrefix(s, es, |es| - 1);
    RunFrame(State(s, [], 0), front);
    var pre := Run(State(s, [], 0), front);
    FieldUnchanged(s, es, pre.script);
    var floc := Get32(s, e.at);
    OperandBounds(|s|, floc, e.len, e.delta);
    MarkWritten(pre.script, e.at, floc, OperandOf(s, e) + e.len, Run(State(s, [], 0), es).junk, k);
  }

  lemma MarkWritten(s: bytes, at: nat, floc: nat, end: nat, junk: nat, k: nat)
    requires at + 4 <= |s| && 2 <= floc <= end && end + 2 <= |s| && junk < 0x1_0000_0000
    requires !(at <= k < at + 4) && (floc - 2 <= k < floc || end <= k < end + 2)
    ensures MarkKilled(s, at, floc, end, junk)[k]
      == if k == floc - 2 then 0xad else if k == floc - 1 then 0xde else if k == end then 0xef else 0xbe
  {
  }

  lemma {:induction false} HarvestDistinct(s: bytes, es: seq<Event>)
    requires OperandsApart(s, es)
    ensures Distinct(Harvest(s, es))
    decreases |es|
  {
    if es != [] {
      var front, e := es[..|es| - 1], es[|es| - 1];
      assert OperandsApart(s, front);
      HarvestDistinct(s, front);
      var h := Harvest(s, front);
      if Accepted(s, e) {
        var chunks := Chunks(OperandOf(s, e), e.len);
        forall a, b | 0 <= a < |h| && 0 <= b < |chunks|
          ensures h[a] != chunks[b]
        {
          var i := HarvestOrigin(s, front, h[a]);
          assert front[i] == es[i];
        }
      }
    }
  }

  lemma {:induction false} OthersAreTheRest(slots: seq<nat>)
    requires Distinct(slots) && slots != []
    ensures Others(slots, slots[0]) == slots[1..]
    decreases |slots|
  {
    var front := slots[..|slots| - 1];
    if front == [] {
      assert Others(front, slots[0]) == [];
    } else {
      OthersAreTheRest(front);
    }
  }

  lemma {:induction false} OthersMembers(slots: seq<nat>, x: nat)
    ensures forall c :: c in Others(slots, x) <==> c in slots && c != x
    decreases |slots|
  {
    if slots != [] {
      OthersMembers(slots[..|slots| - 1], x);
      assert slots == slots[..|slots| - 1] + [slots[|slots| - 1]];
    }
  }

  ghost predicate WellPlaced(size: nat, slot: nat) {
    slot % 4 == 0 && 4 <= slot && slot + 4 <= size
  }

  /** Every run keeps the junk slot out of the free list and every slot a
      multiple of 4, at least 4 and inside the script. */
  lemma SlotsWellPlaced(s: bytes, es: seq<Event>)
    requires |s| < 0x1_0000_0000 && Undisturbed(s, es)
    ensures var st := Run(State(s, [], 0), es);
      && st.junk !in st.free
      && (st.junk == 0 ==> st.free == [])
      && (st.junk != 0 ==> WellPlaced(|s|, st.junk))
      && forall c :: c in st.free ==> WellPlaced(|s|, c)
  {
    RunIsTold(s, es);
    HarvestPlacement(s, es);
    OthersMembers(Harvest(s, es), JunkOf(Harvest(s, es)));
    if Harvest(s, es) != [] {
      assert Harvest(s, es)[0] in Harvest(s, es);
    }
  }

  /** When operands are apart nothing is lost and nothing overlaps: the junk
      slot and the free list are exactly the harvest, four bytes or more apart. */
  lemma SlotsApart(s: bytes, es: seq<Event>)
    requires |s| < 0x1_0000_0000 && Undisturbed(s, es) && OperandsApart(s, es)
    ensures var st := Run(State(s, [], 0), es);
      && (st.junk != 0 ==> [st.junk] + st.free == Harvest(s, es))
      && forall i, j :: 0 <= i < j < |st.free| ==> st.free[i] + 4 <= st.free[j] || st.free[j] + 4 <= st.free[i]
  {
    RunIsTold(s, es);
    HarvestDistinct(s, es);
    HarvestPlacement(s, es);
    var h := Harvest(s, es);
    if h != [] {
      OthersAreTheRest(h);
      assert h == [h[0]] + h[1..];
      var f := h[1..];
      forall i, j | 0 <= i < j < |f|
        ensures f[i] + 4 <= f[j] || f[j] + 4 <= f[i]
      {
        assert f[i] == h[i + 1] && f[j] == h[j + 1];
        assert f[i] in h && f[j] in h;
        MultiplesApart(f[i], f[j]);
      }
    }
  }

  lemma MultiplesApart(a: nat, b: nat)
    requires a % 4 == 0 && b % 4 == 0 && a != b
    ensures a + 4 <= b || b + 4 <= a
  {
  }
}
