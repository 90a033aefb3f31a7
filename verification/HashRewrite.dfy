/** The rewrite-until-absent loop of GscObfuscator::ApplyPrivateHashes: while a
    hash occurs anywhere in the script, its first occurrence is overwritten. */
module HashRewrite {
  import opened Bytes
  import opened Results
  import opened Search
  import opened GscFormat
  import HashMini

  predicate OccursAt(s: bytes, p: nat, h: u32) {
    p + 4 <= |s| && Get32(s, p) == h
  }

  ghost predicate Occurs(s: bytes, h: u32) {
    exists p: nat :: OccursAt(s, p, h)
  }

  function FirstHash(s: bytes, h: u32): Option<nat> {
    FindFrom(s, Le32(h), 0)
  }

  lemma MatchIsOccurrence(s: bytes, p: nat, h: u32)
    ensures MatchAt(s, p, Le32(h)) <==> OccursAt(s, p, h)
  {
    if p + 4 <= |s| {
      Get32Injective(s, p, Le32(h), 0);
      assert Le32(h)[0..0 + 4] == Le32(h);
    }
  }

  lemma FirstHashIsLeast(s: bytes, h: u32)
    ensures FirstHash(s, h).Some? <==> Occurs(s, h)
    ensures FirstHash(s, h).Some? ==>
      var o := FirstHash(s, h).value; OccursAt(s, o, h) && forall q: nat :: q < o ==> !OccursAt(s, q, h)
  {
    FindFromIsLeast(s, Le32(h), 0, FirstHash(s, h));
    forall q: nat
      ensures MatchAt(s, q, Le32(h)) <==> OccursAt(s, q, h)
    {
      MatchIsOccurrence(s, q, h);
    }
  }

  // ----- The script read as one base-256 number

  function Pow256(n: nat): (r: nat)
    ensures r >= 1
  {
    if n == 0 then 1 else 0x100 * Pow256(n - 1)
  }

  function Value(s: bytes): nat {
    if s == [] then 0 else s[0] as nat + 0x100 * Value(s[1..])
  }

  lemma {:induction false} ValueBound(s: bytes)
    ensures Value(s) < Pow256(|s|)
  {
    if s != [] {
      ValueBound(s[1..]);
    }
  }

  lemma ValueOfFour(s: bytes, h: u32)
    requires |s| >= 4 && Get32(s, 0) == h
    ensures Value(s) == h + 0x1_0000_0000 * Value(s[4..])
  {
    assert s[1..][1..] == s[2..] && s[2..][1..] == s[3..] && s[3..][1..] == s[4..];
    assert Value(s) == s[0] as nat + 0x100 * Value(s[1..]);
    assert Value(s[1..]) == s[1] as nat + 0x100 * Value(s[2..]);
    assert Value(s[2..]) == s[2] as nat + 0x100 * Value(s[3..]);
    assert Value(s[3..]) == s[3] as nat + 0x100 * Value(s[4..]);
  }

  lemma PutTail(s: bytes, o: nat, v: u32)
    requires 0 < o && o + 4 <= |s|
    ensures Put32(s, o, v)[1..] == Put32(s[1..], o - 1, v)
    ensures Get32(s[1..], o - 1) == Get32(s, o)
  {
  }

  lemma ScaleByByte(d: int, p: int)
    ensures d * (0x100 * p) == 0x100 * (d * p)
  {
  }

  /** Overwriting a field moves the number by the change of that field. */
  lemma {:induction false} ValuePut(s: bytes, o: nat, v: u32)
    requires o + 4 <= |s|
    ensures Value(Put32(s, o, v)) == Value(s) + (v - Get32(s, o)) * Pow256(o)
  {
    var r := Put32(s, o, v);
    if o == 0 {
      assert r[4..] == s[4..];
      ValueOfFour(s, Get32(s, 0));
      ValueOfFour(r, v);
    } else {
      var t := s[1..];
      PutTail(s, o, v);
      ValuePut(t, o - 1, v);
      var d := v - Get32(s, o);
      ScaleByByte(d, Pow256(o - 1));
      assert Value(r) == r[0] as nat + 0x100 * Value(r[1..]);
      assert Value(s) == s[0] as nat + 0x100 * Value(t);
    }
  }

  // ----- One rewrite, and the rewriting to the end

  function Step(s: bytes, h: u32, v: u32): (r: bytes)
    ensures |r| == |s|
  {
    match FirstHash(s, h)
    case None => s
    case Some(o) => if o + 4 <= |s| then Put32(s, o, v) else s
  }

  /** The distance left in the direction every rewrite moves. */
  function Fuel(s: bytes, h: u32, v: u32): nat {
    ValueBound(s);
    if v < h then Value(s) else Pow256(|s|) - Value(s)
  }

  /** Each rewrite moves the number strictly towards the smaller of the bounds. */
  lemma StepMoves(s: bytes, h: u32, v: u32)
    requires h != v && Occurs(s, h)
    ensures v < h ==> Value(Step(s, h, v)) < Value(s)
    ensures v > h ==> Value(Step(s, h, v)) > Value(s)
    ensures Fuel(Step(s, h, v), h, v) < Fuel(s, h, v)
  {
    FirstHashIsLeast(s, h);
    var o := FirstHash(s, h).value;
    ValuePut(s, o, v);
    ScaledSign(v - h, Pow256(o));
  }

  lemma ScaledSign(d: int, w: int)
    requires w >= 1
    ensures d < 0 ==> d * w < 0
    ensures d > 0 ==> d * w > 0
  {
  }

  function Rewrite(s: bytes, h: u32, v: u32): (r: bytes)
    requires h != v
    decreases Fuel(s, h, v)
  {
    FirstHashIsLeast(s, h);
    if FirstHash(s, h).None? then s
    else
      StepMoves(s, h, v);
      Rewrite(Step(s, h, v), h, v)
  }

  /** One turn of the loop, told by the occurrence it overwrites. */
  lemma RewriteTurn(s: bytes, h: u32, v: u32)
    requires h != v
    ensures FirstHash(s, h).None? ==> Rewrite(s, h, v) == s
    ensures FirstHash(s, h).Some? ==>
      var o := FirstHash(s, h).value;
      o + 4 <= |s| && Rewrite(s, h, v) == Rewrite(Put32(s, o, v), h, v)
      && Fuel(Put32(s, o, v), h, v) < Fuel(s, h, v)
  {
    hide Fuel, Put32;
    FirstHashIsLeast(s, h);
    if FirstHash(s, h).Some? {
      StepMoves(s, h, v);
    }
  }

  /** The loop leaves no occurrence, keeps the length, and moves the number in
      one direction only. */
  lemma {:induction false} RewriteRemovesHash(s: bytes, h: u32, v: u32)
    requires h != v
    ensures |Rewrite(s, h, v)| == |s| && !Occurs(Rewrite(s, h, v), h)
    ensures v < h ==> Value(Rewrite(s, h, v)) <= Value(s)
    ensures v > h ==> Value(Rewrite(s, h, v)) >= Value(s)
    ensures Rewrite(s, h, v) == s <==> !Occurs(s, h)
    decreases Fuel(s, h, v)
  {
    FirstHashIsLeast(s, h);
    if Occurs(s, h) {
      StepMoves(s, h, v);
      RewriteRemovesHash(Step(s, h, v), h, v);
    }
  }

  // ----- When the loop ends

  function Iterate(s: bytes, h: u32, v: u32, n: nat): bytes
    decreases n
  {
    if n == 0 then s else Iterate(Step(s, h, v), h, v, n - 1)
  }

  /** The code's loop reaches a script without the hash exactly when the
      replacement differs from the hash or the hash never occurred. */
  lemma LoopEndsIffReplacementDiffers(s: bytes, h: u32, v: u32)
    ensures (exists n: nat :: !Occurs(Iterate(s, h, v, n), h)) <==> h != v || !Occurs(s, h)
  {
    if !Occurs(s, h) {
      assert Iterate(s, h, v, 0) == s;
    } else if h != v {
      var n := StepsToEnd(s, h, v);
    } else {
      forall n: nat
        ensures Occurs(Iterate(s, h, v, n), h)
      {
        StuckForever(s, h, n);
      }
    }
  }

  lemma {:induction false} StepsToEnd(s: bytes, h: u32, v: u32) returns (n: nat)
    requires h != v
    ensures !Occurs(Iterate(s, h, v, n), h) && Iterate(s, h, v, n) == Rewrite(s, h, v)
    decreases Fuel(s, h, v)
  {
    FirstHashIsLeast(s, h);
    if Occurs(s, h) {
      StepMoves(s, h, v);
      n := StepsToEnd(Step(s, h, v), h, v);
      n := n + 1;
    } else {
      n := 0;
    }
  }

  lemma {:induction false} StuckForever(s: bytes, h: u32, n: nat)
    requires Occurs(s, h)
    ensures Iterate(s, h, h, n) == s
  {
    if n != 0 {
      FirstHashIsLeast(s, h);
      Put32Same(s, FirstHash(s, h).value);
      StuckForever(s, h, n - 1);
    }
  }

  // ----- The whole-script loop agrees with a single pass

  /** The single pass a reader expects: replace and move past the replacement. */
  function OnePass(s: bytes, h: u32, v: u32, from: nat): (r: bytes)
    ensures |r| == |s|
    decreases |s| - from
  {
    if from + 4 > |s| then s
    else if Get32(s, from) == h then OnePass(Put32(s, from, v), h, v, from + 4)
    else OnePass(s, h, v, from + 1)
  }

  /** A window that starts `d` bytes before the field `b` can read as `a`. */
  predicate Overlaps(a: bytes, b: bytes, d: nat)
    requires |a| == |b| == 4
  {
    match d
    case 1 => a[1] == b[0] && a[2] == b[1] && a[3] == b[2]
    case 2 => a[2] == b[0] && a[3] == b[1]
    case 3 => a[3] == b[0]
    case _ => false
  }

  /** No window that overlaps a written replacement, on either side, can read as
      the hash, but for windows before it that read as the hash already. */
  predicate SinglePass(h: u32, v: u32) {
    var a, b := Le32(h), Le32(v);
    forall d :: 1 <= d <= 3 ==> (Overlaps(a, b, d) ==> Overlaps(a, a, d)) && !Overlaps(b, a, d)
  }

  lemma WindowBytes(s: bytes, p: nat, h: u32)
    requires OccursAt(s, p, h)
    ensures forall i :: 0 <= i < 4 ==> s[p + i] == Le32(h)[i]
  {
    MatchIsOccurrence(s, p, h);
    var w := s[p..p + 4];
    assert s[p] == w[0] && s[p + 1] == w[1] && s[p + 2] == w[2] && s[p + 3] == w[3];
  }

  lemma BytesOfBoth(s: bytes, o: nat, v: u32, q: nat, h: u32)
    requires o + 4 <= |s| && OccursAt(Put32(s, o, v), q, h)
    ensures var r, a, b := Put32(s, o, v), Le32(h), Le32(v);
      && r[q] == a[0] && r[q + 1] == a[1] && r[q + 2] == a[2] && r[q + 3] == a[3]
      && r[o] == b[0] && r[o + 1] == b[1] && r[o + 2] == b[2] && r[o + 3] == b[3]
  {
    var r := Put32(s, o, v);
    WindowBytes(r, q, h);
    WindowBytes(r, o, v);
  }

  lemma OverlapsAfter(s: bytes, o: nat, h: u32, v: u32, q: nat)
    requires o + 4 <= |s| && OccursAt(Put32(s, o, v), q, h) && o < q < o + 4
    ensures Overlaps(Le32(v), Le32(h), q - o)
  {
    BytesOfBoth(s, o, v, q, h);
  }

  /** Written over the first occurrence, a replacement that one pass can handle
      leaves no occurrence up to its own end. */
  lemma NoneUpToEnd(s: bytes, o: nat, h: u32, v: u32, q: nat)
    requires OccursAt(s, o, h) && (forall p: nat :: p < o ==> !OccursAt(s, p, h))
    requires h != v && SinglePass(h, v) && q < o + 4
    ensures !OccursAt(Put32(s, o, v), q, h)
  {
    hide Le32, Get32;
    if OccursAt(Put32(s, o, v), q, h) {
      if o < q {
        OverlapsAfter(s, o, h, v, q);
        assert false;
      }
      BytesOfBoth(s, o, v, q, h);
      WindowBytes(s, o, h);
      if q < o < q + 4 {
        assert Overlaps(Le32(h), Le32(v), o - q);
        assert Overlaps(Le32(h), Le32(h), o - q);
        SameWindow(s, q, h);
        assert false;
      } else if q + 4 <= o {
        SameWindow(s, q, h);
        assert false;
      }
    }
  }

  /** A window with the bytes of the hash is an occurrence. */
  lemma SameWindow(s: bytes, p: nat, h: u32)
    requires p + 4 <= |s| && forall i :: 0 <= i < 4 ==> s[p + i] == Le32(h)[i]
    ensures OccursAt(s, p, h)
  {
    MatchIsOccurrence(s, p, h);
  }

  lemma {:induction false} PassFromFirst(s: bytes, h: u32, v: u32, from: nat, o: nat)
    requires from <= o && OccursAt(s, o, h)
    requires forall q :: from <= q < o ==> !OccursAt(s, q, h)
    ensures OnePass(s, h, v, from) == OnePass(Put32(s, o, v), h, v, o + 4)
    decreases o - from
  {
    if from < o {
      assert !OccursAt(s, from, h);
      PassFromFirst(s, h, v, from + 1, o);
    }
  }

  lemma {:induction false} PassWithoutHash(s: bytes, h: u32, v: u32, from: nat)
    requires !Occurs(s, h)
    ensures OnePass(s, h, v, from) == s
    decreases |s| - from
  {
    if from + 4 <= |s| {
      assert !OccursAt(s, from, h);
      PassWithoutHash(s, h, v, from + 1);
    }
  }

  /** Rewriting until absent is one pass, when no written replacement can join
      with its surroundings into the hash. */
  lemma {:induction false} RewriteIsOnePass(s: bytes, h: u32, v: u32, from: nat)
    requires h != v && SinglePass(h, v)
    requires forall q: nat :: q < from ==> !OccursAt(s, q, h)
    ensures Rewrite(s, h, v) == OnePass(s, h, v, from)
    decreases Fuel(s, h, v)
  {
    hide SinglePass, Fuel;
    FirstHashIsLeast(s, h);
    if Occurs(s, h) {
      var o := FirstHash(s, h).value;
      var r := Put32(s, o, v);
      StepMoves(s, h, v);
      forall q: nat | q < o + 4
        ensures !OccursAt(r, q, h)
      {
        NoneUpToEnd(s, o, h, v, q);
      }
      RewriteIsOnePass(r, h, v, o + 4);
      PassFromFirst(s, h, v, from, o);
    } else {
      PassWithoutHash(s, h, v, from);
    }
  }

  /** The window before: the hash with its own first `d` bytes put in front. */
  lemma BorderBefore(h: u32, v: u32, d: nat) returns (s: bytes)
    requires h != v && Overlaps(Le32(h), Le32(v), d) && !Overlaps(Le32(h), Le32(h), d)
    ensures Rewrite(s, h, v) != OnePass(s, h, v, 0)
  {
    hide Get32, Le32, Rewrite;
    var a, b := Le32(h), Le32(v);
    s := a[..d] + a;
    forall i | 0 <= i < 4
      ensures s[d + i] == a[i]
    {
    }
    SameWindow(s, d, h);
    forall q: nat | q < d
      ensures !OccursAt(s, q, h)
    {
      if OccursAt(s, q, h) {
        WindowBytes(s, q, h);
      }
    }
    PassFromFirst(s, h, v, 0, d);
    var r := Put32(s, d, v);
    assert OnePass(s, h, v, 0) == r;
    PutWindow(s, d, v);
    forall i | 0 <= i < 4
      ensures r[i] == a[i]
    {
      assert i < d ==> r[i] == s[i];
      assert i >= d ==> r[i] == b[i - d];
    }
    SameWindow(r, 0, h);
    RewriteRemovesHash(s, h, v);
  }

  lemma PutWindow(s: bytes, o: nat, v: u32)
    requires o + 4 <= |s|
    ensures forall i :: 0 <= i < 4 ==> Put32(s, o, v)[o + i] == Le32(v)[i]
  {
    WindowBytes(Put32(s, o, v), o, v);
  }

  /** The window after: the hash with its own last `d` bytes put behind. */
  lemma BorderAfter(h: u32, v: u32, d: nat) returns (s: bytes)
    requires h != v && Overlaps(Le32(v), Le32(h), d)
    ensures Rewrite(s, h, v) != OnePass(s, h, v, 0)
  {
    hide Get32, Le32, Rewrite;
    var a, b := Le32(h), Le32(v);
    s := a + a[4 - d..];
    SameWindow(s, 0, h);
    PassFromFirst(s, h, v, 0, 0);
    var r := Put32(s, 0, v);
    assert OnePass(s, h, v, 0) == r;
    PutWindow(s, 0, v);
    assert r[0] == b[0] && r[1] == b[1] && r[2] == b[2] && r[3] == b[3];
    forall i | 0 <= i < 4
      ensures r[d + i] == a[i]
    {
      assert d + i >= 4 ==> r[d + i] == s[d + i] == a[i];
    }
    SameWindow(r, d, h);
    RewriteRemovesHash(s, h, v);
  }

  /** Any other replacement recreates the hash somewhere, where one pass is not
      enough. */
  lemma BorderedNeedsMoreThanOnePass(h: u32, v: u32)
    requires h != v && !SinglePass(h, v)
    ensures exists s: bytes :: Rewrite(s, h, v) != OnePass(s, h, v, 0)
  {
    var a, b := Le32(h), Le32(v);
    var d :| 1 <= d <= 3 && !((Overlaps(a, b, d) ==> Overlaps(a, a, d)) && !Overlaps(b, a, d));
    if Overlaps(b, a, d) {
      var s := BorderAfter(h, v, d);
    } else {
      var s := BorderBefore(h, v, d);
    }
  }

  /** One pass does what the loop does, on every script, exactly for these pairs. */
  lemma OnePassSufficesIff(h: u32, v: u32)
    requires h != v
    ensures (forall s: bytes :: Rewrite(s, h, v) == OnePass(s, h, v, 0)) <==> SinglePass(h, v)
  {
    hide SinglePass;
    if SinglePass(h, v) {
      forall s: bytes
        ensures Rewrite(s, h, v) == OnePass(s, h, v, 0)
      {
        RewriteIsOnePass(s, h, v, 0);
      }
    } else {
      BorderedNeedsMoreThanOnePass(h, v);
    }
  }

  // ----- Entry by entry

  /** One table entry; none when the code's loop would never end. */
  function RewriteEntry(s: bytes, h: u32, v: u32): (r: Option<bytes>)
    ensures r.Some? ==> |r.value| == |s|
  {
    if h != v then
      RewriteRemovesHash(s, h, v);
      Some(Rewrite(s, h, v))
    else if FirstHash(s, h).None? then Some(s)
    else None
  }

  /** An entry is the program's loop: its answer is the first script without the hash, and
      there is none exactly when every turn leaves one with it. */
  lemma EntryIsLoop(s: bytes, h: u32, v: u32)
    ensures RewriteEntry(s, h, v).None? <==> forall n: nat :: Occurs(Iterate(s, h, v, n), h)
    ensures RewriteEntry(s, h, v).Some? ==>
      && !Occurs(RewriteEntry(s, h, v).value, h)
      && exists n: nat :: Iterate(s, h, v, n) == RewriteEntry(s, h, v).value
  {
    hide Occurs;
    FirstHashIsLeast(s, h);
    LoopEndsIffReplacementDiffers(s, h, v);
    if h != v {
      RewriteRemovesHash(s, h, v);
      var n := StepsToEnd(s, h, v);
    } else {
      assert Iterate(s, h, v, 0) == s;
    }
  }

  /** Entries one after the other, stopping at one that never ends. */
  function RewriteEntries(s: bytes, entries: seq<(u32, u32)>): (r: Option<bytes>)
    ensures r.Some? ==> |r.value| == |s|
    decreases |entries|
  {
    if entries == [] then Some(s)
    else
      var n := |entries| - 1;
      match RewriteEntries(s, entries[..n])
      case None => None
      case Some(t) => RewriteEntry(t, entries[n].0, entries[n].1)
  }

  lemma NoEntries(s: bytes)
    ensures RewriteEntries(s, []) == Some(s)
  {
  }

  /** The entries of a table, in the order in which its texts are taken. */
  function Entries(hashes: map<bytes, u32>, order: seq<bytes>): (r: seq<(u32, u32)>)
    requires forall i :: 0 <= i < |order| ==> order[i] in hashes
    ensures |r| == |order|
  {
    seq(|order|, i requires 0 <= i < |order| => (HashMini.HashT7(order[i]), hashes[order[i]]))
  }

  /** Some order of the whole table. */
  ghost predicate TableOrder(hashes: map<bytes, u32>, order: seq<bytes>) {
    && (forall i :: 0 <= i < |order| ==> order[i] in hashes)
    && multiset(order) == multiset(hashes.Keys)
  }

  lemma EntriesMore(hashes: map<bytes, u32>, order: seq<bytes>, str: bytes)
    requires str in hashes && forall i :: 0 <= i < |order| ==> order[i] in hashes
    ensures Entries(hashes, order + [str]) == Entries(hashes, order) + [(HashMini.HashT7(str), hashes[str])]
  {
  }

  lemma EntriesStep(s: bytes, entries: seq<(u32, u32)>, h: u32, v: u32)
    ensures RewriteEntries(s, entries + [(h, v)]) ==
      match RewriteEntries(s, entries)
      case None => None
      case Some(t) => RewriteEntry(t, h, v)
  {
    assert (entries + [(h, v)])[..|entries|] == entries;
  }

  // ----- Bytes no hash can reach

  /** The word at `p` holds one of the bytes. */
  predicate Meets(keep: set<nat>, p: nat) {
    p in keep || p + 1 in keep || p + 2 in keep || p + 3 in keep
  }

  /** One of these bytes in the word at `p` is not the hash's. */
  predicate Misses(s: bytes, keep: set<nat>, p: nat, h: u32)
    requires p + 4 <= |s|
  {
    var w := Le32(h);
    || (p in keep && s[p] != w[0]) || (p + 1 in keep && s[p + 1] != w[1])
    || (p + 2 in keep && s[p + 2] != w[2]) || (p + 3 in keep && s[p + 3] != w[3])
  }

  /** These bytes alone rule the hash out of every word that holds one of them. */
  ghost predicate RuledOut(s: bytes, keep: set<nat>, h: u32) {
    forall p: nat :: p + 4 <= |s| && Meets(keep, p) ==> Misses(s, keep, p, h)
  }

  ghost predicate SameOn(s: bytes, t: bytes, keep: set<nat>) {
    |t| == |s| && forall k: nat :: k in keep && k < |s| ==> t[k] == s[k]
  }

  lemma StillRuledOut(s: bytes, t: bytes, keep: set<nat>, h: u32)
    requires RuledOut(s, keep, h) && SameOn(s, t, keep)
    ensures RuledOut(t, keep, h)
  {
    hide Le32;
    forall p: nat | p + 4 <= |t| && Meets(keep, p)
      ensures Misses(t, keep, p, h)
    {
      assert Misses(s, keep, p, h);
    }
  }

  lemma TurnSpares(s: bytes, o: nat, h: u32, v: u32, keep: set<nat>)
    requires OccursAt(s, o, h) && RuledOut(s, keep, h)
    ensures SameOn(s, Put32(s, o, v), keep)
  {
    hide Le32, Get32, Put32;
    MatchIsOccurrence(s, o, h);
    assert s[o..o + 4] == Le32(h);
    assert !Misses(s, keep, o, h) by {
      assert s[o..o + 4][0] == s[o] && s[o..o + 4][1] == s[o + 1];
      assert s[o..o + 4][2] == s[o + 2] && s[o..o + 4][3] == s[o + 3];
    }
  }

  lemma {:induction false} RewriteSpares(s: bytes, h: u32, v: u32, keep: set<nat>)
    requires h != v && RuledOut(s, keep, h)
    ensures SameOn(s, Rewrite(s, h, v), keep)
    decreases Fuel(s, h, v)
  {
    hide Fuel, Put32, RuledOut, OccursAt;
    RewriteTurn(s, h, v);
    if FirstHash(s, h).Some? {
      FirstHashIsLeast(s, h);
      var t := Put32(s, FirstHash(s, h).value, v);
      TurnSpares(s, FirstHash(s, h).value, h, v, keep);
      StillRuledOut(s, t, keep, h);
      RewriteSpares(t, h, v, keep);
    }
  }

  /** When these bytes rule every hash of the table out, no entry, in whatever order
      and however often replacements join into further hashes, changes one of them. */
  lemma {:induction false} EntriesSpare(s: bytes, entries: seq<(u32, u32)>, keep: set<nat>)
    requires forall i :: 0 <= i < |entries| ==> RuledOut(s, keep, entries[i].0)
    requires RewriteEntries(s, entries).Some?
    ensures SameOn(s, RewriteEntries(s, entries).value, keep)
    decreases |entries|
  {
    hide RuledOut;
    if entries != [] {
      var n := |entries| - 1;
      EntriesSpare(s, entries[..n], keep);
      var t := RewriteEntries(s, entries[..n]).value;
      StillRuledOut(s, t, keep, entries[n].0);
      if entries[n].0 != entries[n].1 {
        RewriteSpares(t, entries[n].0, entries[n].1, keep);
      }
    }
  }

  /** After all entries the last one's hash is gone and the length is kept. */
  lemma LastEntryGone(s: bytes, entries: seq<(u32, u32)>)
    requires entries != [] && RewriteEntries(s, entries).Some?
    ensures !Occurs(RewriteEntries(s, entries).value, entries[|entries| - 1].0)
  {
    var n := |entries| - 1;
    var t := RewriteEntries(s, entries[..n]).value;
    var (h, v) := entries[n];
    FirstHashIsLeast(t, h);
    if h != v {
      RewriteRemovesHash(t, h, v);
    }
  }

  // ----- Hashes of earlier entries

  /** The hash `h` behind the first `d` bytes of another hash. */
  function Before(g: u32, h: u32, d: nat): (r: bytes)
    requires 1 <= d <= 3
    ensures |r| == 4 + d
  {
    Le32(g)[..d] + Le32(h)
  }

  /** The hash `h` before the last `d` bytes of another hash. */
  function Behind(g: u32, h: u32, d: nat): (r: bytes)
    requires 1 <= d <= 3
    ensures |r| == 4 + d
  {
    Le32(h) + Le32(g)[4 - d..]
  }

  /** Written over `h`, the replacement `v` can join with the bytes around it into
      the hash `g`: on one side or the other it overlaps with `g`, and the few bytes
      concerned did not hold `g` before. */
  predicate Joins(g: u32, h: u32, v: u32) {
    exists d :: 1 <= d <= 3 && (JoinsBefore(g, h, v, d) || JoinsBehind(g, h, v, d))
  }

  predicate JoinsBefore(g: u32, h: u32, v: u32, d: nat)
    requires 1 <= d <= 3
  {
    Overlaps(Le32(g), Le32(v), d) && FirstHash(Before(g, h, d), h) == Some(d) && FirstHash(Before(g, h, d), g).None?
  }

  predicate JoinsBehind(g: u32, h: u32, v: u32, d: nat)
    requires 1 <= d <= 3
  {
    Overlaps(Le32(v), Le32(g), d) && FirstHash(Behind(g, h, d), g).None?
  }

  /** Enough for that not to happen: an overlap with the replacement was already one
      with what it replaces. */
  predicate OverlapsAlready(g: u32, h: u32, v: u32) {
    var a, b, c := Le32(g), Le32(h), Le32(v);
    forall d :: 1 <= d <= 3 ==> (Overlaps(a, c, d) ==> Overlaps(a, b, d)) && (Overlaps(c, a, d) ==> Overlaps(b, a, d))
  }

  lemma BeforeHolds(g: u32, h: u32, d: nat)
    requires 1 <= d <= 3 && Overlaps(Le32(g), Le32(h), d)
    ensures OccursAt(Before(g, h, d), 0, g)
  {
    hide Le32, Get32;
    var w, a := Before(g, h, d), Le32(g);
    forall i | 0 <= i < 4
      ensures w[i] == a[i]
    {
      assert i >= d ==> w[i] == Le32(h)[i - d];
    }
    SameWindow(w, 0, g);
  }

  lemma BehindHolds(g: u32, h: u32, d: nat)
    requires 1 <= d <= 3 && Overlaps(Le32(h), Le32(g), d)
    ensures OccursAt(Behind(g, h, d), d, g)
  {
    hide Le32, Get32;
    var w, a := Behind(g, h, d), Le32(g);
    forall i | 0 <= i < 4
      ensures w[d + i] == a[i]
    {
      assert d + i >= 4 ==> w[d + i] == a[4 - d..][d + i - 4];
    }
    SameWindow(w, d, g);
  }

  lemma OverlapsAlreadyIsEnough(g: u32, h: u32, v: u32)
    requires OverlapsAlready(g, h, v)
    ensures !Joins(g, h, v)
  {
    hide Le32, Get32, Before, Behind;
    forall d | 1 <= d <= 3
      ensures !JoinsBefore(g, h, v, d) && !JoinsBehind(g, h, v, d)
    {
      FirstHashIsLeast(Before(g, h, d), g);
      FirstHashIsLeast(Behind(g, h, d), g);
      if Overlaps(Le32(g), Le32(v), d) {
        BeforeHolds(g, h, d);
      }
      if Overlaps(Le32(v), Le32(g), d) {
        BehindHolds(g, h, d);
      }
    }
  }

  /** The bytes an occurrence that was written over shares with a hash in front. */
  lemma WindowBefore(s: bytes, o: nat, h: u32, v: u32, g: u32, q: nat)
    requires FirstHash(s, h) == Some(o) && o + 4 <= |s| && !Occurs(s, g)
    requires OccursAt(Put32(s, o, v), q, g) && q < o < q + 4
    ensures JoinsBefore(g, h, v, o - q)
  {
    hide Le32, Get32, FirstHash;
    var d := o - q;
    var w := Before(g, h, d);
    FirstHashIsLeast(s, h);
    BytesOfBoth(s, o, v, q, g);
    WindowBytes(s, o, h);
    assert Overlaps(Le32(g), Le32(v), d);
    forall i | 0 <= i < 4 + d
      ensures w[i] == s[q + i]
    {
      if i >= d {
        assert w[i] == Le32(h)[i - d];
      }
    }
    WindowInside(s, w, q, h);
    WindowInside(s, w, q, g);
    WindowFirst(s, w, q, h, d);
    FirstHashIsLeast(w, g);
  }

  /** Where a piece of a script holds a hash, the script does. */
  lemma WindowInside(s: bytes, w: bytes, q: nat, x: u32)
    requires q + |w| <= |s| && forall i :: 0 <= i < |w| ==> w[i] == s[q + i]
    ensures forall p: nat :: OccursAt(w, p, x) ==> OccursAt(s, q + p, x)
  {
    hide Le32, Get32;
    forall p: nat | OccursAt(w, p, x)
      ensures OccursAt(s, q + p, x)
    {
      WindowBytes(w, p, x);
      forall i | 0 <= i < 4
        ensures s[q + p + i] == Le32(x)[i]
      {
        assert s[q + (p + i)] == w[p + i];
      }
      SameWindow(s, q + p, x);
    }
  }

  lemma WindowFirst(s: bytes, w: bytes, q: nat, h: u32, d: nat)
    requires q + |w| <= |s| && |w| == 4 + d && forall i :: 0 <= i < 4 ==> w[d + i] == Le32(h)[i]
    requires forall p: nat :: OccursAt(w, p, h) ==> OccursAt(s, q + p, h)
    requires FirstHash(s, h) == Some(q + d)
    ensures FirstHash(w, h) == Some(d)
  {
    hide Le32, Get32;
    FirstHashIsLeast(s, h);
    FirstHashIsLeast(w, h);
    SameWindow(w, d, h);
  }

  lemma WindowBehind(s: bytes, o: nat, h: u32, v: u32, g: u32, q: nat)
    requires FirstHash(s, h) == Some(o) && o + 4 <= |s| && !Occurs(s, g)
    requires OccursAt(Put32(s, o, v), q, g) && o < q < o + 4
    ensures JoinsBehind(g, h, v, q - o)
  {
    hide Le32, Get32, FirstHash;
    var d := q - o;
    var w := Behind(g, h, d);
    FirstHashIsLeast(s, h);
    BytesOfBoth(s, o, v, q, g);
    WindowBytes(s, o, h);
    assert Overlaps(Le32(v), Le32(g), d);
    forall i | 0 <= i < 4 + d
      ensures w[i] == s[o + i]
    {
      if i >= 4 {
        assert w[i] == Le32(g)[4 - d..][i - 4];
      }
    }
    WindowInside(s, w, o, g);
    FirstHashIsLeast(w, g);
  }

  /** One turn brings an absent hash back only as the replacement itself or by
      joining. */
  lemma TurnBringsOnlyByJoin(s: bytes, h: u32, v: u32, g: u32)
    requires FirstHash(s, h).Some? && !Occurs(s, g) && g != v && !Joins(g, h, v)
    ensures var o := FirstHash(s, h).value; o + 4 <= |s| && !Occurs(Put32(s, o, v), g)
  {
    hide Le32, Get32, FirstHash, JoinsBefore, JoinsBehind;
    FirstHashIsLeast(s, h);
    var o := FirstHash(s, h).value;
    forall q: nat
      ensures !OccursAt(Put32(s, o, v), q, g)
    {
      if OccursAt(Put32(s, o, v), q, g) {
        OnlyAcross(s, o, v, q, g);
        if q < o {
          WindowBefore(s, o, h, v, g, q);
        } else {
          WindowBehind(s, o, h, v, g, q);
        }
      }
    }
  }

  lemma OnlyAcross(s: bytes, o: nat, v: u32, q: nat, g: u32)
    requires o + 4 <= |s| && OccursAt(Put32(s, o, v), q, g) && !Occurs(s, g) && g != v
    ensures q < o < q + 4 || o < q < o + 4
  {
    hide Le32;
    if q + 4 <= o || o + 4 <= q {
      assert OccursAt(s, q, g) by {
        Put32Elsewhere(s, o, v, q);
      }
      assert false;
    }
  }

  /** Rewriting one hash leaves another one absent, when its replacement neither is
      that other hash nor can join into it. */
  lemma {:induction false} OtherHashStaysGone(s: bytes, h: u32, v: u32, g: u32)
    requires h != v && g != v && !Joins(g, h, v) && !Occurs(s, g)
    ensures !Occurs(Rewrite(s, h, v), g)
    decreases Fuel(s, h, v)
  {
    hide Joins, Fuel, Get32, Occurs;
    RewriteTurn(s, h, v);
    if FirstHash(s, h).Some? {
      TurnBringsOnlyByJoin(s, h, v, g);
      OtherHashStaysGone(Put32(s, FirstHash(s, h).value, v), h, v, g);
    }
  }

  /** A replacement that was written at all is there in the end. */
  lemma {:induction false} ReplacementStays(s: bytes, h: u32, v: u32)
    requires h != v && (Occurs(s, h) || Occurs(s, v))
    ensures Occurs(Rewrite(s, h, v), v)
    decreases Fuel(s, h, v)
  {
    hide Fuel, Get32;
    FirstHashIsLeast(s, h);
    if Occurs(s, h) {
      var o := FirstHash(s, h).value;
      var r := Put32(s, o, v);
      StepMoves(s, h, v);
      assert OccursAt(r, o, v) by {
        PutIsOccurrence(s, o, v);
      }
      FirstHashIsLeast(r, h);
      ReplacementStays(r, h, v);
    }
  }

  lemma PutIsOccurrence(s: bytes, o: nat, v: u32)
    requires o + 4 <= |s|
    ensures OccursAt(Put32(s, o, v), o, v)
  {
  }

  /** A script the hash is absent from, that a join brings it back in. */
  lemma JoinBringsBack(g: u32, h: u32, v: u32) returns (s: bytes)
    requires h != v && g != v && Joins(g, h, v)
    ensures FirstHash(s, h).Some? && FirstHash(s, h).value + 4 <= |s| && !Occurs(s, g)
    ensures Occurs(Put32(s, FirstHash(s, h).value, v), g)
  {
    hide Le32, Get32, FirstHash;
    var d :| 1 <= d <= 3 && (JoinsBefore(g, h, v, d) || JoinsBehind(g, h, v, d));
    if JoinsBefore(g, h, v, d) {
      s := Before(g, h, d);
      FirstHashIsLeast(s, g);
      PutBefore(g, h, v, d);
    } else {
      s := Behind(g, h, d);
      FirstHashIsLeast(s, g);
      FirstHashIsLeast(s, h);
      SameWindow(s, 0, h);
      PutBehind(g, h, v, d);
    }
  }

  lemma PutBefore(g: u32, h: u32, v: u32, d: nat)
    requires 1 <= d <= 3 && Overlaps(Le32(g), Le32(v), d)
    ensures OccursAt(Put32(Before(g, h, d), d, v), 0, g)
  {
    hide Le32, Get32, Put32;
    var w, a := Before(g, h, d), Le32(g);
    var r := Put32(w, d, v);
    PutWindow(w, d, v);
    forall i | 0 <= i < 4
      ensures r[i] == a[i]
    {
      if i < d {
        assert r[i] == w[i];
      } else {
        assert r[i] == Le32(v)[i - d];
      }
    }
    SameWindow(r, 0, g);
  }

  lemma PutBehind(g: u32, h: u32, v: u32, d: nat)
    requires 1 <= d <= 3 && Overlaps(Le32(v), Le32(g), d)
    ensures OccursAt(Put32(Behind(g, h, d), 0, v), d, g)
  {
    hide Le32, Get32, Put32;
    var w, a := Behind(g, h, d), Le32(g);
    var r := Put32(w, 0, v);
    PutWindow(w, 0, v);
    forall i | 0 <= i < 4
      ensures r[d + i] == a[i]
    {
      if d + i >= 4 {
        assert r[d + i] == w[d + i] == a[4 - d..][d + i - 4];
      } else {
        assert r[d + i] == Le32(v)[d + i];
      }
    }
    SameWindow(r, d, g);
  }

  /** Some turn of the loop brings an absent hash back, on some script, exactly when
      the replacement is that hash or can join into it. */
  lemma TurnBringsBackIff(g: u32, h: u32, v: u32)
    requires h != v && g != h
    ensures (exists s: bytes :: !Occurs(s, g) && Occurs(Step(s, h, v), g)) <==> g == v || Joins(g, h, v)
  {
    hide Joins, Get32, FirstHash;
    if g == v {
      var s := Le32(h);
      OneWindow(s, h);
      FirstHashIsLeast(s, h);
      PutIsOccurrence(s, FirstHash(s, h).value, v);
      assert !Occurs(s, g) && Occurs(Step(s, h, v), g);
    } else if Joins(g, h, v) {
      var s := JoinBringsBack(g, h, v);
      assert !Occurs(s, g) && Occurs(Step(s, h, v), g);
    } else {
      forall s: bytes | !Occurs(s, g)
        ensures !Occurs(Step(s, h, v), g)
      {
        if FirstHash(s, h).Some? {
          TurnBringsOnlyByJoin(s, h, v, g);
        }
      }
    }
  }

  /** The whole loop brings an absent hash back, on some script, exactly then, for a
      replacement that one pass can handle. */
  lemma LoopBringsBackIff(g: u32, h: u32, v: u32)
    requires h != v && g != h && SinglePass(h, v)
    ensures (exists s: bytes :: !Occurs(s, g) && Occurs(Rewrite(s, h, v), g)) <==> g == v || Joins(g, h, v)
  {
    hide Joins, SinglePass, Get32, FirstHash;
    if g == v {
      var s := Le32(h);
      OneWindow(s, h);
      ReplacementStays(s, h, v);
    } else if Joins(g, h, v) {
      var s := JoinSurvives(g, h, v);
    } else {
      forall s: bytes | !Occurs(s, g)
        ensures !Occurs(Rewrite(s, h, v), g)
      {
        OtherHashStaysGone(s, h, v, g);
      }
    }
  }

  /** The joined hash is there in the end: nothing is left to overwrite. */
  lemma JoinSurvives(g: u32, h: u32, v: u32) returns (s: bytes)
    requires h != v && g != v && g != h && SinglePass(h, v) && Joins(g, h, v)
    ensures |s| <= 7 && !Occurs(s, g) && Occurs(s, h) && Occurs(Rewrite(s, h, v), g)
  {
    hide Le32, Get32, FirstHash, SinglePass;
    var d :| 1 <= d <= 3 && (JoinsBefore(g, h, v, d) || JoinsBehind(g, h, v, d));
    if JoinsBefore(g, h, v, d) {
      s := Before(g, h, d);
      FirstHashIsLeast(s, g);
      FirstHashIsLeast(s, h);
      PutBefore(g, h, v, d);
      LastTurn(s, d, h, v);
    } else {
      s := Behind(g, h, d);
      FirstHashIsLeast(s, g);
      FirstHashIsLeast(s, h);
      SameWindow(s, 0, h);
      PutBehind(g, h, v, d);
      LastTurn(s, 0, h, v);
    }
  }

  lemma LastTurn(s: bytes, o: nat, h: u32, v: u32)
    requires h != v && SinglePass(h, v) && FirstHash(s, h) == Some(o) && o + 4 <= |s| <= 7
    requires |s| < o + 8
    ensures Rewrite(s, h, v) == Put32(s, o, v)
  {
    hide SinglePass, Get32;
    FirstHashIsLeast(s, h);
    var r := Put32(s, o, v);
    forall q: nat
      ensures !OccursAt(r, q, h)
    {
      if q < o + 4 {
        NoneUpToEnd(s, o, h, v, q);
      }
    }
    FirstHashIsLeast(r, h);
    RewriteTurn(s, h, v);
    RewriteTurn(r, h, v);
  }

  /** When an entry brings an absent hash back that its replacement cannot join into:
      exactly when the replacement is that hash and the entry's own hash occurs. */
  lemma HashRestoredIff(s: bytes, h: u32, v: u32, g: u32)
    requires h != v && !Occurs(s, g) && !Joins(g, h, v)
    ensures Occurs(Rewrite(s, h, v), g) <==> g == v && Occurs(s, h)
  {
    hide Joins, Fuel, Get32;
    FirstHashIsLeast(s, h);
    if g != v {
      OtherHashStaysGone(s, h, v, g);
    } else if Occurs(s, h) {
      ReplacementStays(s, h, v);
    }
  }

  /** The hashes of the entries are different, and no later replacement can join
      into the hash of an earlier entry. */
  ghost predicate EntriesApart(entries: seq<(u32, u32)>) {
    forall i, j :: 0 <= i < j < |entries| ==>
      entries[i].0 != entries[j].0 && !Joins(entries[i].0, entries[j].0, entries[j].1)
  }

  /** No later entry writes the hash of an earlier one. */
  ghost predicate NoneRestored(entries: seq<(u32, u32)>) {
    forall i, j :: 0 <= i < j < |entries| ==> entries[j].1 != entries[i].0
  }

  ghost predicate AllGone(s: bytes, entries: seq<(u32, u32)>) {
    forall i :: 0 <= i < |entries| ==> !Occurs(s, entries[i].0)
  }

  lemma EntriesFront(entries: seq<(u32, u32)>)
    requires entries != []
    ensures EntriesApart(entries) ==> EntriesApart(entries[..|entries| - 1])
    ensures NoneRestored(entries) ==> NoneRestored(entries[..|entries| - 1])
  {
    hide Joins;
    var front := entries[..|entries| - 1];
    assert forall i :: 0 <= i < |front| ==> front[i] == entries[i];
  }

  /** After all entries no listed hash occurs, when no later replacement is, or can
      join into, an earlier hash. */
  lemma {:induction false} EntriesAllGone(s: bytes, entries: seq<(u32, u32)>)
    requires EntriesApart(entries) && NoneRestored(entries) && RewriteEntries(s, entries).Some?
    ensures AllGone(RewriteEntries(s, entries).value, entries)
    decreases |entries|
  {
    hide Joins, Occurs, FirstHash;
    if entries != [] {
      var n := |entries| - 1;
      EntriesFront(entries);
      EntriesAllGone(s, entries[..n]);
      LastEntryGone(s, entries);
      var t := RewriteEntries(s, entries[..n]).value;
      var (h, v) := entries[n];
      forall i | 0 <= i < n
        ensures !Occurs(RewriteEntries(s, entries).value, entries[i].0)
      {
        assert entries[..n][i] == entries[i];
        if h != v {
          OtherHashStaysGone(t, h, v, entries[i].0);
        }
      }
    }
  }

  /** Four bytes hold one occurrence of one hash. */
  lemma OneWindow(s: bytes, x: u32)
    requires s == Le32(x)
    ensures forall h: u32 :: Occurs(s, h) <==> h == x
  {
    forall h: u32
      ensures Occurs(s, h) <==> h == x
    {
      assert OccursAt(s, 0, h) <==> h == x;
    }
  }

  lemma WindowRewritten(x: u32, v: u32)
    requires x != v
    ensures Rewrite(Le32(x), x, v) == Le32(v)
  {
    var s := Le32(x);
    OneWindow(s, x);
    FirstHashIsLeast(s, x);
    assert Step(s, x, v) == Le32(v);
    OneWindow(Le32(v), v);
    FirstHashIsLeast(Le32(v), x);
    StepMoves(s, x, v);
  }

  lemma EntryIgnored(s: bytes, h: u32, v: u32)
    requires !Occurs(s, h)
    ensures RewriteEntry(s, h, v) == Some(s)
  {
    FirstHashIsLeast(s, h);
    if h != v {
      RewriteRemovesHash(s, h, v);
    }
  }

  /** A script that only the `j`-th entry changes. */
  lemma {:induction false} OneEntryRewrites(s: bytes, r: bytes, entries: seq<(u32, u32)>, j: nat, n: nat)
    requires j < |entries| && n <= |entries| && entries[j].0 != entries[j].1
    requires Rewrite(s, entries[j].0, entries[j].1) == r
    requires forall k :: 0 <= k < j ==> !Occurs(s, entries[k].0)
    requires forall k :: j < k < |entries| ==> !Occurs(r, entries[k].0)
    ensures RewriteEntries(s, entries[..n]) == Some(if n <= j then s else r)
    decreases n
  {
    hide Occurs, Rewrite, RewriteEntry;
    if n != 0 {
      assert entries[..n][..n - 1] == entries[..n - 1];
      OneEntryRewrites(s, r, entries, j, n - 1);
      if n - 1 < j {
        EntryIgnored(s, entries[n - 1].0, entries[n - 1].1);
      } else if n - 1 == j {
        EntryRewrites(s, entries[j].0, entries[j].1);
      } else {
        EntryIgnored(r, entries[n - 1].0, entries[n - 1].1);
      }
    }
  }

  lemma EntryRewrites(s: bytes, h: u32, v: u32)
    requires h != v
    ensures RewriteEntry(s, h, v) == Some(Rewrite(s, h, v))
  {
  }

  /** On every script all listed hashes end up absent exactly when no later entry
      writes the hash of an earlier one. */
  lemma AllGoneIffNoneRestored(entries: seq<(u32, u32)>)
    requires EntriesApart(entries)
    ensures (forall s: bytes :: RewriteEntries(s, entries).Some? ==> AllGone(RewriteEntries(s, entries).value, entries))
      <==> NoneRestored(entries)
  {
    hide AllGone, Joins, Occurs, Rewrite;
    if NoneRestored(entries) {
      forall s: bytes | RewriteEntries(s, entries).Some?
        ensures AllGone(RewriteEntries(s, entries).value, entries)
      {
        EntriesAllGone(s, entries);
      }
    } else {
      var i, j :| 0 <= i < j < |entries| && entries[j].1 == entries[i].0;
      var s, r := Le32(entries[j].0), Le32(entries[i].0);
      WindowRewritten(entries[j].0, entries[j].1);
      OneWindow(s, entries[j].0);
      OneWindow(r, entries[i].0);
      OneEntryRewrites(s, r, entries, j, |entries|);
      assert entries[..|entries|] == entries;
      SomeLeft(r, entries, i);
      assert !AllGone(RewriteEntries(s, entries).value, entries);
    }
  }

  lemma SomeLeft(s: bytes, entries: seq<(u32, u32)>, i: nat)
    requires i < |entries| && Occurs(s, entries[i].0)
    ensures !AllGone(s, entries)
  {
  }

  /** Two entries, the second one's replacement of the kind one pass can handle: both
      hashes end up absent from every script exactly when that replacement neither is
      the first hash nor can join into it. */
  lemma PairGoneIff(a: (u32, u32), b: (u32, u32))
    requires a.0 != b.0 && b.0 != b.1 && SinglePass(b.0, b.1)
    ensures (forall s: bytes :: RewriteEntries(s, [a, b]).Some? ==> AllGone(RewriteEntries(s, [a, b]).value, [a, b]))
      <==> b.1 != a.0 && !Joins(a.0, b.0, b.1)
  {
    hide AllGone, Joins, Occurs, Rewrite, SinglePass;
    var es := [a, b];
    if b.1 != a.0 && !Joins(a.0, b.0, b.1) {
      forall s: bytes | RewriteEntries(s, es).Some?
        ensures AllGone(RewriteEntries(s, es).value, es)
      {
        EntriesAllGone(s, es);
      }
    } else {
      LoopBringsBackIff(a.0, b.0, b.1);
      var s: bytes :| !Occurs(s, a.0) && Occurs(Rewrite(s, b.0, b.1), a.0);
      OneEntryRewrites(s, Rewrite(s, b.0, b.1), es, 1, 2);
      assert es[..2] == es;
      SomeLeft(Rewrite(s, b.0, b.1), es, 0);
    }
  }

  lemma FourWindows(s: bytes, h: u32)
    requires |s| == 7
    ensures Occurs(s, h) <==> Get32(s, 0) == h || Get32(s, 1) == h || Get32(s, 2) == h || Get32(s, 3) == h
  {
    assert Occurs(s, h) <==> OccursAt(s, 0, h) || OccursAt(s, 1, h) || OccursAt(s, 2, h) || OccursAt(s, 3, h);
  }

  lemma OverlapTurn(s: bytes, r: bytes)
    requires s == [1, 2, 3, 7, 7, 7, 7] && r == [1, 2, 3, 4, 8, 8, 8]
    ensures !Occurs(s, 0x04030201) && Occurs(r, 0x04030201) && !Occurs(r, 0x07070707)
    ensures OccursAt(s, 3, 0x07070707) && forall q: nat :: q < 3 ==> !OccursAt(s, q, 0x07070707)
  {
    FourWindows(s, 0x04030201);
    FourWindows(r, 0x07070707);
    FourWindows(r, 0x04030201);
  }

  /** An overlap alone: one byte of the later replacement completes the hash. */
  lemma OverlapRestores(s: bytes, es: seq<(u32, u32)>)
    requires s == [1, 2, 3, 7, 7, 7, 7] && es == [(0x04030201, 0x09090909), (0x07070707, 0x08080804)]
    ensures NoneRestored(es) && RewriteEntries(s, es).Some? && Occurs(RewriteEntries(s, es).value, es[0].0)
  {
    var r := Put32(s, 3, 0x08080804);
    assert r == [1, 2, 3, 4, 8, 8, 8];
    hide Get32, Put32, Occurs, OccursAt;
    OverlapTurn(s, r);
    FirstHashIsLeast(s, 0x07070707);
    FirstHashIsLeast(r, 0x07070707);
    RewriteTurn(s, 0x07070707, 0x08080804);
    RewriteTurn(r, 0x07070707, 0x08080804);
    OneEntryRewrites(s, r, es, 1, 2);
    assert es[..2] == es;
  }

  /** A later entry brings an earlier hash back in every script that holds its own
      hash, and no byte the first hash starts with. */
  lemma LaterEntryCanRestore(s: bytes, a: u32, b: u32, c: u32)
    requires a != b && a != c && Occurs(s, c) && Le32(a)[0] !in s
    ensures RewriteEntries(s, [(a, b), (c, a)]).Some? && Occurs(RewriteEntries(s, [(a, b), (c, a)]).value, a)
  {
    hide Le32, Get32;
    EntriesStep(s, [], a, b);
    EntriesStep(s, [(a, b)], c, a);
    assert [] + [(a, b)] == [(a, b)] && [(a, b)] + [(c, a)] == [(a, b), (c, a)];
    forall p: nat
      ensures !OccursAt(s, p, a)
    {
      if OccursAt(s, p, a) {
        WindowBytes(s, p, a);
      }
    }
    RewriteRemovesHash(s, a, b);
    ReplacementStays(s, c, a);
  }

  /** There is such a script that can be loaded: a header that counts no records,
      and the hash behind it. */
  lemma LoadableScriptRestored() returns (s: bytes, a: u32, b: u32, c: u32)
    ensures |s| >= HEADER_SIZE && Get64(s, 0) == VMI_T7_1C && Get16(s, EXPORT_COUNT) == Get16(s, IMPORT_COUNT) == 0
    ensures RewriteEntries(s, [(a, b), (c, a)]).Some? && Occurs(RewriteEntries(s, [(a, b), (c, a)]).value, a)
  {
    a, b, c := 1, 2, 3;
    s := [0x80, 0x47, 0x53, 0x43, 0x0d, 0x0a, 0x00, 0x1C] + Zeros(64) + [3, 0, 0, 0];
    assert s[58] == s[59] == s[60] == s[61] == 0;
    assert s[72] == 3 && s[73] == 0 && s[74] == 0 && s[75] == 0;
    assert OccursAt(s, 72, c);
    assert Le32(a)[0] == 1;
    assert forall k :: 8 <= k < 72 ==> s[k] == 0;
    LaterEntryCanRestore(s, a, b, c);
  }
}
