/** The events of the two dev-block passes, record by record, and the layout
    under which no event disturbs a later one, in any order of the records. */
module DevTables {
  import opened Bytes
  import opened Results
  import opened GscFormat
  import opened DevKill
  import Grouping
  import HashMini

  /** "assert": the name every dev call is given. */
  const ASSERT: bytes := [97, 115, 115, 101, 114, 116]

  function AssertHash(): u32 { HashMini.HashT7(ASSERT) }

  datatype Rec = Rec(p: nat, kind: Kind)

  function Kills(fields: nat, n: nat, len: nat, delta: nat): (r: seq<Event>)
    ensures |r| == n
    ensures forall j :: 0 <= j < n ==> r[j] == Kill(fields + 4 * j, len, delta)
  {
    seq(n, j requires 0 <= j < n => Kill(fields + 4 * j, len, delta))
  }

  /** What each pass does to one record. */
  function RecordEvents(s: bytes, r: Rec): seq<Event>
    requires Fits(s, r.p, r.kind)
  {
    var n := Addresses(s, r.p, r.kind);
    match r.kind
    case ImportRecord =>
      if !IsDevCall(s[r.p + 11]) then []
      else
        [Write(r.p, Le32(AssertHash())), Write(r.p + 10, [1])]
        + Kills(r.p + IMPORT_SIZE, n, 8, if IsMethod(s[r.p + 11]) then 1 else 0)
    case StringRecord =>
      Kills(r.p + STRING_SIZE, n, 4, 0)
      + [Write(r.p + STRING_SIZE, Zeros(4 * n)), Write(r.p, Zeros(STRING_SIZE))]
  }

  function PassEvents(s: bytes, rs: seq<Rec>): seq<Event>
    requires forall i :: 0 <= i < |rs| ==> Fits(s, rs[i].p, rs[i].kind)
    decreases |rs|
  {
    if rs == [] then []
    else PassEvents(s, rs[..|rs| - 1]) + RecordEvents(s, rs[|rs| - 1])
  }

  predicate InRecord(s: bytes, r: Rec, k: int)
    requires Fits(s, r.p, r.kind)
  {
    r.p <= k < RecordEnd(s, r.p, r.kind)
  }

  ghost predicate AllFit(s: bytes, rs: seq<Rec>) {
    forall i :: 0 <= i < |rs| ==> Fits(s, rs[i].p, rs[i].kind)
  }

  /** The marks around the operands of `r` fall in no byte of `q`. */
  ghost predicate MarksAvoid(s: bytes, r: Rec, q: Rec)
    requires Fits(s, r.p, r.kind) && Fits(s, q.p, q.kind)
  {
    forall i, k :: 0 <= i < |RecordEvents(s, r)| && Accepted(s, RecordEvents(s, r)[i]) && InRecord(s, q, k) ==>
      !Marks(s, RecordEvents(s, r)[i], k)
  }

  /** The layout of the tables: records apart, and code marks outside them. */
  ghost predicate Layout(s: bytes, rs: seq<Rec>) {
    && AllFit(s, rs)
    && (forall i, j, k :: 0 <= i < j < |rs| ==> !(InRecord(s, rs[i], k) && InRecord(s, rs[j], k)))
    && forall i, j :: 0 <= i < |rs| && 0 <= j < |rs| ==> MarksAvoid(s, rs[i], rs[j])
  }

  /** Offsets and plain writes of a record's events lie inside the record. */
  lemma RecordEventsAreLocal(s: bytes, r: Rec, e: Event)
    requires Fits(s, r.p, r.kind) && e in RecordEvents(s, r)
    ensures WellFormed(s, e)
    ensures e.Write? ==> forall k :: e.at <= k < e.at + |e.data| ==> InRecord(s, r, k)
    ensures e.Kill? ==> forall k :: e.at <= k < e.at + 4 ==> InRecord(s, r, k)
  {
    hide AssertHash, Le32, Addresses;
  }

  lemma EarlierEventElsewhere(s: bytes, r: Rec, i: nat, j: nat, k: int)
    requires Fits(s, r.p, r.kind) && MarksAvoid(s, r, r)
    requires var es := RecordEvents(s, r); i < j < |es| && es[j].Kill? && es[j].at <= k < es[j].at + 4
    ensures !Writes(s, RecordEvents(s, r)[i], k)
  {
    hide Marks, Accepts;
    var es := RecordEvents(s, r);
    KillInRecord(s, r, es[j], k);
    EventsInStep(s, r, i, j);
    assert Accepted(s, es[i]) ==> !Marks(s, es[i], k);
  }

  lemma KillInRecord(s: bytes, r: Rec, e: Event, k: int)
    requires Fits(s, r.p, r.kind) && e in RecordEvents(s, r) && e.Kill? && e.at <= k < e.at + 4
    ensures InRecord(s, r, k)
  {
    RecordEventsAreLocal(s, r, e);
  }

  /** Before a kill, a record writes only its name or earlier offsets. */
  lemma EventsInStep(s: bytes, r: Rec, i: nat, j: nat)
    requires Fits(s, r.p, r.kind)
    requires var es := RecordEvents(s, r); i < j < |es| && es[j].Kill?
    ensures var es := RecordEvents(s, r);
      match es[i]
      case Write(at, data) => at + |data| <= es[j].at
      case Kill(at, _, _) => at + 4 <= es[j].at
  {
    hide Marks, Accepts, AssertHash, Addresses, Le32;
  }

  /** A record's later offsets are not overwritten by its own earlier events. */
  lemma RecordUndisturbed(s: bytes, r: Rec)
    requires Fits(s, r.p, r.kind) && MarksAvoid(s, r, r)
    ensures Undisturbed(s, RecordEvents(s, r))
  {
    var es := RecordEvents(s, r);
    forall i | 0 <= i < |es|
      ensures WellFormed(s, es[i])
    {
      RecordEventsAreLocal(s, r, es[i]);
    }
    forall i, j, k | 0 <= i < j < |es| && es[j].Kill? && es[j].at <= k < es[j].at + 4
      ensures !Writes(s, es[i], k)
    {
      EarlierEventElsewhere(s, r, i, j, k);
    }
  }

  lemma UndisturbedConcat(s: bytes, a: seq<Event>, b: seq<Event>)
    requires Undisturbed(s, a) && Undisturbed(s, b)
    requires forall i, j, k :: 0 <= i < |a| && 0 <= j < |b| && b[j].Kill? && b[j].at <= k < b[j].at + 4 ==>
      !Writes(s, a[i], k)
    ensures Undisturbed(s, a + b)
  {
    var c := a + b;
    assert forall i :: 0 <= i < |a| ==> c[i] == a[i];
    assert forall j :: 0 <= j < |b| ==> c[|a| + j] == b[j];
    forall i | 0 <= i < |c|
      ensures WellFormed(s, c[i])
    {
      assert i >= |a| ==> c[i] == b[i - |a|];
    }
    forall i, j, k | 0 <= i < j < |c| && c[j].Kill? && c[j].at <= k < c[j].at + 4
      ensures !Writes(s, c[i], k)
    {
      if j >= |a| {
        assert c[j] == b[j - |a|];
        if i >= |a| {
          assert c[i] == b[i - |a|];
        }
      }
    }
  }

  /** Each event of a pass comes from one of its records. */
  lemma {:induction false} EventOrigin(s: bytes, rs: seq<Rec>, e: Event) returns (i: nat)
    requires AllFit(s, rs) && e in PassEvents(s, rs)
    ensures i < |rs| && e in RecordEvents(s, rs[i])
    decreases |rs|
  {
    if e in RecordEvents(s, rs[|rs| - 1]) {
      i := |rs| - 1;
    } else {
      i := EventOrigin(s, rs[..|rs| - 1], e);
    }
  }

  /** An event of another record writes nothing in this one. */
  lemma OutsideRecord(s: bytes, r: Rec, q: Rec, e: Event, k: int)
    requires Fits(s, r.p, r.kind) && Fits(s, q.p, q.kind) && e in RecordEvents(s, r)
    requires !InRecord(s, r, k) && InRecord(s, q, k) && MarksAvoid(s, r, q)
    ensures !Writes(s, e, k)
  {
    RecordEventsAreLocal(s, r, e);
    var i :| 0 <= i < |RecordEvents(s, r)| && RecordEvents(s, r)[i] == e;
  }

  lemma LayoutFront(s: bytes, rs: seq<Rec>)
    requires Layout(s, rs) && rs != []
    ensures Layout(s, rs[..|rs| - 1])
  {
    var front := rs[..|rs| - 1];
    assert forall i :: 0 <= i < |front| ==> front[i] == rs[i];
  }

  lemma RecordsDiffer(s: bytes, rs: seq<Rec>, i: nat, j: nat, k: int)
    requires Layout(s, rs) && i < j < |rs|
    ensures Fits(s, rs[i].p, rs[i].kind) && Fits(s, rs[j].p, rs[j].kind)
    ensures InRecord(s, rs[j], k) ==> !InRecord(s, rs[i], k)
    ensures MarksAvoid(s, rs[i], rs[j])
  {
  }

  lemma EarlierRecordsKeepOffsets(s: bytes, rs: seq<Rec>, e: Event, f: Event, k: int)
    requires Layout(s, rs) && rs != [] && Layout(s, rs[..|rs| - 1])
    requires e in PassEvents(s, rs[..|rs| - 1]) && f in RecordEvents(s, rs[|rs| - 1])
    requires f.Kill? && f.at <= k < f.at + 4
    ensures !Writes(s, e, k)
  {
    hide RecordEvents, PassEvents, MarksAvoid, Writes;
    var last := rs[|rs| - 1];
    RecordEventsAreLocal(s, last, f);
    var n := EventOrigin(s, rs[..|rs| - 1], e);
    RecordsDiffer(s, rs, n, |rs| - 1, k);
    OutsideRecord(s, rs[n], last, e, k);
  }

  /** In any order of the records of a well laid out script, no event disturbs
      the offset of a later one. */
  lemma {:induction false} PassUndisturbed(s: bytes, rs: seq<Rec>)
    requires Layout(s, rs)
    ensures Undisturbed(s, PassEvents(s, rs))
    decreases |rs|
  {
    if rs != [] {
      LayoutFront(s, rs);
      PassUndisturbed(s, rs[..|rs| - 1]);
      RecordUndisturbed(s, rs[|rs| - 1]);
      var a, b := PassEvents(s, rs[..|rs| - 1]), RecordEvents(s, rs[|rs| - 1]);
      forall i, j, k | 0 <= i < |a| && 0 <= j < |b| && b[j].Kill? && b[j].at <= k < b[j].at + 4
        ensures !Writes(s, a[i], k)
      {
        EarlierRecordsKeepOffsets(s, rs, a[i], b[j], k);
      }
      UndisturbedConcat(s, a, b);
    }
  }

  /** A pass leaves every record it does not process exactly as it was. */
  lemma OtherRecordUnwritten(s: bytes, rs: seq<Rec>, q: Rec, k: int)
    requires Layout(s, rs + [q]) && Fits(s, q.p, q.kind) && InRecord(s, q, k)
    ensures AllFit(s, rs) && !Written(s, PassEvents(s, rs), k)
  {
    var all := rs + [q];
    assert forall i :: 0 <= i < |rs| ==> all[i] == rs[i];
    assert all[|rs|] == q;
    var es := PassEvents(s, rs);
    forall i | 0 <= i < |es|
      ensures !Writes(s, es[i], k)
    {
      var n := EventOrigin(s, rs, es[i]);
      OutsideRecord(s, rs[n], q, es[i], k);
    }
  }

  /** The address count and flags of a record survive its own events up to the
      last kill: only the name, the parameter count and the offsets change. */
  lemma OwnHeaderUnwritten(s: bytes, r: Rec, n: nat, k: int)
    requires Fits(s, r.p, r.kind) && MarksAvoid(s, r, r)
    requires n <= |RecordEvents(s, r)|
    requires r.kind == ImportRecord ==> k in {r.p + 8, r.p + 9, r.p + 11}
    requires r.kind == StringRecord ==> n <= Addresses(s, r.p, r.kind) && r.p <= k < r.p + STRING_SIZE
    ensures !Written(s, RecordEvents(s, r)[..n], k)
  {
    var es := RecordEvents(s, r);
    forall i | 0 <= i < n
      ensures !Writes(s, es[i], k)
    {
      assert InRecord(s, r, k);
    }
    assert forall i :: 0 <= i < n ==> es[..n][i] == es[i];
  }

  lemma WrittenConcat(s: bytes, a: seq<Event>, b: seq<Event>, k: int)
    ensures Written(s, a + b, k) <==> Written(s, a, k) || Written(s, b, k)
  {
    var c := a + b;
    assert forall i :: 0 <= i < |a| ==> c[i] == a[i];
    assert forall j :: 0 <= j < |b| ==> c[|a| + j] == b[j];
    if Written(s, c, k) {
      var i :| 0 <= i < |c| && Writes(s, c[i], k);
      if i >= |a| {
        assert Writes(s, b[i - |a|], k);
      } else {
        assert Writes(s, a[i], k);
      }
    }
  }

  lemma FitConcat(s: bytes, a: seq<Rec>, b: seq<Rec>)
    ensures AllFit(s, a + b) <==> AllFit(s, a) && AllFit(s, b)
  {
    var c := a + b;
    assert forall i :: 0 <= i < |a| ==> c[i] == a[i];
    assert forall j :: 0 <= j < |b| ==> c[|a| + j] == b[j];
    assert forall i :: |a| <= i < |c| ==> c[i] == b[i - |a|];
  }

  lemma PassStep(s: bytes, c: seq<Rec>, front: seq<Rec>, r: Rec)
    requires AllFit(s, c) && c == front + [r]
    ensures AllFit(s, front) && Fits(s, r.p, r.kind)
    ensures PassEvents(s, c) == PassEvents(s, front) + RecordEvents(s, r)
  {
    assert c[..|c| - 1] == front && c[|c| - 1] == r;
  }

  lemma Regroup<T>(a: seq<T>, b: seq<T>, c: seq<T>)
    ensures (a + b) + c == a + (b + c)
  {
  }

  lemma {:induction false} PassConcat(s: bytes, a: seq<Rec>, b: seq<Rec>)
    requires AllFit(s, a) && AllFit(s, b) && AllFit(s, a + b)
    ensures PassEvents(s, a + b) == PassEvents(s, a) + PassEvents(s, b)
    decreases |b|
  {
    var c := a + b;
    if b == [] {
      assert c == a;
    } else {
      var front := b[..|b| - 1];
      assert b == front + [b[|b| - 1]];
      FitConcat(s, front, [b[|b| - 1]]);
      FitConcat(s, a, front);
      PassConcat(s, a, front);
      PassStep(s, c, a + front, b[|b| - 1]);
      PassStep(s, b, front, b[|b| - 1]);
      Regroup(PassEvents(s, a), PassEvents(s, front), RecordEvents(s, b[|b| - 1]));
    }
  }

  lemma PassSplit(s: bytes, rs: seq<Rec>, i: nat)
    requires AllFit(s, rs) && i < |rs|
    ensures AllFit(s, rs[..i]) && AllFit(s, rs[i + 1..])
    ensures PassEvents(s, rs) == PassEvents(s, rs[..i]) + RecordEvents(s, rs[i]) + PassEvents(s, rs[i + 1..])
  {
    hide RecordEvents;
    var a, b := rs[..i + 1], rs[i + 1..];
    assert rs == a + b && a == rs[..i] + [rs[i]];
    FitConcat(s, a, b);
    FitConcat(s, rs[..i], [rs[i]]);
    PassConcat(s, a, b);
    PassStep(s, a, rs[..i], rs[i]);
  }

  // ----- What a pass in progress sees

  lemma RunOne(st: State, es: seq<Event>, e: Event)
    requires |st.script| < 0x1_0000_0000 && st.junk < 0x1_0000_0000
    ensures Run(st, es + [e]) == Apply(Run(st, es), e)
  {
    assert (es + [e])[..|es|] == es;
  }

  /** The events of the records done, then the first `n` of record `r`. */
  function Progress(s: bytes, done: seq<Rec>, r: Rec, n: nat): seq<Event>
    requires AllFit(s, done) && Fits(s, r.p, r.kind) && n <= |RecordEvents(s, r)|
  {
    PassEvents(s, done) + RecordEvents(s, r)[..n]
  }

  lemma ProgressStarts(s: bytes, done: seq<Rec>, r: Rec)
    requires AllFit(s, done) && Fits(s, r.p, r.kind)
    ensures Progress(s, done, r, 0) == PassEvents(s, done)
  {
    assert RecordEvents(s, r)[..0] == [];
  }

  lemma ProgressEnds(s: bytes, done: seq<Rec>, r: Rec)
    requires AllFit(s, done + [r]) && AllFit(s, done) && Fits(s, r.p, r.kind)
    ensures Progress(s, done, r, |RecordEvents(s, r)|) == PassEvents(s, done + [r])
  {
    assert RecordEvents(s, r)[..|RecordEvents(s, r)|] == RecordEvents(s, r);
    PassStep(s, done + [r], done, r);
  }

  lemma ProgressStep(st: State, done: seq<Rec>, r: Rec, n: nat)
    requires |st.script| < 0x1_0000_0000 && st.junk < 0x1_0000_0000
    requires AllFit(st.script, done) && Fits(st.script, r.p, r.kind) && n < |RecordEvents(st.script, r)|
    ensures Run(st, Progress(st.script, done, r, n + 1))
         == Apply(Run(st, Progress(st.script, done, r, n)), RecordEvents(st.script, r)[n])
  {
    var s := st.script;
    var es := RecordEvents(s, r);
    assert es[..n + 1] == es[..n] + [es[n]];
    assert Progress(s, done, r, n + 1) == Progress(s, done, r, n) + [es[n]];
    RunOne(st, Progress(s, done, r, n), es[n]);
  }

  lemma LayoutParts(s: bytes, done: seq<Rec>, r: Rec)
    requires Layout(s, done + [r])
    ensures Layout(s, done) && AllFit(s, done) && Fits(s, r.p, r.kind) && MarksAvoid(s, r, r)
  {
    var all := done + [r];
    assert all[..|all| - 1] == done && all[|done|] == r;
    LayoutFront(s, all);
  }

  /** Until its last kill a record still shows its address count and flags. */
  lemma HeaderStable(st: State, done: seq<Rec>, r: Rec, n: nat, k: nat)
    requires |st.script| < 0x1_0000_0000 && st.junk < 0x1_0000_0000
    requires Layout(st.script, done + [r]) && AllFit(st.script, done) && Fits(st.script, r.p, r.kind)
    requires n <= |RecordEvents(st.script, r)|
    requires r.kind == ImportRecord ==> k in {r.p + 8, r.p + 9, r.p + 11}
    requires r.kind == StringRecord ==>
      n <= Addresses(st.script, r.p, r.kind) && r.p <= k < r.p + STRING_SIZE
    ensures Run(st, Progress(st.script, done, r, n)).script[k] == st.script[k]
  {
    hide Run, RecordEvents, PassEvents, Writes, Written, Undisturbed, MarksAvoid;
    var s := st.script;
    LayoutParts(s, done, r);
    var es := Progress(s, done, r, n);
    PassUndisturbed(s, done + [r]);
    ProgressEnds(s, done, r);
    var whole := PassEvents(s, done + [r]);
    assert whole[..|es|] == es;
    UndisturbedPrefix(s, whole, |es|);
    assert InRecord(s, r, k);
    OtherRecordUnwritten(s, done, r, k);
    OwnHeaderUnwritten(s, r, n, k);
    WrittenConcat(s, PassEvents(s, done), RecordEvents(s, r)[..n], k);
    RunFrame(st, es);
  }

  // ----- Permutations of the records

  /** The layout does not depend on the order in which records are visited. */
  lemma LayoutOfPermutation(s: bytes, a: seq<Rec>, b: seq<Rec>)
    requires Layout(s, a) && multiset(a) == multiset(b)
    ensures Layout(s, b)
  {
    LayoutNoRepeat(s, a);
    Grouping.PermutationNoRepeat(a, b);
    forall j | 0 <= j < |b|
      ensures exists i :: 0 <= i < |a| && a[i] == b[j]
    {
      assert b[j] in a;
    }
    forall i, j, k | 0 <= i < j < |b|
      ensures !(InRecord(s, b[i], k) && InRecord(s, b[j], k))
    {
      var x :| 0 <= x < |a| && a[x] == b[i];
      var y :| 0 <= y < |a| && a[y] == b[j];
      assert x != y;
    }
  }

  lemma LayoutNoRepeat(s: bytes, a: seq<Rec>)
    requires Layout(s, a)
    ensures Grouping.NoRepeat(a)
  {
    forall i, j | 0 <= i < j < |a|
      ensures a[i] != a[j]
    {
      assert InRecord(s, a[i], a[i].p);
    }
  }

  // ----- Regions no event of a pass writes

  /** No record and no mark of the pass falls in the region. */
  ghost predicate RegionClear(s: bytes, rs: seq<Rec>, lo: nat, hi: nat) {
    && AllFit(s, rs)
    && forall i, k :: 0 <= i < |rs| && lo <= k < hi ==> ClearOf(s, rs[i], k)
  }

  ghost predicate ClearOf(s: bytes, r: Rec, k: int)
    requires Fits(s, r.p, r.kind)
  {
    && !InRecord(s, r, k)
    && forall i :: 0 <= i < |RecordEvents(s, r)| && Accepted(s, RecordEvents(s, r)[i]) ==>
         !Marks(s, RecordEvents(s, r)[i], k)
  }

  lemma RegionUnwritten(s: bytes, rs: seq<Rec>, lo: nat, hi: nat, k: int)
    requires RegionClear(s, rs, lo, hi) && lo <= k < hi
    ensures !Written(s, PassEvents(s, rs), k)
  {
    var es := PassEvents(s, rs);
    forall i | 0 <= i < |es|
      ensures !Writes(s, es[i], k)
    {
      var n := EventOrigin(s, rs, es[i]);
      assert ClearOf(s, rs[n], k);
      ClearWrites(s, rs[n], es[i], k);
    }
  }

  lemma ClearWrites(s: bytes, r: Rec, e: Event, k: int)
    requires Fits(s, r.p, r.kind) && e in RecordEvents(s, r) && ClearOf(s, r, k)
    ensures !Writes(s, e, k)
  {
    RecordEventsAreLocal(s, r, e);
    var i :| 0 <= i < |RecordEvents(s, r)| && RecordEvents(s, r)[i] == e;
  }

  /** A pass leaves a clear region as it was. */
  lemma RegionKept(st: State, rs: seq<Rec>, lo: nat, hi: nat, k: nat)
    requires |st.script| < 0x1_0000_0000 && st.junk < 0x1_0000_0000
    requires Layout(st.script, rs) && RegionClear(st.script, rs, lo, hi) && lo <= k < hi <= |st.script|
    ensures Run(st, PassEvents(st.script, rs)).script[k] == st.script[k]
  {
    hide Run, RecordEvents, PassEvents, Writes, Written, Undisturbed, Layout;
    PassUndisturbed(st.script, rs);
    RegionUnwritten(st.script, rs, lo, hi, k);
    RunFrame(st, PassEvents(st.script, rs));
  }

  lemma RegionClearPrefix(s: bytes, rs: seq<Rec>, lo: nat, hi: nat, n: nat)
    requires RegionClear(s, rs, lo, hi) && n <= |rs|
    ensures RegionClear(s, rs[..n], lo, hi)
  {
    assert forall i :: 0 <= i < n ==> rs[..n][i] == rs[i];
  }
}
