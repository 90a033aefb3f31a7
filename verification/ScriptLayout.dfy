/** A well laid out script, seen as one whole: tables apart, operands of dev
    instructions apart and outside the tables, and what keeps it so. */
module ScriptLayout {
  import opened Bytes
  import opened Results
  import opened GscFormat
  import opened Grouping
  import opened DevKill
  import opened DevTables

  // ----- Operands

  predicate OperandsMeet(s: bytes, e: Event, f: Event) {
    && Accepted(s, e) && Accepted(s, f)
    && OperandOf(s, e) < OperandOf(s, f) + f.len && OperandOf(s, f) < OperandOf(s, e) + e.len
  }

  /** No two operands of dev instructions share a byte. */
  ghost predicate OperandLayout(s: bytes, rs: seq<Rec>) {
    && AllFit(s, rs)
    && (forall i, a, b :: 0 <= i < |rs| && 0 <= a < b < |RecordEvents(s, rs[i])| ==>
         !OperandsMeet(s, RecordEvents(s, rs[i])[a], RecordEvents(s, rs[i])[b]))
    && forall i, j, e, f :: 0 <= i < j < |rs| && e in RecordEvents(s, rs[i]) && f in RecordEvents(s, rs[j]) ==>
         !OperandsMeet(s, e, f)
  }

  /** No operand of a dev instruction has a byte in the region. */
  ghost predicate OperandsClear(s: bytes, rs: seq<Rec>, lo: nat, hi: nat) {
    && AllFit(s, rs)
    && forall i, e :: 0 <= i < |rs| && e in RecordEvents(s, rs[i]) && Accepted(s, e) ==>
         OperandOf(s, e) + e.len <= lo || hi <= OperandOf(s, e)
  }

  lemma {:induction false} PassOperandsApart(s: bytes, rs: seq<Rec>)
    requires OperandLayout(s, rs)
    ensures OperandsApart(s, PassEvents(s, rs))
    decreases |rs|
  {
    if rs != [] {
      var front, last := rs[..|rs| - 1], rs[|rs| - 1];
      assert OperandLayout(s, front) by {
        assert forall i :: 0 <= i < |front| ==> front[i] == rs[i];
      }
      PassOperandsApart(s, front);
      var a, b := PassEvents(s, front), RecordEvents(s, last);
      forall i, j | 0 <= i < |a| && 0 <= j < |b|
        ensures !OperandsMeet(s, a[i], b[j])
      {
        var n := EventOrigin(s, front, a[i]);
        assert front[n] == rs[n];
      }
      ApartConcat(s, a, b);
    }
  }

  lemma ApartConcat(s: bytes, a: seq<Event>, b: seq<Event>)
    requires OperandsApart(s, a)
    requires forall i, j :: 0 <= i < j < |b| ==> !OperandsMeet(s, b[i], b[j])
    requires forall i, j :: 0 <= i < |a| && 0 <= j < |b| ==> !OperandsMeet(s, a[i], b[j])
    ensures OperandsApart(s, a + b)
  {
    var c := a + b;
    forall i, j | 0 <= i < j < |c| && Accepted(s, c[i]) && Accepted(s, c[j])
      ensures
        || OperandOf(s, c[i]) + c[i].len <= OperandOf(s, c[j])
        || OperandOf(s, c[j]) + c[j].len <= OperandOf(s, c[i])
    {
      if i < |a| {
        assert c[i] == a[i];
        if j < |a| {
          assert c[j] == a[j];
        } else {
          assert c[j] == b[j - |a|];
          assert !OperandsMeet(s, a[i], b[j - |a|]);
        }
      } else {
        assert c[i] == b[i - |a|] && c[j] == b[j - |a|];
        assert !OperandsMeet(s, b[i - |a|], b[j - |a|]);
      }
    }
  }

  /** Every slot a pass can free lies outside a region its operands avoid. */
  lemma HarvestClear(s: bytes, rs: seq<Rec>, lo: nat, hi: nat, c: nat)
    requires OperandsClear(s, rs, lo, hi) && c in Harvest(s, PassEvents(s, rs))
    ensures c + 4 <= lo || hi <= c
  {
    var es := PassEvents(s, rs);
    var i := HarvestOrigin(s, es, c);
    var n := EventOrigin(s, rs, es[i]);
  }

  // ----- Two scripts with the same events

  /** Same records, same events, same operand offsets. */
  ghost predicate SameEvents(s: bytes, t: bytes, rs: seq<Rec>) {
    && |s| == |t| && AllFit(s, rs) && AllFit(t, rs)
    && forall i :: 0 <= i < |rs| ==> SameRecord(s, t, rs[i])
  }

  ghost predicate SameRecord(s: bytes, t: bytes, r: Rec)
    requires Fits(s, r.p, r.kind) && Fits(t, r.p, r.kind)
  {
    && RecordEvents(s, r) == RecordEvents(t, r)
    && RecordEnd(s, r.p, r.kind) == RecordEnd(t, r.p, r.kind)
    && forall e :: e in RecordEvents(s, r) && e.Kill? && e.at + 4 <= |s| && e.at + 4 <= |t| ==>
         Get32(s, e.at) == Get32(t, e.at)
  }

  lemma AddressesKept(s: bytes, t: bytes, r: Rec)
    requires |s| == |t| && Fits(s, r.p, r.kind)
    requires forall k :: InRecord(s, r, k) && !(r.kind == ImportRecord && r.p <= k < r.p + 4) ==> t[k] == s[k]
    ensures Fits(t, r.p, r.kind) && Addresses(t, r.p, r.kind) == Addresses(s, r.p, r.kind)
    ensures r.kind == ImportRecord ==> t[r.p + 11] == s[r.p + 11]
  {
    assert r.kind == ImportRecord ==> InRecord(s, r, r.p + 8) && InRecord(s, r, r.p + 9) && InRecord(s, r, r.p + 11);
    assert r.kind == StringRecord ==> InRecord(s, r, r.p + 4);
  }

  lemma KillAfterName(s: bytes, r: Rec, e: Event)
    requires Fits(s, r.p, r.kind) && e in RecordEvents(s, r) && e.Kill?
    ensures e.at >= r.p + 8
  {
    hide AssertHash, Le32, Addresses;
  }

  /** Changing names only keeps every event. */
  lemma RecordKept(s: bytes, t: bytes, r: Rec)
    requires |s| == |t| && Fits(s, r.p, r.kind)
    requires forall k :: InRecord(s, r, k) && !(r.kind == ImportRecord && r.p <= k < r.p + 4) ==> t[k] == s[k]
    ensures Fits(t, r.p, r.kind) && SameRecord(s, t, r)
  {
    AddressesKept(s, t, r);
    assert RecordEvents(s, r) == RecordEvents(t, r) by {
      hide Addresses, AssertHash, Le32;
    }
    hide RecordEvents, Addresses;
    forall e | e in RecordEvents(s, r) && e.Kill? && e.at + 4 <= |s|
      ensures Get32(s, e.at) == Get32(t, e.at)
    {
      RecordEventsAreLocal(s, r, e);
      KillAfterName(s, r, e);
      assert forall k :: e.at <= k < e.at + 4 ==> InRecord(s, r, k) && t[k] == s[k];
    }
  }

  lemma AcceptedSame(s: bytes, t: bytes, r: Rec, e: Event)
    requires |s| == |t| && Fits(s, r.p, r.kind) && Fits(t, r.p, r.kind) && SameRecord(s, t, r)
    requires e in RecordEvents(s, r)
    ensures Accepted(s, e) <==> Accepted(t, e)
    ensures Accepted(s, e) ==> OperandOf(s, e) == OperandOf(t, e) && forall k :: Marks(s, e, k) <==> Marks(t, e, k)
  {
  }

  lemma {:induction false} PassSame(s: bytes, t: bytes, rs: seq<Rec>)
    requires SameEvents(s, t, rs)
    ensures PassEvents(s, rs) == PassEvents(t, rs)
    decreases |rs|
  {
    if rs != [] {
      var front := rs[..|rs| - 1];
      assert forall i :: 0 <= i < |front| ==> front[i] == rs[i];
      PassSame(s, t, front);
    }
  }

  lemma MarksAvoidSame(s: bytes, t: bytes, r: Rec, q: Rec)
    requires |s| == |t| && Fits(s, r.p, r.kind) && Fits(t, r.p, r.kind) && SameRecord(s, t, r)
    requires Fits(s, q.p, q.kind) && Fits(t, q.p, q.kind) && SameRecord(s, t, q)
    requires MarksAvoid(s, r, q)
    ensures MarksAvoid(t, r, q)
  {
    forall i, k | 0 <= i < |RecordEvents(t, r)| && Accepted(t, RecordEvents(t, r)[i]) && InRecord(t, q, k)
      ensures !Marks(t, RecordEvents(t, r)[i], k)
    {
      AcceptedSame(s, t, r, RecordEvents(s, r)[i]);
      assert InRecord(s, q, k);
    }
  }

  lemma LayoutSame(s: bytes, t: bytes, rs: seq<Rec>)
    requires SameEvents(s, t, rs) && Layout(s, rs)
    ensures Layout(t, rs)
  {
    forall i, j | 0 <= i < |rs| && 0 <= j < |rs|
      ensures MarksAvoid(t, rs[i], rs[j])
    {
      MarksAvoidSame(s, t, rs[i], rs[j]);
    }
    forall i, j, k | 0 <= i < j < |rs|
      ensures !(InRecord(t, rs[i], k) && InRecord(t, rs[j], k))
    {
      assert InRecord(s, rs[i], k) <==> InRecord(t, rs[i], k);
      assert InRecord(s, rs[j], k) <==> InRecord(t, rs[j], k);
    }
  }

  lemma RegionClearSame(s: bytes, t: bytes, rs: seq<Rec>, lo: nat, hi: nat)
    requires SameEvents(s, t, rs) && RegionClear(s, rs, lo, hi)
    ensures RegionClear(t, rs, lo, hi)
  {
    forall i, k | 0 <= i < |rs| && lo <= k < hi
      ensures ClearOf(t, rs[i], k)
    {
      var r := rs[i];
      assert ClearOf(s, r, k) && SameRecord(s, t, r);
      forall a | 0 <= a < |RecordEvents(t, r)| && Accepted(t, RecordEvents(t, r)[a])
        ensures !Marks(t, RecordEvents(t, r)[a], k)
      {
        AcceptedSame(s, t, r, RecordEvents(s, r)[a]);
      }
    }
  }

  lemma MeetSame(s: bytes, t: bytes, r: Rec, q: Rec, e: Event, f: Event)
    requires |s| == |t| && Fits(s, r.p, r.kind) && Fits(t, r.p, r.kind) && SameRecord(s, t, r)
    requires Fits(s, q.p, q.kind) && Fits(t, q.p, q.kind) && SameRecord(s, t, q)
    requires e in RecordEvents(s, r) && f in RecordEvents(s, q)
    ensures OperandsMeet(s, e, f) <==> OperandsMeet(t, e, f)
  {
    AcceptedSame(s, t, r, e);
    AcceptedSame(s, t, q, f);
  }

  lemma OperandLayoutSame(s: bytes, t: bytes, rs: seq<Rec>)
    requires SameEvents(s, t, rs) && OperandLayout(s, rs)
    ensures OperandLayout(t, rs)
  {
    forall i, a, b | 0 <= i < |rs| && 0 <= a < b < |RecordEvents(t, rs[i])|
      ensures !OperandsMeet(t, RecordEvents(t, rs[i])[a], RecordEvents(t, rs[i])[b])
    {
      assert SameRecord(s, t, rs[i]);
      MeetSame(s, t, rs[i], rs[i], RecordEvents(s, rs[i])[a], RecordEvents(s, rs[i])[b]);
    }
    forall i, j, e, f | 0 <= i < j < |rs| && e in RecordEvents(t, rs[i]) && f in RecordEvents(t, rs[j])
      ensures !OperandsMeet(t, e, f)
    {
      assert SameRecord(s, t, rs[i]) && SameRecord(s, t, rs[j]);
      MeetSame(s, t, rs[i], rs[j], e, f);
    }
  }

  lemma OperandsClearSame(s: bytes, t: bytes, rs: seq<Rec>, lo: nat, hi: nat)
    requires SameEvents(s, t, rs) && OperandsClear(s, rs, lo, hi)
    ensures OperandsClear(t, rs, lo, hi)
  {
    forall i, e | 0 <= i < |rs| && e in RecordEvents(t, rs[i]) && Accepted(t, e)
      ensures OperandOf(t, e) + e.len <= lo || hi <= OperandOf(t, e)
    {
      assert SameRecord(s, t, rs[i]);
      AcceptedSame(s, t, rs[i], e);
    }
  }

  // ----- Other orders of the records

  lemma NoMeeting(s: bytes, a: seq<Rec>, x: nat, y: nat, e: Event, f: Event)
    requires OperandLayout(s, a) && x < |a| && y < |a| && x != y
    requires e in RecordEvents(s, a[x]) && f in RecordEvents(s, a[y])
    ensures !OperandsMeet(s, e, f)
  {
    if y < x {
      assert !OperandsMeet(s, f, e);
    }
  }

  lemma OperandsPermute(s: bytes, a: seq<Rec>, b: seq<Rec>)
    requires multiset(a) == multiset(b) && NoRepeat(a) && OperandLayout(s, a)
    ensures OperandLayout(s, b)
  {
    PermutationNoRepeat(a, b);
    assert forall j :: 0 <= j < |b| ==> b[j] in a;
    forall i, j, e, f | 0 <= i < j < |b| && e in RecordEvents(s, b[i]) && f in RecordEvents(s, b[j])
      ensures !OperandsMeet(s, e, f)
    {
      var x :| 0 <= x < |a| && a[x] == b[i];
      var y :| 0 <= y < |a| && a[y] == b[j];
      NoMeeting(s, a, x, y, e, f);
    }
  }

  lemma ClearPermute(s: bytes, a: seq<Rec>, b: seq<Rec>, lo: nat, hi: nat)
    requires multiset(a) == multiset(b)
    ensures OperandsClear(s, a, lo, hi) ==> OperandsClear(s, b, lo, hi)
    ensures RegionClear(s, a, lo, hi) ==> RegionClear(s, b, lo, hi)
  {
    forall j | 0 <= j < |b|
      ensures exists i :: 0 <= i < |a| && a[i] == b[j]
    {
      assert b[j] in multiset(b);
      assert b[j] in a;
    }
  }

  // ----- Bytes no event writes

  ghost predicate Unwritten(s: bytes, rs: seq<Rec>, k: int) {
    && AllFit(s, rs)
    && forall i, e :: 0 <= i < |rs| && e in RecordEvents(s, rs[i]) ==> !Writes(s, e, k)
  }

  lemma ClearIsUnwritten(s: bytes, rs: seq<Rec>, lo: nat, hi: nat, k: int)
    requires RegionClear(s, rs, lo, hi) && lo <= k < hi
    ensures Unwritten(s, rs, k)
  {
    hide RecordEvents, Writes;
    forall i, e | 0 <= i < |rs| && e in RecordEvents(s, rs[i])
      ensures !Writes(s, e, k)
    {
      assert ClearOf(s, rs[i], k);
      ClearWrites(s, rs[i], e, k);
    }
  }

  lemma UnwrittenByPass(s: bytes, rs: seq<Rec>, k: int)
    requires Unwritten(s, rs, k)
    ensures !Written(s, PassEvents(s, rs), k)
  {
    hide RecordEvents, Writes;
    var es := PassEvents(s, rs);
    forall a | 0 <= a < |es|
      ensures !Writes(s, es[a], k)
    {
      var n := EventOrigin(s, rs, es[a]);
    }
  }

  lemma WritesSame(s: bytes, t: bytes, r: Rec, e: Event, k: int)
    requires |s| == |t| && Fits(s, r.p, r.kind) && Fits(t, r.p, r.kind) && SameRecord(s, t, r)
    requires e in RecordEvents(s, r)
    ensures Writes(s, e, k) <==> Writes(t, e, k)
  {
    hide RecordEvents, Marks;
    AcceptedSame(s, t, r, e);
  }

  lemma UnwrittenSame(s: bytes, t: bytes, rs: seq<Rec>, k: int)
    requires SameEvents(s, t, rs) && Unwritten(s, rs, k)
    ensures Unwritten(t, rs, k)
  {
    hide RecordEvents, Writes;
    forall i, e | 0 <= i < |rs| && e in RecordEvents(t, rs[i])
      ensures !Writes(t, e, k)
    {
      assert SameRecord(s, t, rs[i]);
      WritesSame(s, t, rs[i], e, k);
    }
  }

  lemma UnwrittenPermute(s: bytes, a: seq<Rec>, b: seq<Rec>, k: int)
    requires multiset(a) == multiset(b) && Unwritten(s, a, k)
    ensures Unwritten(s, b, k)
  {
    hide RecordEvents, Writes;
    forall j | 0 <= j < |b|
      ensures exists i :: 0 <= i < |a| && a[i] == b[j]
    {
      assert b[j] in multiset(b);
      assert b[j] in a;
    }
  }

  /** A byte of a record is written by no other record's events. */
  lemma UnwrittenByOthers(s: bytes, rs: seq<Rec>, i: nat, k: int)
    requires Layout(s, rs) && i < |rs| && Fits(s, rs[i].p, rs[i].kind) && InRecord(s, rs[i], k)
    requires forall e :: e in RecordEvents(s, rs[i]) ==> !Writes(s, e, k)
    ensures Unwritten(s, rs, k)
  {
    hide RecordEvents, Writes, InRecord;
    forall n, e | 0 <= n < |rs| && e in RecordEvents(s, rs[n])
      ensures !Writes(s, e, k)
    {
      if n != i {
        OtherEventKeeps(s, rs, n, i, e, k);
      }
    }
  }

  lemma OtherEventKeeps(s: bytes, rs: seq<Rec>, n: nat, m: nat, e: Event, k: int)
    requires Layout(s, rs) && AllFit(s, rs) && n < |rs| && m < |rs| && n != m
    requires e in RecordEvents(s, rs[n]) && InRecord(s, rs[m], k)
    ensures !Writes(s, e, k)
  {
    assert !InRecord(s, rs[n], k) by {
      if n < m {
        RecordsDiffer(s, rs, n, m, k);
      } else {
        RecordsDiffer(s, rs, m, n, k);
      }
    }
    OutsideRecord(s, rs[n], rs[m], e, k);
  }

  lemma OperandsClearInside(s: bytes, rs: seq<Rec>, lo: nat, hi: nat, k: nat)
    requires OperandsClear(s, rs, lo, hi) && lo <= k < hi
    ensures OperandsClear(s, rs, k, k + 1)
  {
    hide RecordEvents;
  }
}
