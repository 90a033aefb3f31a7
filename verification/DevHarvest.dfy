/** What the dev-block passes leave behind, told record by record: which words of
    dead operands become slots, and the marks around the operands. */
module DevHarvest {
  import opened Bytes
  import opened Results
  import opened GscFormat
  import opened Grouping
  import opened DevKill
  import opened DevTables
  import opened ScriptLayout

  // ----- The slots

  /** A word of an operand that some record has killed. */
  ghost predicate DeadWord(s: bytes, rs: seq<Rec>, c: nat) {
    && AllFit(s, rs)
    && exists i, e :: 0 <= i < |rs| && e in RecordEvents(s, rs[i]) && WordOf(s, e, c)
  }

  predicate WordOf(s: bytes, e: Event, c: nat) {
    && Accepted(s, e)
    && OperandOf(s, e) <= c && c + 4 <= OperandOf(s, e) + e.len && (c - OperandOf(s, e)) % 4 == 0
  }

  /** The junk slot and the free list are those words, each once. */
  ghost predicate Harvested(s: bytes, rs: seq<Rec>, junk: nat, freed: seq<nat>) {
    && (forall c: nat :: c in freed || (c == junk && c != 0) <==> DeadWord(s, rs, c))
    && junk !in freed && (junk == 0 ==> freed == []) && NoRepeat(freed)
  }

  lemma DeadWordSame(s: bytes, t: bytes, rs: seq<Rec>, c: nat)
    requires SameEvents(s, t, rs)
    ensures DeadWord(s, rs, c) <==> DeadWord(t, rs, c)
  {
    hide RecordEvents, Operand, Accepts;
    forall i, e | 0 <= i < |rs| && e in RecordEvents(s, rs[i])
      ensures e in RecordEvents(t, rs[i]) && (WordOf(s, e, c) <==> WordOf(t, e, c))
    {
      assert SameRecord(s, t, rs[i]);
      AcceptedSame(s, t, rs[i], e);
    }
    forall i | 0 <= i < |rs|
      ensures RecordEvents(t, rs[i]) == RecordEvents(s, rs[i])
    {
      assert SameRecord(s, t, rs[i]);
    }
  }

  lemma SameMember(a: seq<Rec>, b: seq<Rec>, j: nat) returns (i: nat)
    requires multiset(a) == multiset(b) && j < |b|
    ensures i < |a| && a[i] == b[j]
  {
    assert b[j] in multiset(b);
    assert b[j] in a;
    i :| 0 <= i < |a| && a[i] == b[j];
  }

  lemma DeadWordPermute(s: bytes, a: seq<Rec>, b: seq<Rec>, c: nat)
    requires multiset(a) == multiset(b) && DeadWord(s, b, c) && AllFit(s, a)
    ensures DeadWord(s, a, c)
  {
    hide RecordEvents, WordOf;
    var j, e :| 0 <= j < |b| && e in RecordEvents(s, b[j]) && WordOf(s, e, c);
    var i := SameMember(a, b, j);
    assert e in RecordEvents(s, a[i]);
  }

  lemma FitPermute(s: bytes, a: seq<Rec>, b: seq<Rec>)
    requires multiset(a) == multiset(b) && AllFit(s, a)
    ensures AllFit(s, b)
  {
    forall j | 0 <= j < |b|
      ensures Fits(s, b[j].p, b[j].kind)
    {
      var i := SameMember(a, b, j);
    }
  }

  lemma EventInPass(s: bytes, rs: seq<Rec>, i: nat, e: Event)
    requires AllFit(s, rs) && i < |rs| && e in RecordEvents(s, rs[i])
    ensures e in PassEvents(s, rs)
  {
    hide RecordEvents, PassEvents;
    PassSplit(s, rs, i);
  }

  /** A pass harvests exactly those words. */
  lemma HarvestIsDead(s: bytes, rs: seq<Rec>, c: nat)
    requires AllFit(s, rs)
    ensures c in Harvest(s, PassEvents(s, rs)) <==> DeadWord(s, rs, c)
  {
    hide RecordEvents, PassEvents, Harvest, Operand, Accepts;
    var es := PassEvents(s, rs);
    if c in Harvest(s, es) {
      var n := HarvestOrigin(s, es, c);
      var i := EventOrigin(s, rs, es[n]);
      assert WordOf(s, es[n], c);
    }
    if DeadWord(s, rs, c) {
      var i, e :| 0 <= i < |rs| && e in RecordEvents(s, rs[i]) && WordOf(s, e, c);
      EventInPass(s, rs, i, e);
      var n :| 0 <= n < |es| && es[n] == e;
      WordHarvested(s, es, n, c);
    }
  }

  /** What a run over the records harvests. */
  lemma RunHarvests(s: bytes, rs: seq<Rec>, es: seq<Event>)
    requires |s| < 0x1_0000_0000 && AllFit(s, rs) && Undisturbed(s, es) && OperandsApart(s, es)
    requires Harvest(s, es) == Harvest(s, PassEvents(s, rs))
    ensures var st := Run(State(s, [], 0), es); Harvested(s, rs, st.junk, st.free)
  {
    hide RecordEvents, PassEvents, Harvest, Undisturbed, OperandsApart, Run, DeadWord;
    var st, h := Run(State(s, [], 0), es), Harvest(s, es);
    RunIsTold(s, es);
    SlotsWellPlaced(s, es);
    SlotsApart(s, es);
    HarvestHasNoZero(s, es);
    OthersMembers(h, st.junk);
    forall c: nat
      ensures c in st.free || (c == st.junk && c != 0) <==> DeadWord(s, rs, c)
    {
      HarvestIsDead(s, rs, c);
      assert c in h ==> c != 0;
    }
  }

  lemma HarvestedSame(s: bytes, t: bytes, rs: seq<Rec>, junk: nat, freed: seq<nat>)
    requires SameEvents(s, t, rs) && Harvested(t, rs, junk, freed)
    ensures Harvested(s, rs, junk, freed)
  {
    hide DeadWord, SameEvents;
    forall c: nat
      ensures DeadWord(s, rs, c) <==> DeadWord(t, rs, c)
    {
      DeadWordSame(s, t, rs, c);
    }
  }

  lemma HarvestedPermute(s: bytes, a: seq<Rec>, b: seq<Rec>, junk: nat, freed: seq<nat>)
    requires multiset(a) == multiset(b) && AllFit(s, a) && Harvested(s, a, junk, freed)
    ensures Harvested(s, b, junk, freed)
  {
    hide DeadWord;
    FitPermute(s, a, b);
    forall c: nat
      ensures DeadWord(s, a, c) <==> DeadWord(s, b, c)
    {
      if DeadWord(s, a, c) {
        DeadWordPermute(s, b, a, c);
      } else if DeadWord(s, b, c) {
        DeadWordPermute(s, a, b, c);
      }
    }
  }

  // ----- The marks

  /** No other event of the records writes the byte. */
  ghost predicate OnlyBy(s: bytes, rs: seq<Rec>, e: Event, k: int) {
    && AllFit(s, rs)
    && forall j, f :: 0 <= j < |rs| && f in RecordEvents(s, rs[j]) && Writes(s, f, k) ==> f == e
  }

  /** A mark's byte that no other event writes and that is in no dead operand. */
  ghost predicate OwnMark(s: bytes, rs: seq<Rec>, e: Event, k: nat) {
    OnlyBy(s, rs, e, k) && OperandsClear(s, rs, k, k + 1)
  }

  /** Every kill has left its marks, where nothing else is written. */
  ghost predicate MarksLeft(s: bytes, t: bytes, rs: seq<Rec>) {
    && AllFit(s, rs) && |t| == |s|
    && forall i, e, k: nat ::
         0 <= i < |rs| && e in RecordEvents(s, rs[i]) && Accepted(s, e) && Marks(s, e, k) && OwnMark(s, rs, e, k) ==>
         k < |t| && t[k] == MarkByte(s, e, k)
  }

  lemma LastIndex(es: seq<Event>, e: Event) returns (n: nat)
    requires e in es
    ensures n < |es| && es[n] == e && forall m :: n < m < |es| ==> es[m] != e
  {
    n := |es| - 1;
    while es[n] != e
      invariant n < |es| && e in es[..n + 1]
      invariant forall m :: n < m < |es| ==> es[m] != e
      decreases n
    {
      assert es[..n + 1] == es[..n] + [es[n]];
      n := n - 1;
    }
  }

  /** The kill that alone writes a mark's byte settles it. */
  lemma MarkLands(s: bytes, es: seq<Event>, e: Event, k: nat)
    requires |s| < 0x1_0000_0000 && Undisturbed(s, es) && e in es && Accepted(s, e) && Marks(s, e, k)
    requires !(e.at <= k < e.at + 4) && forall f :: f in es && f != e ==> !Writes(s, f, k)
    ensures k < |s| && Run(State(s, [], 0), es).script[k] == MarkByte(s, e, k)
  {
    hide Undisturbed, Writes, Run, Marks, MarkByte, Accepted;
    var n := LastIndex(es, e);
    var front := es[..n + 1];
    UndisturbedPrefix(s, es, n + 1);
    assert front[|front| - 1] == e;
    KillMarks(s, front, k);
    LaterKeeps(s, es, n + 1, k);
  }

  lemma OwnMarkSame(s: bytes, t: bytes, rs: seq<Rec>, i: nat, e: Event, k: nat)
    requires SameEvents(s, t, rs) && AllFit(s, rs) && AllFit(t, rs) && i < |rs| && e in RecordEvents(s, rs[i])
    requires Accepted(s, e) && Marks(s, e, k) && OwnMark(s, rs, e, k)
    ensures Accepted(t, e) && Marks(t, e, k)
    ensures e in RecordEvents(t, rs[i]) && OwnMark(t, rs, e, k) && MarkByte(t, e, k) == MarkByte(s, e, k)
  {
    hide RecordEvents, Writes, OperandsClear;
    assert SameRecord(s, t, rs[i]);
    AcceptedSame(s, t, rs[i], e);
    OperandsClearSame(s, t, rs, k, k + 1);
    forall j, f | 0 <= j < |rs| && f in RecordEvents(t, rs[j]) && Writes(t, f, k)
      ensures f == e
    {
      assert SameRecord(s, t, rs[j]);
      WritesSame(s, t, rs[j], f, k);
    }
  }

  lemma MarksLeftSame(s: bytes, t: bytes, v: bytes, rs: seq<Rec>)
    requires SameEvents(s, t, rs) && MarksLeft(t, v, rs)
    ensures MarksLeft(s, v, rs)
  {
    hide RecordEvents, OwnMark, MarkByte;
    forall i, e, k: nat |
      0 <= i < |rs| && e in RecordEvents(s, rs[i]) && Accepted(s, e) && Marks(s, e, k) && OwnMark(s, rs, e, k)
      ensures k < |v| && v[k] == MarkByte(s, e, k)
    {
      OwnMarkSame(s, t, rs, i, e, k);
    }
  }

  lemma OwnMarkPermute(s: bytes, a: seq<Rec>, b: seq<Rec>, e: Event, k: nat)
    requires multiset(a) == multiset(b) && AllFit(s, a) && OwnMark(s, b, e, k)
    ensures OwnMark(s, a, e, k)
  {
    hide RecordEvents, Writes, OperandsClear, Marks;
    ClearPermute(s, b, a, k, k + 1);
    forall j, f | 0 <= j < |a| && f in RecordEvents(s, a[j]) && Writes(s, f, k)
      ensures f == e
    {
      var i := SameMember(b, a, j);
      assert f in RecordEvents(s, b[i]);
    }
  }

  lemma MarksLeftPermute(s: bytes, t: bytes, a: seq<Rec>, b: seq<Rec>)
    requires multiset(a) == multiset(b) && MarksLeft(s, t, a)
    ensures MarksLeft(s, t, b)
  {
    hide RecordEvents, OwnMark, MarkByte;
    FitPermute(s, a, b);
    forall i, e, k: nat |
      0 <= i < |b| && e in RecordEvents(s, b[i]) && Accepted(s, e) && Marks(s, e, k) && OwnMark(s, b, e, k)
      ensures k < |t| && t[k] == MarkByte(s, e, k)
    {
      var j := SameMember(a, b, i);
      OwnMarkPermute(s, a, b, e, k);
      assert e in RecordEvents(s, a[j]);
    }
  }

  /** A mark lies in no record and in no region kept clear. */
  lemma MarkOutside(s: bytes, rs: seq<Rec>, i: nat, e: Event, k: nat, lo: nat, hi: nat)
    requires RegionClear(s, rs, lo, hi) && AllFit(s, rs) && i < |rs| && e in RecordEvents(s, rs[i])
    requires Accepted(s, e) && Marks(s, e, k)
    ensures !(lo <= k < hi)
  {
    hide RecordEvents, Marks;
    var n :| 0 <= n < |RecordEvents(s, rs[i])| && RecordEvents(s, rs[i])[n] == e;
    assert lo <= k < hi ==> ClearOf(s, rs[i], k);
  }

  /** The offset that leads to an operand is none of its marks. */
  lemma OffsetIsNoMark(s: bytes, rs: seq<Rec>, i: nat, e: Event, k: nat)
    requires Layout(s, rs) && AllFit(s, rs) && i < |rs| && e in RecordEvents(s, rs[i]) && Accepted(s, e)
    requires e.at <= k < e.at + 4
    ensures !Marks(s, e, k)
  {
    hide RecordEvents, Marks;
    KillInRecord(s, rs[i], e, k);
    assert MarksAvoid(s, rs[i], rs[i]);
    var n :| 0 <= n < |RecordEvents(s, rs[i])| && RecordEvents(s, rs[i])[n] == e;
  }
}
