/** A script laid out for the dev-block passes, and what both passes, told as one
    run, do to it. */
module DevRun {
  import opened Bytes
  import opened Results
  import opened GscFormat
  import opened Grouping
  import opened DevKill
  import opened DevTables
  import opened ScriptLayout
  import opened ScriptTables
  import opened SlotPass
  import opened DevHarvest

  function ExportTable(s: bytes): nat
    requires |s| >= HEADER_SIZE
  {
    Get32(s, EXPORT_OFFSET)
  }

  function ExportEnd(s: bytes): nat
    requires |s| >= HEADER_SIZE
  {
    Get32(s, EXPORT_OFFSET) + EXPORT_SIZE * Get16(s, EXPORT_COUNT)
  }

  function AllRecs(imps: seq<nat>, strs: seq<nat>): seq<Rec> {
    Recs(imps, ImportRecord) + Recs(strs, StringRecord)
  }

  /** The tables lie apart in the script; dev operands and the marks around them
      lie in no table. */
  ghost predicate Prepared(s: bytes, imps: seq<nat>, strs: seq<nat>) {
    && HEADER_SIZE <= |s| < 0x1_0000_0000
    && HEADER_SIZE <= ExportTable(s) && ExportEnd(s) <= |s|
    && DevStringWalk(s) == Some(strs)
    && var rs := AllRecs(imps, strs);
    && Layout(s, rs) && OperandLayout(s, rs)
    && Fenced(s, rs, 0, HEADER_SIZE) && Fenced(s, rs, ExportTable(s), ExportEnd(s))
    && forall i :: 0 <= i < |imps| ==> ImportFenced(s, rs, imps[i])
  }

  /** No operand reaches into an import record, its offsets included. */
  ghost predicate ImportFenced(s: bytes, rs: seq<Rec>, p: nat) {
    p + IMPORT_SIZE <= |s| && OperandsClear(s, rs, p, RecordEnd(s, p, ImportRecord))
  }

  /** Neither records, nor marks, nor operands reach into the region. */
  ghost predicate Fenced(s: bytes, rs: seq<Rec>, lo: nat, hi: nat) {
    RegionClear(s, rs, lo, hi) && OperandsClear(s, rs, lo, hi)
  }

  // ----- Layouts carry over

  lemma RecordBesideRegion(s: bytes, rs: seq<Rec>, lo: nat, hi: nat, i: nat)
    requires RegionClear(s, rs, lo, hi) && i < |rs| && lo < hi
    ensures RecordEnd(s, rs[i].p, rs[i].kind) <= lo || hi <= rs[i].p
  {
    var k := Max(rs[i].p, lo);
    assert RecordEnd(s, rs[i].p, rs[i].kind) > rs[i].p;
    if k < hi && k < RecordEnd(s, rs[i].p, rs[i].kind) {
      assert ClearOf(s, rs[i], k) && InRecord(s, rs[i], k);
      assert false;
    }
  }

  /** Same events and same header fields: the layout carries over. */
  lemma PreparedSame(s: bytes, t: bytes, imps: seq<nat>, strs: seq<nat>)
    requires Prepared(s, imps, strs) && SameEvents(s, t, AllRecs(imps, strs))
    requires forall k :: 0 <= k < HEADER_SIZE ==> t[k] == s[k]
    ensures Prepared(t, imps, strs)
    ensures ExportTable(t) == ExportTable(s) && Get16(t, EXPORT_COUNT) == Get16(s, EXPORT_COUNT)
  {
    var rs := AllRecs(imps, strs);
    LayoutSame(s, t, rs);
    OperandLayoutSame(s, t, rs);
    FencedSame(s, t, rs, 0, HEADER_SIZE);
    FencedSame(s, t, rs, ExportTable(s), ExportEnd(s));
    forall i | 0 <= i < |imps|
      ensures ImportFenced(t, rs, imps[i])
    {
      assert ImportFenced(s, rs, imps[i]);
      assert rs[i] == Rec(imps[i], ImportRecord) && SameRecord(s, t, rs[i]);
      OperandsClearSame(s, t, rs, imps[i], RecordEnd(s, imps[i], ImportRecord));
    }
    WalkSame(s, t, imps, strs);
  }

  lemma FencedSame(s: bytes, t: bytes, rs: seq<Rec>, lo: nat, hi: nat)
    requires SameEvents(s, t, rs) && Fenced(s, rs, lo, hi)
    ensures Fenced(t, rs, lo, hi)
  {
    RegionClearSame(s, t, rs, lo, hi);
    OperandsClearSame(s, t, rs, lo, hi);
  }

  lemma WalkSame(s: bytes, t: bytes, imps: seq<nat>, strs: seq<nat>)
    requires |s| == |t| >= HEADER_SIZE && DevStringWalk(s) == Some(strs) && SameEvents(s, t, AllRecs(imps, strs))
    requires forall k :: 0 <= k < HEADER_SIZE ==> t[k] == s[k]
    ensures DevStringWalk(t) == Some(strs)
  {
    hide RecordEvents, Walk, Table;
    var rs := AllRecs(imps, strs);
    forall i | 0 <= i < |strs| && Fits(s, strs[i], StringRecord)
      ensures Addresses(t, strs[i], StringRecord) == Addresses(s, strs[i], StringRecord)
    {
      assert rs[|imps| + i] == Rec(strs[i], StringRecord);
      assert SameRecord(s, t, rs[|imps| + i]);
    }
    SameCountsSameWalk(s, t, Get32(s, DEVBLOCK_STRING_OFFSET), Get16(s, DEVBLOCK_STRING_COUNT), StringRecord, strs);
  }

  lemma FencedInside(s: bytes, rs: seq<Rec>, lo: nat, hi: nat, k: nat)
    requires Fenced(s, rs, lo, hi) && lo <= k < hi
    ensures Fenced(s, rs, k, k + 1)
  {
  }

  lemma PreparedFacts(s: bytes, imps: seq<nat>, strs: seq<nat>)
    requires Prepared(s, imps, strs)
    ensures HEADER_SIZE <= |s| < 0x1_0000_0000 && HEADER_SIZE <= ExportTable(s) && ExportEnd(s) <= |s|
  {
  }

  // ----- Both passes, as one run

  lemma AllRecsPermute(imps: seq<nat>, seen: seq<nat>, strs: seq<nat>)
    requires multiset(imps) == multiset(seen)
    ensures multiset(AllRecs(imps, strs)) == multiset(AllRecs(seen, strs))
  {
    RecsPermute(imps, seen, ImportRecord);
  }

  /** Visiting the imports in another order meets the same layout. */
  lemma PreparedPermute(s: bytes, imps: seq<nat>, seen: seq<nat>, strs: seq<nat>)
    requires Prepared(s, imps, strs) && multiset(imps) == multiset(seen)
    ensures Prepared(s, seen, strs)
  {
    var a, b := AllRecs(imps, strs), AllRecs(seen, strs);
    AllRecsPermute(imps, seen, strs);
    LayoutNoRepeat(s, a);
    LayoutOfPermutation(s, a, b);
    OperandsPermute(s, a, b);
    ClearPermute(s, a, b, 0, HEADER_SIZE);
    ClearPermute(s, a, b, ExportTable(s), ExportEnd(s));
    forall i | 0 <= i < |seen|
      ensures ImportFenced(s, b, seen[i])
    {
      assert seen[i] in multiset(seen);
      assert seen[i] in imps;
      assert ImportFenced(s, a, seen[i]);
      ClearPermute(s, a, b, seen[i], RecordEnd(s, seen[i], ImportRecord));
    }
  }

  lemma LayoutSplit(s: bytes, a: seq<Rec>, b: seq<Rec>)
    requires Layout(s, a + b)
    ensures Layout(s, a) && Layout(s, b)
  {
    var c := a + b;
    assert c[..|a|] == a;
    LayoutPrefix(s, c, |a|);
    assert forall j :: 0 <= j < |b| ==> c[|a| + j] == b[j];
  }

  lemma RegionClearSplit(s: bytes, a: seq<Rec>, b: seq<Rec>, lo: nat, hi: nat)
    requires RegionClear(s, a + b, lo, hi)
    ensures RegionClear(s, a, lo, hi) && RegionClear(s, b, lo, hi)
  {
    var c := a + b;
    assert forall i :: 0 <= i < |a| ==> c[i] == a[i];
    assert forall j :: 0 <= j < |b| ==> c[|a| + j] == b[j];
  }

  lemma EarlierEventKeeps(s: bytes, c: seq<Rec>, n: nat, m: nat, e: Event, k: int)
    requires Layout(s, c) && n < m < |c| && Fits(s, c[n].p, c[n].kind) && Fits(s, c[m].p, c[m].kind)
    requires e in RecordEvents(s, c[n]) && InRecord(s, c[m], k)
    ensures !Writes(s, e, k)
  {
    RecordsDiffer(s, c, n, m, k);
    OutsideRecord(s, c[n], c[m], e, k);
  }

  /** A record of the second part is not written by the first. */
  lemma LaterRecordUnwritten(s: bytes, a: seq<Rec>, b: seq<Rec>, j: nat, k: int)
    requires Layout(s, a + b) && j < |b| && AllFit(s, a) && AllFit(s, b) && InRecord(s, b[j], k)
    ensures !Written(s, PassEvents(s, a), k)
  {
    hide Layout, RecordEvents, Writes, InRecord;
    var es := PassEvents(s, a);
    forall i | 0 <= i < |es|
      ensures !Writes(s, es[i], k)
    {
      var n := EventOrigin(s, a, es[i]);
      var c, m := a + b, |a| + j;
      assert c[n] == a[n] && c[m] == b[j];
      EarlierEventKeeps(s, c, n, m, es[i], k);
    }
  }

  /** After the import pass the string table reads as before. */
  lemma StringsAfterImports(s: bytes, imps: seq<nat>, strs: seq<nat>)
    requires Prepared(s, imps, strs)
    ensures var rsA, rsB := Recs(imps, ImportRecord), Recs(strs, StringRecord);
      && Layout(s, rsA) && Layout(s, rsB)
      && var t := Run(State(s, [], 0), PassEvents(s, rsA)).script;
      && SameEvents(s, t, rsB)
      && (forall k :: 0 <= k < HEADER_SIZE ==> t[k] == s[k])
  {
    hide Run, PassEvents, Written, Undisturbed, OperandLayout;
    var rsA, rsB := Recs(imps, ImportRecord), Recs(strs, StringRecord);
    var st := State(s, [], 0);
    LayoutSplit(s, rsA, rsB);
    RegionClearSplit(s, rsA, rsB, 0, HEADER_SIZE);
    var t := Run(st, PassEvents(s, rsA)).script;
    forall k | 0 <= k < HEADER_SIZE
      ensures t[k] == s[k]
    {
      RegionKept(st, rsA, 0, HEADER_SIZE, k);
    }
    PassUndisturbed(s, rsA);
    RunFrame(st, PassEvents(s, rsA));
    forall j | 0 <= j < |rsB|
      ensures Fits(t, rsB[j].p, rsB[j].kind) && SameRecord(s, t, rsB[j])
    {
      forall k | InRecord(s, rsB[j], k)
        ensures t[k] == s[k]
      {
        LaterRecordUnwritten(s, rsA, rsB, j, k);
      }
      RecordKept(s, t, rsB[j]);
    }
  }

  /** Forgetting the string table in the header. */
  function Tail(strs: seq<nat>): seq<Event> {
    (if strs == [] then [] else [Write(DEVBLOCK_STRING_COUNT, Zeros(2))]) + [Write(DEVBLOCK_STRING_OFFSET, Zeros(4))]
  }

  /** Everything both passes do, in the order they do it. */
  function DevEvents(s: bytes, imps: seq<nat>, strs: seq<nat>): seq<Event>
    requires AllFit(s, AllRecs(imps, strs))
  {
    PassEvents(s, AllRecs(imps, strs)) + Tail(strs)
  }

  /** The string pass, started where the import pass ended, completes one run
      over the first script. */
  lemma PassesAreOneRun(s: bytes, imps: seq<nat>, strs: seq<nat>)
    requires Prepared(s, imps, strs)
    ensures var rsA, rsB := Recs(imps, ImportRecord), Recs(strs, StringRecord);
      && AllFit(s, rsA)
      && var st := Run(State(s, [], 0), PassEvents(s, rsA));
      && AllFit(st.script, rsB)
      && Run(st, StringPass(st.script, strs)) == Run(State(s, [], 0), DevEvents(s, imps, strs))
  {
    hide Run, PassEvents, OperandLayout, Zeros;
    var rsA, rsB := Recs(imps, ImportRecord), Recs(strs, StringRecord);
    StringsAfterImports(s, imps, strs);
    var st := Run(State(s, [], 0), PassEvents(s, rsA));
    PassSame(s, st.script, rsB);
    Regroup(PassEvents(s, rsB), if strs == [] then [] else [Write(DEVBLOCK_STRING_COUNT, Zeros(2))],
            [Write(DEVBLOCK_STRING_OFFSET, Zeros(4))]);
    assert StringPass(st.script, strs) == PassEvents(s, rsB) + Tail(strs);
    RunConcat(State(s, [], 0), PassEvents(s, rsA), PassEvents(s, rsB) + Tail(strs));
    PassConcat(s, rsA, rsB);
    Regroup(PassEvents(s, rsA), PassEvents(s, rsB), Tail(strs));
  }

  lemma {:induction false} WritesHarvestNothing(s: bytes, es: seq<Event>, ws: seq<Event>)
    requires forall i :: 0 <= i < |ws| ==> ws[i].Write?
    ensures Harvest(s, es + ws) == Harvest(s, es)
    decreases |ws|
  {
    if ws == [] {
      assert es + ws == es;
    } else {
      assert (es + ws)[..|es + ws| - 1] == es + ws[..|ws| - 1];
      WritesHarvestNothing(s, es, ws[..|ws| - 1]);
    }
  }

  lemma TailUndisturbed(s: bytes, strs: seq<nat>)
    requires |s| >= HEADER_SIZE
    ensures Undisturbed(s, Tail(strs)) && forall i :: 0 <= i < |Tail(strs)| ==> Tail(strs)[i].Write?
  {
  }

  lemma DevEventsSound(s: bytes, imps: seq<nat>, strs: seq<nat>)
    requires Prepared(s, imps, strs)
    ensures var es := DevEvents(s, imps, strs);
      && Undisturbed(s, es) && OperandsApart(s, es)
      && Harvest(s, es) == Harvest(s, PassEvents(s, AllRecs(imps, strs)))
  {
    hide Harvest, PassEvents, OperandsApart, Undisturbed, Fenced, Zeros;
    var rs, ws := AllRecs(imps, strs), Tail(strs);
    LayoutFits(s, rs);
    var es := PassEvents(s, rs);
    TailUndisturbed(s, strs);
    PassUndisturbed(s, rs);
    UndisturbedConcat(s, es, ws);
    PassOperandsApart(s, rs);
    ApartConcat(s, es, ws);
    WritesHarvestNothing(s, es, ws);
  }

  lemma DevSlotBeside(s: bytes, imps: seq<nat>, strs: seq<nat>, c: nat)
    requires Prepared(s, imps, strs) && AllFit(s, AllRecs(imps, strs))
    requires c in Run(State(s, [], 0), DevEvents(s, imps, strs)).free
    ensures HEADER_SIZE <= c && c + 4 <= |s| && (c + 4 <= ExportTable(s) || ExportEnd(s) <= c) && c % 4 == 0
  {
    hide Run, DevEvents, OperandLayout, Layout, RegionClear, OperandsClear, DevStringWalk;
    DevEventsSound(s, imps, strs);
    SlotsWellPlaced(s, DevEvents(s, imps, strs));
    SlotFenced(s, imps, strs, 0, HEADER_SIZE, c);
    SlotFenced(s, imps, strs, ExportTable(s), ExportEnd(s), c);
  }

  /** The slots the passes leave are free for the exports: in the script, four
      bytes or more apart, outside the header and the export table. */
  lemma DevSlotsAreFree(s: bytes, imps: seq<nat>, strs: seq<nat>)
    requires Prepared(s, imps, strs)
    ensures var st := Run(State(s, [], 0), DevEvents(s, imps, strs));
      SlotsFree(|s|, ExportTable(s), Get16(s, EXPORT_COUNT), st.free)
  {
    LayoutFits(s, AllRecs(imps, strs));
    hide Run, DevEvents, OperandLayout, Layout, Undisturbed, OperandsApart, Fenced, OperandsClear, DevStringWalk, Harvest;
    var es := DevEvents(s, imps, strs);
    DevEventsSound(s, imps, strs);
    var free := Run(State(s, [], 0), es).free;
    SlotsApart(s, es);
    forall i | 0 <= i < |free|
      ensures HEADER_SIZE <= free[i] && free[i] + 4 <= |s| && free[i] % 4 == 0
      ensures free[i] + 4 <= ExportTable(s) || ExportEnd(s) <= free[i]
    {
      DevSlotBeside(s, imps, strs, free[i]);
    }
  }

  /** A freed slot lies outside every region the operands avoid. */
  lemma SlotFenced(s: bytes, imps: seq<nat>, strs: seq<nat>, lo: nat, hi: nat, c: nat)
    requires Prepared(s, imps, strs) && OperandsClear(s, AllRecs(imps, strs), lo, hi)
    requires c in Run(State(s, [], 0), DevEvents(s, imps, strs)).free
    ensures c + 4 <= lo || hi <= c
    ensures c >= 4
  {
    var es := DevEvents(s, imps, strs);
    DevEventsSound(s, imps, strs);
    RunIsTold(s, es);
    OthersMembers(Harvest(s, es), JunkOf(Harvest(s, es)));
    HarvestClear(s, AllRecs(imps, strs), lo, hi, c);
    HarvestPlacement(s, es);
  }

  /** What the passes write: nothing in a fenced region, but for the string
      table's own header fields. */
  lemma DevRegionKept(s: bytes, imps: seq<nat>, strs: seq<nat>, lo: nat, hi: nat, k: nat)
    requires Prepared(s, imps, strs) && RegionClear(s, AllRecs(imps, strs), lo, hi) && lo <= k < hi <= |s|
    requires k !in {28, 29, 30, 31, 66, 67}
    ensures Run(State(s, [], 0), DevEvents(s, imps, strs)).script[k] == s[k]
  {
    var rs := AllRecs(imps, strs);
    DevEventsSound(s, imps, strs);
    RegionUnwritten(s, rs, lo, hi, k);
    TailBelow(s, strs, k);
    WrittenConcat(s, PassEvents(s, rs), Tail(strs), k);
    RunFrame(State(s, [], 0), DevEvents(s, imps, strs));
  }

  lemma TailBelow(s: bytes, strs: seq<nat>, k: nat)
    requires k !in {28, 29, 30, 31, 66, 67}
    ensures !Written(s, Tail(strs), k)
  {
  }

  lemma ImportLayout(s: bytes, imps: seq<nat>, strs: seq<nat>)
    requires Prepared(s, imps, strs)
    ensures Layout(s, Recs(imps, ImportRecord))
  {
    LayoutSplit(s, Recs(imps, ImportRecord), Recs(strs, StringRecord));
  }

  /** After the import pass the string pass finds its table laid out as before. */
  lemma StringLayout(s: bytes, imps: seq<nat>, strs: seq<nat>)
    requires Prepared(s, imps, strs)
    ensures AllFit(s, Recs(imps, ImportRecord))
    ensures var t := Run(State(s, [], 0), PassEvents(s, Recs(imps, ImportRecord))).script;
      && |t| >= HEADER_SIZE && DevStringWalk(t) == Some(strs)
      && Layout(t, Recs(strs, StringRecord)) && RegionClear(t, Recs(strs, StringRecord), 0, HEADER_SIZE)
  {
    var rsA, rsB := Recs(imps, ImportRecord), Recs(strs, StringRecord);
    StringsAfterImports(s, imps, strs);
    var t := Run(State(s, [], 0), PassEvents(s, rsA)).script;
    LayoutSame(s, t, rsB);
    RegionClearSplit(s, rsA, rsB, 0, HEADER_SIZE);
    RegionClearSame(s, t, rsB, 0, HEADER_SIZE);
    assert AllRecs([], strs) == rsB;
    WalkSame(s, t, [], strs);
  }

  // ----- What the passes leave alone

  /** A byte the dev passes leave alone: no event writes it and no operand holds
      it, nor is it one of the string table's own header fields. */
  ghost predicate Spared(s: bytes, imps: seq<nat>, strs: seq<nat>, k: nat) {
    && k < |s| && k !in {28, 29, 30, 31, 66, 67}
    && Unwritten(s, AllRecs(imps, strs), k) && OperandsClear(s, AllRecs(imps, strs), k, k + 1)
  }

  lemma SparedSame(s: bytes, t: bytes, imps: seq<nat>, strs: seq<nat>, k: nat)
    requires SameEvents(s, t, AllRecs(imps, strs)) && Spared(s, imps, strs, k)
    ensures Spared(t, imps, strs, k)
  {
    hide SameEvents, Unwritten, OperandsClear;
    assert |t| == |s| by {
      EventsSize(s, t, AllRecs(imps, strs));
    }
    UnwrittenSame(s, t, AllRecs(imps, strs), k);
    OperandsClearSame(s, t, AllRecs(imps, strs), k, k + 1);
  }

  lemma EventsSize(s: bytes, t: bytes, rs: seq<Rec>)
    requires SameEvents(s, t, rs)
    ensures |t| == |s|
  {
  }

  lemma SparedPermute(s: bytes, imps: seq<nat>, seen: seq<nat>, strs: seq<nat>, k: nat)
    requires multiset(imps) == multiset(seen) && Spared(s, imps, strs, k)
    ensures Spared(s, seen, strs, k)
  {
    hide Unwritten, OperandsClear, AllRecs;
    AllRecsPermute(imps, seen, strs);
    UnwrittenPermute(s, AllRecs(imps, strs), AllRecs(seen, strs), k);
    ClearPermute(s, AllRecs(imps, strs), AllRecs(seen, strs), k, k + 1);
  }

  lemma DevSpareKept(s: bytes, imps: seq<nat>, strs: seq<nat>, k: nat)
    requires Prepared(s, imps, strs) && Spared(s, imps, strs, k)
    ensures AllFit(s, AllRecs(imps, strs))
    ensures Run(State(s, [], 0), DevEvents(s, imps, strs)).script[k] == s[k]
  {
    var rs := AllRecs(imps, strs);
    LayoutFits(s, rs);
    DevEventsSound(s, imps, strs);
    UnwrittenByPass(s, rs, k);
    TailBelow(s, strs, k);
    WrittenConcat(s, PassEvents(s, rs), Tail(strs), k);
    RunFrame(State(s, [], 0), DevEvents(s, imps, strs));
  }

  lemma FencedIsSpared(s: bytes, imps: seq<nat>, strs: seq<nat>, lo: nat, hi: nat, k: nat)
    requires Fenced(s, AllRecs(imps, strs), lo, hi) && lo <= k < hi
    requires k < |s| && k !in {28, 29, 30, 31, 66, 67}
    ensures Spared(s, imps, strs, k)
  {
    hide AllRecs, Unwritten, OperandsClear, RegionClear;
    ClearIsUnwritten(s, AllRecs(imps, strs), lo, hi, k);
    OperandsClearInside(s, AllRecs(imps, strs), lo, hi, k);
  }

  /** A dev call keeps its namespace, its address count and its flags; any other
      import keeps everything. */
  lemma ImportByteSpared(s: bytes, imps: seq<nat>, strs: seq<nat>, i: nat, k: nat)
    requires Prepared(s, imps, strs) && i < |imps|
    requires imps[i] + IMPORT_SIZE <= |s| && imps[i] <= k < RecordEnd(s, imps[i], ImportRecord)
    requires IsDevCall(s[imps[i] + 11]) ==> k in OwnBytes(imps[i])
    ensures Spared(s, imps, strs, k)
  {
    var rs := AllRecs(imps, strs);
    LayoutFits(s, rs);
    assert rs[i] == Rec(imps[i], ImportRecord) && ImportFenced(s, rs, imps[i]);
    hide Layout, OperandLayout, DevStringWalk, OperandsClear, Fenced;
    OwnBytesUnwritten(s, rs, i, k);
    ImportInBounds(s, imps, strs, i);
    OperandsClearInside(s, rs, imps[i], RecordEnd(s, imps[i], ImportRecord), k);
  }

  /** What an import has besides its name and parameter count, before its offsets. */
  function OwnBytes(p: nat): set<nat> {
    {p + 4, p + 5, p + 6, p + 7, p + 8, p + 9, p + 11}
  }

  lemma OwnByteUnwritten(s: bytes, p: nat, n: nat, k: nat)
    requires Fits(s, p, ImportRecord) && InRecord(s, Rec(p, ImportRecord), k) && n < |RecordEvents(s, Rec(p, ImportRecord))|
    requires MarksAvoid(s, Rec(p, ImportRecord), Rec(p, ImportRecord))
    requires IsDevCall(s[p + 11]) && k in OwnBytes(p)
    ensures !Writes(s, RecordEvents(s, Rec(p, ImportRecord))[n], k)
  {
    hide AssertHash, Le32, Marks, Accepts, RecordEvents, IsDevCall, OwnBytes, Get16, Get32;
    ImportEvents(s, p);
    var e := RecordEvents(s, Rec(p, ImportRecord))[n];
    assert Accepted(s, e) ==> !Marks(s, e, k);
    hide InRecord, MarksAvoid, Accepted;
    assert n >= 2 ==> e == DevKillOf(s, p, n - 2);
    OwnByteMissed(s, p, e, k);
  }

  lemma OwnByteMissed(s: bytes, p: nat, e: Event, k: nat)
    requires k in OwnBytes(p) && (Accepted(s, e) ==> !Marks(s, e, k))
    requires match e
      case Write(at, data) => at + |data| <= p + 4 || (at == p + 10 && |data| == 1)
      case Kill(at, _, _) => p + 12 <= at
    ensures !Writes(s, e, k)
  {
    hide Accepts, Marks;
  }

  lemma OwnBytesUnwritten(s: bytes, rs: seq<Rec>, i: nat, k: nat)
    requires Layout(s, rs) && AllFit(s, rs) && i < |rs| && rs[i].kind == ImportRecord && InRecord(s, rs[i], k)
    requires IsDevCall(s[rs[i].p + 11]) ==> k in OwnBytes(rs[i].p)
    ensures Unwritten(s, rs, k)
  {
    hide RecordEvents, Writes, Layout, InRecord, MarksAvoid, IsDevCall, OwnBytes;
    var p := rs[i].p;
    assert rs[i] == Rec(p, ImportRecord);
    RecordsAvoidOwnMarks(s, rs, i);
    forall e | e in RecordEvents(s, rs[i])
      ensures !Writes(s, e, k)
    {
      if IsDevCall(s[p + 11]) {
        var n :| 0 <= n < |RecordEvents(s, rs[i])| && RecordEvents(s, rs[i])[n] == e;
        OwnByteUnwritten(s, p, n, k);
      } else {
        NoEvents(s, p);
      }
    }
    UnwrittenByOthers(s, rs, i, k);
  }

  lemma RecordsAvoidOwnMarks(s: bytes, rs: seq<Rec>, i: nat)
    requires Layout(s, rs) && i < |rs|
    ensures Fits(s, rs[i].p, rs[i].kind) && MarksAvoid(s, rs[i], rs[i])
  {
  }

  lemma ImportInBounds(s: bytes, imps: seq<nat>, strs: seq<nat>, i: nat)
    requires Prepared(s, imps, strs) && i < |imps|
    ensures HEADER_SIZE <= imps[i] && Fits(s, imps[i], ImportRecord)
    ensures ExportTable(s) == ExportEnd(s) || RecordEnd(s, imps[i], ImportRecord) <= ExportTable(s) || ExportEnd(s) <= imps[i]
  {
    var rs := AllRecs(imps, strs);
    LayoutFits(s, rs);
    assert rs[i] == Rec(imps[i], ImportRecord);
    hide Layout, OperandLayout, DevStringWalk, RegionClear, OperandsClear;
    RecordBesideRegion(s, rs, 0, HEADER_SIZE, i);
    if ExportTable(s) < ExportEnd(s) {
      RecordBesideRegion(s, rs, ExportTable(s), ExportEnd(s), i);
    }
  }

  lemma StringInBounds(s: bytes, imps: seq<nat>, strs: seq<nat>, i: nat)
    requires Prepared(s, imps, strs) && i < |strs|
    ensures HEADER_SIZE <= strs[i] && Fits(s, strs[i], StringRecord)
    ensures ExportTable(s) == ExportEnd(s) || RecordEnd(s, strs[i], StringRecord) <= ExportTable(s) || ExportEnd(s) <= strs[i]
  {
    var rs := AllRecs(imps, strs);
    LayoutFits(s, rs);
    assert rs[|imps| + i] == Rec(strs[i], StringRecord);
    hide Layout, OperandLayout, DevStringWalk, RegionClear, OperandsClear;
    RecordBesideRegion(s, rs, 0, HEADER_SIZE, |imps| + i);
    if ExportTable(s) < ExportEnd(s) {
      RecordBesideRegion(s, rs, ExportTable(s), ExportEnd(s), |imps| + i);
    }
  }

  // ----- What the passes do to a record

  /** The kill of a dev call's `j`-th operand. */
  function DevKillOf(s: bytes, p: nat, j: nat): Event
    requires p + IMPORT_SIZE <= |s|
  {
    Kill(p + IMPORT_SIZE + 4 * j, 8, if IsMethod(s[p + 11]) then 1 else 0)
  }

  /** A dev call is named "assert" with one parameter, and every operand that was
      killed is read at the junk slot. */
  ghost predicate DevCallKilled(s: bytes, t: bytes, p: nat, junk: nat)
    requires |t| == |s| && Fits(s, p, ImportRecord)
  {
    && Get32(t, p) == AssertHash() && t[p + 10] == 1
    && forall j: nat :: j < Get16(s, p + 8) && Accepted(s, DevKillOf(s, p, j)) ==>
         Get32(t, p + IMPORT_SIZE + 4 * j) == junk
  }

  /** A dev string's record is zero, but for bytes an operand has that a slot may
      have been made of. */
  ghost predicate StringGone(s: bytes, t: bytes, imps: seq<nat>, strs: seq<nat>, p: nat)
    requires |t| == |s| && Fits(s, p, StringRecord)
  {
    forall k: nat :: p <= k < RecordEnd(s, p, StringRecord) && OperandsClear(s, AllRecs(imps, strs), k, k + 1) ==>
      t[k] == 0
  }

  /** Every dev call and every dev string is dealt with, the string table is forgotten,
      every word of a dead operand is the junk slot or freed, and marks are left around
      the operands. */
  ghost predicate DevDone(s: bytes, t: bytes, junk: nat, freed: seq<nat>, imps: seq<nat>, strs: seq<nat>)
    requires |t| == |s| >= HEADER_SIZE
  {
    && (forall i :: 0 <= i < |imps| ==>
         && Fits(s, imps[i], ImportRecord)
         && (IsDevCall(s[imps[i] + 11]) ==> DevCallKilled(s, t, imps[i], junk)))
    && (forall i :: 0 <= i < |strs| ==> Fits(s, strs[i], StringRecord) && StringGone(s, t, imps, strs, strs[i]))
    && Get32(t, DEVBLOCK_STRING_OFFSET) == 0 && Get16(t, DEVBLOCK_STRING_COUNT) == 0
    && Harvested(s, AllRecs(imps, strs), junk, freed) && MarksLeft(s, t, AllRecs(imps, strs))
  }

  /** The events up to the `n`-th of record `i`. */
  ghost function UpTo(s: bytes, imps: seq<nat>, strs: seq<nat>, i: nat, n: nat): seq<Event>
    requires AllFit(s, AllRecs(imps, strs)) && i < |AllRecs(imps, strs)|
    requires var r := AllRecs(imps, strs)[i]; n < |RecordEvents(s, r)|
  {
    FitPrefix(s, AllRecs(imps, strs), i);
    PassEvents(s, AllRecs(imps, strs)[..i]) + RecordEvents(s, AllRecs(imps, strs)[i])[..n + 1]
  }

  lemma FitPrefix(s: bytes, rs: seq<Rec>, i: nat)
    requires AllFit(s, rs) && i <= |rs|
    ensures AllFit(s, rs[..i])
  {
    assert forall j :: 0 <= j < i ==> rs[..i][j] == rs[j];
  }

  lemma UpToIsPrefix(s: bytes, imps: seq<nat>, strs: seq<nat>, i: nat, n: nat)
    returns (later: seq<Event>)
    requires AllFit(s, AllRecs(imps, strs)) && i < |AllRecs(imps, strs)|
    requires n < |RecordEvents(s, AllRecs(imps, strs)[i])|
    ensures AllFit(s, AllRecs(imps, strs)[i + 1..])
    ensures var own, u := RecordEvents(s, AllRecs(imps, strs)[i]), UpTo(s, imps, strs, i, n);
      && u != [] && u[|u| - 1] == own[n]
      && later == own[n + 1..] + PassEvents(s, AllRecs(imps, strs)[i + 1..]) + Tail(strs)
      && DevEvents(s, imps, strs) == u + later
  {
    hide RecordEvents, PassEvents, AllRecs, Tail;
    var rs := AllRecs(imps, strs);
    var own := RecordEvents(s, rs[i]);
    FitPrefix(s, rs, i);
    PassSplit(s, rs, i);
    var a, b, c := PassEvents(s, rs[..i]), PassEvents(s, rs[i + 1..]), Tail(strs);
    assert own == own[..n + 1] + own[n + 1..];
    later := own[n + 1..] + b + c;
    Regroup(a, own[..n + 1], own[n + 1..]);
    assert a + own + b + c == (a + own[..n + 1]) + (own[n + 1..] + b + c);
  }

  /** What one event of a record wrote is there at the end, unless a later event
      of that record writes it. */
  lemma RecordSettles(s: bytes, imps: seq<nat>, strs: seq<nat>, i: nat, n: nat, k: nat)
    requires Prepared(s, imps, strs) && AllFit(s, AllRecs(imps, strs)) && i < |AllRecs(imps, strs)|
    requires var r := AllRecs(imps, strs)[i];
      && n < |RecordEvents(s, r)| && InRecord(s, r, k)
      && forall m :: n < m < |RecordEvents(s, r)| ==> !Writes(s, RecordEvents(s, r)[m], k)
    ensures k < |s| && Run(State(s, [], 0), DevEvents(s, imps, strs)).script[k]
         == Run(State(s, [], 0), UpTo(s, imps, strs, i, n)).script[k]
  {
    PreparedFacts(s, imps, strs);
    RecordAfterHeader(s, imps, strs, i);
    DevEventsSound(s, imps, strs);
    var es, u := DevEvents(s, imps, strs), UpTo(s, imps, strs, i, n);
    var later := UpToIsPrefix(s, imps, strs, i, n);
    hide Prepared, RecordEvents, PassEvents, Writes, Run, Undisturbed, OperandsApart, UpTo, AllRecs, DevEvents, Tail;
    forall x | 0 <= x < |later|
      ensures !Writes(s, later[x], k)
    {
      LaterSpares(s, imps, strs, i, n, k, later, x);
    }
    RunSettles(s, es, u, later, k);
  }

  lemma RunSettles(s: bytes, es: seq<Event>, u: seq<Event>, later: seq<Event>, k: nat)
    requires |s| < 0x1_0000_0000 && Undisturbed(s, es) && es == u + later && k < |s|
    requires forall x :: 0 <= x < |later| ==> !Writes(s, later[x], k)
    ensures Run(State(s, [], 0), es).script[k] == Run(State(s, [], 0), u).script[k]
  {
    hide Writes, Run, Undisturbed;
    forall m | |u| <= m < |es|
      ensures !Writes(s, es[m], k)
    {
      assert es[m] == later[m - |u|];
    }
    LaterKeeps(s, es, |u|, k);
    assert es[..|u|] == u;
  }

  lemma RecordAfterHeader(s: bytes, imps: seq<nat>, strs: seq<nat>, i: nat)
    requires Prepared(s, imps, strs) && i < |AllRecs(imps, strs)|
    ensures AllRecs(imps, strs)[i].p >= HEADER_SIZE
  {
    RecordBesideRegion(s, AllRecs(imps, strs), 0, HEADER_SIZE, i);
  }

  lemma LaterSpares(s: bytes, imps: seq<nat>, strs: seq<nat>, i: nat, n: nat, k: nat, later: seq<Event>, x: nat)
    requires Prepared(s, imps, strs) && AllFit(s, AllRecs(imps, strs)) && i < |AllRecs(imps, strs)|
    requires var r := AllRecs(imps, strs)[i];
      && n < |RecordEvents(s, r)| && InRecord(s, r, k) && k >= HEADER_SIZE
      && forall m :: n < m < |RecordEvents(s, r)| ==> !Writes(s, RecordEvents(s, r)[m], k)
    requires AllFit(s, AllRecs(imps, strs)[i + 1..])
    requires later == RecordEvents(s, AllRecs(imps, strs)[i])[n + 1..] + PassEvents(s, AllRecs(imps, strs)[i + 1..])
      + Tail(strs)
    requires x < |later|
    ensures !Writes(s, later[x], k)
  {
    hide RecordEvents, PassEvents, Writes, Layout, Prepared, AllRecs, Tail, InRecord;
    RecordsLaidOut(s, imps, strs);
    var rs := AllRecs(imps, strs);
    var own, b, c := RecordEvents(s, rs[i]), PassEvents(s, rs[i + 1..]), Tail(strs);
    var a := |own| - n - 1;
    if x < a {
      assert later[x] == own[n + 1 + x];
    } else if x < a + |b| {
      assert later[x] == b[x - a];
      var m := EventOrigin(s, rs[i + 1..], b[x - a]);
      assert rs[i + 1..][m] == rs[i + 1 + m];
      OtherEventKeeps(s, rs, i + 1 + m, i, later[x], k);
    } else {
      assert later[x] == c[x - a - |b|];
      TailSpares(s, strs, x - a - |b|, k);
    }
  }

  lemma TailSpares(s: bytes, strs: seq<nat>, x: nat, k: nat)
    requires x < |Tail(strs)| && k >= HEADER_SIZE
    ensures !Writes(s, Tail(strs)[x], k)
  {
  }

  /** The byte is one the event names outright: plain data, or the offset of a kill. */
  predicate Names(e: Event, k: int) {
    match e
    case Write(at, data) => at <= k < at + |data|
    case Kill(at, _, _) => at <= k < at + 4
  }

  /** Each byte a dev call's own events write is written by one of them only. */
  lemma DevCallWritesOnce(s: bytes, p: nat, n: nat, m: nat, k: nat)
    requires Fits(s, p, ImportRecord) && IsDevCall(s[p + 11]) && MarksAvoid(s, Rec(p, ImportRecord), Rec(p, ImportRecord))
    requires InRecord(s, Rec(p, ImportRecord), k)
    requires n < m < |RecordEvents(s, Rec(p, ImportRecord))| && Names(RecordEvents(s, Rec(p, ImportRecord))[n], k)
    ensures !Writes(s, RecordEvents(s, Rec(p, ImportRecord))[m], k)
  {
    hide Le32, AssertHash, Marks, Accepts;
    ImportEvents(s, p);
    var es := RecordEvents(s, Rec(p, ImportRecord));
    assert Accepted(s, es[m]) ==> !Marks(s, es[m], k);
    hide RecordEvents;
    if m >= 2 {
      assert es[m] == DevKillOf(s, p, m - 2);
      if n >= 2 {
        assert es[n] == DevKillOf(s, p, n - 2);
      }
    }
  }

  lemma DevCallSettles(s: bytes, imps: seq<nat>, strs: seq<nat>, i: nat, n: nat, k: nat)
    requires Prepared(s, imps, strs) && AllFit(s, AllRecs(imps, strs)) && i < |imps|
    requires Fits(s, imps[i], ImportRecord) && IsDevCall(s[imps[i] + 11])
    requires n < |RecordEvents(s, Rec(imps[i], ImportRecord))|
    requires Names(RecordEvents(s, Rec(imps[i], ImportRecord))[n], k)
    ensures i < |AllRecs(imps, strs)| && AllRecs(imps, strs)[i] == Rec(imps[i], ImportRecord)
    ensures k < |s| && Run(State(s, [], 0), DevEvents(s, imps, strs)).script[k]
         == Run(State(s, [], 0), UpTo(s, imps, strs, i, n)).script[k]
  {
    hide Prepared, RecordEvents, Writes, Run, UpTo, DevEvents, MarksAvoid, AllRecs, IsDevCall, InRecord;
    var r := Rec(imps[i], ImportRecord);
    DevCallPlaced(s, imps, strs, i);
    NamedInRecord(s, r, n, k);
    forall m | n < m < |RecordEvents(s, r)|
      ensures !Writes(s, RecordEvents(s, r)[m], k)
    {
      DevCallWritesOnce(s, imps[i], n, m, k);
    }
    RecordSettles(s, imps, strs, i, n, k);
  }

  lemma DevCallPlaced(s: bytes, imps: seq<nat>, strs: seq<nat>, i: nat)
    requires Prepared(s, imps, strs) && i < |imps|
    ensures i < |AllRecs(imps, strs)| && AllRecs(imps, strs)[i] == Rec(imps[i], ImportRecord)
    ensures |s| < 0x1_0000_0000 && Fits(s, imps[i], ImportRecord)
    ensures MarksAvoid(s, Rec(imps[i], ImportRecord), Rec(imps[i], ImportRecord))
  {
    RecordsAvoidOwnMarks(s, AllRecs(imps, strs), i);
  }

  lemma NamedInRecord(s: bytes, r: Rec, n: nat, k: int)
    requires Fits(s, r.p, r.kind) && n < |RecordEvents(s, r)| && Names(RecordEvents(s, r)[n], k)
    ensures InRecord(s, r, k)
  {
    hide RecordEvents;
    RecordEventsAreLocal(s, r, RecordEvents(s, r)[n]);
  }

  lemma DevCallNamed(s: bytes, imps: seq<nat>, strs: seq<nat>, i: nat, k: nat)
    requires Prepared(s, imps, strs) && AllFit(s, AllRecs(imps, strs)) && i < |imps|
    requires Fits(s, imps[i], ImportRecord) && IsDevCall(s[imps[i] + 11]) && (k < 4 || k == 10)
    ensures var t := Run(State(s, [], 0), DevEvents(s, imps, strs)).script;
      t[imps[i] + k] == if k < 4 then Le32(AssertHash())[k] else 1
  {
    hide Prepared, Run, RecordEvents, DevEvents, AllRecs, AssertHash, Le32;
    var n := if k < 4 then 0 else 1;
    ImportEvents(s, imps[i]);
    DevCallSettles(s, imps, strs, i, n, imps[i] + k);
    var later := UpToIsPrefix(s, imps, strs, i, n);
    assert |s| < 0x1_0000_0000 by {
      PreparedFacts(s, imps, strs);
    }
    WriteLands(s, UpTo(s, imps, strs, i, n), imps[i] + k);
  }

  lemma DevOffsetSettles(s: bytes, imps: seq<nat>, strs: seq<nat>, i: nat, j: nat)
    requires Prepared(s, imps, strs) && AllFit(s, AllRecs(imps, strs)) && i < |imps|
    requires Fits(s, imps[i], ImportRecord) && IsDevCall(s[imps[i] + 11]) && j < Get16(s, imps[i] + 8)
    ensures i < |AllRecs(imps, strs)| && AllRecs(imps, strs)[i] == Rec(imps[i], ImportRecord)
    ensures 2 + j < |RecordEvents(s, Rec(imps[i], ImportRecord))|
    ensures |s| < 0x1_0000_0000
    ensures var at := imps[i] + IMPORT_SIZE + 4 * j;
      Get32(Run(State(s, [], 0), DevEvents(s, imps, strs)).script, at)
        == Get32(Run(State(s, [], 0), UpTo(s, imps, strs, i, 2 + j)).script, at)
  {
    PreparedFacts(s, imps, strs);
    var at := imps[i] + IMPORT_SIZE + 4 * j;
    ImportEvents(s, imps[i]);
    hide Prepared, Run, RecordEvents, DevEvents, AllRecs, UpTo, DevKillOf, Get32;
    DevByteSettles(s, imps, strs, i, j, at);
    var a, b := Run(State(s, [], 0), DevEvents(s, imps, strs)).script, Run(State(s, [], 0), UpTo(s, imps, strs, i, 2 + j)).script;
    forall k | at <= k < at + 4
      ensures k < |s| && a[k] == b[k]
    {
      DevByteSettles(s, imps, strs, i, j, k);
    }
    SameField(a, b, at);
  }

  lemma DevByteSettles(s: bytes, imps: seq<nat>, strs: seq<nat>, i: nat, j: nat, k: nat)
    requires Prepared(s, imps, strs) && AllFit(s, AllRecs(imps, strs)) && i < |imps|
    requires Fits(s, imps[i], ImportRecord) && IsDevCall(s[imps[i] + 11]) && j < Get16(s, imps[i] + 8)
    requires var at := imps[i] + IMPORT_SIZE + 4 * j; at <= k < at + 4
    ensures i < |AllRecs(imps, strs)| && AllRecs(imps, strs)[i] == Rec(imps[i], ImportRecord)
    ensures 2 + j < |RecordEvents(s, Rec(imps[i], ImportRecord))|
    ensures k < |s| < 0x1_0000_0000
    ensures Run(State(s, [], 0), DevEvents(s, imps, strs)).script[k]
         == Run(State(s, [], 0), UpTo(s, imps, strs, i, 2 + j)).script[k]
  {
    PreparedFacts(s, imps, strs);
    ImportEvents(s, imps[i]);
    hide Prepared, Run, RecordEvents, DevEvents, AllRecs, UpTo, Get16;
    DevCallSettles(s, imps, strs, i, 2 + j, k);
  }

  lemma DevOffsetRedirected(s: bytes, imps: seq<nat>, strs: seq<nat>, i: nat, j: nat)
    requires Prepared(s, imps, strs) && AllFit(s, AllRecs(imps, strs)) && i < |imps|
    requires Fits(s, imps[i], ImportRecord) && IsDevCall(s[imps[i] + 11])
    requires j < Get16(s, imps[i] + 8) && Accepted(s, DevKillOf(s, imps[i], j))
    ensures |s| < 0x1_0000_0000
    ensures var st := Run(State(s, [], 0), DevEvents(s, imps, strs));
      Get32(st.script, imps[i] + IMPORT_SIZE + 4 * j) == st.junk
  {
    hide Prepared, Run, RecordEvents, DevEvents, AllRecs, Accepted, Undisturbed, OperandsApart, UpTo, Tail, Get32, Get16,
         AllFit, PassEvents, IsDevCall;
    PreparedFacts(s, imps, strs);
    DevEventsSound(s, imps, strs);
    DevOffsetSettles(s, imps, strs, i, j);
    ImportEvents(s, imps[i]);
    var later := UpToIsPrefix(s, imps, strs, i, 2 + j);
    PrefixRedirects(s, DevEvents(s, imps, strs), UpTo(s, imps, strs, i, 2 + j), later, DevKillOf(s, imps[i], j));
  }

  lemma PrefixRedirects(s: bytes, es: seq<Event>, u: seq<Event>, later: seq<Event>, e: Event)
    requires |s| < 0x1_0000_0000 && Undisturbed(s, es) && es == u + later
    requires u != [] && u[|u| - 1] == e && Accepted(s, e)
    ensures Get32(Run(State(s, [], 0), u).script, e.at) == Run(State(s, [], 0), es).junk
  {
    hide Run, Undisturbed, Get32;
    assert u <= es;
    AcceptedIsRedirected(s, u, es);
  }


  /** `t` is the script after both passes. */
  ghost predicate AfterRun(s: bytes, imps: seq<nat>, strs: seq<nat>, t: bytes, junk: nat) {
    && |s| < 0x1_0000_0000 && AllFit(s, AllRecs(imps, strs)) && |t| == |s|
    && var st := Run(State(s, [], 0), DevEvents(s, imps, strs)); st.script == t && st.junk == junk
  }

  lemma DevCallIsAssert(s: bytes, imps: seq<nat>, strs: seq<nat>, i: nat, t: bytes, junk: nat)
    requires Prepared(s, imps, strs) && AfterRun(s, imps, strs, t, junk) && i < |imps|
    requires Fits(s, imps[i], ImportRecord) && IsDevCall(s[imps[i] + 11])
    ensures |t| == |s| && Get32(t, imps[i]) == AssertHash() && t[imps[i] + 10] == 1
  {
    hide Prepared, Run, DevEvents, AllRecs, AssertHash, Get32, Le32, IsDevCall;
    DevCallNamed(s, imps, strs, i, 10);
    DevCallNamed(s, imps, strs, i, 0);
    DevCallNamed(s, imps, strs, i, 1);
    DevCallNamed(s, imps, strs, i, 2);
    DevCallNamed(s, imps, strs, i, 3);
    SameWord(t, imps[i], Le32(AssertHash()));
  }

  lemma DevOffsetIsJunk(s: bytes, imps: seq<nat>, strs: seq<nat>, i: nat, j: nat, t: bytes, junk: nat)
    requires Prepared(s, imps, strs) && AfterRun(s, imps, strs, t, junk) && i < |imps|
    requires Fits(s, imps[i], ImportRecord) && IsDevCall(s[imps[i] + 11])
    requires j < Get16(s, imps[i] + 8) && Accepted(s, DevKillOf(s, imps[i], j))
    ensures |t| == |s| && Get32(t, imps[i] + IMPORT_SIZE + 4 * j) == junk
  {
    hide Prepared, Run, DevEvents, AllRecs, Get32, Accepted;
    DevOffsetRedirected(s, imps, strs, i, j);
  }

  lemma DevCallDone(s: bytes, imps: seq<nat>, strs: seq<nat>, i: nat, t: bytes, junk: nat)
    requires Prepared(s, imps, strs) && AfterRun(s, imps, strs, t, junk) && i < |imps|
    requires Fits(s, imps[i], ImportRecord) && IsDevCall(s[imps[i] + 11])
    ensures |t| == |s| && DevCallKilled(s, t, imps[i], junk)
  {
    DevCallIsAssert(s, imps, strs, i, t, junk);
    hide Prepared, AfterRun, AllRecs, AssertHash, Accepted, Get32, DevKillOf;
    forall j: nat | j < Get16(s, imps[i] + 8) && Accepted(s, DevKillOf(s, imps[i], j))
      ensures Get32(t, imps[i] + IMPORT_SIZE + 4 * j) == junk
    {
      DevOffsetIsJunk(s, imps, strs, i, j, t, junk);
    }
  }

  lemma SameWord(t: bytes, p: nat, word: bytes)
    requires p + 4 <= |t| && |word| == 4 && forall k: nat :: k < 4 ==> t[p + k] == word[k]
    ensures Get32(t, p) == Get32(word, 0)
  {
    assert t[p + 0] == word[0];
  }

  lemma DevStringDone(s: bytes, imps: seq<nat>, strs: seq<nat>, i: nat, k: nat)
    requires Prepared(s, imps, strs) && AllFit(s, AllRecs(imps, strs)) && i < |strs|
    requires Fits(s, strs[i], StringRecord) && strs[i] <= k < RecordEnd(s, strs[i], StringRecord)
    ensures Run(State(s, [], 0), DevEvents(s, imps, strs)).script[k] == 0
  {
    hide Prepared, Run, RecordEvents, DevEvents, UpTo;
    PreparedFacts(s, imps, strs);
    var p, x := strs[i], |imps| + i;
    assert AllRecs(imps, strs)[x] == Rec(p, StringRecord);
    hide AllRecs;
    StringEvents(s, p);
    var n := Addresses(s, p, StringRecord) + if k < p + STRING_SIZE then 1 else 0;
    RecordSettles(s, imps, strs, x, n, k);
    var later := UpToIsPrefix(s, imps, strs, x, n);
    WriteLands(s, UpTo(s, imps, strs, x, n), k);
  }

  lemma TableForgotten(s: bytes, imps: seq<nat>, strs: seq<nat>)
    requires Prepared(s, imps, strs) && AllFit(s, AllRecs(imps, strs))
    ensures var t := Run(State(s, [], 0), DevEvents(s, imps, strs)).script;
      Get32(t, DEVBLOCK_STRING_OFFSET) == 0 && Get16(t, DEVBLOCK_STRING_COUNT) == 0
  {
    var rs := AllRecs(imps, strs);
    DevEventsSound(s, imps, strs);
    var es := DevEvents(s, imps, strs);
    var a := |PassEvents(s, rs)|;
    assert strs == [] ==> s[66] == 0 && s[67] == 0 by {
      WalkIsTable(s, Get32(s, DEVBLOCK_STRING_OFFSET), Get16(s, DEVBLOCK_STRING_COUNT), StringRecord, strs);
    }
    hide PassEvents, Layout, OperandLayout, DevStringWalk, Undisturbed, OperandsApart, RegionClear, OperandsClear, AllRecs, Run;
    forall k: nat | k in {66, 67}
      ensures Run(State(s, [], 0), es).script[k] == 0
    {
      CountForgotten(s, imps, strs, k);
    }
    forall k: nat | k in {28, 29, 30, 31}
      ensures Run(State(s, [], 0), es).script[k] == 0
    {
      assert es[|es| - 1] == Write(DEVBLOCK_STRING_OFFSET, Zeros(4));
      WriteLands(s, es, k);
    }
  }

  lemma CountForgotten(s: bytes, imps: seq<nat>, strs: seq<nat>, k: nat)
    requires Prepared(s, imps, strs) && AllFit(s, AllRecs(imps, strs)) && k in {66, 67}
    requires strs == [] ==> s[66] == 0 && s[67] == 0
    ensures Run(State(s, [], 0), DevEvents(s, imps, strs)).script[k] == 0
  {
    PreparedFacts(s, imps, strs);
    DevEventsSound(s, imps, strs);
    var es, front := DevEvents(s, imps, strs), PassEvents(s, AllRecs(imps, strs));
    hide Prepared, Run, Undisturbed, OperandsApart, PassEvents, AllRecs;
    if strs == [] {
      CountUnwritten(s, imps, strs, k);
      hide DevEvents;
      RunFrame(State(s, [], 0), es);
    } else {
      assert es == front + [Write(DEVBLOCK_STRING_COUNT, Zeros(2)), Write(DEVBLOCK_STRING_OFFSET, Zeros(4))];
      CountCleared(s, front, es, k);
    }
  }

  lemma CountCleared(s: bytes, front: seq<Event>, es: seq<Event>, k: nat)
    requires HEADER_SIZE <= |s| < 0x1_0000_0000 && Undisturbed(s, es) && k in {66, 67}
    requires es == front + [Write(DEVBLOCK_STRING_COUNT, Zeros(2)), Write(DEVBLOCK_STRING_OFFSET, Zeros(4))]
    ensures Run(State(s, [], 0), es).script[k] == 0
  {
    hide Run, Undisturbed;
    var n := |front| + 1;
    assert es[n - 1] == Write(DEVBLOCK_STRING_COUNT, Zeros(2));
    assert |es| == n + 1 && es[n] == Write(DEVBLOCK_STRING_OFFSET, Zeros(4));
    LaterKeeps(s, es, n, k);
    assert es[..n][n - 1] == es[n - 1];
    WriteLands(s, es[..n], k);
  }

  lemma CountUnwritten(s: bytes, imps: seq<nat>, strs: seq<nat>, k: nat)
    requires Prepared(s, imps, strs) && AllFit(s, AllRecs(imps, strs)) && k in {66, 67} && strs == []
    ensures !Written(s, DevEvents(s, imps, strs), k)
  {
    var rs := AllRecs(imps, strs);
    RegionUnwritten(s, rs, 0, HEADER_SIZE, k);
    hide Prepared, PassEvents, AllRecs;
    assert Tail(strs) == [Write(DEVBLOCK_STRING_OFFSET, Zeros(4))];
    assert !Written(s, Tail(strs), k);
    WrittenConcat(s, PassEvents(s, rs), Tail(strs), k);
  }

  // ----- After the passes

  /** A byte of no table, no mark around a dev operand, and no dev operand, nor
      of the string table's own header fields. */
  ghost predicate LiveByte(s: bytes, imps: seq<nat>, strs: seq<nat>, k: nat)
    requires |s| >= HEADER_SIZE
  {
    && k < |s| && k !in {28, 29, 30, 31, 66, 67} && !(ExportTable(s) <= k < ExportEnd(s))
    && Fenced(s, AllRecs(imps, strs), k, k + 1)
  }

  /** A byte no pass between renaming and trampolines changes. */
  ghost predicate Untouched(s: bytes, imps: seq<nat>, strs: seq<nat>, dev: bool, k: nat) {
    k < |s| && (dev ==> Spared(s, imps, strs, k))
  }

  /** No slot has the byte. */
  ghost predicate SlotsMiss(free: seq<nat>, k: nat) {
    forall j :: 0 <= j < |free| ==> !(free[j] <= k < free[j] + 4)
  }

  /** What the script, the free list and the junk slot are after the dev passes,
      or without them. */
  ghost predicate AfterDev(s: bytes, t: bytes, free: seq<nat>, junk: nat, dev: bool, imps: seq<nat>, strs: seq<nat>)
    requires |s| >= HEADER_SIZE
  {
    && |t| == |s| && ExportTable(t) == ExportTable(s) && Get16(t, EXPORT_COUNT) == Get16(s, EXPORT_COUNT)
    && SlotsFree(|s|, ExportTable(s), Get16(s, EXPORT_COUNT), free)
    && (dev ==> DevDone(s, t, junk, free, imps, strs))
    && (!dev ==> free == [] && junk == 0)
    && (forall k: nat :: Untouched(s, imps, strs, dev, k) ==> t[k] == s[k])
    && forall k: nat :: OperandsClear(s, AllRecs(imps, strs), k, k + 1) ==> SlotsMiss(free, k)
  }

  lemma WithoutDev(s: bytes, imps: seq<nat>, strs: seq<nat>)
    requires |s| >= HEADER_SIZE
    ensures AfterDev(s, s, [], 0, false, imps, strs)
  {
  }

  lemma SameImport(imps: seq<nat>, seen: seq<nat>, i: nat) returns (x: nat)
    requires multiset(imps) == multiset(seen) && i < |imps|
    ensures x < |seen| && seen[x] == imps[i]
  {
    assert imps[i] in multiset(imps);
    x :| 0 <= x < |seen| && seen[x] == imps[i];
  }

  lemma DevHeaderKept(s: bytes, imps: seq<nat>, strs: seq<nat>)
    requires Prepared(s, imps, strs) && AllFit(s, AllRecs(imps, strs))
    ensures var t := Run(State(s, [], 0), DevEvents(s, imps, strs)).script;
      ExportTable(t) == ExportTable(s) && Get16(t, EXPORT_COUNT) == Get16(s, EXPORT_COUNT)
  {
    hide Run, DevEvents, Layout, OperandLayout, DevStringWalk;
    forall k | k in {32, 33, 34, 35, 58, 59}
      ensures Run(State(s, [], 0), DevEvents(s, imps, strs)).script[k] == s[k]
    {
      DevRegionKept(s, imps, strs, 0, HEADER_SIZE, k);
    }
  }

  lemma DevRunDone(s: bytes, imps: seq<nat>, seen: seq<nat>, strs: seq<nat>)
    requires Prepared(s, imps, strs) && Prepared(s, seen, strs) && multiset(imps) == multiset(seen)
    ensures AllFit(s, AllRecs(seen, strs))
    ensures var st := Run(State(s, [], 0), DevEvents(s, seen, strs));
      AfterDev(s, st.script, st.free, st.junk, true, imps, strs)
  {
    PreparedFacts(s, imps, strs);
    assert AllFit(s, AllRecs(seen, strs)) by {
      LayoutFits(s, AllRecs(seen, strs));
    }
    hide Prepared, Run, DevEvents, SlotsFree, Spared, OperandsClear, SlotsMiss, DevDone, Get16, Get32, AllRecs;
    var st := Run(State(s, [], 0), DevEvents(s, seen, strs));
    DevSlotsAreFree(s, seen, strs);
    DevHeaderKept(s, seen, strs);
    assert AfterRun(s, seen, strs, st.script, st.junk);
    EveryRecordDone(s, seen, strs, st.script, st.free, st.junk);
    DevDonePermute(s, st.script, st.junk, st.free, seen, imps, strs);
    forall k: nat | Untouched(s, imps, strs, true, k)
      ensures st.script[k] == s[k]
    {
      SparedPermute(s, imps, seen, strs, k);
      DevSpareKept(s, seen, strs, k);
    }
    forall k: nat | OperandsClear(s, AllRecs(imps, strs), k, k + 1)
      ensures SlotsMiss(st.free, k)
    {
      AllRecsPermute(imps, seen, strs);
      ClearPermute(s, AllRecs(imps, strs), AllRecs(seen, strs), k, k + 1);
      SlotsBeside(s, seen, strs, k);
    }
  }

  lemma SlotsBeside(s: bytes, imps: seq<nat>, strs: seq<nat>, k: nat)
    requires Prepared(s, imps, strs) && AllFit(s, AllRecs(imps, strs))
    requires OperandsClear(s, AllRecs(imps, strs), k, k + 1)
    ensures SlotsMiss(Run(State(s, [], 0), DevEvents(s, imps, strs)).free, k)
  {
    PreparedFacts(s, imps, strs);
    hide Prepared, Run, DevEvents, OperandsClear, AllRecs;
    var free := Run(State(s, [], 0), DevEvents(s, imps, strs)).free;
    forall j | 0 <= j < |free|
      ensures !(free[j] <= k < free[j] + 4)
    {
      SlotFenced(s, imps, strs, k, k + 1, free[j]);
    }
  }

  /** The slots are the words of dead operands. */
  lemma SlotsAreDeadWords(s: bytes, imps: seq<nat>, strs: seq<nat>)
    requires Prepared(s, imps, strs) && AllFit(s, AllRecs(imps, strs))
    ensures |s| < 0x1_0000_0000
    ensures var st := Run(State(s, [], 0), DevEvents(s, imps, strs)); Harvested(s, AllRecs(imps, strs), st.junk, st.free)
  {
    hide Run, DevEvents, AllRecs, Harvested, Undisturbed, OperandsApart, PassEvents, RecordEvents, Harvest, Layout,
         OperandLayout, Fenced, ImportFenced, DevStringWalk;
    PreparedFacts(s, imps, strs);
    DevEventsSound(s, imps, strs);
    RunHarvests(s, AllRecs(imps, strs), DevEvents(s, imps, strs));
  }

  /** Every operand is marked. */
  lemma MarksStay(s: bytes, imps: seq<nat>, strs: seq<nat>)
    requires Prepared(s, imps, strs) && AllFit(s, AllRecs(imps, strs))
    ensures |s| < 0x1_0000_0000
    ensures MarksLeft(s, Run(State(s, [], 0), DevEvents(s, imps, strs)).script, AllRecs(imps, strs))
  {
    hide Prepared, Run, DevEvents, AllRecs, OwnMark, RecordEvents, MarkByte, Accepted, Marks;
    PreparedFacts(s, imps, strs);
    var rs, es := AllRecs(imps, strs), DevEvents(s, imps, strs);
    forall i, e, k: nat |
      0 <= i < |rs| && e in RecordEvents(s, rs[i]) && Accepted(s, e) && Marks(s, e, k) && OwnMark(s, rs, e, k)
      ensures k < |s| && Run(State(s, [], 0), es).script[k] == MarkByte(s, e, k)
    {
      OwnMarkLands(s, imps, strs, i, e, k);
    }
  }

  lemma RecordsLaidOut(s: bytes, imps: seq<nat>, strs: seq<nat>)
    requires Prepared(s, imps, strs)
    ensures var rs := AllRecs(imps, strs); Layout(s, rs) && RegionClear(s, rs, 0, HEADER_SIZE)
  {
    hide Layout, OperandLayout, RegionClear, OperandsClear, DevStringWalk, AllRecs;
  }

  lemma OwnMarkLands(s: bytes, imps: seq<nat>, strs: seq<nat>, i: nat, e: Event, k: nat)
    requires Prepared(s, imps, strs) && AllFit(s, AllRecs(imps, strs)) && |s| < 0x1_0000_0000
    requires i < |AllRecs(imps, strs)| && e in RecordEvents(s, AllRecs(imps, strs)[i])
    requires Accepted(s, e) && Marks(s, e, k) && OwnMark(s, AllRecs(imps, strs), e, k)
    ensures k < |s| && Run(State(s, [], 0), DevEvents(s, imps, strs)).script[k] == MarkByte(s, e, k)
  {
    hide Prepared, Run, AllRecs, Undisturbed, OperandsApart, PassEvents, RecordEvents, Layout, RegionClear, OperandsClear,
         Marks, MarkByte, Writes, Tail, Accepted, Harvest;
    DevEventsSound(s, imps, strs);
    RecordsLaidOut(s, imps, strs);
    var rs, es := AllRecs(imps, strs), DevEvents(s, imps, strs);
    MarkOutside(s, rs, i, e, k, 0, HEADER_SIZE);
    if e.at <= k < e.at + 4 {
      OffsetIsNoMark(s, rs, i, e, k);
    }
    EventInPass(s, rs, i, e);
    forall f | f in es && f != e
      ensures !Writes(s, f, k)
    {
      if f in PassEvents(s, rs) {
        var j := EventOrigin(s, rs, f);
      } else {
        var x :| 0 <= x < |Tail(strs)| && Tail(strs)[x] == f;
        TailSpares(s, strs, x, k);
      }
    }
    MarkLands(s, es, e, k);
  }

  /** Every record of both tables is done, and the string table forgotten. */
  lemma EveryRecordDone(s: bytes, imps: seq<nat>, strs: seq<nat>, t: bytes, freed: seq<nat>, junk: nat)
    requires Prepared(s, imps, strs) && AfterRun(s, imps, strs, t, junk)
    requires freed == Run(State(s, [], 0), DevEvents(s, imps, strs)).free
    ensures |t| == |s| >= HEADER_SIZE && DevDone(s, t, junk, freed, imps, strs)
  {
    PreparedFacts(s, imps, strs);
    TableForgotten(s, imps, strs);
    SlotsAreDeadWords(s, imps, strs);
    MarksStay(s, imps, strs);
    hide Prepared, Run, DevEvents, DevCallKilled, AllRecs, StringGone, Get16, Get32, Harvested, MarksLeft;
    forall i | 0 <= i < |imps|
      ensures Fits(s, imps[i], ImportRecord)
      ensures IsDevCall(s[imps[i] + 11]) ==> DevCallKilled(s, t, imps[i], junk)
    {
      DevImportDone(s, imps, strs, i, t, junk);
    }
    forall i | 0 <= i < |strs|
      ensures Fits(s, strs[i], StringRecord) && StringGone(s, t, imps, strs, strs[i])
    {
      DevStringGone(s, imps, strs, i);
    }
  }

  lemma SlotsPermute(s: bytes, t: bytes, junk: nat, freed: seq<nat>, a: seq<Rec>, b: seq<Rec>)
    requires multiset(a) == multiset(b) && Harvested(s, a, junk, freed) && MarksLeft(s, t, a)
    ensures Harvested(s, b, junk, freed) && MarksLeft(s, t, b)
  {
    hide Harvested;
    HarvestedPermute(s, a, b, junk, freed);
    MarksLeftPermute(s, t, a, b);
  }

  /** What was done is the same, whatever the order in which imports are visited. */
  lemma DevDonePermute(s: bytes, t: bytes, junk: nat, freed: seq<nat>, seen: seq<nat>, imps: seq<nat>, strs: seq<nat>)
    requires |t| == |s| >= HEADER_SIZE && DevDone(s, t, junk, freed, seen, strs) && multiset(imps) == multiset(seen)
    ensures DevDone(s, t, junk, freed, imps, strs)
  {
    hide DevCallKilled, AllRecs, OperandsClear, Get16, Get32, IsDevCall, Harvested, MarksLeft;
    AllRecsPermute(imps, seen, strs);
    SlotsPermute(s, t, junk, freed, AllRecs(seen, strs), AllRecs(imps, strs));
    forall i | 0 <= i < |imps|
      ensures Fits(s, imps[i], ImportRecord)
      ensures IsDevCall(s[imps[i] + 11]) ==> DevCallKilled(s, t, imps[i], junk)
    {
      var x := SameImport(imps, seen, i);
    }
    forall i, k: nat | 0 <= i < |strs| && strs[i] <= k < RecordEnd(s, strs[i], StringRecord)
      && OperandsClear(s, AllRecs(imps, strs), k, k + 1)
      ensures t[k] == 0
    {
      AllRecsPermute(imps, seen, strs);
      ClearPermute(s, AllRecs(imps, strs), AllRecs(seen, strs), k, k + 1);
      assert StringGone(s, t, seen, strs, strs[i]);
    }
  }

  lemma DevImportDone(s: bytes, imps: seq<nat>, strs: seq<nat>, i: nat, t: bytes, junk: nat)
    requires Prepared(s, imps, strs) && AfterRun(s, imps, strs, t, junk) && i < |imps|
    ensures |t| == |s| && Fits(s, imps[i], ImportRecord)
    ensures IsDevCall(s[imps[i] + 11]) ==> DevCallKilled(s, t, imps[i], junk)
  {
    assert |t| == |s|;
    hide Prepared, AfterRun, DevCallKilled, IsDevCall;
    ImportInBounds(s, imps, strs, i);
    if IsDevCall(s[imps[i] + 11]) {
      DevCallDone(s, imps, strs, i, t, junk);
    }
  }

  lemma DevStringGone(s: bytes, imps: seq<nat>, strs: seq<nat>, i: nat)
    requires Prepared(s, imps, strs) && AllFit(s, AllRecs(imps, strs)) && i < |strs|
    ensures |s| < 0x1_0000_0000 && Fits(s, strs[i], StringRecord)
    ensures StringGone(s, Run(State(s, [], 0), DevEvents(s, imps, strs)).script, imps, strs, strs[i])
  {
    PreparedFacts(s, imps, strs);
    StringInBounds(s, imps, strs, i);
    hide Prepared, Run, DevEvents, AllRecs, OperandsClear;
    forall k: nat | strs[i] <= k < RecordEnd(s, strs[i], StringRecord)
      ensures Run(State(s, [], 0), DevEvents(s, imps, strs)).script[k] == 0
    {
      DevStringDone(s, imps, strs, i, k);
    }
  }

  /** After both passes, in any order of the imports, walking the import table
      again finds the same records. */
  lemma ImportsStillThere(s: bytes, imps: seq<nat>, seen: seq<nat>, strs: seq<nat>)
    requires Prepared(s, imps, strs) && Prepared(s, seen, strs) && multiset(imps) == multiset(seen)
    requires |s| >= HEADER_SIZE && ImportWalk(s) == Some(imps)
    ensures AllFit(s, AllRecs(seen, strs))
    ensures ImportWalk(Run(State(s, [], 0), DevEvents(s, seen, strs)).script) == Some(imps)
  {
    assert AllFit(s, AllRecs(seen, strs)) by {
      LayoutFits(s, AllRecs(seen, strs));
    }
    hide Prepared, Run, DevEvents, AllRecs, Spared;
    var t := Run(State(s, [], 0), DevEvents(s, seen, strs)).script;
    forall k: nat | Spared(s, imps, strs, k)
      ensures k < |s| && t[k] == s[k]
    {
      SparedPermute(s, imps, seen, strs, k);
      SparedInside(s, imps, strs, k);
      DevSpareKept(s, seen, strs, k);
    }
    SparedKeepsWalk(s, t, imps, strs);
  }

  lemma SparedInside(s: bytes, imps: seq<nat>, strs: seq<nat>, k: nat)
    requires Spared(s, imps, strs, k)
    ensures k < |s|
  {
  }

  lemma SparedKeepsWalk(s: bytes, t: bytes, imps: seq<nat>, strs: seq<nat>)
    requires Prepared(s, imps, strs) && |t| == |s| >= HEADER_SIZE && ImportWalk(s) == Some(imps)
    requires forall k: nat :: Spared(s, imps, strs, k) ==> k < |s| && t[k] == s[k]
    ensures ImportWalk(t) == Some(imps)
  {
    hide Prepared, Spared, Walk, Get16, Get32;
    forall k: nat | k in {36, 37, 38, 39, 60, 61}
      ensures t[k] == s[k]
    {
      HeaderSpared(s, imps, strs, k);
    }
    forall i, k: nat | 0 <= i < |imps| && Fits(s, imps[i], ImportRecord) && k in {imps[i] + 8, imps[i] + 9}
      ensures t[k] == s[k]
    {
      ImportByteSpared(s, imps, strs, i, k);
    }
    CountsKeepWalk(s, t, imps);
  }

  /** Where the import table starts, how many records it has and how many
      addresses each has decide where the records are. */
  lemma CountsKeepWalk(s: bytes, t: bytes, imps: seq<nat>)
    requires |t| == |s| >= HEADER_SIZE && ImportWalk(s) == Some(imps)
    requires forall k: nat :: k in {36, 37, 38, 39, 60, 61} ==> t[k] == s[k]
    requires forall i, k: nat :: 0 <= i < |imps| && Fits(s, imps[i], ImportRecord) && k in {imps[i] + 8, imps[i] + 9} ==>
      t[k] == s[k]
    ensures ImportWalk(t) == Some(imps)
  {
    hide Walk;
    forall i | 0 <= i < |imps| && Fits(s, imps[i], ImportRecord)
      ensures Addresses(t, imps[i], ImportRecord) == Addresses(s, imps[i], ImportRecord)
    {
      var p := imps[i];
      assert t[p + 8] == s[p + 8] && t[p + 9] == s[p + 9];
    }
    SameCountsSameWalk(s, t, Get32(s, IMPORT_OFFSET), Get16(s, IMPORT_COUNT), ImportRecord, imps);
  }

  lemma HeaderSpared(s: bytes, imps: seq<nat>, strs: seq<nat>, k: nat)
    requires Prepared(s, imps, strs) && k < HEADER_SIZE && k !in {28, 29, 30, 31, 66, 67}
    ensures Spared(s, imps, strs, k)
  {
    hide AllRecs, Layout, OperandLayout, RegionClear, OperandsClear, DevStringWalk;
    FencedIsSpared(s, imps, strs, 0, HEADER_SIZE, k);
  }

  lemma LiveIsSpared(s: bytes, imps: seq<nat>, strs: seq<nat>, k: nat)
    requires |s| >= HEADER_SIZE && LiveByte(s, imps, strs, k)
    ensures Spared(s, imps, strs, k)
  {
    FencedIsSpared(s, imps, strs, k, k + 1, k);
  }

  lemma AfterDevFacts(s: bytes, t: bytes, free: seq<nat>, junk: nat, dev: bool, imps: seq<nat>, strs: seq<nat>)
    requires |s| >= HEADER_SIZE && AfterDev(s, t, free, junk, dev, imps, strs)
    ensures |t| == |s| && ExportTable(t) == ExportTable(s) && Get16(t, EXPORT_COUNT) == Get16(s, EXPORT_COUNT)
    ensures SlotsFree(|s|, ExportTable(s), Get16(s, EXPORT_COUNT), free)
  {
  }
}
