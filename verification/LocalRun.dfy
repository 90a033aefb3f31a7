/** A whole run that begins by removing the names of local variables: they lie in
    live bytes, so everything later passes need is still in place. */
module LocalRun {
  import opened Bytes
  import opened Results
  import opened GscFormat
  import opened DevTables
  import opened Linking
  import opened PrivateExports
  import opened ScriptLayout
  import opened ScriptTables
  import opened SlotPass
  import opened DevRun
  import opened WholeRun
  import opened LocalNames
  import opened PrivateNames
  import opened PrivateTexts
  import opened PrivateRun
  import opened ChecksumPass
  import Grouping
  import Jumps

  /** A live byte after the header, of no text, no string record and not of the
      include table. */
  ghost predicate PlainByte(s: bytes, imps: seq<nat>, strs: seq<nat>, ps: seq<nat>, k: nat)
    requires TextLayout(s, imps, strs, ps)
  {
    && k >= HEADER_SIZE && LiveByte(s, imps, strs, k) && NoText(s, Texts(s, ps), k)
    && (forall i :: 0 <= i < |ps| ==> !(ps[i] <= k < RecordEnd(s, ps[i], StringRecord)))
    && !(IncludeTable(s) <= k < IncludeTable(s) + 4 * Includes(s))
  }

  /** Preambles are the same or apart, and the names in them are such bytes. */
  ghost predicate LocalLayout(s: bytes, imps: seq<nat>, strs: seq<nat>, ps: seq<nat>, exports: seq<GscExportData>) {
    && TextLayout(s, imps, strs, ps) && PreamblesApart(s, exports)
    && forall k: nat :: AnyLocalByte(s, exports, k) ==> PlainByte(s, imps, strs, ps, k)
  }

  /** Only such bytes differ. */
  ghost predicate PlainEdit(s: bytes, x: bytes, imps: seq<nat>, strs: seq<nat>, ps: seq<nat>)
    requires TextLayout(s, imps, strs, ps)
  {
    |x| == |s| && forall k: nat :: k < |s| && !PlainByte(s, imps, strs, ps, k) ==> x[k] == s[k]
  }

  lemma LocalsEditPlain(s: bytes, x: bytes, imps: seq<nat>, strs: seq<nat>, ps: seq<nat>, exports: seq<GscExportData>,
                        seen: seq<GscExportData>)
    requires TextLayout(s, imps, strs, ps) && LocalLayout(s, imps, strs, ps, exports)
    requires LocalsSet(s, x, exports, seen)
    ensures PlainEdit(s, x, imps, strs, ps)
  {
    hide PlainByte, AnyLocalByte, TextLayout, PreamblesApart, LocalsNamed;
  }

  // ----- The layout is kept

  lemma PlainIsLive(s: bytes, x: bytes, imps: seq<nat>, strs: seq<nat>, ps: seq<nat>)
    requires TextLayout(s, imps, strs, ps) && PlainEdit(s, x, imps, strs, ps) && |s| >= HEADER_SIZE
    ensures LiveEdit(s, x, imps, strs)
  {
    hide TextLayout, LiveByte, NoText;
  }

  lemma NotLiveSame(s: bytes, x: bytes, imps: seq<nat>, strs: seq<nat>, k: nat)
    requires LiveEdit(s, x, imps, strs) && k < |s| && (k < HEADER_SIZE || !LiveByte(s, imps, strs, k))
    ensures |x| == |s| && x[k] == s[k]
  {
  }

  lemma PlainKeepsTexts(s: bytes, x: bytes, imps: seq<nat>, strs: seq<nat>, ps: seq<nat>)
    requires TextLayout(s, imps, strs, ps) && PlainEdit(s, x, imps, strs, ps)
    ensures SameTexts(s, x, imps, strs, ps)
  {
    hide LiveByte, CString, OffTexts, TextsLive, TextEnd, IncludeTable, Includes, StringTableWalk;
  }

  lemma LiveKeepsEvents(s: bytes, x: bytes, imps: seq<nat>, strs: seq<nat>)
    requires Prepared(s, imps, strs) && LiveEdit(s, x, imps, strs)
    ensures SameEvents(s, x, AllRecs(imps, strs))
  {
    PreparedFacts(s, imps, strs);
    assert |x| == |s|;
    var rs := AllRecs(imps, strs);
    LayoutFits(s, rs);
    hide Prepared, LiveEdit, LiveByte, RecordEvents, AllRecs;
    forall i | 0 <= i < |rs|
      ensures Fits(x, rs[i].p, rs[i].kind) && SameRecord(s, x, rs[i])
    {
      forall k: nat | InRecord(s, rs[i], k)
        ensures x[k] == s[k]
      {
        LiveIsNoRecord(s, imps, strs, i, k);
        NotLiveSame(s, x, imps, strs, k);
      }
      RecordKept(s, x, rs[i]);
    }
  }

  /** A change to live bytes after the header leaves the layout. */
  lemma WellLaidOutAfter(s: bytes, x: bytes, imps: seq<nat>, strs: seq<nat>, exports: seq<GscExportData>,
                         recompute: bool)
    requires WellLaidOut(s, imps, strs, exports, recompute) && LiveEdit(s, x, imps, strs)
    ensures |x| == |s| >= HEADER_SIZE && SameEvents(s, x, AllRecs(imps, strs))
    ensures ExportTable(x) == ExportTable(s) && Get16(x, EXPORT_COUNT) == Get16(s, EXPORT_COUNT)
    ensures WellLaidOut(x, imps, strs, exports, recompute)
  {
    hide Layout, OperandLayout, Fenced, DevStringWalk, ImportFenced, Walk, LiveEdit, SameEvents;
    assert Prepared(s, imps, strs) && ImportWalk(s) == Some(imps);
    hide Prepared;
    PreparedFacts(s, imps, strs);
    forall k: nat | k < HEADER_SIZE
      ensures |x| == |s| && x[k] == s[k]
    {
      NotLiveSame(s, x, imps, strs, k);
    }
    LiveKeepsEvents(s, x, imps, strs);
    PreparedSame(s, x, imps, strs);
    forall i, k: nat | 0 <= i < |imps| && Fits(s, imps[i], ImportRecord) && k in {imps[i] + 8, imps[i] + 9}
      ensures x[k] == s[k]
    {
      ImportByteSame(s, x, imps, strs, i, k);
    }
    CountsKeepWalk(s, x, imps);
  }

  lemma ImportByteSame(s: bytes, x: bytes, imps: seq<nat>, strs: seq<nat>, i: nat, k: nat)
    requires Prepared(s, imps, strs) && LiveEdit(s, x, imps, strs)
    requires i < |imps| && Fits(s, imps[i], ImportRecord) && imps[i] <= k < RecordEnd(s, imps[i], ImportRecord)
    ensures |x| == |s| && x[k] == s[k]
  {
    PreparedFacts(s, imps, strs);
    var rs := AllRecs(imps, strs);
    LayoutFits(s, rs);
    assert rs[i] == Rec(imps[i], ImportRecord) && InRecord(s, rs[i], k);
    hide Prepared, LiveEdit, LiveByte, AllRecs;
    LiveIsNoRecord(s, imps, strs, i, k);
    NotLiveSame(s, x, imps, strs, k);
  }

  lemma LiveStays(s: bytes, x: bytes, imps: seq<nat>, strs: seq<nat>, k: nat)
    requires |s| == |x| >= HEADER_SIZE && SameEvents(s, x, AllRecs(imps, strs)) && LiveByte(s, imps, strs, k)
    requires ExportTable(x) == ExportTable(s) && Get16(x, EXPORT_COUNT) == Get16(s, EXPORT_COUNT)
    ensures LiveByte(x, imps, strs, k)
  {
    FencedSame(s, x, AllRecs(imps, strs), k, k + 1);
  }

  /** The strings at these places are where they were and read as they did. */
  ghost predicate SameStrings(s: bytes, x: bytes, ats: seq<nat>) {
    && TextsApart(s, ats) && TextsApart(x, ats)
    && forall i :: 0 <= i < |ats| ==> CString(x, ats[i]) == CString(s, ats[i])
  }

  /** What the text passes read is there as before. */
  lemma TextsAfter(s: bytes, x: bytes, imps: seq<nat>, strs: seq<nat>, ps: seq<nat>)
    requires Prepared(s, imps, strs) && TextLayout(s, imps, strs, ps) && SameTexts(s, x, imps, strs, ps)
    ensures StringsReady(x, ps) && ScriptTextsReady(x)
    ensures |x| == |s| && IncludeTable(x) == IncludeTable(s) && Includes(x) == Includes(s)
    ensures Texts(x, ps) == Texts(s, ps) && SameStrings(s, x, Texts(s, ps))
    ensures Referenced(x, ps) == Referenced(s, ps) && SameStrings(s, x, Referenced(s, ps))
    ensures ScriptTexts(x) == ScriptTexts(s) && SameStrings(s, x, ScriptTexts(s))
  {
    hide Prepared, LiveByte, CString, OffTexts, TextsLive, StringTableWalk, SameTexts, TextEnd, Once, Referenced,
         ScriptTexts, ScriptPointers, Terminated;
    ReadyAfterRenaming(s, x, imps, strs, ps);
    IncludesSame(s, x, imps, strs, ps);
    PartsAfterRenaming(s, x, imps, strs, ps, Referenced(s, ps), ScriptTexts(s));
  }

  lemma NewsAfter(names: Names, s: bytes, x: bytes, imps: seq<nat>, strs: seq<nat>, ps: seq<nat>)
    requires Prepared(s, imps, strs) && TextLayout(s, imps, strs, ps) && SameTexts(s, x, imps, strs, ps)
    ensures StringsReady(x, ps) && ScriptTextsReady(x)
    ensures Texts(x, ps) == Texts(s, ps) && News(names, x, ps) == News(names, s, ps)
  {
    hide Prepared, LiveByte, CString, OffTexts, TextsLive, StringTableWalk, SameTexts, TextEnd, NewString, ScriptNews,
         Terminated, IncludeTable, Includes;
    TextsAfter(s, x, imps, strs, ps);
    SameNewStrings(names.strings, s, x, Referenced(s, ps));
    SameScriptNews(names.scripts, s, x, ScriptTexts(s));
  }

  lemma TextsStillLive(s: bytes, x: bytes, imps: seq<nat>, strs: seq<nat>, ats: seq<nat>)
    requires |s| == |x| >= HEADER_SIZE && SameEvents(s, x, AllRecs(imps, strs))
    requires ExportTable(x) == ExportTable(s) && Get16(x, EXPORT_COUNT) == Get16(s, EXPORT_COUNT)
    requires TextsApart(s, ats) && TextsApart(x, ats) && TextsLive(s, imps, strs, ats)
    requires forall i :: 0 <= i < |ats| ==> CString(x, ats[i]) == CString(s, ats[i])
    ensures TextsLive(x, imps, strs, ats)
  {
    hide LiveByte, CString, SameEvents, Terminated;
    forall i, k: nat {:trigger InText(x, ats[i], k)} | 0 <= i < |ats| && ats[i] <= |x| && InText(x, ats[i], k)
      ensures k >= HEADER_SIZE && LiveByte(x, imps, strs, k)
    {
      assert ats[i] <= |s| && InText(s, ats[i], k) by {
        TextsInside(s, ats, i);
      }
      LiveStays(s, x, imps, strs, k);
    }
    TextsAllInside(x, ats);
  }

  lemma TextsInside(s: bytes, ats: seq<nat>, i: nat)
    requires TextsApart(s, ats) && i < |ats|
    ensures ats[i] <= |s|
  {
  }

  /** The strings are laid out as before. */
  lemma TextLayoutAfter(s: bytes, x: bytes, imps: seq<nat>, strs: seq<nat>, ps: seq<nat>)
    requires Prepared(s, imps, strs) && TextLayout(s, imps, strs, ps) && SameTexts(s, x, imps, strs, ps)
    requires |s| == |x| >= HEADER_SIZE && SameEvents(s, x, AllRecs(imps, strs))
    requires ExportTable(x) == ExportTable(s) && Get16(x, EXPORT_COUNT) == Get16(s, EXPORT_COUNT)
    ensures TextLayout(x, imps, strs, ps)
  {
    hide Prepared, LiveByte, CString, OffTexts, StringTableWalk, TextEnd, IncludeTable, Includes, SameEvents, TextsApart,
         Once, Referenced, ScriptTexts, ScriptPointers, Terminated, Get32;
    TextsAfter(s, x, imps, strs, ps);
    StringTableSame(s, x, imps, strs, ps);
    hide SameTexts;
    assert TextsLive(s, imps, strs, Texts(s, ps));
    TextsStillLive(s, x, imps, strs, Texts(s, ps));
    OffTextsSame(s, x, Referenced(s, ps), IncludeTable(s), IncludeTable(s) + 4 * Includes(s));
    hide TextsLive, StringsReady, ScriptTextsReady;
    forall i, k: nat | 0 <= i < |ps| && ps[i] <= k < RecordEnd(s, ps[i], StringRecord)
      ensures LiveByte(x, imps, strs, k)
    {
      LiveStays(s, x, imps, strs, k);
    }
    forall k: nat | IncludeTable(s) <= k < IncludeTable(s) + 4 * Includes(s)
      ensures LiveByte(x, imps, strs, k)
    {
      LiveStays(s, x, imps, strs, k);
    }
  }

  // ----- The promise, told from the script before

  /** What is known once the names are removed: `s` became `x`, and texts are where
      they were. */
  ghost predicate AfterLocals(s: bytes, x: bytes, imps: seq<nat>, strs: seq<nat>, exports: seq<GscExportData>,
                              ats: seq<nat>)
  {
    && |x| == |s| >= HEADER_SIZE && SameEvents(s, x, AllRecs(imps, strs))
    && ExportTable(x) == ExportTable(s) && Get16(x, EXPORT_COUNT) == Get16(s, EXPORT_COUNT)
    && SameStrings(s, x, ats)
    && (forall k: nat :: k < |s| && !AnyLocalByte(s, exports, k) ==> x[k] == s[k])
    && forall k: nat :: AnyLocalByte(s, exports, k) ==> LiveByte(s, imps, strs, k) && NoText(s, ats, k)
  }

  /** The same, for the texts of the script. */
  ghost predicate LocalsGone(s: bytes, x: bytes, imps: seq<nat>, strs: seq<nat>, ps: seq<nat>,
                             exports: seq<GscExportData>, seen: seq<GscExportData>)
  {
    && TextLayout(s, imps, strs, ps) && AfterLocals(s, x, imps, strs, exports, Texts(s, ps))
    && SameTexts(s, x, imps, strs, ps)
    && LocalsSet(s, x, exports, seen) && multiset(seen) == multiset(exports)
  }

  /** The pass over the locals leaves all later passes what they ask for. */
  lemma LocalsKeepLayout(s: bytes, x: bytes, imps: seq<nat>, strs: seq<nat>, ps: seq<nat>,
                         exports: seq<GscExportData>, recompute: bool, seen: seq<GscExportData>)
    requires WellLaidOut(s, imps, strs, exports, recompute) && TextLayout(s, imps, strs, ps)
    requires LocalLayout(s, imps, strs, ps, exports) && LocalsSet(s, x, exports, seen)
    ensures AfterLocals(s, x, imps, strs, exports, Texts(s, ps))
    ensures WellLaidOut(x, imps, strs, exports, recompute) && TextLayout(x, imps, strs, ps)
    ensures SameTexts(s, x, imps, strs, ps)
  {
    hide Layout, OperandLayout, Fenced, ImportFenced, Walk, LiveByte, OffTexts, TextsLive, StringTableWalk, TextEnd, CString,
         AnyLocalByte, SameEvents, SameTexts, PreamblesApart, LocalsNamed, NoText, TextsApart, IncludeTable, Includes;
    assert Prepared(s, imps, strs);
    LocalsEditPlain(s, x, imps, strs, ps, exports, seen);
    hide Prepared, PlainEdit;
    PlainIsLive(s, x, imps, strs, ps);
    WellLaidOutAfter(s, x, imps, strs, exports, recompute);
    PlainKeepsTexts(s, x, imps, strs, ps);
    TextsAfter(s, x, imps, strs, ps);
    TextLayoutAfter(s, x, imps, strs, ps);
  }

  lemma LocalsSize(s: bytes, x: bytes, imps: seq<nat>, strs: seq<nat>, exports: seq<GscExportData>, ats: seq<nat>)
    requires AfterLocals(s, x, imps, strs, exports, ats)
    ensures |x| == |s| >= HEADER_SIZE
  {
  }

  lemma NoTextStays(s: bytes, x: bytes, ats: seq<nat>, k: nat)
    requires TextsApart(s, ats) && TextsApart(x, ats) && |x| == |s| && NoText(s, ats, k)
    requires forall i :: 0 <= i < |ats| ==> CString(x, ats[i]) == CString(s, ats[i])
    ensures NoText(x, ats, k)
  {
    hide CString;
  }

  /** Rewritten hashes over the loaded script (`z`) and over the one without local
      names (`z1`): the same but for the names, and no name is rewritten. */
  ghost predicate SameSpots(s: bytes, x: bytes, exports: seq<GscExportData>, z: bytes, z1: bytes) {
    && |x| == |z| == |z1| == |s|
    && (forall k: nat :: k < |s| && !AnyLocalByte(s, exports, k) ==> z[k] == z1[k])
    && forall k: nat :: k < |s| && AnyLocalByte(s, exports, k) ==> z1[k] == x[k]
  }

  /** A byte that is no text, and that no later pass changes, to the end. */
  lemma ByteStays(s: bytes, x: bytes, v: bytes, imps: seq<nat>, strs: seq<nat>, exports: seq<GscExportData>, dev: bool,
                  ats: seq<nat>, z1: bytes, k: nat)
    requires AfterLocals(s, x, imps, strs, exports, ats) && |v| == |x| == |z1|
    requires OthersKept(x, v, imps, strs, exports, dev, ats, false, z1)
    requires KeptByte(x, imps, strs, exports, dev, k) && NoText(s, ats, k)
    ensures k < |s| == |v| && v[k] == z1[k]
  {
    hide KeptByte, CString, TextsApart, SameEvents, LiveByte, AnyLocalByte;
    NoTextStays(s, x, ats, k);
    assert OtherByte(x, imps, strs, exports, dev, ats, false, k);
  }

  /** The name a local variable got is there at the end. */
  lemma LocalByteStays(s: bytes, x: bytes, v: bytes, imps: seq<nat>, strs: seq<nat>, exports: seq<GscExportData>,
                       recompute: bool, dev: bool, ats: seq<nat>, z: bytes, z1: bytes, k: nat)
    requires AfterLocals(s, x, imps, strs, exports, ats) && |v| == |x| && WellLaidOut(x, imps, strs, exports, recompute)
    requires SameSpots(s, x, exports, z, z1) && OthersKept(x, v, imps, strs, exports, dev, ats, false, z1)
    requires AnyLocalByte(s, exports, k)
    ensures k < |s| == |v| && v[k] == x[k]
  {
    hide WellLaidOut, KeptByte, CString, TextsApart, SameEvents, LiveByte, AnyLocalByte, OthersKept, NoText;
    LiveStays(s, x, imps, strs, k);
    LiveIsKept(x, imps, strs, exports, recompute, dev, k);
    ByteStays(s, x, v, imps, strs, exports, dev, ats, z1, k);
  }

  lemma OthersFromStart(s: bytes, x: bytes, v: bytes, imps: seq<nat>, strs: seq<nat>, exports: seq<GscExportData>,
                        dev: bool, ats: seq<nat>, z: bytes, z1: bytes)
    requires AfterLocals(s, x, imps, strs, exports, ats) && |v| == |x| && SameSpots(s, x, exports, z, z1)
    requires OthersKept(x, v, imps, strs, exports, dev, ats, false, z1)
    ensures OthersKept(s, v, imps, strs, exports, dev, ats, true, z)
  {
    hide CString, TextsApart, SameEvents, LiveByte, AnyLocalByte, NoText, Spared, TableField;
    forall k: nat | OtherByte(s, imps, strs, exports, dev, ats, true, k)
      ensures k < |s| && v[k] == z[k]
    {
      if dev {
        SparedSame(s, x, imps, strs, k);
      }
      ByteStays(s, x, v, imps, strs, exports, dev, ats, z1, k);
    }
  }

  lemma LocalsFromStart(s: bytes, x: bytes, v: bytes, imps: seq<nat>, strs: seq<nat>, exports: seq<GscExportData>,
                        recompute: bool, dev: bool, ats: seq<nat>, seen: seq<GscExportData>, z: bytes, z1: bytes)
    requires AfterLocals(s, x, imps, strs, exports, ats) && |v| == |x| && WellLaidOut(x, imps, strs, exports, recompute)
    requires SameSpots(s, x, exports, z, z1) && OthersKept(x, v, imps, strs, exports, dev, ats, false, z1)
    requires LocalsSet(s, x, exports, seen) && multiset(seen) == multiset(exports)
    ensures LocalsKept(s, v, exports, true)
  {
    assert |v| == |s|;
    hide AfterLocals, WellLaidOut, OthersKept, AnyLocalByte, LocalsNamed, TextsApart, SameSpots;
    forall k: nat | AnyLocalByte(s, exports, k)
      ensures k < |s| == |v| && v[k] == x[k]
    {
      LocalByteStays(s, x, v, imps, strs, exports, recompute, dev, ats, z, z1, k);
    }
    forall i | 0 <= i < |exports|
      ensures LocalsNamed(s, v, exports[i].bc)
    {
      assert exports[i] in multiset(exports);
      assert exports[i] in seen;
      NamesStay(s, x, v, exports, exports[i]);
    }
  }

  lemma NamesStay(s: bytes, x: bytes, v: bytes, exports: seq<GscExportData>, d: GscExportData)
    requires |v| == |x| == |s| && LocalsNamed(s, x, d.bc) && d in exports
    requires forall k: nat :: AnyLocalByte(s, exports, k) ==> k < |s| && v[k] == x[k]
    ensures LocalsNamed(s, v, d.bc)
  {
    hide AnyLocalByte, Varargs, LocalCount, LocalTable, Get32;
    forall j: nat | j < LocalCount(s, d.bc) && !Varargs(s[LocalTable(d.bc) + LOCAL_SIZE * j + 4])
      ensures Get32(v, LocalTable(d.bc) + LOCAL_SIZE * j) == Get32(x, LocalTable(d.bc) + LOCAL_SIZE * j)
    {
      NameStays(s, x, v, exports, d, j);
    }
  }

  lemma NameStays(s: bytes, x: bytes, v: bytes, exports: seq<GscExportData>, d: GscExportData, j: nat)
    requires |v| == |x| == |s| && CodeRoom(|s|, d.bc) && LocalsFit(s, d.bc) && j < LocalCount(s, d.bc)
    requires d in exports && !Varargs(s[LocalTable(d.bc) + LOCAL_SIZE * j + 4])
    requires forall k: nat :: AnyLocalByte(s, exports, k) ==> k < |s| && v[k] == x[k]
    ensures Get32(v, LocalTable(d.bc) + LOCAL_SIZE * j) == Get32(x, LocalTable(d.bc) + LOCAL_SIZE * j)
  {
    hide LocalCount, LocalTable, Varargs, CodeRoom, Get32;
    var p := LocalTable(d.bc) + LOCAL_SIZE * j;
    var i :| 0 <= i < |exports| && exports[i] == d;
    forall k: nat | p <= k < p + 4
      ensures v[k] == x[k]
    {
      assert NameOfLocal(s, LocalTable(d.bc), j, k);
      assert LocalByte(s, exports[i].bc, k);
    }
    SameField(v, x, p);
  }

  lemma ExportsFromStart(s: bytes, x: bytes, v: bytes, imps: seq<nat>, strs: seq<nat>, exports: seq<GscExportData>,
                         recompute: bool, ats: seq<nat>, exportNames: seq<NameLocated>, rho: Renaming)
    requires |exportNames| == |exports| && Bounded(rho) && WellLaidOut(s, imps, strs, exports, recompute)
    requires AfterLocals(s, x, imps, strs, exports, ats) && |v| == |x| && ExportsKept(x, v, exports, exportNames, rho)
    ensures |v| == |s| && ExportsKept(s, v, exports, exportNames, rho)
  {
    hide WellLaidOut, AfterLocals, Bounded, Jumps.Reaches, ExportName, Renamed, ExportAddress;
    LocalsSize(s, x, imps, strs, exports, ats);
    forall i | 0 <= i < |exports|
      ensures exports[i].ref + EXPORT_SIZE <= |s| == |x|
      ensures ExportAddress(x, exports[i].ref) == ExportAddress(s, exports[i].ref)
    {
      ExportSame(s, x, imps, strs, exports, recompute, ats, i);
    }
  }

  lemma MadeFromStart(s: bytes, x: bytes, v: bytes, imps: seq<nat>, strs: seq<nat>, exports: seq<GscExportData>,
                      recompute: bool, ats: seq<nat>, dev: bool, g: SlotUse)
    requires WellLaidOut(s, imps, strs, exports, recompute) && AfterLocals(s, x, imps, strs, exports, ats)
    requires |v| == |x| && TrampolinesMade(x, v, exports, dev, g)
    ensures |v| == |s| && TrampolinesMade(s, v, exports, dev, g)
  {
    hide WellLaidOut, AfterLocals, TrampolinesMade, ExportAddress;
    LocalsSize(s, x, imps, strs, exports, ats);
    forall i | 0 <= i < |exports|
      ensures exports[i].ref + EXPORT_SIZE <= |s| == |x|
      ensures ExportAddress(x, exports[i].ref) == ExportAddress(s, exports[i].ref)
    {
      ExportSame(s, x, imps, strs, exports, recompute, ats, i);
    }
    MadeSame(s, x, v, exports, dev, g);
  }

  /** Shared texts are as stable as they were loaded. */
  lemma StableAfterLocals(names: Names, s: bytes, x: bytes, imps: seq<nat>, strs: seq<nat>, ps: seq<nat>,
                          exports: seq<GscExportData>, recompute: bool, seen: seq<GscExportData>)
    requires WellLaidOut(s, imps, strs, exports, recompute) && LocalsGone(s, x, imps, strs, ps, exports, seen)
    requires TextsStable(names, s, ps)
    ensures TextsStable(names, x, ps)
  {
    hide TextsStable, TextLayout, AfterLocals, LocalsSet, SameTexts, Layout, OperandLayout, Fenced, DevStringWalk,
         ImportFenced, ImportWalk;
    StableAfter(names, s, x, imps, strs, ps);
  }

  lemma ExportUntouched(s: bytes, x: bytes, imps: seq<nat>, strs: seq<nat>, exports: seq<GscExportData>, ats: seq<nat>,
                        k: nat)
    requires AfterLocals(s, x, imps, strs, exports, ats) && ExportTable(s) <= k < ExportEnd(s) <= |s|
    ensures |x| == |s| && x[k] == s[k]
  {
    hide TextsApart, SameEvents, NoText, CString, AnyLocalByte, Fenced;
    assert !LiveByte(s, imps, strs, k);
  }

  lemma ExportBytesSame(s: bytes, x: bytes, imps: seq<nat>, strs: seq<nat>, exports: seq<GscExportData>, recompute: bool,
                        ats: seq<nat>, i: nat)
    requires WellLaidOut(s, imps, strs, exports, recompute) && AfterLocals(s, x, imps, strs, exports, ats)
    requires i < |exports|
    ensures exports[i].ref + EXPORT_SIZE <= |s| == |x|
    ensures forall k :: exports[i].ref <= k < exports[i].ref + EXPORT_SIZE ==> x[k] == s[k]
  {
    hide WellLaidOut, AfterLocals, ExportEnd, ExportTable;
    LocalsSize(s, x, imps, strs, exports, ats);
    ExportPlace(s, imps, strs, exports, recompute, i);
    forall k: nat | exports[i].ref <= k < exports[i].ref + EXPORT_SIZE
      ensures x[k] == s[k]
    {
      ExportUntouched(s, x, imps, strs, exports, ats, k);
    }
  }

  lemma ExportSame(s: bytes, x: bytes, imps: seq<nat>, strs: seq<nat>, exports: seq<GscExportData>, recompute: bool,
                   ats: seq<nat>, i: nat)
    requires WellLaidOut(s, imps, strs, exports, recompute) && AfterLocals(s, x, imps, strs, exports, ats)
    requires i < |exports|
    ensures exports[i].ref + EXPORT_SIZE <= |s| == |x|
    ensures ExportAddress(x, exports[i].ref) == ExportAddress(s, exports[i].ref)
    ensures ExportName(x, exports[i].ref) == ExportName(s, exports[i].ref)
    ensures x[exports[i].ref + 17] == s[exports[i].ref + 17]
  {
    hide WellLaidOut, AfterLocals, Get32;
    ExportBytesSame(s, x, imps, strs, exports, recompute, ats, i);
    SameField(x, s, exports[i].ref + 4);
    SameField(x, s, exports[i].ref + 8);
    SameField(x, s, exports[i].ref + 12);
  }

  lemma ImportSame(s: bytes, x: bytes, imps: seq<nat>, strs: seq<nat>, exports: seq<GscExportData>, ats: seq<nat>, i: nat)
    requires Prepared(s, imps, strs) && AfterLocals(s, x, imps, strs, exports, ats) && i < |imps|
    ensures |x| == |s| && Fits(s, imps[i], ImportRecord) && Fits(x, imps[i], ImportRecord)
    ensures ImportName(x, imps[i]) == ImportName(s, imps[i])
  {
    var p := imps[i];
    ImportInBounds(s, imps, strs, i);
    ImportUntouched(s, x, imps, strs, exports, ats, i, p);
    hide Prepared, AfterLocals, Get32;
    forall k: nat | p <= k < p + IMPORT_SIZE
      ensures x[k] == s[k]
    {
      ImportUntouched(s, x, imps, strs, exports, ats, i, k);
    }
    SameField(x, s, p);
    SameField(x, s, p + 4);
  }

  /** The names the run starts with, and which exports are private, are as loaded. */
  lemma NamesAfter(s: bytes, x: bytes, imps: seq<nat>, strs: seq<nat>, exports: seq<GscExportData>, recompute: bool,
                   ats: seq<nat>, importNames: seq<NameLocated>)
    requires WellLaidOut(s, imps, strs, exports, recompute) && AfterLocals(s, x, imps, strs, exports, ats)
    requires ImportsAre(s, importNames, imps)
    ensures forall i :: 0 <= i < |exports| ==>
      exports[i].ref + EXPORT_SIZE <= |s| == |x| && x[exports[i].ref + 17] == s[exports[i].ref + 17]
    ensures NamesOf(x, exports) == NamesOf(s, exports) && ImportsAre(x, importNames, imps)
  {
    hide Layout, OperandLayout, Fenced, ImportFenced, DevStringWalk, ImportWalk, AfterLocals, ExportName, ImportName, Get16;
    assert Prepared(s, imps, strs);
    hide WellLaidOut, Prepared;
    forall i | 0 <= i < |exports|
      ensures exports[i].ref + EXPORT_SIZE <= |s| == |x| && x[exports[i].ref + 17] == s[exports[i].ref + 17]
      ensures ExportName(x, exports[i].ref) == ExportName(s, exports[i].ref)
    {
      ExportSame(s, x, imps, strs, exports, recompute, ats, i);
    }
    forall i | 0 <= i < |imps|
      ensures Fits(x, imps[i], ImportRecord) && ImportName(x, imps[i]) == ImportName(s, imps[i])
    {
      ImportSame(s, x, imps, strs, exports, ats, i);
    }
    assert ImportNames(x, imps) == ImportNames(s, imps);
    assert NamesOf(x, exports) == NamesOf(s, exports);
  }

  lemma ImportsFromStart(s: bytes, x: bytes, v: bytes, imps: seq<nat>, strs: seq<nat>, exports: seq<GscExportData>,
                         ats: seq<nat>, dev: bool, importNames: seq<NameLocated>, rho: Renaming)
    requires |importNames| == |imps| && Bounded(rho) && Prepared(s, imps, strs)
    requires AfterLocals(s, x, imps, strs, exports, ats) && |v| == |x| && ImportsKept(x, v, imps, dev, importNames, rho)
    ensures |v| == |s| && ImportsKept(s, v, imps, dev, importNames, rho)
  {
    hide Prepared, AfterLocals, Bounded, ImportsKept;
    ImportFlagsStay(s, x, imps, strs, exports, ats);
    SameFlagsKeep(s, x, v, imps, dev, importNames, rho);
  }

  lemma ImportFlagsStay(s: bytes, x: bytes, imps: seq<nat>, strs: seq<nat>, exports: seq<GscExportData>, ats: seq<nat>)
    requires Prepared(s, imps, strs) && AfterLocals(s, x, imps, strs, exports, ats)
    ensures |x| == |s|
    ensures forall i :: 0 <= i < |imps| ==> imps[i] + IMPORT_SIZE <= |s| && x[imps[i] + 11] == s[imps[i] + 11]
  {
    hide Prepared, AfterLocals;
    LocalsSize(s, x, imps, strs, exports, ats);
    forall i | 0 <= i < |imps|
      ensures imps[i] + IMPORT_SIZE <= |s| && x[imps[i] + 11] == s[imps[i] + 11]
    {
      ImportInBounds(s, imps, strs, i);
      ImportUntouched(s, x, imps, strs, exports, ats, i, imps[i] + 11);
    }
  }

  lemma SameFlagsKeep(s: bytes, x: bytes, v: bytes, imps: seq<nat>, dev: bool, importNames: seq<NameLocated>, rho: Renaming)
    requires |importNames| == |imps| && Bounded(rho) && |v| == |x| == |s| && ImportsKept(x, v, imps, dev, importNames, rho)
    requires forall i :: 0 <= i < |imps| ==> imps[i] + IMPORT_SIZE <= |s| && x[imps[i] + 11] == s[imps[i] + 11]
    ensures ImportsKept(s, v, imps, dev, importNames, rho)
  {
    hide Bounded, ImportName, Renamed, IsDevCall;
  }

  lemma ImportUntouched(s: bytes, x: bytes, imps: seq<nat>, strs: seq<nat>, exports: seq<GscExportData>, ats: seq<nat>,
                        i: nat, k: nat)
    requires Prepared(s, imps, strs) && AfterLocals(s, x, imps, strs, exports, ats) && i < |imps|
    requires Fits(s, imps[i], ImportRecord) && imps[i] <= k < RecordEnd(s, imps[i], ImportRecord)
    ensures |x| == |s| && x[k] == s[k]
  {
    var rs := AllRecs(imps, strs);
    LayoutFits(s, rs);
    assert rs[i] == Rec(imps[i], ImportRecord) && InRecord(s, rs[i], k);
    hide Prepared, LiveByte, AllRecs, TextsApart, SameEvents, NoText, CString, AnyLocalByte;
    LiveIsNoRecord(s, imps, strs, i, k);
  }

  /** From the names removed (`s` to `x`) and the rest of the run (`x` to `v`),
      the promise of the whole run, told from the loaded script. */
  lemma ConcludeWithLocals(s: bytes, x: bytes, v: bytes, imps: seq<nat>, strs: seq<nat>, exports: seq<GscExportData>,
                           recompute: bool, seen: seq<GscExportData>, exportNames: seq<NameLocated>,
                           importNames: seq<NameLocated>, rho: Renaming, ats: seq<nat>, news: seq<bytes>, dev: bool,
                           g: SlotUse, z: bytes, z1: bytes)
    requires |exportNames| == |exports| && |importNames| == |imps| && Bounded(rho) && |news| == |ats|
    requires WellLaidOut(s, imps, strs, exports, recompute) && WellLaidOut(x, imps, strs, exports, recompute)
    requires AfterLocals(s, x, imps, strs, exports, ats)
    requires LocalsSet(s, x, exports, seen) && multiset(seen) == multiset(exports)
    requires SameSpots(s, x, exports, z, z1)
    requires MeaningKeptRenamed(x, v, imps, strs, exports, exportNames, importNames, rho, ats, news, dev, g, false, z1)
    ensures MeaningKeptRenamed(s, v, imps, strs, exports, exportNames, importNames, rho, ats, news, dev, g, true, z)
  {
    hide TrampolinesMade, TextsApart, ExportsKept, ImportsKept, DevDone, TextsAre, OthersKept, LocalsSet, SameEvents, Bounded, LocalsKept,
         CString, AnyLocalByte, LiveByte, NoText;
    assert Prepared(s, imps, strs);
    hide WellLaidOut;
    ExportsFromStart(s, x, v, imps, strs, exports, recompute, ats, exportNames, rho);
    ImportsFromStart(s, x, v, imps, strs, exports, ats, dev, importNames, rho);
    MadeFromStart(s, x, v, imps, strs, exports, recompute, ats, dev, g);
    if dev {
      DevDoneSame(s, x, v, g.junk, g.freed, imps, strs);
    }
    LocalsFromStart(s, x, v, imps, strs, exports, recompute, dev, ats, seen, z, z1);
    OthersFromStart(s, x, v, imps, strs, exports, dev, ats, z, z1);
  }

  lemma Preambles(s: bytes, imps: seq<nat>, strs: seq<nat>, ps: seq<nat>, exports: seq<GscExportData>)
    requires TextLayout(s, imps, strs, ps) && LocalLayout(s, imps, strs, ps, exports)
    ensures PreamblesApart(s, exports) && CodesFit(|s|, exports)
  {
  }

  /** Which exports are private is decided by bytes no local variable has. */
  lemma PrivateAfter(m: map<NameLocated, seq<GscExportData>>, names: seq<NameLocated>, s: bytes, x: bytes, imps: seq<nat>,
                     strs: seq<nat>, exports: seq<GscExportData>, recompute: bool, ats: seq<nat>)
    requires WellLaidOut(s, imps, strs, exports, recompute) && AfterLocals(s, x, imps, strs, exports, ats)
    requires |names| == |exports| && m == Grouping.Collect(names, exports)
    ensures forall nl :: PrivateSingle(m, x, nl) <==> PrivateSingle(m, s, nl)
  {
    hide WellLaidOut, AfterLocals, IsPrivate, Grouping.Collect;
    forall nl
      ensures PrivateSingle(m, x, nl) <==> PrivateSingle(m, s, nl)
    {
      if nl in m && |m[nl]| == 1 {
        GroupInTable(names, exports, nl, 0);
        var i :| 0 <= i < |exports| && exports[i] == m[nl][0];
        ExportSame(s, x, imps, strs, exports, recompute, ats, i);
      }
    }
  }

  /** The whole run, told from the loaded script: names removed (`s` to `x`), then
      every other pass (`x` to `v`). */
  lemma RunFromStart(names: Names, m: map<NameLocated, seq<GscExportData>>, s: bytes, x: bytes, v: bytes, imps: seq<nat>,
                     strs: seq<nat>, ps: seq<nat>, exports: seq<GscExportData>, recompute: bool,
                     seen: seq<GscExportData>, exportNames: seq<NameLocated>, importNames: seq<NameLocated>,
                     rho: Renaming, dev: bool, g: SlotUse, z: bytes, z1: bytes)
    requires |exportNames| == |exports| && |importNames| == |imps| && Bounded(rho)
    requires m == Grouping.Collect(exportNames, exports)
    requires WellLaidOut(s, imps, strs, exports, recompute) && WellLaidOut(x, imps, strs, exports, recompute)
    requires LocalsGone(s, x, imps, strs, ps, exports, seen)
    requires SameSpots(s, x, exports, z, z1)
    requires RunKept(names, x, v, imps, strs, ps, exports, exportNames, importNames, rho, dev, g, false, z1)
    ensures forall nl :: PrivateSingle(m, x, nl) <==> PrivateSingle(m, s, nl)
    ensures RunKept(names, s, v, imps, strs, ps, exports, exportNames, importNames, rho, dev, g, true, z)
  {
    hide AfterLocals, SameTexts, LocalsSet, MeaningKeptRenamed, Bounded, Grouping.Collect, PrivateSingle, TextLayout, Texts,
         News, Layout, OperandLayout, Fenced, ImportFenced, DevStringWalk, Walk, TextsApart, SameSpots;
    assert Prepared(s, imps, strs);
    hide WellLaidOut, Prepared;
    var ats, news := TheTexts(names, s, imps, strs, ps);
    PrivateAfter(m, exportNames, s, x, imps, strs, exports, recompute, ats);
    NewsAfter(names, s, x, imps, strs, ps);
    ConcludeWithLocals(s, x, v, imps, strs, exports, recompute, seen, exportNames, importNames, rho, ats, news, dev, g,
                       z, z1);
  }

  lemma LocalsAreLive(s: bytes, imps: seq<nat>, strs: seq<nat>, ps: seq<nat>, exports: seq<GscExportData>)
    requires LocalLayout(s, imps, strs, ps, exports)
    ensures |s| >= HEADER_SIZE && LocalsLive(s, imps, strs, exports)
  {
  }

  // ----- The layout is one that scripts have

  lemma SampleLocal(s: bytes, k: int)
    requires Sample(s)
    ensures CodeRoom(|s|, 132) && LocalsFit(s, 132) && LocalCount(s, 132) == 1
    ensures LocalByte(s, 132, k) <==> 136 <= k < 140
  {
    hide Get32;
    assert SAFE_CREATE_OPCODES[|SAFE_CREATE_OPCODES| - 1] == 0x3ebc;
    assert LocalTable(132) == 136;
    if 136 <= k < 140 {
      assert NameOfLocal(s, LocalTable(132), 0, k);
    }
  }

  lemma SampleLocalPlain(s: bytes, k: nat)
    requires Sample(s) && TextLayout(s, [92], [], []) && 136 <= k < 140
    ensures PlainByte(s, [92], [], [], k)
  {
    hide Fenced, TextLayout, Sample, CString, Get32, Get16, IncludeTable, Includes, ScriptTexts, Referenced;
    SampleTables(s);
    SampleName(s);
    SampleReady(s);
    SampleFenced(s, AllRecs([92], []), k, k + 1);
  }

  /** The sample's function has a local variable, and it lies where it may. */
  lemma SampleLocals(s: bytes, len: nat)
    requires Sample(s)
    ensures TextLayout(s, [92], [], []) && LocalLayout(s, [92], [], [], [GscExportData(72, 132, len)])
    ensures AllLocalsFit(s, [GscExportData(72, 132, len)]) && LocalCount(s, 132) == 1
  {
    hide LocalByte, LocalsFit, LocalCount, TextLayout, PlainByte, Sample;
    SampleTexts(s);
    SampleLocal(s, 0);
    var exports := [GscExportData(72, 132, len)];
    forall k: nat | AnyLocalByte(s, exports, k)
      ensures PlainByte(s, [92], [], [], k)
    {
      SampleLocal(s, k);
      SampleLocalPlain(s, k);
    }
  }

  /** There is a script laid out as every pass asks. */
  lemma LayoutIsMet(recompute: bool) returns (s: bytes)
    ensures |s| >= HEADER_SIZE && Get16(s, EXPORT_COUNT) == Get16(s, IMPORT_COUNT) == 1
    ensures WellLaidOut(s, [92], [], [GscExportData(72, 132, 1)], recompute)
    ensures LocalLayout(s, [92], [], [], [GscExportData(72, 132, 1)])
    ensures AllLocalsFit(s, [GscExportData(72, 132, 1)])
  {
    s := SampleExists();
    hide Get16, Get32, WellLaidOut, LocalLayout, AllLocalsFit, TextLayout;
    SampleIsWellLaidOut(s, recompute, 1);
    SampleLocals(s, 1);
  }
}
