/** A whole run with private hashes: between the texts and the dev passes hashes
    are rewritten wherever they occur. When every place that changes is a live byte
    of no text and no local variable, all that later passes read is in place. */
module HashRun {
  import opened Bytes
  import opened Results
  import opened GscFormat
  import opened DevTables
  import opened Linking
  import opened PrivateExports
  import opened ScriptLayout
  import opened ScriptTables
  import opened ChecksumPass
  import opened SlotPass
  import opened DevRun
  import opened WholeRun
  import opened LocalNames
  import opened PrivateNames
  import opened PrivateTexts
  import opened PrivateRun
  import opened LocalRun
  import opened HashRewrite
  import Grouping
  import HashMini
  import Jumps

  /** Where a rewritten hash may stand. */
  ghost predicate HashSpot(s: bytes, imps: seq<nat>, strs: seq<nat>, ats: seq<nat>, exports: seq<GscExportData>,
                           locals: bool, k: nat)
    requires |s| >= HEADER_SIZE && TextsApart(s, ats)
  {
    && k >= HEADER_SIZE && LiveByte(s, imps, strs, k) && NoText(s, ats, k)
    && (locals ==> !AnyLocalByte(s, exports, k))
  }

  /** From `x` to `y` only such bytes change. */
  ghost predicate SpotEdit(s: bytes, x: bytes, y: bytes, imps: seq<nat>, strs: seq<nat>, ats: seq<nat>,
                           exports: seq<GscExportData>, locals: bool)
  {
    && |x| == |y| == |s| >= HEADER_SIZE && TextsApart(s, ats)
    && forall k: nat :: k < |s| && y[k] != x[k] ==> HashSpot(s, imps, strs, ats, exports, locals, k)
  }

  /** Rewriting `x` changes only such bytes, whatever the order of the table. */
  ghost predicate RewritesSpots(hashes: map<bytes, u32>, s: bytes, x: bytes, imps: seq<nat>, strs: seq<nat>, ats: seq<nat>,
                                exports: seq<GscExportData>, locals: bool)
  {
    forall order :: TableOrder(hashes, order) ==>
      match RewriteEntries(x, Entries(hashes, order))
      case None => true
      case Some(y) => SpotEdit(s, x, y, imps, strs, ats, exports, locals)
  }

  /** What a run does before the hashes: local names removed (`s` to `s1`), private
      exports numbered (`s1` to `t`), texts replaced (`t` to `x`). */
  ghost predicate RunBefore(names: Names, s: bytes, s1: bytes, t: bytes, x: bytes, imps: seq<nat>, strs: seq<nat>,
                            ps: seq<nat>, exports: seq<GscExportData>, seen: seq<GscExportData>,
                            exportNames: seq<NameLocated>, importNames: seq<NameLocated>, rho: Renaming, locals: bool,
                            numbered: bool)
  {
    && |exportNames| == |exports| && |importNames| == |imps| && Bounded(rho) && Numbering(rho)
    && TablesApart(|s1|, Refs(exports), imps)
    && (if locals then LocalsGone(s, s1, imps, strs, ps, exports, seen) else s1 == s)
    && (forall nl :: nl in rho <==>
         numbered && nl in Grouping.Collect(exportNames, exports) &&
         PrivateSingle(Grouping.Collect(exportNames, exports), s1, nl))
    && RenamedBy(s1, t, Refs(exports), exportNames, imps, importNames, rho)
    && TextsDone(names, s1, t, x, ps)
  }

  /** The run may come to `x` before the hashes. */
  ghost predicate Reached(names: Names, s: bytes, x: bytes, imps: seq<nat>, strs: seq<nat>, ps: seq<nat>,
                          exports: seq<GscExportData>, exportNames: seq<NameLocated>, importNames: seq<NameLocated>,
                          rho: Renaming, locals: bool, numbered: bool)
  {
    exists s1, t, seen :: RunBefore(names, s, s1, t, x, imps, strs, ps, exports, seen, exportNames, importNames, rho, locals,
                                    numbered)
  }

  /** Whatever the run comes to, rewriting it changes only such bytes. */
  ghost predicate HashesAway(names: Names, s: bytes, imps: seq<nat>, strs: seq<nat>, ps: seq<nat>,
                             exports: seq<GscExportData>, exportNames: seq<NameLocated>, importNames: seq<NameLocated>,
                             locals: bool, numbered: bool)
  {
    forall x, rho :: Reached(names, s, x, imps, strs, ps, exports, exportNames, importNames, rho, locals, numbered) ==>
      RewritesSpots(names.hashes, s, x, imps, strs, Texts(s, ps), exports, locals)
  }

  /** What the passes before the hashes made of a script is reached from it. */
  lemma ReachedNow(names: Names, s: bytes, t: bytes, x: bytes, imps: seq<nat>, strs: seq<nat>, ps: seq<nat>,
                   exports: seq<GscExportData>, exportNames: seq<NameLocated>, importNames: seq<NameLocated>, rho: Renaming,
                   numbered: bool)
    requires |exportNames| == |exports| && |importNames| == |imps| && Bounded(rho) && Numbering(rho)
    requires TablesApart(|s|, Refs(exports), imps)
    requires forall nl :: nl in rho <==>
      numbered && nl in Grouping.Collect(exportNames, exports) &&
      PrivateSingle(Grouping.Collect(exportNames, exports), s, nl)
    requires RenamedBy(s, t, Refs(exports), exportNames, imps, importNames, rho) && TextsDone(names, s, t, x, ps)
    ensures Reached(names, s, x, imps, strs, ps, exports, exportNames, importNames, rho, false, numbered)
  {
    hide TextsDone, RenamedBy, TablesApart, Refs, Bounded, Numbering, PrivateSingle, Grouping.Collect;
    assert RunBefore(names, s, s, t, x, imps, strs, ps, exports, [], exportNames, importNames, rho, false, numbered);
  }

  // ----- From the loaded script to the one without local names

  lemma SpotStays(s: bytes, s1: bytes, imps: seq<nat>, strs: seq<nat>, ps: seq<nat>, exports: seq<GscExportData>,
                  seen: seq<GscExportData>, ats: seq<nat>, k: nat)
    requires LocalsGone(s, s1, imps, strs, ps, exports, seen) && ats == Texts(s, ps)
    requires |s| >= HEADER_SIZE && TextsApart(s, ats) && HashSpot(s, imps, strs, ats, exports, true, k)
    ensures |s1| >= HEADER_SIZE && TextsApart(s1, ats) && HashSpot(s1, imps, strs, ats, exports, false, k)
  {
    hide TextLayout, SameTexts, LocalsSet, SameEvents, LiveByte, NoText, AnyLocalByte, TextsApart, CString, Texts;
    LiveStays(s, s1, imps, strs, k);
    NoTextStays(s, s1, ats, k);
  }

  lemma SpotsStay(s: bytes, s1: bytes, x: bytes, y: bytes, imps: seq<nat>, strs: seq<nat>, ps: seq<nat>,
                  exports: seq<GscExportData>, seen: seq<GscExportData>)
    requires LocalsGone(s, s1, imps, strs, ps, exports, seen)
    requires SpotEdit(s, x, y, imps, strs, Texts(s, ps), exports, true)
    ensures TextLayout(s, imps, strs, ps) && SpotEdit(s1, x, y, imps, strs, Texts(s, ps), exports, false)
  {
    hide AfterLocals, TextLayout, SameTexts, LocalsSet, HashSpot, TextsApart, Texts;
    var ats := Texts(s, ps);
    GoneFacts(s, s1, imps, strs, ps, exports, seen);
    forall k: nat | k < |s1| && y[k] != x[k]
      ensures HashSpot(s1, imps, strs, ats, exports, false, k)
    {
      SpotStays(s, s1, imps, strs, ps, exports, seen, ats, k);
    }
  }

  lemma GoneFacts(s: bytes, s1: bytes, imps: seq<nat>, strs: seq<nat>, ps: seq<nat>, exports: seq<GscExportData>,
                  seen: seq<GscExportData>)
    requires LocalsGone(s, s1, imps, strs, ps, exports, seen)
    ensures TextLayout(s, imps, strs, ps) && |s1| == |s| >= HEADER_SIZE && TextsApart(s1, Texts(s, ps))
  {
    hide TextLayout, SameTexts, LocalsSet, SameEvents, AnyLocalByte, TextsApart, CString, Texts;
  }

  /** What is reached from the script without local names is reached from the loaded
      one. */
  lemma ReachedFromStart(names: Names, s: bytes, s1: bytes, x: bytes, imps: seq<nat>, strs: seq<nat>, ps: seq<nat>,
                         exports: seq<GscExportData>, seen: seq<GscExportData>, exportNames: seq<NameLocated>,
                         importNames: seq<NameLocated>, rho: Renaming, numbered: bool)
    requires LocalsGone(s, s1, imps, strs, ps, exports, seen)
    requires Reached(names, s1, x, imps, strs, ps, exports, exportNames, importNames, rho, false, numbered)
    ensures Reached(names, s, x, imps, strs, ps, exports, exportNames, importNames, rho, true, numbered)
  {
    hide LocalsGone, TextsDone, RenamedBy, TablesApart, Refs, Bounded, Numbering, PrivateSingle, Grouping.Collect;
    var r, t, seen' :| RunBefore(names, s1, r, t, x, imps, strs, ps, exports, seen', exportNames, importNames, rho, false,
                                 numbered);
    assert RunBefore(names, s, s1, t, x, imps, strs, ps, exports, seen, exportNames, importNames, rho, true, numbered);
  }

  /** Texts are where they were. */
  lemma TextsWhereTheyWere(s: bytes, s1: bytes, imps: seq<nat>, strs: seq<nat>, ps: seq<nat>, exports: seq<GscExportData>,
                           seen: seq<GscExportData>)
    requires Prepared(s, imps, strs) && LocalsGone(s, s1, imps, strs, ps, exports, seen)
    ensures Texts(s1, ps) == Texts(s, ps)
  {
    hide Prepared, AfterLocals, LocalsSet, SameTexts;
    TextsAfter(s, s1, imps, strs, ps);
  }

  /** What is asked of the loaded script holds of the one without local names. */
  lemma AwayAfterLocals(names: Names, s: bytes, s1: bytes, imps: seq<nat>, strs: seq<nat>, ps: seq<nat>,
                        exports: seq<GscExportData>, recompute: bool, seen: seq<GscExportData>,
                        exportNames: seq<NameLocated>, importNames: seq<NameLocated>, numbered: bool)
    requires WellLaidOut(s, imps, strs, exports, recompute) && LocalsGone(s, s1, imps, strs, ps, exports, seen)
    requires HashesAway(names, s, imps, strs, ps, exports, exportNames, importNames, true, numbered)
    ensures HashesAway(names, s1, imps, strs, ps, exports, exportNames, importNames, false, numbered)
  {
    assert Prepared(s, imps, strs);
    hide WellLaidOut, Prepared, LocalsGone;
    TextsWhereTheyWere(s, s1, imps, strs, ps, exports, seen);
    hide Reached, Texts, SpotEdit, TableOrder;
    forall x, rho | Reached(names, s1, x, imps, strs, ps, exports, exportNames, importNames, rho, false, numbered)
      ensures RewritesSpots(names.hashes, s1, x, imps, strs, Texts(s, ps), exports, false)
    {
      ReachedFromStart(names, s, s1, x, imps, strs, ps, exports, seen, exportNames, importNames, rho, numbered);
      forall order | TableOrder(names.hashes, order) && RewriteEntries(x, Entries(names.hashes, order)).Some?
        ensures SpotEdit(s1, x, RewriteEntries(x, Entries(names.hashes, order)).value, imps, strs, Texts(s, ps), exports,
                         false)
      {
        SpotsStay(s, s1, x, RewriteEntries(x, Entries(names.hashes, order)).value, imps, strs, ps, exports, seen);
      }
    }
  }

  /** Told from the loaded script, only live bytes are rewritten. */
  lemma HashedIsLive(s: bytes, x: bytes, y: bytes, imps: seq<nat>, strs: seq<nat>, ats: seq<nat>,
                     exports: seq<GscExportData>, locals: bool)
    requires SpotEdit(s, x, y, imps, strs, ats, exports, locals)
    ensures LiveEdit(s, HashedIn(s, x, y), imps, strs) && OffTextsEdit(s, x, y, imps, strs, ats)
  {
    hide LiveByte, TextsApart, NoText, AnyLocalByte;
  }

  lemma HashedSameSpots(s: bytes, s1: bytes, x: bytes, y: bytes, imps: seq<nat>, strs: seq<nat>, ps: seq<nat>,
                        exports: seq<GscExportData>, seen: seq<GscExportData>)
    requires LocalsGone(s, s1, imps, strs, ps, exports, seen)
    requires SpotEdit(s, x, y, imps, strs, Texts(s, ps), exports, true)
    ensures |x| == |y| == |s| == |s1| && SameSpots(s, s1, exports, HashedIn(s, x, y), HashedIn(s1, x, y))
  {
    hide LiveByte, TextsApart, NoText, AnyLocalByte, SameTexts, LocalsSet, SameEvents, SameStrings, TextLayout, Texts;
  }

  // ----- The rest of the run, from the rewritten script

  lemma ExportByteSame(x: bytes, y: bytes, imps: seq<nat>, strs: seq<nat>, exports: seq<GscExportData>, recompute: bool,
                       i: nat)
    requires WellLaidOut(x, imps, strs, exports, recompute) && LiveEdit(x, y, imps, strs) && i < |exports|
    ensures exports[i].ref + EXPORT_SIZE <= |x| == |y|
    ensures ExportName(y, exports[i].ref) == ExportName(x, exports[i].ref)
    ensures ExportAddress(y, exports[i].ref) == ExportAddress(x, exports[i].ref)
  {
    hide WellLaidOut, LiveEdit, ExportEnd, ExportTable, Fenced, Get32;
    ExportPlace(x, imps, strs, exports, recompute, i);
    assert |y| == |x| by {
      LiveEditSize(x, y, imps, strs);
    }
    forall k: nat | exports[i].ref <= k < exports[i].ref + EXPORT_SIZE
      ensures y[k] == x[k]
    {
      TableByteSame(x, y, imps, strs, k);
    }
    SameField(y, x, exports[i].ref + 4);
    SameField(y, x, exports[i].ref + 8);
    SameField(y, x, exports[i].ref + 12);
  }

  lemma LiveEditSize(x: bytes, y: bytes, imps: seq<nat>, strs: seq<nat>)
    requires LiveEdit(x, y, imps, strs)
    ensures |y| == |x| >= HEADER_SIZE
  {
  }

  lemma TableByteSame(x: bytes, y: bytes, imps: seq<nat>, strs: seq<nat>, k: nat)
    requires LiveEdit(x, y, imps, strs) && ExportTable(x) <= k < ExportEnd(x) <= |x|
    ensures |y| == |x| && y[k] == x[k]
  {
    hide Fenced;
  }

  lemma ImportFieldsSame(x: bytes, y: bytes, imps: seq<nat>, strs: seq<nat>, i: nat)
    requires Prepared(x, imps, strs) && LiveEdit(x, y, imps, strs) && i < |imps|
    ensures imps[i] + IMPORT_SIZE <= |x| == |y|
    ensures ImportName(y, imps[i]) == ImportName(x, imps[i]) && y[imps[i] + 11] == x[imps[i] + 11]
  {
    var p := imps[i];
    ImportInBounds(x, imps, strs, i);
    hide Prepared, LiveEdit, Get32, Get16;
    LiveEditSize(x, y, imps, strs);
    forall k: nat | p <= k < p + IMPORT_SIZE
      ensures y[k] == x[k]
    {
      ImportByteSame(x, y, imps, strs, i, k);
    }
    SameField(y, x, p);
    SameField(y, x, p + 4);
  }

  /** The rewritten script carries the names it had, and the rest of the run may
      start with it. */
  lemma NamesAfterHashes(x: bytes, y: bytes, imps: seq<nat>, strs: seq<nat>, exports: seq<GscExportData>, recompute: bool,
                         now: seq<NameLocated>, imported: seq<NameLocated>)
    requires WellLaidOut(x, imps, strs, exports, recompute) && LiveEdit(x, y, imps, strs)
    requires |now| == |exports| && |imported| == |imps|
    requires forall i :: 0 <= i < |exports| ==>
      exports[i].ref + EXPORT_SIZE <= |x| && now[i] == ExportName(x, exports[i].ref)
    requires forall i :: 0 <= i < |imps| ==> imps[i] + IMPORT_SIZE <= |x| && imported[i] == ImportName(x, imps[i])
    ensures |y| == |x| >= HEADER_SIZE && WellLaidOut(y, imps, strs, exports, recompute)
    ensures |exports| == Get16(y, EXPORT_COUNT)
    ensures TablesApart(|y|, Refs(exports), imps) && ChecksumLayout(|y|, exports, recompute)
    ensures RenamedBy(y, y, Refs(exports), now, imps, imported, map[])
  {
    WellLaidOutAfter(x, y, imps, strs, exports, recompute);
    hide WellLaidOut, LiveEdit, ExportName, ImportName, SameEvents, RenamedBy, TablesApart, ChecksumLayout, Refs,
         ImportsAre;
    forall i | 0 <= i < |exports|
      ensures ExportName(y, exports[i].ref) == ExportName(x, exports[i].ref)
    {
      ExportByteSame(x, y, imps, strs, exports, recompute, i);
    }
    assert now == NamesOf(y, exports);
    ImportsStillAre(x, y, imps, strs, exports, recompute, imported);
    RunStart(y, imps, strs, exports, recompute, now, imported);
  }

  lemma ImportsStillAre(x: bytes, y: bytes, imps: seq<nat>, strs: seq<nat>, exports: seq<GscExportData>, recompute: bool,
                        imported: seq<NameLocated>)
    requires WellLaidOut(x, imps, strs, exports, recompute) && WellLaidOut(y, imps, strs, exports, recompute)
    requires LiveEdit(x, y, imps, strs) && |imported| == |imps|
    requires forall i :: 0 <= i < |imps| ==> imps[i] + IMPORT_SIZE <= |x| && imported[i] == ImportName(x, imps[i])
    ensures ImportsAre(y, imported, imps)
  {
    assert Prepared(x, imps, strs) && Prepared(y, imps, strs);
    hide WellLaidOut, Prepared, LiveEdit, ImportName;
    forall i | 0 <= i < |imps|
      ensures Fits(y, imps[i], ImportRecord) && ImportName(y, imps[i]) == imported[i]
    {
      ImportFieldsSame(x, y, imps, strs, i);
      ImportInBounds(y, imps, strs, i);
    }
  }

  lemma ExportsBeforeHashes(x: bytes, y: bytes, v: bytes, imps: seq<nat>, strs: seq<nat>, exports: seq<GscExportData>,
                            recompute: bool, now: seq<NameLocated>)
    requires WellLaidOut(x, imps, strs, exports, recompute) && LiveEdit(x, y, imps, strs)
    requires |now| == |exports| && |v| == |y| && Bounded(map[]) && ExportsKept(y, v, exports, now, map[])
    ensures |v| == |x| && ExportsKept(x, v, exports, now, map[])
  {
    hide WellLaidOut, LiveEdit, ExportName, ExportAddress, Jumps.Reaches, Renamed;
    LiveEditSize(x, y, imps, strs);
    forall i | 0 <= i < |exports|
      ensures exports[i].ref + EXPORT_SIZE <= |x| == |y|
      ensures ExportAddress(y, exports[i].ref) == ExportAddress(x, exports[i].ref)
    {
      ExportByteSame(x, y, imps, strs, exports, recompute, i);
    }
  }

  lemma ImportsBeforeHashes(x: bytes, y: bytes, v: bytes, imps: seq<nat>, strs: seq<nat>, dev: bool,
                            imported: seq<NameLocated>)
    requires Prepared(x, imps, strs) && LiveEdit(x, y, imps, strs)
    requires |imported| == |imps| && |v| == |y| && Bounded(map[]) && ImportsKept(y, v, imps, dev, imported, map[])
    ensures |v| == |x| && ImportsKept(x, v, imps, dev, imported, map[])
  {
    hide Prepared, LiveEdit, ImportName, Renamed, IsDevCall;
    LiveEditSize(x, y, imps, strs);
    forall i | 0 <= i < |imps|
      ensures imps[i] + IMPORT_SIZE <= |x| == |y| && y[imps[i] + 11] == x[imps[i] + 11]
    {
      ImportFieldsSame(x, y, imps, strs, i);
    }
  }

  lemma MadeBeforeHashes(x: bytes, y: bytes, v: bytes, imps: seq<nat>, strs: seq<nat>, exports: seq<GscExportData>,
                         recompute: bool, dev: bool, g: SlotUse)
    requires WellLaidOut(x, imps, strs, exports, recompute) && LiveEdit(x, y, imps, strs)
    requires |v| == |y| && TrampolinesMade(y, v, exports, dev, g)
    ensures |v| == |x| && TrampolinesMade(x, v, exports, dev, g)
  {
    hide WellLaidOut, LiveEdit, TrampolinesMade, ExportAddress;
    LiveEditSize(x, y, imps, strs);
    forall i | 0 <= i < |exports|
      ensures exports[i].ref + EXPORT_SIZE <= |x| == |y|
      ensures ExportAddress(y, exports[i].ref) == ExportAddress(x, exports[i].ref)
    {
      ExportByteSame(x, y, imps, strs, exports, recompute, i);
    }
    MadeSame(x, y, v, exports, dev, g);
  }

  /** The promise of the rest of the run, told from the script before its hashes were
      rewritten. */
  lemma MeaningBeforeHashes(x: bytes, y: bytes, v: bytes, imps: seq<nat>, strs: seq<nat>, exports: seq<GscExportData>,
                            recompute: bool, now: seq<NameLocated>, imported: seq<NameLocated>, dev: bool, g: SlotUse)
    requires WellLaidOut(x, imps, strs, exports, recompute) && LiveEdit(x, y, imps, strs)
    requires |now| == |exports| && |imported| == |imps| && |y| >= HEADER_SIZE
    requires MeaningKept(y, v, imps, strs, exports, now, imported, map[], dev, g, y)
    ensures |x| >= HEADER_SIZE && MeaningKept(x, v, imps, strs, exports, now, imported, map[], dev, g, y)
  {
    assert Prepared(x, imps, strs);
    WellLaidOutAfter(x, y, imps, strs, exports, recompute);
    hide WellLaidOut, Prepared, LiveEdit, ExportsKept, ImportsKept, DevDone, SameEvents, TableField, Spared,
         TrampolinesMade;
    ExportsBeforeHashes(x, y, v, imps, strs, exports, recompute, now);
    ImportsBeforeHashes(x, y, v, imps, strs, dev, imported);
    MadeBeforeHashes(x, y, v, imps, strs, exports, recompute, dev, g);
    if dev {
      DevDoneSame(x, y, v, g.junk, g.freed, imps, strs);
    }
    forall k: nat | KeptByte(x, imps, strs, exports, dev, k)
      ensures KeptByte(y, imps, strs, exports, dev, k)
    {
      if dev {
        SparedSame(x, y, imps, strs, k);
      }
    }
  }

  /** Renaming and texts leave live what was live. */
  lemma HashesAfterTexts(s: bytes, t: bytes, x: bytes, y: bytes, imps: seq<nat>, strs: seq<nat>,
                         exports: seq<GscExportData>, recompute: bool, exportNames: seq<NameLocated>,
                         importNames: seq<NameLocated>, rho: Renaming, ats: seq<nat>, news: seq<bytes>)
    requires |exportNames| == |exports| && |importNames| == |imps| && Bounded(rho)
    requires ReadyForDev(s, t, x, imps, strs, exports, recompute, exportNames, importNames, rho, ats, news)
    requires TextsApart(s, ats) && OffTextsEdit(s, x, y, imps, strs, ats)
    ensures LiveEdit(x, y, imps, strs)
  {
    hide WellLaidOut, TablesApart, RenamedBy, Refs, Bounded, SameEvents, TextsOnly, NewsFit, LiveByte, TextsApart, NoText,
         ExportAddress;
    forall k: nat | k < |s| && y[k] != x[k]
      ensures k >= HEADER_SIZE && LiveByte(x, imps, strs, k)
    {
      LiveStays(s, t, imps, strs, k);
      LiveStays(t, x, imps, strs, k);
    }
  }

  // ----- The pass over the hashes

  /** The pass took the table in this order; `ends` is false when an entry's loop
      does not end. */
  ghost predicate HashesDone(names: Names, x: bytes, y: bytes, order: seq<bytes>, ends: bool) {
    && (forall i :: 0 <= i < |order| ==> order[i] in names.hashes)
    && (ends ==> TableOrder(names.hashes, order))
    && RewriteEntries(x, Entries(names.hashes, order)) == if ends then Some(y) else None
  }

  /** What the pass rewrote lies where it may. */
  lemma SpotsRewritten(names: Names, s: bytes, x: bytes, y: bytes, order: seq<bytes>, imps: seq<nat>, strs: seq<nat>,
                       ps: seq<nat>, exports: seq<GscExportData>, exportNames: seq<NameLocated>,
                       importNames: seq<NameLocated>, rho: Renaming, locals: bool, numbered: bool)
    requires HashesAway(names, s, imps, strs, ps, exports, exportNames, importNames, locals, numbered)
    requires Reached(names, s, x, imps, strs, ps, exports, exportNames, importNames, rho, locals, numbered)
    requires HashesDone(names, x, y, order, true)
    ensures SpotEdit(s, x, y, imps, strs, Texts(s, ps), exports, locals)
    ensures |x| == |y| == |s|
  {
    hide Reached, Texts, TableOrder, HashSpot, TextsApart;
    assert RewritesSpots(names.hashes, s, x, imps, strs, Texts(s, ps), exports, locals);
  }

  /** The whole run, told from the loaded script: local names removed (`s` to `s1`),
      then every other pass (`s1` to `v`), with the hashes rewritten from `x` to `y`. */
  lemma RunThroughHashes(names: Names, m: map<NameLocated, seq<GscExportData>>, s: bytes, s1: bytes, x: bytes, y: bytes,
                         v: bytes, order: seq<bytes>, imps: seq<nat>, strs: seq<nat>, ps: seq<nat>,
                         exports: seq<GscExportData>, recompute: bool, seen: seq<GscExportData>,
                         exportNames: seq<NameLocated>, importNames: seq<NameLocated>, rho: Renaming, numbered: bool,
                         dev: bool, g: SlotUse)
    requires |exportNames| == |exports| && |importNames| == |imps| && Bounded(rho)
    requires m == Grouping.Collect(exportNames, exports)
    requires WellLaidOut(s, imps, strs, exports, recompute) && WellLaidOut(s1, imps, strs, exports, recompute)
    requires LocalsGone(s, s1, imps, strs, ps, exports, seen)
    requires HashesAway(names, s, imps, strs, ps, exports, exportNames, importNames, true, numbered)
    requires Reached(names, s1, x, imps, strs, ps, exports, exportNames, importNames, rho, false, numbered)
    requires HashesDone(names, x, y, order, true) && |x| == |y| == |s1|
    requires RunKept(names, s1, v, imps, strs, ps, exports, exportNames, importNames, rho, dev, g, false,
                     HashedIn(s1, x, y))
    ensures forall nl :: PrivateSingle(m, s1, nl) <==> PrivateSingle(m, s, nl)
    ensures |s1| == |s|
    ensures RunKept(names, s, v, imps, strs, ps, exports, exportNames, importNames, rho, dev, g, true,
                    HashedIn(s, x, y))
  {
    hide WellLaidOut, LocalsGone, HashesAway, Reached, HashesDone, RunKept, Bounded, SpotEdit, Grouping.Collect,
         PrivateSingle, SameSpots, HashedIn, Texts;
    ReachedFromStart(names, s, s1, x, imps, strs, ps, exports, seen, exportNames, importNames, rho, numbered);
    SpotsRewritten(names, s, x, y, order, imps, strs, ps, exports, exportNames, importNames, rho, true, numbered);
    HashedSameSpots(s, s1, x, y, imps, strs, ps, exports, seen);
    RunFromStart(names, m, s, s1, v, imps, strs, ps, exports, recompute, seen, exportNames, importNames, rho, dev, g,
                 HashedIn(s, x, y), HashedIn(s1, x, y));
  }

  /** The bytes of a script in which no hash may stand. */
  ghost function NoSpots(s: bytes, imps: seq<nat>, strs: seq<nat>, ats: seq<nat>, exports: seq<GscExportData>, locals: bool):
    (r: set<nat>)
    requires |s| >= HEADER_SIZE && TextsApart(s, ats)
    ensures forall k: nat :: k in r <==> k < |s| && !HashSpot(s, imps, strs, ats, exports, locals, k)
  {
    set k: nat | k < |s| && !HashSpot(s, imps, strs, ats, exports, locals, k)
  }

  /** It is enough that those bytes rule out every hash of the table. */
  lemma RuledOutIsEnough(hashes: map<bytes, u32>, s: bytes, x: bytes, imps: seq<nat>, strs: seq<nat>, ats: seq<nat>,
                         exports: seq<GscExportData>, locals: bool)
    requires |x| == |s| >= HEADER_SIZE && TextsApart(s, ats)
    requires forall str :: str in hashes ==>
      RuledOut(x, NoSpots(s, imps, strs, ats, exports, locals), HashMini.HashT7(str))
    ensures RewritesSpots(hashes, s, x, imps, strs, ats, exports, locals)
  {
    hide HashSpot, TextsApart, RuledOut, NoSpots, HashMini.HashT7, RewriteEntries;
    var keep := NoSpots(s, imps, strs, ats, exports, locals);
    forall order | TableOrder(hashes, order) && RewriteEntries(x, Entries(hashes, order)).Some?
      ensures SpotEdit(s, x, RewriteEntries(x, Entries(hashes, order)).value, imps, strs, ats, exports, locals)
    {
      EntriesSpare(x, Entries(hashes, order), keep);
    }
  }

  // ----- Without private hashes

  /** Nothing is rewritten, so nothing is asked. */
  lemma NoHashesAway(names: Names, s: bytes, imps: seq<nat>, strs: seq<nat>, ps: seq<nat>, exports: seq<GscExportData>,
                     exportNames: seq<NameLocated>, importNames: seq<NameLocated>, locals: bool, numbered: bool)
    requires names.hashes == map[] && |s| >= HEADER_SIZE && TextsApart(s, Texts(s, ps))
    ensures HashesAway(names, s, imps, strs, ps, exports, exportNames, importNames, locals, numbered)
  {
    hide Texts, HashSpot, TextsApart, Reached, RewritesSpots;
    forall x, rho | Reached(names, s, x, imps, strs, ps, exports, exportNames, importNames, rho, locals, numbered)
      ensures RewritesSpots(names.hashes, s, x, imps, strs, Texts(s, ps), exports, locals)
    {
      ReachedSize(names, s, x, imps, strs, ps, exports, exportNames, importNames, rho, locals, numbered);
      RuledOutIsEnough(names.hashes, s, x, imps, strs, Texts(s, ps), exports, locals);
    }
  }

  lemma ReachedSize(names: Names, s: bytes, x: bytes, imps: seq<nat>, strs: seq<nat>, ps: seq<nat>,
                    exports: seq<GscExportData>, exportNames: seq<NameLocated>, importNames: seq<NameLocated>, rho: Renaming,
                    locals: bool, numbered: bool)
    requires Reached(names, s, x, imps, strs, ps, exports, exportNames, importNames, rho, locals, numbered)
    ensures |x| == |s|
  {
    hide TextLayout, SameTexts, LocalsSet, SameEvents, AnyLocalByte, TextsApart, CString, Texts, Refs, TablesApart,
         Grouping.Collect, PrivateSingle, Numbering;
  }
}
