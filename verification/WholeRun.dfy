/** One whole run over a well laid out script: renaming, both dev-block passes,
    trampolines and checksums, told from the script it starts with. */
module WholeRun {
  import opened Bytes
  import opened Results
  import opened GscFormat
  import opened Grouping
  import opened DevKill
  import opened DevTables
  import opened Linking
  import opened PrivateExports
  import opened ScriptLayout
  import opened ScriptTables
  import opened ChecksumPass
  import opened SlotPass
  import opened DevHarvest
  import opened DevRun
  import Trampolines
  import Jumps
  import Checksums

  /** The same, for the tables as they were loaded, with every checksum's code
      outside the export table. */
  ghost predicate WellLaidOut(s: bytes, imps: seq<nat>, strs: seq<nat>, exports: seq<GscExportData>, recompute: bool) {
    && Prepared(s, imps, strs) && ImportWalk(s) == Some(imps)
    && |exports| == Get16(s, EXPORT_COUNT)
    && forall i :: 0 <= i < |exports| ==>
         && exports[i].ref == ExportAt(ExportTable(s), i)
         && exports[i].bc + Covered(exports[i], recompute) <= |s|
         && (exports[i].bc + Covered(exports[i], recompute) <= ExportTable(s) || ExportEnd(s) <= exports[i].bc)
  }

  // ----- The layout gives what each pass asks for

  lemma TablesAreApart(s: bytes, imps: seq<nat>, strs: seq<nat>, exports: seq<GscExportData>, recompute: bool)
    requires WellLaidOut(s, imps, strs, exports, recompute)
    ensures TablesApart(|s|, Refs(exports), imps) && ChecksumLayout(|s|, exports, recompute)
  {
    var rs := AllRecs(imps, strs);
    WalkIsTable(s, Get32(s, IMPORT_OFFSET), Get16(s, IMPORT_COUNT), ImportRecord, imps);
    forall i, j | 0 <= i < j < |imps|
      ensures imps[i] + IMPORT_SIZE <= imps[j]
    {
      RecordsApart(s, Get32(s, IMPORT_OFFSET), imps, ImportRecord, i, j);
    }
    forall i, j | 0 <= i < |exports| && 0 <= j < |imps|
      ensures exports[i].ref + EXPORT_SIZE <= imps[j] || imps[j] + IMPORT_SIZE <= exports[i].ref
    {
      assert rs[j] == Rec(imps[j], ImportRecord);
      RecordBesideRegion(s, rs, ExportTable(s), ExportEnd(s), j);
    }
  }

  // ----- Renaming keeps the layout

  lemma NameByteInImport(s: bytes, imps: seq<nat>, strs: seq<nat>, i: nat, j: nat, k: int)
    requires Layout(s, AllRecs(imps, strs)) && i < |AllRecs(imps, strs)| && j < |imps|
    requires InRecord(s, AllRecs(imps, strs)[i], k) && imps[j] <= k < imps[j] + 4
    ensures i == j
  {
    var rs := AllRecs(imps, strs);
    assert rs[j] == Rec(imps[j], ImportRecord);
    assert InRecord(s, rs[j], k);
    if i < j {
      RecordsDiffer(s, rs, i, j, k);
    } else if j < i {
      RecordsDiffer(s, rs, j, i, k);
    }
  }

  lemma RenamingKeepsEvents(s: bytes, t: bytes, imps: seq<nat>, strs: seq<nat>, exports: seq<GscExportData>,
                            recompute: bool, exportNames: seq<NameLocated>, importNames: seq<NameLocated>, rho: Renaming)
    requires WellLaidOut(s, imps, strs, exports, recompute)
    requires |exportNames| == |exports| && |importNames| == |imps| && Bounded(rho)
    requires TablesApart(|s|, Refs(exports), imps)
    requires RenamedBy(s, t, Refs(exports), exportNames, imps, importNames, rho)
    ensures SameEvents(s, t, AllRecs(imps, strs))
  {
    var rs := AllRecs(imps, strs);
    forall i | 0 <= i < |rs|
      ensures Fits(t, rs[i].p, rs[i].kind) && SameRecord(s, t, rs[i])
    {
      var r := rs[i];
      forall k | InRecord(s, r, k) && !(r.kind == ImportRecord && r.p <= k < r.p + 4)
        ensures t[k] == s[k]
      {
        forall j | 0 <= j < |imps|
          ensures !(imps[j] <= k < imps[j] + 4)
        {
          if imps[j] <= k < imps[j] + 4 {
            NameByteInImport(s, imps, strs, i, j, k);
          }
        }
        forall j | 0 <= j < |exports|
          ensures !(Refs(exports)[j] + 8 <= k < Refs(exports)[j] + 12)
        {
          RecordBesideRegion(s, rs, ExportTable(s), ExportEnd(s), i);
        }
        assert !NameByte(Refs(exports), imps, k);
      }
      RecordKept(s, t, r);
    }
  }

  /** Bytes of the header, and of exports other than their names, keep still. */
  lemma RenamingKeepsByte(s: bytes, t: bytes, imps: seq<nat>, strs: seq<nat>, exports: seq<GscExportData>,
                          recompute: bool, exportNames: seq<NameLocated>, importNames: seq<NameLocated>, rho: Renaming,
                          k: nat)
    requires WellLaidOut(s, imps, strs, exports, recompute)
    requires |exportNames| == |exports| && |importNames| == |imps| && Bounded(rho)
    requires TablesApart(|s|, Refs(exports), imps)
    requires RenamedBy(s, t, Refs(exports), exportNames, imps, importNames, rho)
    requires k < |s| && forall j :: 0 <= j < |exports| ==> !(exports[j].ref + 8 <= k < exports[j].ref + 12)
    requires forall i :: 0 <= i < |imps| ==> !(imps[i] <= k < imps[i] + 4)
    ensures t[k] == s[k]
  {
    hide WellLaidOut, TablesApart, Bounded, ExportName, ImportName, Renamed;
    assert forall j :: 0 <= j < |exports| ==> Refs(exports)[j] == exports[j].ref;
    assert !NameByte(Refs(exports), imps, k);
  }

  /** Renaming leaves a script as well laid out as it was, with the same export
      addresses. */
  lemma RenamingKeepsLayout(s: bytes, t: bytes, imps: seq<nat>, strs: seq<nat>, exports: seq<GscExportData>,
                            recompute: bool, exportNames: seq<NameLocated>, importNames: seq<NameLocated>, rho: Renaming)
    requires WellLaidOut(s, imps, strs, exports, recompute)
    requires |exportNames| == |exports| && |importNames| == |imps| && Bounded(rho)
    requires TablesApart(|s|, Refs(exports), imps)
    requires RenamedBy(s, t, Refs(exports), exportNames, imps, importNames, rho)
    ensures Prepared(t, imps, strs)
    ensures ExportTable(t) == ExportTable(s) && Get16(t, EXPORT_COUNT) == Get16(s, EXPORT_COUNT)
    ensures forall i :: 0 <= i < |exports| ==>
      ExportAddress(t, exports[i].ref) == ExportAddress(s, exports[i].ref)
  {
    assert |t| == |s| >= HEADER_SIZE;
    hide Prepared, RenamedBy;
    RenamingKeepsEvents(s, t, imps, strs, exports, recompute, exportNames, importNames, rho);
    forall k | 0 <= k < HEADER_SIZE
      ensures t[k] == s[k]
    {
      ImportsBesideHeader(s, imps, strs, k);
      ExportsBesideHeader(s, imps, strs, exports, recompute, k);
      RenamingKeepsByte(s, t, imps, strs, exports, recompute, exportNames, importNames, rho, k);
    }
    PreparedSame(s, t, imps, strs);
    forall i | 0 <= i < |exports|
      ensures ExportAddress(t, exports[i].ref) == ExportAddress(s, exports[i].ref)
    {
      RenamingKeepsAddress(s, t, imps, strs, exports, recompute, exportNames, importNames, rho, i);
    }
  }

  lemma ImportsBesideHeader(s: bytes, imps: seq<nat>, strs: seq<nat>, k: nat)
    requires Prepared(s, imps, strs) && k < HEADER_SIZE
    ensures forall i :: 0 <= i < |imps| ==> !(imps[i] <= k < imps[i] + 4)
  {
    var rs := AllRecs(imps, strs);
    forall i | 0 <= i < |imps|
      ensures !(imps[i] <= k < imps[i] + 4)
    {
      assert rs[i] == Rec(imps[i], ImportRecord) && ClearOf(s, rs[i], k);
    }
  }

  lemma ExportsBesideHeader(s: bytes, imps: seq<nat>, strs: seq<nat>, exports: seq<GscExportData>, recompute: bool, k: nat)
    requires WellLaidOut(s, imps, strs, exports, recompute) && k < HEADER_SIZE
    ensures |s| >= HEADER_SIZE
    ensures forall j :: 0 <= j < |exports| ==> exports[j].ref > k
  {
  }

  lemma RenamingKeepsAddress(s: bytes, t: bytes, imps: seq<nat>, strs: seq<nat>, exports: seq<GscExportData>,
                             recompute: bool, exportNames: seq<NameLocated>, importNames: seq<NameLocated>, rho: Renaming,
                             i: nat)
    requires WellLaidOut(s, imps, strs, exports, recompute)
    requires |exportNames| == |exports| && |importNames| == |imps| && Bounded(rho)
    requires TablesApart(|s|, Refs(exports), imps)
    requires RenamedBy(s, t, Refs(exports), exportNames, imps, importNames, rho) && i < |exports|
    ensures exports[i].ref + EXPORT_SIZE <= |s| == |t|
    ensures ExportAddress(t, exports[i].ref) == ExportAddress(s, exports[i].ref)
  {
    hide Prepared;
    var e := exports[i].ref;
    assert forall j :: 0 <= j < |exports| ==> Refs(exports)[j] == exports[j].ref;
    assert Refs(exports)[i] + EXPORT_SIZE <= |s|;
    forall k | e + 4 <= k < e + 8
      ensures t[k] == s[k]
    {
      forall j | 0 <= j < |exports|
        ensures !(exports[j].ref + 8 <= k < exports[j].ref + 12)
      {
        if j < i {
          assert Refs(exports)[j] + EXPORT_SIZE <= Refs(exports)[i];
        } else if i < j {
          assert Refs(exports)[i] + EXPORT_SIZE <= Refs(exports)[j];
        }
      }
      forall j | 0 <= j < |imps|
        ensures !(imps[j] <= k < imps[j] + 4)
      {
        assert Refs(exports)[i] + EXPORT_SIZE <= imps[j] || imps[j] + IMPORT_SIZE <= Refs(exports)[i];
      }
      RenamingKeepsByte(s, t, imps, strs, exports, recompute, exportNames, importNames, rho, k);
    }
  }

  // ----- Trampolines and checksums

  /** The exports sit in one table. */
  ghost predicate InTable(table: nat, exports: seq<GscExportData>) {
    forall i :: 0 <= i < |exports| ==> exports[i].ref == ExportAt(table, i)
  }

  /** From the script before trampolines (`s`) to the final one (`u`): each
      export, entered at its final address, reaches its address in `s`. */
  lemma ExportsStillReached(crc: Checksums.Crc32, s: bytes, t: bytes, u: bytes, table: nat, exports: seq<GscExportData>,
                            slots: seq<Option<nat>>, recompute: bool, i: nat)
    requires InTable(table, exports) && |slots| == |exports| && i < |exports|
    requires Jumps.SlotsClear(|s|, table, |slots|, slots) && Jumps.Redirected(s, t, table, slots, |slots|)
    requires ChecksumsSet(crc, t, u, exports, exports, recompute)
    ensures exports[i].ref + EXPORT_SIZE <= |s| == |u|
    ensures Jumps.Reaches(u, ExportAddress(u, exports[i].ref), ExportAddress(s, exports[i].ref))
  {
    var e := exports[i].ref;
    assert e + EXPORT_SIZE <= table + EXPORT_SIZE * |slots|;
    AddressNoChecksum(table, exports, recompute, i);
    assert ExportAddress(u, e) == ExportAddress(t, e);
    if slots[i].Some? {
      SlotFinal(crc, s, t, u, table, exports, slots, recompute, i);
    } else {
      Jumps.AddressKept(s, t, table, slots, |slots|, i);
    }
  }

  lemma AddressNoChecksum(table: nat, exports: seq<GscExportData>, recompute: bool, i: nat)
    requires InTable(table, exports) && i < |exports|
    ensures forall k :: exports[i].ref + 4 <= k < exports[i].ref + EXPORT_SIZE ==> !ChecksumByte(exports, recompute, k)
  {
  }

  lemma SlotFinal(crc: Checksums.Crc32, s: bytes, t: bytes, u: bytes, table: nat, exports: seq<GscExportData>,
                  slots: seq<Option<nat>>, recompute: bool, i: nat)
    requires InTable(table, exports) && |slots| == |exports| && i < |exports| && slots[i].Some?
    requires Jumps.SlotsClear(|s|, table, |slots|, slots) && Jumps.Redirected(s, t, table, slots, |slots|)
    requires ChecksumsSet(crc, t, u, exports, exports, recompute)
    ensures exports[i].ref + EXPORT_SIZE <= |s| == |t| == |u|
    ensures ExportAddress(t, exports[i].ref) == slots[i].value
    ensures Jumps.JumpTarget(u, slots[i].value) == Some(ExportAddress(s, exports[i].ref))
  {
    var e, f := exports[i].ref, slots[i].value;
    assert e + EXPORT_SIZE <= table + EXPORT_SIZE * |slots|;
    assert Jumps.Entered(s, t, table, i, f);
    forall k | f <= k < f + 4
      ensures u[k] == t[k]
    {
      forall j | 0 <= j < |exports|
        ensures !(exports[j].ref <= k < exports[j].ref + 4)
      {
        assert exports[j].ref + EXPORT_SIZE <= table + EXPORT_SIZE * |slots|;
      }
      assert !ChecksumByte(exports, recompute, k);
    }
    Jumps.SameTrampoline(t, u, f, ExportAddress(s, e));
    Jumps.TrampolineLands(u, f, ExportAddress(s, e));
  }

  lemma NameNoAddress(table: nat, n: nat, i: nat, k: nat)
    requires i < n && ExportAt(table, i) + 8 <= k < ExportAt(table, i) + 16
    ensures forall j :: 0 <= j < n ==> !(ExportAt(table, j) + 4 <= k < ExportAt(table, j) + 8)
  {
  }

  /** Export names come through trampolines and checksums. */
  lemma ExportNameFinal(crc: Checksums.Crc32, s: bytes, t: bytes, u: bytes, table: nat, exports: seq<GscExportData>,
                        slots: seq<Option<nat>>, recompute: bool, i: nat)
    requires InTable(table, exports) && |slots| == |exports| && i < |exports|
    requires Jumps.SlotsClear(|s|, table, |slots|, slots) && Jumps.Redirected(s, t, table, slots, |slots|)
    requires ChecksumsSet(crc, t, u, exports, exports, recompute)
    ensures exports[i].ref + EXPORT_SIZE <= |s| == |u|
    ensures ExportName(u, exports[i].ref) == ExportName(s, exports[i].ref)
  {
    var e := exports[i].ref;
    assert e + EXPORT_SIZE <= table + EXPORT_SIZE * |slots|;
    AddressNoChecksum(table, exports, recompute, i);
    forall k | e + 8 <= k < e + 16
      ensures u[k] == s[k]
    {
      NameNoAddress(table, |slots|, i, k);
      Jumps.TableByteKept(s, t, table, slots, |slots|, k);
    }
  }

  /** A byte outside the exports' checksums and addresses and every slot comes
      through both. */
  lemma ByteFinal(crc: Checksums.Crc32, s: bytes, t: bytes, u: bytes, table: nat, exports: seq<GscExportData>,
                  slots: seq<Option<nat>>, recompute: bool, k: nat)
    requires InTable(table, exports) && |slots| == |exports|
    requires table + EXPORT_SIZE * |slots| <= |s| && Jumps.Redirected(s, t, table, slots, |slots|)
    requires ChecksumsSet(crc, t, u, exports, exports, recompute)
    requires k < |s| && forall i :: 0 <= i < |exports| ==> !(exports[i].ref <= k < exports[i].ref + 8)
    requires forall i :: 0 <= i < |slots| && slots[i].Some? ==> !(slots[i].value <= k < slots[i].value + 4)
    ensures |u| == |s| && u[k] == s[k]
  {
    forall i | 0 <= i < |slots|
      ensures !(ExportAt(table, i) + 4 <= k < ExportAt(table, i) + 8)
    {
      assert exports[i].ref == ExportAt(table, i);
    }
    assert !Jumps.Touched(table, slots, |slots|, k);
    assert !ChecksumByte(exports, recompute, k);
  }

  /** Every slot given to an export was free. */
  lemma SlotWasFree(free: seq<nat>, dests: seq<nat>, i: nat)
    requires Trampolines.Distinct(free) && i < |dests|
    ensures var a := Trampolines.Allocate(Trampolines.Sorted(free), dests);
      a.slots[i].Some? ==> a.slots[i].value in free
  {
    var r := Trampolines.Sorted(free);
    Trampolines.SortedIsPermutation(free);
    PermutationNoRepeat(free, r);
    Trampolines.AllocationIsMatching(r, dests);
  }

  // ----- The run as a whole

  /** The slots given out, when they come from a free list. */
  ghost predicate FromFree(slots: seq<Option<nat>>, free: seq<nat>) {
    forall i :: 0 <= i < |slots| && slots[i].Some? ==> slots[i].value in free
  }

  /** What the run writes in the tables it loaded: checksum, address and name of an
      export, and the name of an import. */
  predicate TableField(imps: seq<nat>, exports: seq<GscExportData>, k: int) {
    || (exists i :: 0 <= i < |exports| && exports[i].ref <= k < exports[i].ref + 12)
    || (exists i :: 0 <= i < |imps| && imps[i] <= k < imps[i] + 4)
  }

  /** A byte no pass changes. With the dev passes: one that no event of theirs
      writes and no dead operand holds. */
  ghost predicate KeptByte(s: bytes, imps: seq<nat>, strs: seq<nat>, exports: seq<GscExportData>, dev: bool, k: nat) {
    Untouched(s, imps, strs, dev, k) && !TableField(imps, exports, k)
  }

  /** Every export, entered at its new address, reaches its old code under its
      renamed name. */
  ghost predicate ExportsKept(s: bytes, v: bytes, exports: seq<GscExportData>, exportNames: seq<NameLocated>, rho: Renaming)
    requires |v| == |s| && |exportNames| == |exports| && Bounded(rho)
  {
    forall i :: 0 <= i < |exports| ==>
      && exports[i].ref + EXPORT_SIZE <= |s|
      && Jumps.Reaches(v, ExportAddress(v, exports[i].ref), ExportAddress(s, exports[i].ref))
      && ExportName(v, exports[i].ref) == Renamed(exportNames[i], rho)
  }

  /** Every import that is not killed carries its renamed name. */
  ghost predicate ImportsKept(s: bytes, v: bytes, imps: seq<nat>, dev: bool, importNames: seq<NameLocated>, rho: Renaming)
    requires |v| == |s| && |importNames| == |imps| && Bounded(rho)
  {
    forall i :: 0 <= i < |imps| ==>
      && imps[i] + IMPORT_SIZE <= |s|
      && (!(dev && IsDevCall(s[imps[i] + 11])) ==> ImportName(v, imps[i]) == Renamed(importNames[i], rho))
  }

  /** The addresses of the exports in table order; zero for a record outside. */
  function OldAddresses(s: bytes, exports: seq<GscExportData>): (r: seq<nat>)
    ensures |r| == |exports|
    ensures forall i :: 0 <= i < |r| && exports[i].ref + EXPORT_SIZE <= |s| ==> r[i] == ExportAddress(s, exports[i].ref)
  {
    seq(|exports|, i requires 0 <= i < |exports| =>
      if exports[i].ref + EXPORT_SIZE <= |s| then ExportAddress(s, exports[i].ref) as nat else 0)
  }

  /** The final address of an export is its slot, or its old address without one; and
      the freed slots were shared out over the old addresses. */
  ghost predicate TrampolinesMade(s: bytes, v: bytes, exports: seq<GscExportData>, dev: bool, g: SlotUse)
    requires |v| == |s|
  {
    && SlotsShared(OldAddresses(s, exports), g) && (!dev ==> g.freed == [] && g.junk == 0)
    && forall i :: 0 <= i < |exports| ==>
         && exports[i].ref + EXPORT_SIZE <= |s|
         && ExportAddress(v, exports[i].ref)
            == if g.given[i].Some? then g.given[i].value else ExportAddress(s, exports[i].ref)
  }

  /** Told from a script with the same addresses, the same trampolines were made. */
  lemma MadeSame(s: bytes, t: bytes, v: bytes, exports: seq<GscExportData>, dev: bool, g: SlotUse)
    requires |v| == |t| == |s| && TrampolinesMade(t, v, exports, dev, g)
    requires forall i :: 0 <= i < |exports| ==>
      && exports[i].ref + EXPORT_SIZE <= |s| && exports[i].ref + EXPORT_SIZE <= |t|
      && ExportAddress(t, exports[i].ref) == ExportAddress(s, exports[i].ref)
    ensures TrampolinesMade(s, v, exports, dev, g)
  {
    hide SlotsShared, ExportAddress;
    assert OldAddresses(t, exports) == OldAddresses(s, exports);
  }

  /** What a whole run promises, from the loaded script `s` to the final `v`; bytes no
      pass changes are those of `y`. */
  ghost predicate MeaningKept(s: bytes, v: bytes, imps: seq<nat>, strs: seq<nat>, exports: seq<GscExportData>,
                              exportNames: seq<NameLocated>, importNames: seq<NameLocated>, rho: Renaming,
                              dev: bool, g: SlotUse, y: bytes)
    requires |s| >= HEADER_SIZE && |exportNames| == |exports| && |importNames| == |imps| && Bounded(rho)
  {
    && |v| == |s| == |y|
    && ExportsKept(s, v, exports, exportNames, rho)
    && ImportsKept(s, v, imps, dev, importNames, rho)
    && TrampolinesMade(s, v, exports, dev, g)
    && (dev ==> DevDone(s, v, g.junk, g.freed, imps, strs))
    && forall k: nat :: KeptByte(s, imps, strs, exports, dev, k) ==> k < |s| && v[k] == y[k]
  }

  lemma WholeRunLength(crc: Checksums.Crc32, s: bytes, t: bytes, u: bytes, w: bytes, v: bytes, free: seq<nat>,
                       slots: seq<Option<nat>>, imps: seq<nat>, strs: seq<nat>, exports: seq<GscExportData>,
                       recompute: bool, junk: nat, dev: bool)
    requires WellLaidOut(s, imps, strs, exports, recompute) && SameEvents(s, t, AllRecs(imps, strs))
    requires Prepared(t, imps, strs) && ExportTable(t) == ExportTable(s) && AfterDev(t, u, free, junk, dev, imps, strs)
    requires |slots| == |exports| && Jumps.Redirected(u, w, ExportTable(s), slots, |slots|)
    requires ChecksumsSet(crc, w, v, exports, exports, recompute)
    ensures HEADER_SIZE <= |s| == |v|
  {
    TableOf(s, imps, strs, exports, recompute);
    FinalLength(crc, u, w, v, ExportTable(s), exports, slots, recompute);
  }

  /** From renaming (`s` to `t`), dev passes (`t` to `u`), trampolines (`u` to
      `w`) and checksums (`w` to `v`), the promise of the whole run. */
  lemma WholeRunKeepsMeaning(crc: Checksums.Crc32, s: bytes, t: bytes, u: bytes, w: bytes, v: bytes,
                             imps: seq<nat>, strs: seq<nat>, exports: seq<GscExportData>,
                             recompute: bool, exportNames: seq<NameLocated>, importNames: seq<NameLocated>, rho: Renaming,
                             g: SlotUse, dev: bool)
    requires WellLaidOut(s, imps, strs, exports, recompute)
    requires |exportNames| == |exports| && |importNames| == |imps| && Bounded(rho)
    requires TablesApart(|s|, Refs(exports), imps)
    requires RenamedBy(s, t, Refs(exports), exportNames, imps, importNames, rho)
    requires Prepared(t, imps, strs) && ExportTable(t) == ExportTable(s)
    requires AfterDev(t, u, g.freed, g.junk, dev, imps, strs)
    requires |g.given| == |exports| && FromFree(g.given, g.freed)
    requires Jumps.SlotsClear(|u|, ExportTable(s), |g.given|, g.given)
    requires Jumps.Redirected(u, w, ExportTable(s), g.given, |g.given|)
    requires SlotsShared(Jumps.Addresses(u, ExportTable(s), |g.given|), g)
    requires ChecksumsSet(crc, w, v, exports, exports, recompute)
    ensures MeaningKept(s, v, imps, strs, exports, exportNames, importNames, rho, dev, g, s)
  {
    var free, slots, junk := g.freed, g.given, g.junk;
    hide SlotsShared, WellLaidOut, RenamedBy, AfterDev, Jumps.SlotsClear, Jumps.Redirected, ChecksumsSet, Prepared, TablesApart,
         FromFree, SameEvents, Jumps.Reaches, InTable, Refs, Get16, Get32, KeptByte, DevDone, Bounded;
    RenamingKeepsLayout(s, t, imps, strs, exports, recompute, exportNames, importNames, rho);
    RenamingKeepsEvents(s, t, imps, strs, exports, recompute, exportNames, importNames, rho);
    WholeRunLength(crc, s, t, u, w, v, free, slots, imps, strs, exports, recompute, junk, dev);
    hide ExportsKept, ImportsKept, TrampolinesMade;
    AllMadeFinal(crc, s, t, u, w, v, imps, strs, exports, recompute, exportNames, importNames, rho, g, dev);
    AllExportsFinal(crc, s, t, u, w, v, free, slots, imps, strs, exports, recompute, exportNames, importNames, rho, junk,
                    dev);
    AllImportsFinal(crc, s, t, u, w, v, free, slots, imps, strs, exports, recompute, exportNames, importNames, rho, junk,
                    dev);
    if dev {
      DevFinal(crc, s, t, u, w, v, free, slots, imps, strs, exports, recompute, junk);
    }
    AllBytesFinal(crc, s, t, u, w, v, free, slots, imps, strs, exports, recompute, exportNames, importNames, rho, junk,
                  dev);
  }

  lemma AllMadeFinal(crc: Checksums.Crc32, s: bytes, t: bytes, u: bytes, w: bytes, v: bytes, imps: seq<nat>,
                     strs: seq<nat>, exports: seq<GscExportData>, recompute: bool, exportNames: seq<NameLocated>,
                     importNames: seq<NameLocated>, rho: Renaming, g: SlotUse, dev: bool)
    requires WellLaidOut(s, imps, strs, exports, recompute)
    requires |exportNames| == |exports| && |importNames| == |imps| && Bounded(rho)
    requires TablesApart(|s|, Refs(exports), imps)
    requires RenamedBy(s, t, Refs(exports), exportNames, imps, importNames, rho)
    requires Prepared(t, imps, strs) && ExportTable(t) == ExportTable(s)
    requires Get16(t, EXPORT_COUNT) == Get16(s, EXPORT_COUNT)
    requires AfterDev(t, u, g.freed, g.junk, dev, imps, strs)
    requires |g.given| == |exports| && Jumps.SlotsClear(|u|, ExportTable(s), |g.given|, g.given)
    requires Jumps.Redirected(u, w, ExportTable(s), g.given, |g.given|)
    requires SlotsShared(Jumps.Addresses(u, ExportTable(s), |g.given|), g)
    requires ChecksumsSet(crc, w, v, exports, exports, recompute) && |v| == |s|
    ensures TrampolinesMade(s, v, exports, dev, g)
  {
    TableOf(s, imps, strs, exports, recompute);
    assert |t| == |s| >= HEADER_SIZE && |u| == |t|;
    hide WellLaidOut, RenamedBy, Jumps.SlotsClear, Jumps.Redirected, ChecksumsSet, Prepared, TablesApart, AfterDev,
         SlotsShared, Refs, Get16, Get32, Bounded, ExportAddress;
    forall i | 0 <= i < |exports|
      ensures exports[i].ref + EXPORT_SIZE <= |s| && exports[i].ref == ExportAt(ExportTable(s), i)
      ensures |u| == |s| && ExportAddress(u, exports[i].ref) == ExportAddress(s, exports[i].ref)
      ensures ExportAddress(v, exports[i].ref)
        == if g.given[i].Some? then g.given[i].value else ExportAddress(u, exports[i].ref)
    {
      MadeFinal(crc, s, t, u, w, v, imps, strs, exports, recompute, exportNames, importNames, rho, g, dev, i);
    }
    assert Jumps.Addresses(u, ExportTable(s), |g.given|) == OldAddresses(s, exports);
    FreedWithoutDev(t, u, g, dev, imps, strs);
  }

  lemma FreedWithoutDev(t: bytes, u: bytes, g: SlotUse, dev: bool, imps: seq<nat>, strs: seq<nat>)
    requires |t| >= HEADER_SIZE && AfterDev(t, u, g.freed, g.junk, dev, imps, strs)
    ensures !dev ==> g.freed == [] && g.junk == 0
  {
  }

  lemma MadeFinal(crc: Checksums.Crc32, s: bytes, t: bytes, u: bytes, w: bytes, v: bytes, imps: seq<nat>,
                  strs: seq<nat>, exports: seq<GscExportData>, recompute: bool, exportNames: seq<NameLocated>,
                  importNames: seq<NameLocated>, rho: Renaming, g: SlotUse, dev: bool, i: nat)
    requires WellLaidOut(s, imps, strs, exports, recompute)
    requires |exportNames| == |exports| && |importNames| == |imps| && Bounded(rho)
    requires TablesApart(|s|, Refs(exports), imps)
    requires RenamedBy(s, t, Refs(exports), exportNames, imps, importNames, rho)
    requires Prepared(t, imps, strs) && ExportTable(t) == ExportTable(s)
    requires Get16(t, EXPORT_COUNT) == Get16(s, EXPORT_COUNT)
    requires AfterDev(t, u, g.freed, g.junk, dev, imps, strs)
    requires |g.given| == |exports| && Jumps.SlotsClear(|u|, ExportTable(s), |g.given|, g.given)
    requires Jumps.Redirected(u, w, ExportTable(s), g.given, |g.given|)
    requires ChecksumsSet(crc, w, v, exports, exports, recompute) && i < |exports|
    ensures exports[i].ref + EXPORT_SIZE <= |s| && exports[i].ref == ExportAt(ExportTable(s), i)
    ensures |v| == |u| == |s| && ExportAddress(u, exports[i].ref) == ExportAddress(s, exports[i].ref)
    ensures ExportAddress(v, exports[i].ref)
      == if g.given[i].Some? then g.given[i].value else ExportAddress(u, exports[i].ref)
  {
    TableOf(s, imps, strs, exports, recompute);
    var e := exports[i].ref;
    assert e + EXPORT_SIZE <= ExportTable(s) + EXPORT_SIZE * |exports|;
    hide WellLaidOut, Prepared, Jumps.Redirected, Jumps.SlotsClear, ChecksumsSet, RenamedBy, TablesApart, AfterDev, Refs;
    RenamingKeepsAddress(s, t, imps, strs, exports, recompute, exportNames, importNames, rho, i);
    AfterDevExport(t, u, g.freed, g.junk, dev, imps, strs, e);
    AddressFinal(crc, u, w, v, ExportTable(s), exports, g.given, recompute, i);
  }

  /** Trampolines and checksums leave an export with its slot for address, or the one
      it had. */
  lemma AddressFinal(crc: Checksums.Crc32, u: bytes, w: bytes, v: bytes, table: nat, exports: seq<GscExportData>,
                     slots: seq<Option<nat>>, recompute: bool, i: nat)
    requires InTable(table, exports) && |slots| == |exports| && i < |exports|
    requires Jumps.SlotsClear(|u|, table, |slots|, slots) && Jumps.Redirected(u, w, table, slots, |slots|)
    requires ChecksumsSet(crc, w, v, exports, exports, recompute)
    ensures exports[i].ref + EXPORT_SIZE <= |u| == |v|
    ensures ExportAddress(v, exports[i].ref)
      == if slots[i].Some? then slots[i].value else ExportAddress(u, exports[i].ref)
  {
    var e := exports[i].ref;
    assert e + EXPORT_SIZE <= table + EXPORT_SIZE * |slots|;
    AddressNoChecksum(table, exports, recompute, i);
    assert ExportAddress(v, e) == ExportAddress(w, e);
    if slots[i].Some? {
      assert Jumps.Entered(u, w, table, i, slots[i].value);
    } else {
      Jumps.AddressKept(u, w, table, slots, |slots|, i);
    }
  }

  lemma AllExportsFinal(crc: Checksums.Crc32, s: bytes, t: bytes, u: bytes, w: bytes, v: bytes, free: seq<nat>,
                        slots: seq<Option<nat>>, imps: seq<nat>, strs: seq<nat>, exports: seq<GscExportData>,
                        recompute: bool, exportNames: seq<NameLocated>, importNames: seq<NameLocated>, rho: Renaming,
                        junk: nat, dev: bool)
    requires WellLaidOut(s, imps, strs, exports, recompute)
    requires |exportNames| == |exports| && |importNames| == |imps| && Bounded(rho)
    requires TablesApart(|s|, Refs(exports), imps) && SameEvents(s, t, AllRecs(imps, strs))
    requires RenamedBy(s, t, Refs(exports), exportNames, imps, importNames, rho)
    requires Prepared(t, imps, strs) && ExportTable(t) == ExportTable(s)
    requires Get16(t, EXPORT_COUNT) == Get16(s, EXPORT_COUNT)
    requires AfterDev(t, u, free, junk, dev, imps, strs)
    requires |slots| == |exports| && FromFree(slots, free)
    requires Jumps.SlotsClear(|u|, ExportTable(s), |slots|, slots)
    requires Jumps.Redirected(u, w, ExportTable(s), slots, |slots|)
    requires ChecksumsSet(crc, w, v, exports, exports, recompute) && |v| == |s|
    ensures ExportsKept(s, v, exports, exportNames, rho)
  {
    hide WellLaidOut, RenamedBy, AfterDev, Jumps.SlotsClear, Jumps.Redirected, ChecksumsSet, Prepared, TablesApart,
         FromFree, SameEvents, Jumps.Reaches, InTable, Refs, Get16, Get32, KeptByte, DevDone;
    forall i | 0 <= i < |exports|
      ensures exports[i].ref + EXPORT_SIZE <= |s| == |v|
      ensures Jumps.Reaches(v, ExportAddress(v, exports[i].ref), ExportAddress(s, exports[i].ref))
      ensures ExportName(v, exports[i].ref) == Renamed(exportNames[i], rho)
    {
      ExportFinal(crc, s, t, u, w, v, free, slots, imps, strs, exports, recompute, exportNames, importNames, rho, junk, dev,
                  i);
    }
  }

  lemma AllImportsFinal(crc: Checksums.Crc32, s: bytes, t: bytes, u: bytes, w: bytes, v: bytes, free: seq<nat>,
                        slots: seq<Option<nat>>, imps: seq<nat>, strs: seq<nat>, exports: seq<GscExportData>,
                        recompute: bool, exportNames: seq<NameLocated>, importNames: seq<NameLocated>, rho: Renaming,
                        junk: nat, dev: bool)
    requires WellLaidOut(s, imps, strs, exports, recompute)
    requires |exportNames| == |exports| && |importNames| == |imps| && Bounded(rho)
    requires TablesApart(|s|, Refs(exports), imps) && SameEvents(s, t, AllRecs(imps, strs))
    requires RenamedBy(s, t, Refs(exports), exportNames, imps, importNames, rho)
    requires Prepared(t, imps, strs) && ExportTable(t) == ExportTable(s)
    requires Get16(t, EXPORT_COUNT) == Get16(s, EXPORT_COUNT)
    requires AfterDev(t, u, free, junk, dev, imps, strs)
    requires |slots| == |exports| && FromFree(slots, free)
    requires Jumps.SlotsClear(|u|, ExportTable(s), |slots|, slots)
    requires Jumps.Redirected(u, w, ExportTable(s), slots, |slots|)
    requires ChecksumsSet(crc, w, v, exports, exports, recompute) && |v| == |s|
    ensures ImportsKept(s, v, imps, dev, importNames, rho)
  {
    hide WellLaidOut, RenamedBy, AfterDev, Jumps.SlotsClear, Jumps.Redirected, ChecksumsSet, Prepared, TablesApart,
         FromFree, SameEvents, Jumps.Reaches, InTable, Refs, Get16, Get32, KeptByte, DevDone;
    forall i | 0 <= i < |imps|
      ensures imps[i] + IMPORT_SIZE <= |s| == |v|
      ensures !(dev && IsDevCall(s[imps[i] + 11])) ==> ImportName(v, imps[i]) == Renamed(importNames[i], rho)
    {
      ImportFinal(crc, s, t, u, w, v, free, slots, imps, strs, exports, recompute, exportNames, importNames, rho, junk, dev,
                  i);
    }
  }

  lemma AllBytesFinal(crc: Checksums.Crc32, s: bytes, t: bytes, u: bytes, w: bytes, v: bytes, free: seq<nat>,
                      slots: seq<Option<nat>>, imps: seq<nat>, strs: seq<nat>, exports: seq<GscExportData>,
                      recompute: bool, exportNames: seq<NameLocated>, importNames: seq<NameLocated>, rho: Renaming,
                      junk: nat, dev: bool)
    requires WellLaidOut(s, imps, strs, exports, recompute)
    requires |exportNames| == |exports| && |importNames| == |imps| && Bounded(rho)
    requires TablesApart(|s|, Refs(exports), imps) && SameEvents(s, t, AllRecs(imps, strs))
    requires RenamedBy(s, t, Refs(exports), exportNames, imps, importNames, rho)
    requires Prepared(t, imps, strs) && ExportTable(t) == ExportTable(s)
    requires Get16(t, EXPORT_COUNT) == Get16(s, EXPORT_COUNT)
    requires AfterDev(t, u, free, junk, dev, imps, strs)
    requires |slots| == |exports| && FromFree(slots, free)
    requires Jumps.SlotsClear(|u|, ExportTable(s), |slots|, slots)
    requires Jumps.Redirected(u, w, ExportTable(s), slots, |slots|)
    requires ChecksumsSet(crc, w, v, exports, exports, recompute) && |v| == |s|
    ensures forall k: nat :: KeptByte(s, imps, strs, exports, dev, k) ==> k < |s| && v[k] == s[k]
  {
    hide WellLaidOut, RenamedBy, AfterDev, Jumps.SlotsClear, Jumps.Redirected, ChecksumsSet, Prepared, TablesApart,
         FromFree, SameEvents, Jumps.Reaches, InTable, Refs, Get16, Get32, KeptByte, DevDone, Bounded;
    forall k: nat | KeptByte(s, imps, strs, exports, dev, k)
      ensures k < |s| == |v| && v[k] == s[k]
    {
      KeptFinal(crc, s, t, u, w, v, free, slots, imps, strs, exports, recompute, exportNames, importNames, rho, junk, dev,
                k);
    }
  }

  lemma TableOf(s: bytes, imps: seq<nat>, strs: seq<nat>, exports: seq<GscExportData>, recompute: bool)
    requires WellLaidOut(s, imps, strs, exports, recompute)
    ensures InTable(ExportTable(s), exports)
    ensures ExportEnd(s) == ExportTable(s) + EXPORT_SIZE * |exports| <= |s|
  {
  }

  lemma AfterDevByte(t: bytes, u: bytes, free: seq<nat>, junk: nat, dev: bool, imps: seq<nat>, strs: seq<nat>, k: nat)
    requires Prepared(t, imps, strs) && |t| >= HEADER_SIZE && AfterDev(t, u, free, junk, dev, imps, strs)
    requires Untouched(t, imps, strs, dev, k)
    ensures k < |u| == |t| && u[k] == t[k] && SlotsMiss(free, k)
  {
    hide Prepared, DevDone, SlotsFree;
  }

  lemma AfterDevExport(t: bytes, u: bytes, free: seq<nat>, junk: nat, dev: bool, imps: seq<nat>, strs: seq<nat>, e: nat)
    requires Prepared(t, imps, strs) && |t| >= HEADER_SIZE && AfterDev(t, u, free, junk, dev, imps, strs)
    requires ExportTable(t) <= e && e + EXPORT_SIZE <= ExportEnd(t)
    ensures |u| == |t| && e + EXPORT_SIZE <= |t|
    ensures ExportAddress(u, e) == ExportAddress(t, e) && ExportName(u, e) == ExportName(t, e)
  {
    PreparedFacts(t, imps, strs);
    AfterDevFacts(t, u, free, junk, dev, imps, strs);
    assert Fenced(t, AllRecs(imps, strs), ExportTable(t), ExportEnd(t));
    hide Prepared, AfterDev, Fenced;
    forall k: nat | e <= k < e + EXPORT_SIZE
      ensures u[k] == t[k]
    {
      FencedIsSpared(t, imps, strs, ExportTable(t), ExportEnd(t), k);
      AfterDevByte(t, u, free, junk, dev, imps, strs, k);
    }
  }

  lemma ExportFinal(crc: Checksums.Crc32, s: bytes, t: bytes, u: bytes, w: bytes, v: bytes, free: seq<nat>,
                    slots: seq<Option<nat>>, imps: seq<nat>, strs: seq<nat>, exports: seq<GscExportData>,
                    recompute: bool, exportNames: seq<NameLocated>, importNames: seq<NameLocated>, rho: Renaming,
                    junk: nat, dev: bool, i: nat)
    requires WellLaidOut(s, imps, strs, exports, recompute)
    requires |exportNames| == |exports| && |importNames| == |imps| && Bounded(rho)
    requires TablesApart(|s|, Refs(exports), imps)
    requires RenamedBy(s, t, Refs(exports), exportNames, imps, importNames, rho)
    requires Prepared(t, imps, strs) && ExportTable(t) == ExportTable(s)
    requires Get16(t, EXPORT_COUNT) == Get16(s, EXPORT_COUNT)
    requires AfterDev(t, u, free, junk, dev, imps, strs)
    requires |slots| == |exports| && Jumps.SlotsClear(|u|, ExportTable(s), |slots|, slots)
    requires Jumps.Redirected(u, w, ExportTable(s), slots, |slots|)
    requires ChecksumsSet(crc, w, v, exports, exports, recompute) && i < |exports|
    ensures exports[i].ref + EXPORT_SIZE <= |s| == |v|
    ensures Jumps.Reaches(v, ExportAddress(v, exports[i].ref), ExportAddress(s, exports[i].ref))
    ensures ExportName(v, exports[i].ref) == Renamed(exportNames[i], rho)
  {
    TableOf(s, imps, strs, exports, recompute);
    var e := exports[i].ref;
    assert Refs(exports)[i] == e && e + EXPORT_SIZE <= ExportTable(s) + EXPORT_SIZE * |exports|;
    assert ExportName(t, e) == Renamed(exportNames[i], rho);
    AfterDevExport(t, u, free, junk, dev, imps, strs, e);
    hide Prepared, Jumps.Redirected, Jumps.SlotsClear, ChecksumsSet, Jumps.Reaches, RenamedBy, TablesApart, AfterDev;
    RenamingKeepsAddress(s, t, imps, strs, exports, recompute, exportNames, importNames, rho, i);
    ExportsStillReached(crc, u, w, v, ExportTable(s), exports, slots, recompute, i);
    ExportNameFinal(crc, u, w, v, ExportTable(s), exports, slots, recompute, i);
  }

  lemma ImportFinal(crc: Checksums.Crc32, s: bytes, t: bytes, u: bytes, w: bytes, v: bytes, free: seq<nat>,
                    slots: seq<Option<nat>>, imps: seq<nat>, strs: seq<nat>, exports: seq<GscExportData>,
                    recompute: bool, exportNames: seq<NameLocated>, importNames: seq<NameLocated>, rho: Renaming,
                    junk: nat, dev: bool, i: nat)
    requires WellLaidOut(s, imps, strs, exports, recompute)
    requires |exportNames| == |exports| && |importNames| == |imps| && Bounded(rho)
    requires TablesApart(|s|, Refs(exports), imps) && SameEvents(s, t, AllRecs(imps, strs))
    requires RenamedBy(s, t, Refs(exports), exportNames, imps, importNames, rho)
    requires Prepared(t, imps, strs) && ExportTable(t) == ExportTable(s)
    requires Get16(t, EXPORT_COUNT) == Get16(s, EXPORT_COUNT)
    requires AfterDev(t, u, free, junk, dev, imps, strs)
    requires |slots| == |exports| && FromFree(slots, free)
    requires Jumps.Redirected(u, w, ExportTable(s), slots, |slots|)
    requires ChecksumsSet(crc, w, v, exports, exports, recompute) && i < |imps|
    ensures imps[i] + IMPORT_SIZE <= |s| == |v|
    ensures !(dev && IsDevCall(s[imps[i] + 11])) ==> ImportName(v, imps[i]) == Renamed(importNames[i], rho)
  {
    TableOf(s, imps, strs, exports, recompute);
    FlagsOfImportKept(s, t, Refs(exports), exportNames, imps, importNames, rho, i);
    hide Prepared, Jumps.Redirected, Jumps.SlotsClear, ChecksumsSet, WellLaidOut, TablesApart, SameEvents, FromFree, Bounded,
         SlotsFree, AfterDev, RenamedBy, Renamed, Refs, InTable;
    ImportInBounds(t, imps, strs, i);
    AfterDevFacts(t, u, free, junk, dev, imps, strs);
    FinalLength(crc, u, w, v, ExportTable(s), exports, slots, recompute);
    if !(dev && IsDevCall(t[imps[i] + 11])) {
      ImportNameFinal(crc, t, u, w, v, free, slots, imps, strs, exports, recompute, junk, dev, i);
    }
  }

  lemma ImportNameFinal(crc: Checksums.Crc32, t: bytes, u: bytes, w: bytes, v: bytes, free: seq<nat>,
                        slots: seq<Option<nat>>, imps: seq<nat>, strs: seq<nat>, exports: seq<GscExportData>,
                        recompute: bool, junk: nat, dev: bool, i: nat)
    requires Prepared(t, imps, strs) && |t| >= HEADER_SIZE && AfterDev(t, u, free, junk, dev, imps, strs)
    requires InTable(ExportTable(t), exports) && ExportEnd(t) == ExportTable(t) + EXPORT_SIZE * |exports| <= |t|
    requires |slots| == |exports| && FromFree(slots, free)
    requires Jumps.Redirected(u, w, ExportTable(t), slots, |slots|)
    requires ChecksumsSet(crc, w, v, exports, exports, recompute)
    requires i < |imps| && Fits(t, imps[i], ImportRecord) && !(dev && IsDevCall(t[imps[i] + 11]))
    ensures imps[i] + IMPORT_SIZE <= |t| == |v| && ImportName(v, imps[i]) == ImportName(t, imps[i])
  {
    hide Prepared, Jumps.Redirected, ChecksumsSet, FromFree, SlotsFree, AfterDev, InTable, SlotsMiss, Untouched, IsDevCall,
         Get32;
    var p := imps[i];
    ImportInBounds(t, imps, strs, i);
    AfterDevFacts(t, u, free, junk, dev, imps, strs);
    forall k: nat | p <= k < p + 8
      ensures |t| == |u| == |v| && u[k] == t[k] && v[k] == u[k]
    {
      ImportByteUntouched(t, imps, strs, dev, i, k);
      AfterDevByte(t, u, free, junk, dev, imps, strs, k);
      RecordByteFinal(crc, t, u, w, v, free, slots, exports, recompute, k);
    }
    FinalLength(crc, u, w, v, ExportTable(t), exports, slots, recompute);
    SameField(v, t, p);
    SameField(v, t, p + 4);
  }

  /** An import that is not killed comes through the dev passes whole. */
  lemma ImportByteUntouched(t: bytes, imps: seq<nat>, strs: seq<nat>, dev: bool, i: nat, k: nat)
    requires Prepared(t, imps, strs) && i < |imps| && Fits(t, imps[i], ImportRecord)
    requires imps[i] <= k < RecordEnd(t, imps[i], ImportRecord) && !(dev && IsDevCall(t[imps[i] + 11]))
    ensures Untouched(t, imps, strs, dev, k)
  {
    hide Prepared, Spared;
    if dev {
      ImportByteSpared(t, imps, strs, i, k);
    }
  }

  lemma SlotsMissByte(slots: seq<Option<nat>>, free: seq<nat>, k: nat)
    requires FromFree(slots, free) && SlotsMiss(free, k)
    ensures forall i :: 0 <= i < |slots| && slots[i].Some? ==> !(slots[i].value <= k < slots[i].value + 4)
  {
  }

  /** A byte off the export table and the slots, from the dev passes on. */
  lemma RecordByteFinal(crc: Checksums.Crc32, t: bytes, u: bytes, w: bytes, v: bytes, free: seq<nat>,
                        slots: seq<Option<nat>>, exports: seq<GscExportData>, recompute: bool, k: nat)
    requires |t| == |u| >= HEADER_SIZE && InTable(ExportTable(t), exports)
    requires ExportEnd(t) == ExportTable(t) + EXPORT_SIZE * |exports| <= |t|
    requires |slots| == |exports| && FromFree(slots, free) && Jumps.Redirected(u, w, ExportTable(t), slots, |slots|)
    requires ChecksumsSet(crc, w, v, exports, exports, recompute)
    requires k < |t| && SlotsMiss(free, k) && !(ExportTable(t) <= k < ExportEnd(t))
    ensures |v| == |u| && v[k] == u[k]
  {
    hide Jumps.Redirected, ChecksumsSet, FromFree, SlotsMiss;
    SlotsMissByte(slots, free, k);
    forall i | 0 <= i < |exports|
      ensures !(exports[i].ref <= k < exports[i].ref + 8)
    {
      assert exports[i].ref == ExportAt(ExportTable(t), i);
    }
    ByteFinal(crc, u, w, v, ExportTable(t), exports, slots, recompute, k);
  }

  /** What the dev passes did is there in the final script. */
  lemma DevFinal(crc: Checksums.Crc32, s: bytes, t: bytes, u: bytes, w: bytes, v: bytes, free: seq<nat>,
                 slots: seq<Option<nat>>, imps: seq<nat>, strs: seq<nat>, exports: seq<GscExportData>,
                 recompute: bool, junk: nat)
    requires WellLaidOut(s, imps, strs, exports, recompute) && SameEvents(s, t, AllRecs(imps, strs))
    requires Prepared(t, imps, strs) && ExportTable(t) == ExportTable(s)
    requires Get16(t, EXPORT_COUNT) == Get16(s, EXPORT_COUNT)
    requires AfterDev(t, u, free, junk, true, imps, strs)
    requires |slots| == |exports| && FromFree(slots, free)
    requires Jumps.Redirected(u, w, ExportTable(s), slots, |slots|)
    requires ChecksumsSet(crc, w, v, exports, exports, recompute)
    ensures HEADER_SIZE <= |s| == |v| && DevDone(s, v, junk, free, imps, strs)
  {
    TableOf(s, imps, strs, exports, recompute);
    FinalLength(crc, u, w, v, ExportTable(s), exports, slots, recompute);
    AfterDevDone(t, u, free, junk, imps, strs);
    hide WellLaidOut, Prepared, AfterDev, Jumps.Redirected, ChecksumsSet, FromFree, SlotsMiss, DevDone, InTable, SlotsFree,
         OperandsClear;
    forall k: nat | k < |t| && SlotsMiss(free, k) && !(ExportTable(t) <= k < ExportEnd(t))
      ensures v[k] == u[k]
    {
      RecordByteFinal(crc, t, u, w, v, free, slots, exports, recompute, k);
    }
    DevDoneKept(t, u, v, free, junk, imps, strs);
    DevDoneSame(s, t, v, junk, free, imps, strs);
  }

  lemma AfterDevDone(t: bytes, u: bytes, free: seq<nat>, junk: nat, imps: seq<nat>, strs: seq<nat>)
    requires |t| >= HEADER_SIZE && AfterDev(t, u, free, junk, true, imps, strs)
    ensures |u| == |t| && DevDone(t, u, junk, free, imps, strs)
    ensures SlotsFree(|t|, ExportTable(t), Get16(t, EXPORT_COUNT), free)
    ensures forall k: nat :: OperandsClear(t, AllRecs(imps, strs), k, k + 1) ==> SlotsMiss(free, k)
  {
  }

  lemma DevDoneKept(t: bytes, u: bytes, v: bytes, free: seq<nat>, junk: nat, imps: seq<nat>, strs: seq<nat>)
    requires Prepared(t, imps, strs) && |t| == |u| == |v| >= HEADER_SIZE && DevDone(t, u, junk, free, imps, strs)
    requires SlotsFree(|t|, ExportTable(t), Get16(t, EXPORT_COUNT), free)
    requires forall k: nat :: OperandsClear(t, AllRecs(imps, strs), k, k + 1) ==> SlotsMiss(free, k)
    requires forall k: nat :: k < |t| && SlotsMiss(free, k) && !(ExportTable(t) <= k < ExportEnd(t)) ==> v[k] == u[k]
    ensures DevDone(t, v, junk, free, imps, strs)
  {
    hide Prepared, SlotsMiss, OperandsClear, SlotsFree, AllRecs, ExportTable, ExportEnd, Harvested, MarksLeft, Get16, Get32;
    PreparedFacts(t, imps, strs);
    forall k: nat | k < HEADER_SIZE
      ensures v[k] == u[k]
    {
      HeaderMissed(|t|, ExportTable(t), Get16(t, EXPORT_COUNT), free, k);
    }
    SameField(v, u, DEVBLOCK_STRING_OFFSET);
    TableCountKept(u, v);
    MarksKept(t, u, v, free, imps, strs);
    forall i | 0 <= i < |imps| && IsDevCall(t[imps[i] + 11])
      ensures Fits(t, imps[i], ImportRecord) && DevCallKilled(t, v, imps[i], junk)
    {
      forall k: nat | imps[i] <= k < RecordEnd(t, imps[i], ImportRecord)
        ensures v[k] == u[k]
      {
        ImportInBounds(t, imps, strs, i);
        ImportOffOperands(t, imps, strs, i, k);
      }
      KilledKept(t, u, v, imps[i], junk);
    }
    forall i | 0 <= i < |strs|
      ensures Fits(t, strs[i], StringRecord) && StringGone(t, v, imps, strs, strs[i])
    {
      StringInBounds(t, imps, strs, i);
      assert StringGone(t, u, imps, strs, strs[i]);
    }
  }

  lemma HeaderMissed(size: nat, table: nat, count: nat, free: seq<nat>, k: nat)
    requires SlotsFree(size, table, count, free) && k < HEADER_SIZE
    ensures SlotsMiss(free, k)
  {
  }

  lemma TableCountKept(u: bytes, v: bytes)
    requires |v| == |u| >= HEADER_SIZE && forall k: nat :: k < HEADER_SIZE ==> v[k] == u[k]
    ensures Get16(v, DEVBLOCK_STRING_COUNT) == Get16(u, DEVBLOCK_STRING_COUNT)
  {
  }

  lemma MarksKept(t: bytes, u: bytes, v: bytes, free: seq<nat>, imps: seq<nat>, strs: seq<nat>)
    requires Prepared(t, imps, strs) && |t| == |u| == |v| >= HEADER_SIZE && MarksLeft(t, u, AllRecs(imps, strs))
    requires forall k: nat :: OperandsClear(t, AllRecs(imps, strs), k, k + 1) ==> SlotsMiss(free, k)
    requires forall k: nat :: k < |t| && SlotsMiss(free, k) && !(ExportTable(t) <= k < ExportEnd(t)) ==> v[k] == u[k]
    ensures MarksLeft(t, v, AllRecs(imps, strs))
  {
    hide Layout, OperandLayout, DevStringWalk, RegionClear, OperandsClear, SlotsMiss, AllRecs, RecordEvents, Marks, MarkByte,
         Accepted, OnlyBy, ImportFenced, Get16, Get32;
    var rs := AllRecs(imps, strs);
    assert RegionClear(t, rs, ExportTable(t), ExportEnd(t));
    forall i, e, k: nat |
      0 <= i < |rs| && e in RecordEvents(t, rs[i]) && Accepted(t, e) && Marks(t, e, k) && OwnMark(t, rs, e, k)
      ensures k < |v| && v[k] == MarkByte(t, e, k)
    {
      MarkOutside(t, rs, i, e, k, ExportTable(t), ExportEnd(t));
    }
  }

  lemma ImportOffOperands(t: bytes, imps: seq<nat>, strs: seq<nat>, i: nat, k: nat)
    requires Prepared(t, imps, strs) && i < |imps| && Fits(t, imps[i], ImportRecord)
    requires imps[i] <= k < RecordEnd(t, imps[i], ImportRecord)
    ensures OperandsClear(t, AllRecs(imps, strs), k, k + 1)
  {
    assert ImportFenced(t, AllRecs(imps, strs), imps[i]);
    hide Prepared, AllRecs, OperandsClear;
    OperandsClearInside(t, AllRecs(imps, strs), imps[i], RecordEnd(t, imps[i], ImportRecord), k);
  }

  lemma KilledKept(t: bytes, u: bytes, v: bytes, p: nat, junk: nat)
    requires |t| == |u| == |v| && Fits(t, p, ImportRecord) && DevCallKilled(t, u, p, junk)
    requires forall k: nat :: p <= k < RecordEnd(t, p, ImportRecord) ==> v[k] == u[k]
    ensures DevCallKilled(t, v, p, junk)
  {
    hide Accepted, AssertHash;
    forall j: nat | j < Get16(t, p + 8)
      ensures Get32(v, p + IMPORT_SIZE + 4 * j) == Get32(u, p + IMPORT_SIZE + 4 * j)
    {
      hide Get16;
      SameField(v, u, p + IMPORT_SIZE + 4 * j);
    }
  }

  /** Told from a script with the same events, the same was done. */
  lemma DevDoneSame(s: bytes, t: bytes, v: bytes, junk: nat, freed: seq<nat>, imps: seq<nat>, strs: seq<nat>)
    requires SameEvents(s, t, AllRecs(imps, strs)) && |v| == |t| == |s| >= HEADER_SIZE
    requires DevDone(t, v, junk, freed, imps, strs)
    ensures DevDone(s, v, junk, freed, imps, strs)
  {
    hide Harvested, MarksLeft, RecordEvents, Accepted, Get16, Get32, OperandsClear, DevCallKilled, StringGone, RecordEnd;
    var rs := AllRecs(imps, strs);
    HarvestedSame(s, t, rs, junk, freed);
    MarksLeftSame(s, t, v, rs);
    forall i | 0 <= i < |imps|
      ensures Fits(s, imps[i], ImportRecord)
      ensures IsDevCall(s[imps[i] + 11]) ==> DevCallKilled(s, v, imps[i], junk)
    {
      assert rs[i] == Rec(imps[i], ImportRecord) && SameRecord(s, t, rs[i]);
      KilledSame(s, t, v, imps[i], junk);
    }
    forall i | 0 <= i < |strs|
      ensures Fits(s, strs[i], StringRecord) && StringGone(s, v, imps, strs, strs[i])
    {
      assert rs[|imps| + i] == Rec(strs[i], StringRecord) && SameRecord(s, t, rs[|imps| + i]);
      GoneSame(s, t, v, imps, strs, strs[i]);
    }
  }

  lemma GoneSame(s: bytes, t: bytes, v: bytes, imps: seq<nat>, strs: seq<nat>, p: nat)
    requires SameEvents(s, t, AllRecs(imps, strs)) && |v| == |t| == |s|
    requires Fits(s, p, StringRecord) && Fits(t, p, StringRecord) && SameRecord(s, t, Rec(p, StringRecord))
    requires StringGone(t, v, imps, strs, p)
    ensures StringGone(s, v, imps, strs, p)
  {
    hide SameEvents, OperandsClear, AllRecs;
    forall k: nat | p <= k < RecordEnd(s, p, StringRecord) && OperandsClear(s, AllRecs(imps, strs), k, k + 1)
      ensures v[k] == 0
    {
      OperandsClearSame(s, t, AllRecs(imps, strs), k, k + 1);
    }
  }

  lemma DevCallSame(s: bytes, t: bytes, p: nat)
    requires |t| == |s| && Fits(s, p, ImportRecord) && Fits(t, p, ImportRecord) && SameRecord(s, t, Rec(p, ImportRecord))
    ensures IsDevCall(s[p + 11]) <==> IsDevCall(t[p + 11])
    ensures Get16(s, p + 8) == Get16(t, p + 8)
    ensures forall j: nat :: IsDevCall(s[p + 11]) && j < Get16(s, p + 8) ==>
      && DevKillOf(s, p, j) == DevKillOf(t, p, j) && (Accepted(s, DevKillOf(s, p, j)) <==> Accepted(t, DevKillOf(s, p, j)))
  {
    hide Accepts, AssertHash, Le32, Get32;
    if IsDevCall(s[p + 11]) {
      ImportEvents(s, p);
    }
    if IsDevCall(t[p + 11]) {
      ImportEvents(t, p);
    }
    hide RecordEvents, DevKillOf;
    forall j: nat | IsDevCall(s[p + 11]) && j < Get16(s, p + 8)
      ensures DevKillOf(s, p, j) == DevKillOf(t, p, j)
      ensures Accepted(s, DevKillOf(s, p, j)) <==> Accepted(t, DevKillOf(s, p, j))
    {
      AcceptedSame(s, t, Rec(p, ImportRecord), RecordEvents(s, Rec(p, ImportRecord))[2 + j]);
    }
  }

  lemma KilledSame(s: bytes, t: bytes, v: bytes, p: nat, junk: nat)
    requires |v| == |t| == |s| && Fits(s, p, ImportRecord) && Fits(t, p, ImportRecord)
    requires SameRecord(s, t, Rec(p, ImportRecord))
    requires IsDevCall(t[p + 11]) ==> DevCallKilled(t, v, p, junk)
    ensures IsDevCall(s[p + 11]) ==> DevCallKilled(s, v, p, junk)
  {
    hide SameRecord, Accepted, AssertHash, DevKillOf, Get16;
    DevCallSame(s, t, p);
  }

  lemma FinalLength(crc: Checksums.Crc32, u: bytes, w: bytes, v: bytes, table: nat, exports: seq<GscExportData>,
                    slots: seq<Option<nat>>, recompute: bool)
    requires table + EXPORT_SIZE * |slots| <= |u| && Jumps.Redirected(u, w, table, slots, |slots|)
    requires ChecksumsSet(crc, w, v, exports, exports, recompute)
    ensures |v| == |u|
  {
  }

  lemma FlagsOfImportKept(s: bytes, t: bytes, refs: seq<nat>, exportNames: seq<NameLocated>,
                          ps: seq<nat>, importNames: seq<NameLocated>, rho: Renaming, i: nat)
    requires |exportNames| == |refs| && |importNames| == |ps| && TablesApart(|s|, refs, ps) && Bounded(rho)
    requires RenamedBy(s, t, refs, exportNames, ps, importNames, rho) && i < |ps|
    ensures |t| == |s| && ps[i] + IMPORT_SIZE <= |s| && t[ps[i] + 11] == s[ps[i] + 11]
    ensures ImportName(t, ps[i]) == Renamed(importNames[i], rho)
  {
    hide Bounded, ImportName, ExportName, Renamed;
    forall j | 0 <= j < |refs|
      ensures !(refs[j] + 8 <= ps[i] + 11 < refs[j] + 12)
    {
      assert refs[j] + EXPORT_SIZE <= ps[i] || ps[i] + IMPORT_SIZE <= refs[j];
    }
    forall j | 0 <= j < |ps|
      ensures !(ps[j] <= ps[i] + 11 < ps[j] + 4)
    {
      if j < i {
        assert ps[j] + IMPORT_SIZE <= ps[i];
      }
    }
    assert !NameByte(refs, ps, ps[i] + 11);
  }

  /** A byte no pass changes, up to the final script. */
  lemma KeptFinal(crc: Checksums.Crc32, s: bytes, t: bytes, u: bytes, w: bytes, v: bytes, free: seq<nat>,
                  slots: seq<Option<nat>>, imps: seq<nat>, strs: seq<nat>, exports: seq<GscExportData>,
                  recompute: bool, exportNames: seq<NameLocated>, importNames: seq<NameLocated>, rho: Renaming,
                  junk: nat, dev: bool, k: nat)
    requires WellLaidOut(s, imps, strs, exports, recompute)
    requires |exportNames| == |exports| && |importNames| == |imps| && Bounded(rho)
    requires TablesApart(|s|, Refs(exports), imps) && SameEvents(s, t, AllRecs(imps, strs))
    requires RenamedBy(s, t, Refs(exports), exportNames, imps, importNames, rho)
    requires Prepared(t, imps, strs) && ExportTable(t) == ExportTable(s)
    requires AfterDev(t, u, free, junk, dev, imps, strs)
    requires |slots| == |exports| && FromFree(slots, free)
    requires Jumps.Redirected(u, w, ExportTable(s), slots, |slots|)
    requires ChecksumsSet(crc, w, v, exports, exports, recompute) && KeptByte(s, imps, strs, exports, dev, k)
    ensures k < |s| == |v| && v[k] == s[k]
  {
    TableOf(s, imps, strs, exports, recompute);
    assert !TableField(imps, exports, k) && Untouched(s, imps, strs, dev, k);
    hide Prepared, Jumps.Redirected, ChecksumsSet, WellLaidOut, TablesApart, AfterDev, Spared, RenamedBy,
         SameEvents, KeptByte, SlotsMiss, FromFree;
    EventsSize(s, t, AllRecs(imps, strs));
    RenamingKeepsByte(s, t, imps, strs, exports, recompute, exportNames, importNames, rho, k);
    if dev {
      SparedSame(s, t, imps, strs, k);
    }
    PreparedFacts(t, imps, strs);
    AfterDevByte(t, u, free, junk, dev, imps, strs, k);
    SlotsMissByte(slots, free, k);
    ByteFinal(crc, u, w, v, ExportTable(s), exports, slots, recompute, k);
  }

  // ----- What no pass changes

  lemma LiveIsNoName(s: bytes, imps: seq<nat>, strs: seq<nat>, exports: seq<GscExportData>, recompute: bool, k: nat)
    requires WellLaidOut(s, imps, strs, exports, recompute) && LiveByte(s, imps, strs, k)
    ensures forall j :: 0 <= j < |exports| ==> !(exports[j].ref + 8 <= k < exports[j].ref + 12)
    ensures forall i :: 0 <= i < |imps| ==> !(imps[i] <= k < imps[i] + 4)
  {
    var rs := AllRecs(imps, strs);
    forall j | 0 <= j < |exports|
      ensures !(exports[j].ref + 8 <= k < exports[j].ref + 12)
    {
      assert exports[j].ref + EXPORT_SIZE <= ExportEnd(s);
    }
    forall i | 0 <= i < |imps|
      ensures !(imps[i] <= k < imps[i] + 4)
    {
      assert rs[i] == Rec(imps[i], ImportRecord) && ClearOf(s, rs[i], k);
    }
  }

  /** A live byte is one no pass changes. */
  lemma LiveIsKept(s: bytes, imps: seq<nat>, strs: seq<nat>, exports: seq<GscExportData>, recompute: bool, dev: bool, k: nat)
    requires WellLaidOut(s, imps, strs, exports, recompute) && |s| >= HEADER_SIZE && LiveByte(s, imps, strs, k)
    ensures KeptByte(s, imps, strs, exports, dev, k)
  {
    LiveIsSpared(s, imps, strs, k);
    LiveIsNoName(s, imps, strs, exports, recompute, k);
    assert k < |s|;
    TableOf(s, imps, strs, exports, recompute);
    hide Prepared, Spared, Fenced, ImportWalk;
    forall i | 0 <= i < |exports|
      ensures !(exports[i].ref <= k < exports[i].ref + 12)
    {
      assert exports[i].ref == ExportAt(ExportTable(s), i);
    }
  }

  /** So is every header byte but the dev string table's own fields. */
  lemma HeaderIsKept(s: bytes, imps: seq<nat>, strs: seq<nat>, exports: seq<GscExportData>, recompute: bool, dev: bool, k: nat)
    requires WellLaidOut(s, imps, strs, exports, recompute) && k < HEADER_SIZE && k !in {28, 29, 30, 31, 66, 67}
    ensures KeptByte(s, imps, strs, exports, dev, k)
  {
    PreparedFacts(s, imps, strs);
    HeaderSpared(s, imps, strs, k);
    hide Spared;
    forall i | 0 <= i < |exports|
      ensures !(exports[i].ref <= k < exports[i].ref + 12)
    {
      ExportsBesideHeader(s, imps, strs, exports, recompute, k);
    }
    hide WellLaidOut, Prepared;
    forall i | 0 <= i < |imps|
      ensures !(imps[i] <= k < imps[i] + 4)
    {
      ImportsBesideHeader(s, imps, strs, k);
    }
  }

  /** So are an import's namespace, address count and flags, and everything past
      the name of an import that is not killed. */
  lemma ImportIsKept(s: bytes, imps: seq<nat>, strs: seq<nat>, exports: seq<GscExportData>, recompute: bool, dev: bool,
                     i: nat, k: nat)
    requires WellLaidOut(s, imps, strs, exports, recompute) && i < |imps|
    requires imps[i] + IMPORT_SIZE <= |s| && imps[i] + 4 <= k < RecordEnd(s, imps[i], ImportRecord)
    requires k in OwnBytes(imps[i]) || !(dev && IsDevCall(s[imps[i] + 11]))
    ensures KeptByte(s, imps, strs, exports, dev, k)
  {
    TableOf(s, imps, strs, exports, recompute);
    assert |s| >= HEADER_SIZE;
    ImportInBounds(s, imps, strs, i);
    hide Prepared;
    assert Untouched(s, imps, strs, dev, k) by {
      if dev {
        ImportByteSpared(s, imps, strs, i, k);
      }
    }
    forall j | 0 <= j < |exports|
      ensures !(exports[j].ref <= k < exports[j].ref + 12)
    {
      assert exports[j].ref == ExportAt(ExportTable(s), j);
    }
    hide WellLaidOut, Untouched, ImportWalk;
    forall j | 0 <= j < |imps|
      ensures !(imps[j] <= k < imps[j] + 4)
    {
      ImportNameElsewhere(s, imps, strs, exports, recompute, i, j, k);
    }
  }

  lemma ImportNameElsewhere(s: bytes, imps: seq<nat>, strs: seq<nat>, exports: seq<GscExportData>, recompute: bool,
                            i: nat, j: nat, k: nat)
    requires WellLaidOut(s, imps, strs, exports, recompute) && i < |imps| && j < |imps|
    requires imps[i] + IMPORT_SIZE <= |s| && imps[i] + 4 <= k < RecordEnd(s, imps[i], ImportRecord)
    ensures !(imps[j] <= k < imps[j] + 4)
  {
    ImportInBounds(s, imps, strs, i);
    var rs := AllRecs(imps, strs);
    assert rs[i] == Rec(imps[i], ImportRecord) && InRecord(s, rs[i], k);
    if imps[j] <= k < imps[j] + 4 {
      NameByteInImport(s, imps, strs, i, j, k);
      assert false;
    }
  }

  lemma ExportPlace(s: bytes, imps: seq<nat>, strs: seq<nat>, exports: seq<GscExportData>, recompute: bool, i: nat)
    requires WellLaidOut(s, imps, strs, exports, recompute) && i < |exports|
    ensures |s| >= HEADER_SIZE && ExportTable(s) >= HEADER_SIZE
    ensures Fenced(s, AllRecs(imps, strs), ExportTable(s), ExportEnd(s))
    ensures exports[i].ref == ExportAt(ExportTable(s), i)
    ensures ExportTable(s) <= exports[i].ref && exports[i].ref + EXPORT_SIZE <= ExportEnd(s) <= |s|
  {
    hide Fenced, Layout, OperandLayout, DevStringWalk, ImportFenced, ImportWalk;
    TableOf(s, imps, strs, exports, recompute);
  }

  lemma ImportNoExport(s: bytes, imps: seq<nat>, strs: seq<nat>, exports: seq<GscExportData>, recompute: bool, j: nat,
                       k: nat)
    requires WellLaidOut(s, imps, strs, exports, recompute) && j < |imps|
    requires |s| >= HEADER_SIZE && ExportTable(s) <= k < ExportEnd(s)
    ensures !(imps[j] <= k < imps[j] + 4)
  {
    ImportInBounds(s, imps, strs, j);
  }

  lemma OtherFields(table: nat, i: nat, j: nat, k: nat)
    requires ExportAt(table, i) + 12 <= k < ExportAt(table, i) + EXPORT_SIZE
    ensures !(ExportAt(table, j) <= k < ExportAt(table, j) + 12)
  {
  }

  /** So are an export's namespace, parameter count and flags, and its padding. */
  lemma ExportIsKept(s: bytes, imps: seq<nat>, strs: seq<nat>, exports: seq<GscExportData>, recompute: bool, dev: bool,
                     i: nat, k: nat)
    requires WellLaidOut(s, imps, strs, exports, recompute) && i < |exports|
    requires exports[i].ref + 12 <= k < exports[i].ref + EXPORT_SIZE
    ensures KeptByte(s, imps, strs, exports, dev, k)
  {
    hide WellLaidOut, Fenced, Spared, ExportTable, ExportEnd, ExportAt;
    ExportPlace(s, imps, strs, exports, recompute, i);
    FencedIsSpared(s, imps, strs, ExportTable(s), ExportEnd(s), k);
    forall j | 0 <= j < |exports|
      ensures !(exports[j].ref <= k < exports[j].ref + 12)
    {
      ExportPlace(s, imps, strs, exports, recompute, j);
      OtherFields(ExportTable(s), i, j, k);
    }
    forall j | 0 <= j < |imps|
      ensures !(imps[j] <= k < imps[j] + 4)
    {
      ImportNoExport(s, imps, strs, exports, recompute, j, k);
    }
  }

  // ----- What the run asks of its first script

  function NamesOf(s: bytes, exports: seq<GscExportData>): (r: seq<NameLocated>)
    requires forall i :: 0 <= i < |exports| ==> exports[i].ref + EXPORT_SIZE <= |s|
    ensures |r| == |exports| && forall i :: 0 <= i < |r| ==> r[i] == ExportName(s, exports[i].ref)
  {
    seq(|exports|, i requires 0 <= i < |exports| => ExportName(s, exports[i].ref))
  }

  lemma NamesAreCurrent(s: bytes, exports: seq<GscExportData>, exportNames: seq<NameLocated>,
                        imps: seq<nat>, importNames: seq<NameLocated>)
    requires TablesApart(|s|, Refs(exports), imps)
    requires forall i :: 0 <= i < |exports| ==> exports[i].ref + EXPORT_SIZE <= |s|
    requires exportNames == NamesOf(s, exports) && ImportsAre(s, importNames, imps)
    ensures |importNames| == |imps| && RenamedBy(s, s, Refs(exports), exportNames, imps, importNames, map[])
  {
  }

  lemma RunStart(s: bytes, imps: seq<nat>, strs: seq<nat>, exports: seq<GscExportData>, recompute: bool,
                 exportNames: seq<NameLocated>, importNames: seq<NameLocated>)
    requires WellLaidOut(s, imps, strs, exports, recompute)
    requires exportNames == NamesOf(s, exports) && ImportsAre(s, importNames, imps)
    ensures HEADER_SIZE <= |s| && |exports| == Get16(s, EXPORT_COUNT)
    ensures |exportNames| == |exports| && |importNames| == |imps|
    ensures TablesApart(|s|, Refs(exports), imps) && ChecksumLayout(|s|, exports, recompute)
    ensures RenamedBy(s, s, Refs(exports), exportNames, imps, importNames, map[])
  {
    TablesAreApart(s, imps, strs, exports, recompute);
    TableOf(s, imps, strs, exports, recompute);
    NamesAreCurrent(s, exports, exportNames, imps, importNames);
  }

  lemma NoSlots(s: bytes, table: nat, slots: seq<Option<nat>>)
    requires HEADER_SIZE <= table && table + EXPORT_SIZE * |slots| <= |s|
    requires forall i :: 0 <= i < |slots| ==> slots[i].None?
    ensures Jumps.SlotsClear(|s|, table, |slots|, slots) && Jumps.Redirected(s, s, table, slots, |slots|)
  {
  }

  lemma SlotsWereFree(size: nat, table: nat, count: nat, free: seq<nat>, dests: seq<nat>)
    requires SlotsFree(size, table, count, free)
    ensures FromFree(Trampolines.Allocate(Trampolines.Sorted(free), dests).slots, free)
  {
    forall i | 0 <= i < |dests|
      ensures var a := Trampolines.Allocate(Trampolines.Sorted(free), dests);
        a.slots[i].Some? ==> a.slots[i].value in free
    {
      SlotWasFree(free, dests, i);
    }
  }

  // ----- The layout is one that scripts have

  /** A script of 148 bytes with one export at 72, one import at 92 that is a dev
      call with one operand at 120, its empty name at 130 and a function with one
      local variable at 132. */
  ghost predicate Sample(s: bytes) {
    && |s| == 148
    && Get32(s, EXPORT_OFFSET) == 72 && Get16(s, EXPORT_COUNT) == 1
    && Get32(s, IMPORT_OFFSET) == 92 && Get16(s, IMPORT_COUNT) == 1
    && Get16(s, DEVBLOCK_STRING_COUNT) == 0
    && Get16(s, STRING_COUNT) == 0 && s[INCLUDE_COUNT] == 0 && Get32(s, INCLUDE_OFFSET) == 0
    && Get32(s, NAME_OFFSET) == 130 && s[130] == 0
    && Get16(s, 100) == 1 && s[103] == 0x10 && Get32(s, 104) == 116
    && Get16(s, 132) == 0x3ebc && s[134] == 1 && s[140] == 0
  }

  lemma SampleEvents(s: bytes)
    requires Sample(s)
    ensures Fits(s, 92, ImportRecord) && RecordEnd(s, 92, ImportRecord) == 108
    ensures RecordEvents(s, Rec(92, ImportRecord))
      == [Write(92, Le32(AssertHash())), Write(102, [1]), Kill(104, 8, 0)]
  {
    hide AssertHash, Le32;
    var es := RecordEvents(s, Rec(92, ImportRecord));
    assert Kills(104, 1, 8, 0) == [Kill(104, 8, 0)];
  }

  lemma SampleOperand(s: bytes)
    requires Sample(s)
    ensures Accepted(s, Kill(104, 8, 0)) && OperandOf(s, Kill(104, 8, 0)) == 120
    ensures forall k :: Marks(s, Kill(104, 8, 0), k) ==> 114 <= k < 116 || 128 <= k < 130
  {
  }

  /** Its one kill is the only event of the sample that is accepted. */
  lemma SampleAccepted(s: bytes, e: Event)
    requires Sample(s) && Fits(s, 92, ImportRecord) && e in RecordEvents(s, Rec(92, ImportRecord)) && Accepted(s, e)
    ensures e == Kill(104, 8, 0)
  {
    hide Accepts, RecordEvents;
    SampleEvents(s);
  }

  lemma SampleLayout(s: bytes, rs: seq<Rec>)
    requires Sample(s) && rs == [Rec(92, ImportRecord)]
    ensures Layout(s, rs)
  {
    hide Marks, Accepts, RecordEvents, Get16, Get32;
    SampleEvents(s);
    SampleOperand(s);
    var es := RecordEvents(s, rs[0]);
    forall i, k | 0 <= i < |es| && Accepted(s, es[i]) && InRecord(s, rs[0], k)
      ensures !Marks(s, es[i], k)
    {
      SampleAccepted(s, es[i]);
    }
    assert MarksAvoid(s, rs[0], rs[0]);
  }

  lemma SampleOperands(s: bytes, rs: seq<Rec>)
    requires Sample(s) && rs == [Rec(92, ImportRecord)]
    ensures OperandLayout(s, rs)
  {
    SampleEvents(s);
    hide RecordEvents, Accepts, OperandOf, Sample, Get32;
    var es := RecordEvents(s, rs[0]);
    forall i, a, b | 0 <= i < |rs| && 0 <= a < b < |RecordEvents(s, rs[i])|
      ensures !OperandsMeet(s, RecordEvents(s, rs[i])[a], RecordEvents(s, rs[i])[b])
    {
      SampleWrite(s, es, a, b);
    }
  }

  lemma SampleWrite(s: bytes, es: seq<Event>, a: nat, b: nat)
    requires es == [Write(92, Le32(AssertHash())), Write(102, [1]), Kill(104, 8, 0)] && a < b < |es|
    ensures !OperandsMeet(s, es[a], es[b])
  {
    assert es[a].Write?;
  }

  lemma SampleFenced(s: bytes, rs: seq<Rec>, lo: nat, hi: nat)
    requires Sample(s) && rs == [Rec(92, ImportRecord)] && (hi <= 92 || (92 <= lo && hi <= 108) || 130 <= lo)
    ensures OperandsClear(s, rs, lo, hi)
    ensures hi <= 92 || 130 <= lo ==> Fenced(s, rs, lo, hi)
  {
    hide Marks, Accepts, RecordEvents, Get16, Get32;
    SampleEvents(s);
    SampleOperand(s);
    var es := RecordEvents(s, rs[0]);
    forall e | e in es && Accepted(s, e)
      ensures e == Kill(104, 8, 0)
    {
      SampleAccepted(s, e);
    }
    if hi <= 92 || 130 <= lo {
      forall k | lo <= k < hi
        ensures ClearOf(s, rs[0], k)
      {
      }
    }
  }

  lemma SampleWalks(s: bytes)
    requires Sample(s)
    ensures DevStringWalk(s) == Some([]) && ImportWalk(s) == Some([92])
  {
    SampleEvents(s);
    hide RecordEnd, Get16, Get32, Walk;
    WalkIsTable(s, 92, 1, ImportRecord, [92]);
    WalkIsTable(s, Get32(s, DEVBLOCK_STRING_OFFSET), 0, StringRecord, []);
  }

  /** The layout asked for is met, by a script with an operand that is killed. */
  lemma SampleIsWellLaidOut(s: bytes, recompute: bool, len: nat)
    requires Sample(s) && 1 <= len <= 16
    ensures WellLaidOut(s, [92], [], [GscExportData(72, 132, len)], recompute)
    ensures Accepted(s, Kill(104, 8, 0)) && OperandOf(s, Kill(104, 8, 0)) == 120
  {
    hide Layout, OperandLayout, Fenced, OperandsClear, RecordEvents, DevStringWalk, ImportWalk, Accepted, OperandOf,
         Get16, Get32;
    SampleEvents(s);
    SampleOperand(s);
    var rs := AllRecs([92], []);
    assert rs == [Rec(92, ImportRecord)];
    SampleLayout(s, rs);
    SampleOperands(s, rs);
    SampleFenced(s, rs, 0, HEADER_SIZE);
    SampleFenced(s, rs, 72, 92);
    SampleFenced(s, rs, 92, 108);
    SampleWalks(s);
  }

  lemma SampleExists() returns (s: bytes)
    ensures Sample(s)
  {
    s := Zeros(148)[32 := 72][52 := 130][36 := 92][58 := 1][60 := 1][100 := 1][103 := 0x10][104 := 116];
    s := s[132 := 0xbc][133 := 0x3e][134 := 1];
  }
}
