/** The script obfuscator (gsc_obfuscator.cpp, gsc_obfuscator.hpp): one script
    buffer rewritten in place, two name-indexed tables, the free list of
    trampoline slots and the shared junk slot. */
module Obfuscator {
  import opened Bytes
  import opened Results
  import opened GscFormat
  import opened Grouping
  import opened DevKill
  import opened DevTables
  import Bits
  import HashMini
  import ByteBuffers
  import Search
  import HashRewrite
  import PrivateNames
  import PrivateTexts
  import PrivateRun
  import LocalRun
  import HashRun
  import Trampolines
  import Jumps
  import opened Linking
  import opened PrivateExports
  import opened ScriptTables
  import opened ChecksumPass
  import opened SlotPass
  import opened ScriptLayout
  import opened DevRun
  import opened WholeRun
  import opened LocalNames
  import Checksums

  datatype Options = Options(
    noRemoveLocals: bool, noRemovePrivateExports: bool, noDebugKill: bool, noTrampoline: bool, recomputeCRC: bool)

  class GscObfuscator {
    const script: array<byte>
    const opt: Options
    const crc: Checksums.Crc32
    var exportsMap: map<NameLocated, seq<GscExportData>>
    var importsMap: map<NameLocated, seq<nat>>
    var trampolineFreeLocations: seq<nat>
    var junkLocation: nat

    /** The tables as they were read: names and records in table order. */
    ghost var exportNames: seq<NameLocated>
    ghost var exports: seq<GscExportData>
    ghost var importNames: seq<NameLocated>
    ghost var imports: seq<nat>

    ghost predicate Tables()
      reads this
    {
      && |exportNames| == |exports| && exportsMap == Collect(exportNames, exports)
      && |importNames| == |imports| && importsMap == Collect(importNames, imports)
    }

    ghost predicate Small()
      reads this
    {
      script.Length < 0x1_0000_0000 && junkLocation < 0x1_0000_0000
    }

    ghost function Dev(): State
      reads this, script
    {
      State(script[..], trampolineFreeLocations, junkLocation)
    }

    /** What the run left of the slots, under its options. */
    ghost predicate Uses(g: SlotUse)
      reads this
    {
      g.junk == junkLocation && g.left == trampolineFreeLocations && g.on == !opt.noTrampoline
    }

    constructor (script: array<byte>, opt: Options, crc: Checksums.Crc32)
      ensures this.script == script && this.opt == opt && this.crc == crc
      ensures Tables() && exports == [] && imports == []
      ensures trampolineFreeLocations == [] && junkLocation == 0
    {
      this.script, this.opt, this.crc := script, opt, crc;
      exportsMap, importsMap := map[], map[];
      trampolineFreeLocations, junkLocation := [], 0;
      exportNames, exports, importNames, imports := [], [], [], [];
    }

    /** The checks of the C++ constructor and its reading of both tables. */
    method Load() returns (ok: bool)
      requires exportsMap == map[] && importsMap == map[]
      modifies this`exportsMap, this`importsMap, this`exportNames, this`exports, this`importNames, this`imports
      ensures ok <==> Loadable(script[..])
      ensures ok ==> Tables()
      ensures ok ==> ExportsAre(crc, script[..], Get16(script[..], EXPORT_COUNT), exportNames, exports)
      ensures ok ==> ImportWalk(script[..]) == Some(imports) && ImportsAre(script[..], importNames, imports)
    {
      if script.Length < HEADER_SIZE {
        return false;
      }
      if Get64(script[..], 0) != VMI_T7_1C {
        return false;
      }
      ok := ReadExports();
      if !ok {
        return;
      }
      ok := ReadImports();
    }

    method ReadName(space: nat, name: nat) returns (nl: NameLocated)
      requires space + 4 <= script.Length && name + 4 <= script.Length
      ensures nl == NameLocated(Get32(script[..], space), Get32(script[..], name))
    {
      var a := Read32(script, space);
      var b := Read32(script, name);
      nl := NameLocated(a, b);
    }

    method ReadExports() returns (ok: bool)
      requires exportsMap == map[] && script.Length >= HEADER_SIZE
      modifies this`exportsMap, this`exportNames, this`exports
      ensures ok <==> ExportsFit(script[..])
      ensures ok ==> ExportsAre(crc, script[..], Get16(script[..], EXPORT_COUNT), exportNames, exports)
      ensures ok ==> exportsMap == Collect(exportNames, exports)
    {
      hide Collect, ExportsAre, Add, Get16, Get32;
      ghost var s := script[..];
      var table := Read32(script, EXPORT_OFFSET);
      var count := Read16(script, EXPORT_COUNT);
      ghost var names: seq<NameLocated>, datas: seq<GscExportData> := [], [];
      var m: map<NameLocated, seq<GscExportData>> := map[];
      if count != 0 && table + EXPORT_SIZE * count > script.Length {
        return false;
      }
      NoExportsYet(crc, s);
      for i := 0 to count
        invariant |names| == |datas| && ExportsAre(crc, s, i, names, datas)
        invariant m == Collect(names, datas)
        invariant forall j :: 0 <= j < i ==> CodeFits(s, ExportAt(table, j))
      {
        var nl, data;
        ok, nl, data := ReadExport(ExportAt(table, i));
        if !ok {
          return;
        }
        ExportsOneMore(crc, s, i, names, datas);
        CollectOneMore(names, datas, nl, data);
        m := Add(m, nl, data);
        names, datas := names + [nl], datas + [data];
      }
      exportNames, exports, exportsMap := names, datas, m;
      return true;
    }

    /** One export record: its name, and its code with the length its checksum covers. */
    method ReadExport(e: nat) returns (ok: bool, nl: NameLocated, data: GscExportData)
      requires e + EXPORT_SIZE <= script.Length
      ensures ok <==> CodeFits(script[..], e)
      ensures ok ==> nl == ExportName(script[..], e) && data == ExportData(crc, script[..], e)
    {
      var bc := Read32(script, e + 4);
      nl := ReadName(e + 12, e + 8);
      data := GscExportData(e, bc, 0);
      AlignedIsAlignUp(bc, 2);
      if Bits.Aligned(bc, 2) + 4 > script.Length {
        return false, nl, data;
      }
      var want := Read32(script, e);
      var len := Checksums.FindExportSizeByCrc(crc, script, bc, want);
      return true, nl, GscExportData(e, bc, len);
    }

    /** One import record: its name and where the next one starts. A header that
        runs past the end is refused here; the program reads its count first, and
        then refuses where the next record starts, whatever the count is. */
    method ReadImport(p: nat) returns (ok: bool, nl: NameLocated, next: nat)
      ensures ok <==> Fits(script[..], p, ImportRecord)
      ensures ok ==> nl == ImportName(script[..], p) && next == RecordEnd(script[..], p, ImportRecord)
    {
      nl, next := NameLocated(0, 0), p;
      if p + IMPORT_SIZE > script.Length {
        return false, nl, next;
      }
      var n := Read16(script, p + 8);
      next := p + IMPORT_SIZE + 4 * n as int;
      if next > script.Length {
        return false, nl, next;
      }
      nl := ReadName(p + 4, p);
      return true, nl, next;
    }

    method ReadImports() returns (ok: bool)
      requires importsMap == map[] && script.Length >= HEADER_SIZE
      modifies this`importsMap, this`importNames, this`imports
      ensures ok <==> ImportWalk(script[..]).Some?
      ensures ok ==> ImportWalk(script[..]) == Some(imports) && ImportsAre(script[..], importNames, imports)
      ensures ok ==> importsMap == Collect(importNames, imports)
    {
      ghost var s := script[..];
      var p: nat := Read32(script, IMPORT_OFFSET);
      var count := Read16(script, IMPORT_COUNT);
      ghost var names: seq<NameLocated>, ps: seq<nat> := [], [];
      var m: map<NameLocated, seq<nat>> := map[];
      hide Collect, Walk, Prepend;
      PrependNothing(ImportWalk(s));
      for i := 0 to count
        invariant ImportsAre(s, names, ps)
        invariant m == Collect(names, ps)
        invariant ImportWalk(s) == Prepend(ps, Walk(s, p, count - i, ImportRecord))
      {
        var nl, next;
        ok, nl, next := ReadImport(p);
        if !ok {
          return;
        }
        ImportsOneMore(s, names, ps, p, count - i);
        CollectOneMore(names, ps, nl, p);
        m := Add(m, nl, p);
        names, ps := names + [nl], ps + [p];
        p := next;
      }
      PrependNothing(Some(ps));
      importNames, imports, importsMap := names, ps, m;
      return true;
    }

    /** The tables name what the records in the script name. */
    ghost predicate NamesCurrent(s: bytes)
      reads this
    {
      && |exportNames| == |exports| && |importNames| == |imports|
      && TablesApart(|s|, Refs(exports), imports)
      && RenamedBy(s, s, Refs(exports), exportNames, imports, importNames, map[])
    }

    /** Gives the private single exports the names 1..n, in some order of the
        export table, and renames the imports filed under the same name. */
    method KillPrivateExports() returns (ghost rho: Renaming)
      requires Tables() && NamesCurrent(script[..]) && |exports| < NAME_LIMIT
      modifies script
      ensures Numbering(rho)
      ensures forall nl :: nl in rho <==> nl in exportsMap && PrivateSingle(exportsMap, old(script[..]), nl)
      ensures RenamedBy(old(script[..]), script[..], Refs(exports), exportNames, imports, importNames, rho)
    {
      ghost var s := script[..];
      CollectSize(exportNames, exports);
      rho := map[];
      var privateCount := 0;
      var keys := exportsMap.Keys;
      while keys != {}
        invariant keys <= exportsMap.Keys && privateCount == |rho|
        invariant Numbered(exportsMap, s, keys, rho)
        invariant RenamedBy(s, script[..], Refs(exports), exportNames, imports, importNames, rho)
        decreases |keys|
      {
        var nl :| nl in keys;
        NumberStep(exportsMap, s, keys, nl, rho);
        keys := keys - {nl};
        var renamed := KillPrivateExport(nl, privateCount + 1, s, rho);
        if renamed {
          privateCount := privateCount + 1;
          rho := rho[nl := privateCount];
        }
      }
    }

    /** The loop body for one name of the export table. */
    method KillPrivateExport(nl: NameLocated, name: u32, ghost s: bytes, ghost rho: Renaming) returns (renamed: bool)
      requires Tables() && nl in exportsMap && nl !in rho && Bounded(rho)
      requires TablesApart(|s|, Refs(exports), imports)
      requires RenamedBy(s, script[..], Refs(exports), exportNames, imports, importNames, rho)
      modifies script
      ensures renamed <==> PrivateSingle(exportsMap, s, nl)
      ensures !renamed ==> script[..] == old(script[..])
      ensures renamed ==> Bounded(rho[nl := name])
      ensures renamed ==>
        RenamedBy(s, script[..], Refs(exports), exportNames, imports, importNames, rho[nl := name])
    {
      hide RenamedBy, TablesApart, Collect, WriteNames, IsPrivate, PrivateSingle;
      var exps := exportsMap[nl];
      if |exps| != 1 {
        SingleByCount(exportsMap, s, nl);
        return false;
      }
      var e := exps[0].ref;
      ghost var t, refs := script[..], Refs(exports);
      ghost var x := ExportFacts(exportNames, exports, imports, |s|, nl);
      FlagKept(s, t, refs, exportNames, imports, importNames, rho, x);
      var flags := script[e + 17];
      PrivateByFlags(exportsMap, s, nl, flags);
      if !IsPrivate(flags) {
        return false;
      }
      ImportFacts(exports, importNames, imports, |s|, nl);
      var group := if nl in importsMap then importsMap[nl] else [];
      RenameRecords(e, group, name);
      RenameOne(s, t, script[..], refs, exportNames, imports, importNames, rho, nl, x, group, name);
      return true;
    }

    /** Writes a name into one export and a group of imports. */
    method RenameRecords(e: nat, group: seq<nat>, name: u32)
      requires e + EXPORT_SIZE <= script.Length
      requires forall i :: 0 <= i < |group| ==> group[i] + 4 <= script.Length
      modifies script
      ensures script[..] == WriteNames(old(script[..]), e, group, name)
    {
      Write32(script, e + 8, name);
      RenameImports(group, name);
    }

    method RenameImports(group: seq<nat>, name: u32)
      requires forall i :: 0 <= i < |group| ==> group[i] + 4 <= script.Length
      modifies script
      ensures script[..] == PutNames(old(script[..]), group, name)
    {
      for i := 0 to |group|
        invariant script[..] == PutNames(old(script[..]), group[..i], name)
      {
        assert group[..i + 1][..i] == group[..i];
        Write32(script, group[i], name);
      }
      assert group[..|group|] == group;
    }

    /** A location aligned relative to the script. */
    function Aligned(loc: nat, size: nat): nat
      requires 1 <= size <= Bits.WORD
    {
      Bits.Aligned(loc, size)
    }

    /** The slots of an unused operand: the first ever becomes the junk slot. */
    method FreeOperand(bc: nat, len: nat)
      modifies this`trampolineFreeLocations, this`junkLocation
      ensures (trampolineFreeLocations, junkLocation)
           == Gather(Chunks(bc, len), old(trampolineFreeLocations), old(junkLocation))
    {
      ghost var chunks := Chunks(bc, len);
      for i := 0 to len / TRAMPOLINE_SIZE
        invariant Gather(chunks[i..], trampolineFreeLocations, junkLocation)
               == Gather(chunks, old(trampolineFreeLocations), old(junkLocation))
      {
        var rloc := bc + TRAMPOLINE_SIZE * i;
        assert chunks[i..][0] == rloc && chunks[i..][1..] == chunks[i + 1..];
        if junkLocation == 0 {
          junkLocation := rloc;
        } else if junkLocation != rloc {
          trampolineFreeLocations := trampolineFreeLocations + [rloc];
        }
      }
      assert chunks[len / TRAMPOLINE_SIZE..] == [];
    }

    method KillDevByteCodeOp(at: nat, len: nat, delta: nat)
      requires Small() && at + 4 <= script.Length && len in {4, 8} && delta <= 1
      modifies this`trampolineFreeLocations, this`junkLocation, script
      ensures Small()
      ensures opt.noDebugKill ==> Dev() == old(Dev())
      ensures !opt.noDebugKill ==> Dev() == Apply(old(Dev()), Kill(at, len, delta))
    {
      hide Gather, MarkKilled, Operand, AlignUp, Apply;
      if opt.noDebugKill {
        return;
      }
      ghost var was := Dev();
      var floc := Read32(script, at);
      OperandAlignment(floc, len, delta, script.Length);
      var bc := Aligned(floc + delta, len);
      var end := Aligned(bc + len, 2);
      if floc < 2 + delta || end + 2 > script.Length {
        KillRejected(was, at, len, delta);
        return;
      }
      OperandBounds(script.Length, floc, len, delta);
      GatherBound(Chunks(bc, len), was.free, was.junk, script.Length);
      FreeOperand(bc, len);
      MarkDead(at, floc, end);
      KillAccepted(was, at, len, delta, Dev());
    }

    method Overwrite(at: nat, data: bytes)
      requires Small() && at + |data| <= script.Length
      modifies script
      ensures Dev() == Apply(old(Dev()), Write(at, data))
    {
      ghost var s := script[..];
      forall i | 0 <= i < |data| {
        script[at + i] := data[i];
      }
      assert script[..] == Over(s, at, data);
    }

    /** The loop body of KillDevImports for one import record. */
    method KillDevImport(p: nat, ghost st: State, ghost done: seq<Rec>)
      requires Small() && !opt.noDebugKill && st.junk < 0x1_0000_0000 && |st.script| == script.Length
      requires Layout(st.script, done + [Rec(p, ImportRecord)]) && AllFit(st.script, done)
      requires Fits(st.script, p, ImportRecord)
      requires Dev() == Run(st, PassEvents(st.script, done))
      modifies this`trampolineFreeLocations, this`junkLocation, script
      ensures Small() && AllFit(st.script, done + [Rec(p, ImportRecord)])
      ensures Dev() == Run(st, PassEvents(st.script, done + [Rec(p, ImportRecord)]))
    {
      hide PassEvents, RecordEvents, Apply, Run, Layout, AssertHash, IsMethod, IsDevCall;
      ghost var s, r := st.script, Rec(p, ImportRecord);
      ImportHeader(st, done, r, 0);
      ProgressStarts(s, done, r);
      LayoutFits(s, done + [r]);
      ProgressEnds(s, done, r);
      if !IsDevCall(script[p + 11]) {
        NoEvents(s, p);
        return;
      }
      ImportEvents(s, p);
      ProgressStep(st, done, r, 0);
      Overwrite(p, Le32(AssertHash()));
      ProgressStep(st, done, r, 1);
      Overwrite(p + 10, [1]);
      ImportHeader(st, done, r, 2);
      var delta := if IsMethod(script[p + 11]) then 1 else 0;
      var n := Read16(script, p + 8);
      var j: nat := 0;
      while j < n
        invariant 0 <= j <= n == Get16(s, p + 8)
        invariant Small() && Dev() == Run(st, Progress(s, done, r, 2 + j))
      {
        ProgressStep(st, done, r, 2 + j);
        KillDevByteCodeOp(p + IMPORT_SIZE + 4 * j, 8, delta);
        j := j + 1;
        ImportHeader(st, done, r, 2 + j);
        n := Read16(script, p + 8);
      }
    }

    /** Every import record, group by group in some order of the names. */
    method KillDevImports() returns (ghost seen: seq<nat>)
      requires Small() && Tables() && !opt.noDebugKill
      requires Layout(script[..], Recs(imports, ImportRecord))
      modifies this`trampolineFreeLocations, this`junkLocation, script
      ensures Small() && multiset(seen) == multiset(imports)
      ensures AllFit(old(script[..]), Recs(seen, ImportRecord))
      ensures Dev() == Run(old(Dev()), PassEvents(old(script[..]), Recs(seen, ImportRecord)))
    {
      hide PassEvents, Run, Collect, SelectAll, Layout;
      ghost var st := Dev();
      ghost var s := st.script;
      EmptyPass(st);
      seen := [];
      SelectNothing(importNames, imports);
      var keys := importsMap.Keys;
      assert importsMap.Keys - keys == {};
      while keys != {}
        invariant keys <= importsMap.Keys && Small()
        invariant multiset(seen) == multiset(SelectAll(importNames, imports, importsMap.Keys - keys))
        invariant AllFit(s, Recs(seen, ImportRecord))
        invariant Dev() == Run(st, PassEvents(s, Recs(seen, ImportRecord)))
        decreases |keys|
      {
        var nl :| nl in keys;
        ghost var before := seen;
        var group := importsMap[nl];
        VisitGroup(importNames, imports, importsMap.Keys - keys, nl, seen);
        TakeNone(before, group);
        for i := 0 to |group|
          invariant Small() && seen == before + group[..i]
          invariant AllFit(s, Recs(seen, ImportRecord))
          invariant Dev() == Run(st, PassEvents(s, Recs(seen, ImportRecord)))
        {
          NextRecord(s, importNames, imports, importsMap.Keys - keys, nl, before, group, i);
          KillDevImport(group[i], st, Recs(seen, ImportRecord));
          RecsMore(seen, group[i], ImportRecord);
          seen := seen + [group[i]];
          TakeMore(before, group, i);
        }
        TakeAll(before, group);
        SetMinus(importsMap.Keys, keys, nl);
        keys := keys - {nl};
      }
      assert importsMap.Keys - {} == importsMap.Keys;
      VisitAll(importNames, imports, importsMap.Keys, seen);
    }

    /** The loop body of KillDevStrings for one string record. */
    method KillDevString(p: nat, ghost st: State, ghost done: seq<Rec>)
      requires Small() && !opt.noDebugKill && st.junk < 0x1_0000_0000 && |st.script| == script.Length
      requires Layout(st.script, done + [Rec(p, StringRecord)]) && AllFit(st.script, done)
      requires Fits(st.script, p, StringRecord)
      requires Dev() == Run(st, PassEvents(st.script, done))
      modifies this`trampolineFreeLocations, this`junkLocation, script
      ensures Small() && AllFit(st.script, done + [Rec(p, StringRecord)])
      ensures Dev() == Run(st, PassEvents(st.script, done + [Rec(p, StringRecord)]))
    {
      hide PassEvents, RecordEvents, Apply, Run, Layout, Addresses;
      ghost var s, r := st.script, Rec(p, StringRecord);
      StringEvents(s, p);
      StringHeader(st, done, r, 0);
      ProgressStarts(s, done, r);
      LayoutFits(s, done + [r]);
      ProgressEnds(s, done, r);
      var n: nat, j: nat := script[p + 4], 0;
      while j < n
        invariant 0 <= j <= n == s[p + 4] as int
        invariant Small() && Dev() == Run(st, Progress(s, done, r, j))
      {
        ProgressStep(st, done, r, j);
        KillDevByteCodeOp(p + STRING_SIZE + 4 * j, 4, 0);
        j := j + 1;
        StringHeader(st, done, r, j);
        n := script[p + 4];
      }
      ProgressStep(st, done, r, n);
      Overwrite(p + STRING_SIZE, Zeros(4 * n));
      ProgressStep(st, done, r, n + 1);
      Overwrite(p, Zeros(STRING_SIZE));
    }

    /** The string record at `p`, and where the next one starts. */
    method KillNextString(p: nat, ghost st: State, ghost strs: seq<nat>, ghost i: nat) returns (next: nat)
      requires Small() && !opt.noDebugKill && |st.script| == script.Length >= HEADER_SIZE && st.junk < 0x1_0000_0000
      requires Table(st.script, Get32(st.script, DEVBLOCK_STRING_OFFSET), strs, StringRecord)
      requires Layout(st.script, Recs(strs, StringRecord)) && i < |strs| && p == strs[i]
      requires RegionClear(st.script, Recs(strs, StringRecord), 0, HEADER_SIZE)
      requires AllFit(st.script, Recs(strs, StringRecord)[..i])
      requires Dev() == Run(st, PassEvents(st.script, Recs(strs, StringRecord)[..i]))
      modifies this`trampolineFreeLocations, this`junkLocation, script
      ensures Small() && AllFit(st.script, Recs(strs, StringRecord)[..i + 1])
      ensures Dev() == Run(st, PassEvents(st.script, Recs(strs, StringRecord)[..i + 1]))
      ensures i + 1 < |strs| ==> next == strs[i + 1]
      ensures Get16(script[..], DEVBLOCK_STRING_COUNT) == Get16(st.script, DEVBLOCK_STRING_COUNT)
    {
      hide PassEvents, Run, Layout, RegionClear, Apply, Table, AllFit, Get16, Get32, RecordEnd;
      ghost var rs := Recs(strs, StringRecord);
      NextString(st, strs, i);
      next := p + STRING_SIZE + 4 * script[p + 4] as int;
      KillDevString(p, st, rs[..i]);
      HeaderKept(st, rs, i + 1);
    }

    /** Every dev string record in table order. */
    method KillDevStringRecords(ghost strs: seq<nat>)
      requires Small() && !opt.noDebugKill && script.Length >= HEADER_SIZE
      requires DevStringWalk(script[..]) == Some(strs)
      requires Layout(script[..], Recs(strs, StringRecord))
      requires RegionClear(script[..], Recs(strs, StringRecord), 0, HEADER_SIZE)
      modifies this`trampolineFreeLocations, this`junkLocation, script
      ensures Small() && AllFit(old(script[..]), Recs(strs, StringRecord))
      ensures Dev() == Run(old(Dev()), PassEvents(old(script[..]), Recs(strs, StringRecord)))
    {
      hide PassEvents, Run, Layout, DevStringWalk, RegionClear, Apply, Table, AllFit, Get16, Get32, RecordEnd, Recs;
      ghost var st := Dev();
      ghost var s := st.script;
      DevStringTable(s, strs);
      var count := Read16(script, DEVBLOCK_STRING_COUNT);
      ghost var rs := Recs(strs, StringRecord);
      EmptyPass(st);
      PassPrefix(s, rs, 0);
      var p: nat := Read32(script, DEVBLOCK_STRING_OFFSET);
      var i := 0;
      while i < count
        invariant 0 <= i <= count == |strs| == |rs|
        invariant i < |strs| ==> p == strs[i]
        invariant Small() && AllFit(s, rs[..i]) && Dev() == Run(st, PassEvents(s, rs[..i]))
      {
        p := KillNextString(p, st, strs, i);
        i := i + 1;
        count := Read16(script, DEVBLOCK_STRING_COUNT);
      }
      assert rs[..i] == rs;
    }

    /** The dev string records; then the table is forgotten. */
    method KillDevStrings(ghost strs: seq<nat>)
      requires Small() && !opt.noDebugKill && script.Length >= HEADER_SIZE
      requires DevStringWalk(script[..]) == Some(strs)
      requires Layout(script[..], Recs(strs, StringRecord))
      requires RegionClear(script[..], Recs(strs, StringRecord), 0, HEADER_SIZE)
      modifies this`trampolineFreeLocations, this`junkLocation, script
      ensures Small() && AllFit(old(script[..]), Recs(strs, StringRecord))
      ensures Dev() == Run(old(Dev()), StringPass(old(script[..]), strs))
    {
      hide PassEvents, Run, Layout, DevStringWalk, RegionClear, Apply, StringPass, Table, AllFit, Zeros, Get16, Get32,
           RecordEnd;
      ghost var st := Dev();
      DevStringTable(st.script, strs);
      var count := Read16(script, DEVBLOCK_STRING_COUNT);
      EmptyPass(st);
      if count != 0 {
        KillDevStringRecords(strs);
        ForgetCount(st, strs);
        Overwrite(DEVBLOCK_STRING_COUNT, Zeros(2));
      } else {
        assert Recs(strs, StringRecord) == [];
      }
      ForgetOffset(st, strs);
      Overwrite(DEVBLOCK_STRING_OFFSET, Zeros(4));
    }

    /** The marks before and after the operand, and the offset redirected. */
    method MarkDead(at: nat, floc: nat, end: nat)
      requires at + 4 <= script.Length && 2 <= floc <= script.Length && end + 2 <= script.Length
      requires junkLocation < 0x1_0000_0000
      modifies script
      ensures script[..] == MarkKilled(old(script[..]), at, floc, end, junkLocation)
    {
      Write16(script, floc - 2, 0xdead);
      Write16(script, end, 0xbeef);
      if junkLocation != 0 {
        Write32(script, at, junkLocation);
      }
    }

    /** Numbers the local variables of every function, in some order of the names;
        fails when the variables of one do not fit. */
    method RemoveLocalVariables() returns (ok: bool, ghost order: seq<GscExportData>)
      requires Tables() && CodesFit(script.Length, exports) && script.Length < 0x1_0000_0000
      modifies script
      ensures forall i :: 0 <= i < |order| ==> order[i] in exports
      ensures ok ==> multiset(order) == multiset(exports)
      ensures CodesFit(script.Length, order)
      ensures RemoveAll(old(script[..]), order) == if ok then Some(script[..]) else None
    {
      hide Collect, SelectAll, RemoveAll, RemoveLocals;
      ghost var s := script[..];
      order := [];
      SelectNothing(exportNames, exports);
      NoneRemoved(s);
      var keys := exportsMap.Keys;
      assert exportsMap.Keys - keys == {};
      while keys != {}
        invariant keys <= exportsMap.Keys
        invariant multiset(order) == multiset(SelectAll(exportNames, exports, exportsMap.Keys - keys))
        invariant forall i :: 0 <= i < |order| ==> order[i] in exports
        invariant CodesFit(|s|, order) && RemoveAll(s, order) == Some(script[..])
        decreases |keys|
      {
        var nl :| nl in keys;
        ghost var before := order;
        var group := exportsMap[nl];
        VisitGroup(exportNames, exports, exportsMap.Keys - keys, nl, order);
        TakeNone(before, group);
        for i := 0 to |group|
          invariant order == before + group[..i]
          invariant forall i :: 0 <= i < |order| ==> order[i] in exports
          invariant CodesFit(|s|, order) && RemoveAll(s, order) == Some(script[..])
        {
          GroupInTable(exportNames, exports, nl, i);
          TakeMore(before, group, i);
          RoomInTable(script.Length, exports, group[i]);
          RemoveStep(s, order, group[i]);
          order := order + [group[i]];
          ok := RemoveLocal(group[i].bc);
          if !ok {
            return;
          }
        }
        TakeAll(before, group);
        SetMinus(exportsMap.Keys, keys, nl);
        keys := keys - {nl};
      }
      assert exportsMap.Keys - {} == exportsMap.Keys;
      VisitAll(exportNames, exports, exportsMap.Keys, order);
      ok := true;
    }

    /** The loop body of RemoveLocalVariables for one function. */
    method RemoveLocal(code: nat) returns (ok: bool)
      requires CodeRoom(script.Length, code) && script.Length < 0x1_0000_0000
      modifies script
      ensures RemoveLocals(old(script[..]), code) == if ok then Some(script[..]) else None
    {
      hide Get16, Varargs, AlignUp;
      ghost var s := script[..];
      AlignUpBounds(code, 2);
      AlignedIsAlignUp(code, 2);
      var bc := Bits.Aligned(code, 2);
      var createParams := Read16(script, bc);
      if createParams !in SAFE_CREATE_OPCODES || script[bc + 2] == 0 {
        return true;
      }
      var count := script[bc + 2];
      AlignUpBounds(bc + 3, 4);
      AlignedIsAlignUp(bc + 3, 4);
      bc := Bits.Aligned(bc + 3, 4);
      if bc + LOCAL_SIZE * count > script.Length {
        return false;
      }
      NumberVariables(bc, count);
      ok := true;
    }

    method NumberVariables(at: nat, count: byte)
      requires at + LOCAL_SIZE * count <= script.Length
      modifies script
      ensures script[..] == NumberLocals(old(script[..]), at, count)
    {
      hide Varargs, Put32;
      ghost var s := script[..];
      for j := 0 to count
        invariant script[..] == NumberLocals(s, at, j)
      {
        var varName := at + LOCAL_SIZE * j;
        var flags := script[varName + 4];
        if !Varargs(flags) {
          Write32(script, varName, j + 1);
        }
      }
    }

    /** Writes the checksum of every export, in some order of the names. */
    method ComputeChecksums()
      requires Tables() && ChecksumLayout(script.Length, exports, opt.recomputeCRC)
      modifies script
      ensures ChecksumsSet(crc, old(script[..]), script[..], exports, exports, opt.recomputeCRC)
    {
      hide Collect, SelectAll, ChecksumsSet, ChecksumLayout;
      ghost var s := script[..];
      ghost var seen: seq<GscExportData> := [];
      SelectNothing(exportNames, exports);
      ChecksumsStart(crc, s, exports, opt.recomputeCRC);
      var keys := exportsMap.Keys;
      assert exportsMap.Keys - keys == {};
      while keys != {}
        invariant keys <= exportsMap.Keys
        invariant multiset(seen) == multiset(SelectAll(exportNames, exports, exportsMap.Keys - keys))
        invariant ChecksumsSet(crc, s, script[..], exports, seen, opt.recomputeCRC)
        decreases |keys|
      {
        var nl :| nl in keys;
        ghost var before := seen;
        var group := exportsMap[nl];
        VisitGroup(exportNames, exports, exportsMap.Keys - keys, nl, seen);
        TakeNone(before, group);
        for i := 0 to |group|
          invariant seen == before + group[..i]
          invariant ChecksumsSet(crc, s, script[..], exports, seen, opt.recomputeCRC)
        {
          GroupInTable(exportNames, exports, nl, i);
          ComputeChecksum(group[i], s, seen);
          TakeMore(before, group, i);
          seen := seen + [group[i]];
        }
        TakeAll(before, group);
        SetMinus(exportsMap.Keys, keys, nl);
        keys := keys - {nl};
      }
      assert exportsMap.Keys - {} == exportsMap.Keys;
      VisitAll(exportNames, exports, exportsMap.Keys, seen);
      ChecksumsAll(crc, s, script[..], exports, seen, opt.recomputeCRC);
    }

    /** The loop body of ComputeChecksums for one export. */
    method ComputeChecksum(d: GscExportData, ghost s: bytes, ghost seen: seq<GscExportData>)
      requires ChecksumLayout(script.Length, exports, opt.recomputeCRC) && d in exports
      requires ChecksumsSet(crc, s, script[..], exports, seen, opt.recomputeCRC)
      modifies script
      ensures ChecksumsSet(crc, s, script[..], exports, seen + [d], opt.recomputeCRC)
    {
      hide ChecksumsSet, ChecksumLayout, Checksums.Checksum;
      ghost var t := script[..];
      ChecksumRoom(script.Length, exports, opt.recomputeCRC, d);
      if !opt.recomputeCRC {
        var c := Checksums.ComputeCRC32(crc, script, d.bc, 1);
        Write32(script, d.ref, c);
        ChecksumStep(crc, s, t, script[..], exports, seen, opt.recomputeCRC, d);
      } else if d.len != 0 {
        var c := Checksums.ComputeCRC32(crc, script, d.bc, d.len);
        Write32(script, d.ref, c);
        ChecksumStep(crc, s, t, script[..], exports, seen, opt.recomputeCRC, d);
      } else {
        ChecksumSkip(crc, s, t, exports, seen, opt.recomputeCRC, d);
      }
    }

    /** Free slots in the script, four bytes or more apart, outside the header
        and the export table. */
    ghost predicate FreeClear(s: bytes)
      requires |s| >= HEADER_SIZE
      reads this
    {
      var table, count := Get32(s, EXPORT_OFFSET), Get16(s, EXPORT_COUNT);
      && HEADER_SIZE <= table && table + EXPORT_SIZE * count <= |s|
      && SlotsFree(|s|, table, count, trampolineFreeLocations)
    }

    /** Gives each export, in table order, the first slot in reach: the jump is
        written into the slot and the export's address becomes the slot. */
    method CreateTrampolines()
      requires Small() && script.Length >= HEADER_SIZE && FreeClear(script[..])
      modifies this`trampolineFreeLocations, script
      ensures var s := old(script[..]); var table := Get32(s, EXPORT_OFFSET);
        var a := Trampolines.Allocate(Trampolines.Sorted(old(trampolineFreeLocations)),
                                      Jumps.Addresses(s, table, Get16(s, EXPORT_COUNT)));
        && trampolineFreeLocations == a.left
        && Jumps.SlotsClear(|s|, table, Get16(s, EXPORT_COUNT), a.slots)
        && Jumps.Redirected(s, script[..], table, a.slots, |a.slots|)
    {
      hide Trampolines.Allocate, Trampolines.Sorted, Jumps.Redirected, Jumps.SlotsClear, SlotsFree,
           Jumps.IsTrampoline, Trampolines.InReach, Jumps.Entered;
      ghost var s := script[..];
      var table := Read32(script, EXPORT_OFFSET);
      ghost var total := Get16(s, EXPORT_COUNT);
      ghost var dests := Jumps.Addresses(s, table, total);
      SortedSlotsFree(|s|, table, total, trampolineFreeLocations);
      trampolineFreeLocations := Trampolines.Sorted(trampolineFreeLocations);
      ghost var a := Trampolines.Allocate(trampolineFreeLocations, dests);
      SlotsFreeAllocation(|s|, table, trampolineFreeLocations, dests);
      Jumps.RedirectStart(s, table, a.slots);
      var count := Read16(script, EXPORT_COUNT);
      var i := 0;
      while i < count
        invariant 0 <= i <= count == total
        invariant AllocatedUpTo(a, trampolineFreeLocations, dests, i)
        invariant Jumps.Redirected(s, script[..], table, a.slots, i)
        invariant SlotsFree(|s|, table, total, trampolineFreeLocations)
      {
        if trampolineFreeLocations == [] {
          Jumps.RedirectRest(s, script[..], table, a, dests, i);
          break;
        }
        TrampolineFor(table, i, s, a, dests);
        i := i + 1;
        Jumps.ExportCountKept(s, script[..], table, a.slots, i);
        count := Read16(script, EXPORT_COUNT);
      }
      if i == total {
        AllocationDone(a, trampolineFreeLocations, dests);
      }
    }

    /** The loop body of CreateTrampolines for export `i`. */
    method TrampolineFor(table: nat, i: nat, ghost s: bytes, ghost a: Trampolines.Allocation, ghost dests: seq<nat>)
      requires Small() && |s| == script.Length >= HEADER_SIZE && i < |dests| == |a.slots|
      requires Jumps.SlotsClear(|s|, table, |a.slots|, a.slots)
      requires table + EXPORT_SIZE * |dests| <= |s| && dests == Jumps.Addresses(s, table, |dests|)
      requires AllocatedUpTo(a, trampolineFreeLocations, dests, i)
      requires Jumps.Redirected(s, script[..], table, a.slots, i)
      requires SlotsFree(|s|, table, |dests|, trampolineFreeLocations)
      modifies this`trampolineFreeLocations, script
      ensures AllocatedUpTo(a, trampolineFreeLocations, dests, i + 1)
      ensures Jumps.Redirected(s, script[..], table, a.slots, i + 1)
      ensures SlotsFree(|s|, table, |dests|, trampolineFreeLocations)
    {
      hide Trampolines.Allocate, Jumps.Redirected, Jumps.SlotsClear, SlotsFree, Trampolines.FirstInReach,
           Jumps.IsTrampoline, Jumps.Entered, AllocatedUpTo, Trampolines.Without;
      ghost var t, free := script[..], trampolineFreeLocations;
      var e := ExportAt(table, i);
      Jumps.AddressKept(s, t, table, a.slots, i, i);
      AllocateNext(a, free, dests, i);
      var dest: nat := Read32(script, e + 4);
      assert dest == dests[i];
      var loc := 0;
      var it := 0;
      while it < |trampolineFreeLocations| && loc == 0
        invariant 0 <= it <= |free| && script[..] == t
        invariant loc == 0 ==> trampolineFreeLocations == free
        invariant loc == 0 ==> forall j :: 0 <= j < it ==> !Trampolines.InReach(dest, free[j])
        invariant loc != 0 ==> it < |free| && loc == free[it] && it == Trampolines.FirstInReach(free, dest)
        invariant loc != 0 ==> trampolineFreeLocations == Trampolines.Without(free, it)
        decreases |free| - it, if loc == 0 then 1 else 0
      {
        var origin := trampolineFreeLocations[it];
        var delta := dest - (origin + 4);
        if delta > 0x7fff || delta < -0x8000 {
          it := it + 1;
          continue;
        }
        FirstIs(free, dest, it);
        SlotPositive(|s|, table, |dests|, free, it);
        loc := origin;
        trampolineFreeLocations := Trampolines.Without(trampolineFreeLocations, it);
      }
      if loc == 0 {
        FirstIs(free, dest, it);
        Jumps.RedirectNone(s, t, table, a.slots, i);
        return;
      }
      SlotsFreeWithout(|s|, table, |dests|, free, it);
      var r :| 0 <= r < |Jumps.JUMP_OPCODES|;
      WriteJump(loc, Jumps.JUMP_OPCODES[r], dest, e);
      Jumps.EnteredHere(s, t, script[..], table, a.slots, i, Jumps.JUMP_OPCODES[r]);
      Jumps.RedirectOne(s, t, script[..], table, a.slots, i);
    }

    /** The four bytes of the jump, and the export's address. */
    method WriteJump(loc: nat, op: u16, dest: nat, e: nat)
      requires loc + 4 <= script.Length < 0x1_0000_0000 && e + EXPORT_SIZE <= script.Length
      requires Trampolines.InReach(dest, loc)
      modifies script
      ensures script[..] == Put32(Jumps.WriteTrampoline(old(script[..]), loc, op, dest), e + 4, loc)
    {
      Write16(script, loc, op);
      Write16(script, loc + 2, Jumps.Truncate16(dest - (loc + 4)));
      Write32(script, e + 4, loc);
    }

    /** Every string of the string table that the private file names is renamed
        in place, and nothing else changes. */
    method ApplyPrivateStrings(priv: PrivateNames.PrivateFile, ghost ps: seq<nat>)
      requires priv.Valid() && PrivateTexts.StringsReady(script[..], ps)
      requires PrivateTexts.StringsStable(priv.strings, script[..], ps)
      modifies script
      ensures var s := old(script[..]); var ats := PrivateTexts.Referenced(s, ps);
        PrivateTexts.TextsRenamed(s, script[..], ats, PrivateTexts.NewStrings(priv.strings, s, ats), |ats|)
    {
      hide PrivateTexts.TextsRenamed, PrivateTexts.TextsApart, PrivateNames.CString, Over,
           PrivateNames.Terminated, PrivateNames.StringsFit, PrivateNames.Stored, PrivateTexts.NewsFit, PrivateTexts.TextEnd,
           PrivateTexts.StringTableWalk, PrivateTexts.OffTexts, PrivateTexts.Once, PrivateTexts.StringsStable, Get32;
      ghost var s, ats := script[..], PrivateTexts.Referenced(script[..], ps);
      ghost var raw := PrivateTexts.Pointers(s, ps);
      ghost var news := PrivateTexts.NewStrings(priv.strings, s, ats);
      PrivateTexts.NewStringsFit(priv.strings, s, ats);
      PrivateTexts.NothingRenamed(s, ats, news);
      PrivateTexts.StringsCounted(s, ps);
      PrivateTexts.NothingReferenced(raw);
      var count := Read16(script, STRING_COUNT);
      var p: nat := Read32(script, STRING_OFFSET);
      for i := 0 to count
        invariant i < |ps| ==> p == ps[i]
        invariant |ps| == count as int && |PrivateTexts.Once(raw[..i])| <= |ats|
        invariant PrivateTexts.TextsRenamed(s, script[..], ats, news, |PrivateTexts.Once(raw[..i])|)
      {
        ghost var t, n := script[..], |PrivateTexts.Once(raw[..i])|;
        PrivateTexts.RecordStill(s, t, ps, news, n, i);
        var at: nat := Read32(script, p);
        p := p + STRING_SIZE + 4 * script[p + 4] as int;
        ghost var m := PrivateTexts.NextReference(raw, i);
        if m < n {
          PrivateTexts.TextDoneAgain(s, t, ats, news, n, m);
          PrivateTexts.StringAgain(priv.strings, s, ps, i, m);
        } else {
          PrivateTexts.TextStill(s, t, ats, news, n);
          PrivateTexts.TextStep(s, t, ats, news, n);
        }
        priv.RenamedString(script, at);
      }
      assert raw[..|raw|] == raw;
    }

    /** The script's own name, then its includes, unless the name has another
        extension. */
    method ApplyPrivateScripts(priv: PrivateNames.PrivateFile)
      requires priv.Valid() && PrivateTexts.ScriptTextsReady(script[..])
      requires PrivateTexts.ScriptsStable(priv.scripts, script[..])
      modifies script
      ensures var s := old(script[..]); var ats := PrivateTexts.ScriptTexts(s);
        var side := PrivateTexts.Side(PrivateNames.CString(s, ats[0]));
        if side.None? then script[..] == s
        else
          PrivateTexts.TextsRenamed(s, script[..], ats, PrivateTexts.NewTexts(priv.scripts, s, ats, side.value), |ats|)
      ensures var s := old(script[..]);
        && Get32(s, NAME_OFFSET) <= |s| && PrivateTexts.ScriptsFollow(priv.scripts, s, script[..])
        && (PrivateTexts.OtherEnding(PrivateNames.CString(s, Get32(s, NAME_OFFSET))) ==> script[..] == s)
    {
      hide PrivateTexts.TextsRenamed, PrivateTexts.TextsApart, PrivateNames.CString, Over, PrivateTexts.ScriptsFollow,
           PrivateTexts.OtherEnding,
           PrivateNames.Terminated, PrivateNames.StringsFit, PrivateNames.Stored, PrivateTexts.NewsFit, PrivateTexts.Side,
           PrivateTexts.TextEnd, PrivateTexts.OffTexts, PrivateNames.NewName, PrivateNames.NewInclude, PrivateTexts.Once,
           PrivateTexts.ScriptsStable, PrivateTexts.ScriptTexts, PrivateTexts.IncludeTable, PrivateTexts.Includes, Get32;
      ghost var s, ats := script[..], PrivateTexts.ScriptTexts(script[..]);
      PrivateTexts.ScriptTextsInside(s);
      var name: nat := Read32(script, NAME_OFFSET);
      var text := PrivateNames.PrivateFile.ReadText(script, name);
      var side := PrivateTexts.Side(text);
      if side.None? {
        PrivateTexts.PassFollows(priv.scripts, s, s);
        return;
      }
      ghost var news := PrivateTexts.NewTexts(priv.scripts, s, ats, side.value);
      PrivateTexts.NewTextsFit(priv.scripts, s, ats, side.value);
      PrivateTexts.NothingRenamed(s, ats, news);
      PrivateTexts.TextStepInPlace(s, s, ats, news, 0);
      priv.RenamedScript(script, name);
      RenameIncludes(priv, side.value, s);
      PrivateTexts.PassFollows(priv.scripts, s, script[..]);
    }

    /** Every include, once the name is done. */
    method RenameIncludes(priv: PrivateNames.PrivateFile, ext: bytes, ghost s: bytes)
      requires priv.Valid() && PrivateTexts.ScriptTextsReady(s) && PrivateTexts.ScriptsStable(priv.scripts, s)
      requires PrivateTexts.Side(PrivateNames.CString(s, PrivateTexts.ScriptTexts(s)[0])) == Some(ext)
      requires var ats := PrivateTexts.ScriptTexts(s);
        PrivateTexts.TextsRenamed(s, script[..], ats, PrivateTexts.NewTexts(priv.scripts, s, ats, ext), 1)
      modifies script
      ensures var ats := PrivateTexts.ScriptTexts(s);
        PrivateTexts.TextsRenamed(s, script[..], ats, PrivateTexts.NewTexts(priv.scripts, s, ats, ext), |ats|)
    {
      hide PrivateTexts.TextsRenamed, PrivateTexts.TextsApart, PrivateNames.CString, Over,
           PrivateNames.Terminated, PrivateNames.StringsFit, PrivateNames.Stored, PrivateTexts.NewsFit,
           PrivateTexts.TextEnd, PrivateTexts.OffTexts, PrivateNames.NewInclude, PrivateNames.NewName, PrivateTexts.Once,
           PrivateTexts.ScriptsStable, PrivateTexts.Side, PrivateTexts.ScriptPointers, Get32;
      ghost var ats, raw := PrivateTexts.ScriptTexts(s), PrivateTexts.ScriptPointers(s);
      ghost var news := PrivateTexts.NewTexts(priv.scripts, s, ats, ext);
      PrivateTexts.NewTextsFit(priv.scripts, s, ats, ext);
      PrivateTexts.IncludeStill(s, script[..], news, 1, 0);
      PrivateTexts.OneReference(raw);
      var includes: nat := Read32(script, INCLUDE_OFFSET);
      var count := script[INCLUDE_COUNT];
      for i := 0 to count
        invariant 1 <= |PrivateTexts.Once(raw[..i + 1])| <= |ats|
        invariant PrivateTexts.TextsRenamed(s, script[..], ats, news, |PrivateTexts.Once(raw[..i + 1])|)
      {
        ghost var t, n := script[..], |PrivateTexts.Once(raw[..i + 1])|;
        PrivateTexts.IncludeStill(s, t, news, n, i);
        var inc: nat := Read32(script, includes + 4 * i);
        ghost var m := PrivateTexts.NextReference(raw, i + 1);
        if m < n {
          PrivateTexts.TextDoneAgain(s, t, ats, news, n, m);
          PrivateTexts.IncludeAgain(priv.scripts, s, ext, i + 1, m);
        } else {
          PrivateTexts.TextStill(s, t, ats, news, n);
          PrivateTexts.TextStepInPlace(s, t, ats, news, n);
        }
        priv.RenamedScriptExt(script, inc, ext == PrivateNames.CSC);
      }
      assert raw[..|raw|] == raw;
    }

    /** Rewrites one hash until it is absent. The answer is false when the loop
        would never end: the replacement is the hash and the script holds it. */
    method ApplyPrivateHash(hash: u32, val: u32) returns (ends: bool)
      modifies script
      ensures HashRewrite.RewriteEntry(old(script[..]), hash, val) == if ends then Some(script[..]) else None
    {
      hide HashRewrite.Rewrite, HashRewrite.Fuel, Search.FindFrom, Le32, Put32;
      ghost var s := script[..];
      var bb := new ByteBuffers.ByteBuffer(script, script.Length);
      var off := bb.Find(Le32(hash), 0);
      assert script[0..0 + script.Length] == script[..];
      if off != None && hash == val {
        return false;
      }
      while off != None
        invariant off == HashRewrite.FirstHash(script[..], hash)
        invariant hash != val ==> HashRewrite.Rewrite(s, hash, val) == HashRewrite.Rewrite(script[..], hash, val)
        invariant hash == val ==> off == None && script[..] == s
        invariant bb.pointer == 0
        decreases HashRewrite.Fuel(script[..], hash, val)
      {
        HashRewrite.RewriteTurn(script[..], hash, val);
        Write32(script, off.value, val);
        off := bb.Find(Le32(hash), 0);
        assert script[0..0 + script.Length] == script[..];
      }
      if hash != val {
        HashRewrite.RewriteTurn(script[..], hash, val);
      }
      return true;
    }

    /** Every entry in some order of the table. */
    method ApplyPrivateHashes(hashes: map<bytes, u32>) returns (ends: bool, ghost order: seq<bytes>)
      modifies script
      ensures |order| <= |hashes| && forall i :: 0 <= i < |order| ==> order[i] in hashes
      ensures ends ==> multiset(order) == multiset(hashes.Keys)
      ensures HashRewrite.RewriteEntries(old(script[..]), HashRewrite.Entries(hashes, order))
           == if ends then Some(script[..]) else None
    {
      hide HashRewrite.RewriteEntry, HashRewrite.RewriteEntries, HashMini.HashT7;
      ghost var s := script[..];
      order := [];
      var keys := hashes.Keys;
      HashRewrite.NoEntries(s);
      while keys != {}
        invariant keys <= hashes.Keys && |order| + |keys| == |hashes|
        invariant forall i :: 0 <= i < |order| ==> order[i] in hashes
        invariant multiset(order) == multiset(hashes.Keys - keys)
        invariant HashRewrite.RewriteEntries(s, HashRewrite.Entries(hashes, order)) == Some(script[..])
        decreases |keys|
      {
        var str :| str in keys;
        var hash := HashMini.HashT7(str);
        HashRewrite.EntriesMore(hashes, order, str);
        HashRewrite.EntriesStep(s, HashRewrite.Entries(hashes, order), hash, hashes[str]);
        order := order + [str];
        assert hashes.Keys - (keys - {str}) == (hashes.Keys - keys) + {str};
        keys := keys - {str};
        ends := ApplyPrivateHash(hash, hashes[str]);
        if !ends {
          return;
        }
      }
      assert hashes.Keys - {} == hashes.Keys;
      ends := true;
    }

    /** Every pass in its order. The run stops when the local variables of some
        function do not fit, and does not end when the loop of some hash does not.
        Otherwise every export still reaches its code, names resolve as the renaming
        says, every text the private file names is the new one, local variables are
        numbered, dead dev calls and strings are gone, checksums agree with the final
        bytes, and no other byte changes but where a hash was rewritten. */
    method RunTasks(priv: PrivateNames.PrivateFile, ghost strs: seq<nat>, ghost ps: seq<nat>)
      returns (ok: bool, ghost rho: Renaming, ghost x: bytes, ghost y: bytes, ghost order: seq<bytes>,
               ghost g: SlotUse, ghost unsigned: bytes)
      requires Tables() && script.Length < 0x1_0000_0000
      requires trampolineFreeLocations == [] && junkLocation == 0
      requires WellLaidOut(script[..], imports, strs, exports, opt.recomputeCRC)
      requires PrivateRun.TextLayout(script[..], imports, strs, ps)
      requires !opt.noRemoveLocals ==> LocalRun.LocalLayout(script[..], imports, strs, ps, exports)
      requires exportNames == NamesOf(script[..], exports) && ImportsAre(script[..], importNames, imports)
      requires priv.Valid() && PrivateRun.TextsStable(priv.Contents(), script[..], ps)
      requires HashRun.HashesAway(priv.Contents(), script[..], imports, strs, ps, exports, exportNames, importNames,
        !opt.noRemoveLocals, !opt.noRemovePrivateExports)
      modifies this`trampolineFreeLocations, this`junkLocation, script
      ensures ok ==> opt.noRemoveLocals || AllLocalsFit(old(script[..]), exports)
      ensures opt.noRemoveLocals || AllLocalsFit(old(script[..]), exports) ==>
        && HashRun.Reached(priv.Contents(), old(script[..]), x, imports, strs, ps, exports, exportNames, importNames, rho,
             !opt.noRemoveLocals, !opt.noRemovePrivateExports)
        && HashRun.HashesDone(priv.Contents(), x, y, order, ok)
      ensures ok ==> Numbering(rho)
      ensures ok ==> forall nl :: nl in rho <==>
        !opt.noRemovePrivateExports && nl in exportsMap && PrivateSingle(exportsMap, old(script[..]), nl)
      ensures ok ==> HashRun.SpotEdit(old(script[..]), x, y, imports, strs, PrivateRun.Texts(old(script[..]), ps), exports,
        !opt.noRemoveLocals)
      ensures ok ==>
        && |x| == |y| == script.Length
        && PrivateRun.RunKept(priv.Contents(), old(script[..]), script[..], imports, strs, ps, exports, exportNames,
             importNames, rho, !opt.noDebugKill, g, !opt.noRemoveLocals,
             PrivateRun.HashedIn(old(script[..]), x, y))
      ensures ok ==> Uses(g)
      ensures ok ==> ChecksumsSet(crc, unsigned, script[..], exports, exports, opt.recomputeCRC)
    {
      hide WellLaidOut, NamesOf, ImportsAre, Collect, PrivateSingle, Numbering, Bounded, ChecksumsSet, PrivateRun.TextLayout,
           PrivateRun.RunKept, AllLocalsFit, LocalRun.LocalsGone, LocalRun.LocalLayout, PrivateNames.StringsFit,
           PrivateNames.Stored, PrivateRun.TextsStable, HashRun.HashesAway, HashRun.Reached, HashRun.HashesDone,
           HashRun.SpotEdit, PrivateRun.HashedIn, PrivateRun.Texts;
      ghost var s, numbered := script[..], !opt.noRemovePrivateExports;
      ghost var names := priv.Contents();
      rho, x, y, order, g, unsigned := map[], s, s, [], SlotUse(0, [], [], [], false), s;
      ghost var seen;
      ok, seen := RemoveNames(strs, ps);
      if !ok {
        return;
      }
      ghost var s1 := script[..];
      if !opt.noRemoveLocals {
        LocalRun.StableAfterLocals(names, s, s1, imports, strs, ps, exports, opt.recomputeCRC, seen);
        HashRun.AwayAfterLocals(names, s, s1, imports, strs, ps, exports, opt.recomputeCRC, seen, exportNames, importNames,
                                numbered);
      }
      ok, rho, x, y, order, g, unsigned := TasksAfterLocals(priv, strs, ps);
      if !opt.noRemoveLocals {
        HashRun.ReachedFromStart(names, s, s1, x, imports, strs, ps, exports, seen, exportNames, importNames, rho, numbered);
      }
      if ok {
        HashRun.SpotsRewritten(names, s, x, y, order, imports, strs, ps, exports, exportNames, importNames, rho,
          !opt.noRemoveLocals, numbered);
        if !opt.noRemoveLocals {
          HashRun.RunThroughHashes(names, exportsMap, s, s1, x, y, script[..], order, imports, strs, ps, exports,
            opt.recomputeCRC, seen, exportNames, importNames, rho, numbered, !opt.noDebugKill, g);
        }
      }
    }

    /** The names of local variables, unless they are kept: everything the rest of
        the run asks for is there afterwards. */
    method RemoveNames(ghost strs: seq<nat>, ghost ps: seq<nat>) returns (ok: bool, ghost seen: seq<GscExportData>)
      requires Tables() && script.Length < 0x1_0000_0000
      requires WellLaidOut(script[..], imports, strs, exports, opt.recomputeCRC)
      requires PrivateRun.TextLayout(script[..], imports, strs, ps)
      requires !opt.noRemoveLocals ==> LocalRun.LocalLayout(script[..], imports, strs, ps, exports)
      requires exportNames == NamesOf(script[..], exports) && ImportsAre(script[..], importNames, imports)
      modifies script
      ensures ok <==> opt.noRemoveLocals || AllLocalsFit(old(script[..]), exports)
      ensures ok && opt.noRemoveLocals ==> script[..] == old(script[..])
      ensures ok && !opt.noRemoveLocals ==>
        LocalRun.LocalsGone(old(script[..]), script[..], imports, strs, ps, exports, seen)
      ensures ok ==> WellLaidOut(script[..], imports, strs, exports, opt.recomputeCRC)
      ensures ok ==> PrivateRun.TextLayout(script[..], imports, strs, ps)
      ensures ok ==> exportNames == NamesOf(script[..], exports) && ImportsAre(script[..], importNames, imports)
    {
      ghost var s := script[..];
      ghost var ats := PrivateRun.Texts(s, ps);
      hide WellLaidOut, NamesOf, ImportsAre, Collect, PrivateRun.TextLayout, PrivateRun.Texts, LocalsSet, AllLocalsFit,
           LocalRun.AfterLocals, RemoveAll, PreamblesApart, PrivateTexts.TextsApart, PrivateRun.SameTexts;
      seen := [];
      if opt.noRemoveLocals {
        return true, seen;
      }
      LocalRun.Preambles(s, imports, strs, ps, exports);
      ok, seen := RemoveLocalVariables();
      EveryLocalNumbered(s, exports, seen);
      AllSeenFit(s, exports, seen, ok);
      if ok {
        hide LocalRun.LocalLayout;
        LocalRun.LocalsKeepLayout(s, script[..], imports, strs, ps, exports, opt.recomputeCRC, seen);
        LocalRun.NamesAfter(s, script[..], imports, strs, exports, opt.recomputeCRC, ats, importNames);
      }
    }

    /** Every pass after the local variables. */
    method TasksAfterLocals(priv: PrivateNames.PrivateFile, ghost strs: seq<nat>, ghost ps: seq<nat>)
      returns (ends: bool, ghost rho: Renaming, ghost x: bytes, ghost y: bytes, ghost order: seq<bytes>,
               ghost g: SlotUse, ghost unsigned: bytes)
      requires Tables() && script.Length < 0x1_0000_0000
      requires trampolineFreeLocations == [] && junkLocation == 0
      requires WellLaidOut(script[..], imports, strs, exports, opt.recomputeCRC)
      requires PrivateRun.TextLayout(script[..], imports, strs, ps)
      requires exportNames == NamesOf(script[..], exports) && ImportsAre(script[..], importNames, imports)
      requires priv.Valid() && PrivateRun.TextsStable(priv.Contents(), script[..], ps)
      requires HashRun.HashesAway(priv.Contents(), script[..], imports, strs, ps, exports, exportNames, importNames, false,
        !opt.noRemovePrivateExports)
      modifies this`trampolineFreeLocations, this`junkLocation, script
      ensures Numbering(rho) && Bounded(rho)
      ensures forall nl :: nl in rho <==>
        !opt.noRemovePrivateExports && nl in exportsMap && PrivateSingle(exportsMap, old(script[..]), nl)
      ensures HashRun.Reached(priv.Contents(), old(script[..]), x, imports, strs, ps, exports, exportNames, importNames, rho,
        false, !opt.noRemovePrivateExports)
      ensures HashRun.HashesDone(priv.Contents(), x, y, order, ends)
      ensures ends ==>
        && |x| == |y| == script.Length
        && PrivateRun.RunKept(priv.Contents(), old(script[..]), script[..], imports, strs, ps, exports, exportNames,
             importNames, rho, !opt.noDebugKill, g, false, PrivateRun.HashedIn(old(script[..]), x, y))
      ensures ends ==> Uses(g)
      ensures ends ==> ChecksumsSet(crc, unsigned, script[..], exports, exports, opt.recomputeCRC)
    {
      hide WellLaidOut, RenamedBy, TablesApart, MeaningKept, NamesOf, ImportsAre, Collect, ChecksumLayout, PrivateSingle,
           Numbering, Bounded, ChecksumsSet, Get16, Get32, Refs, NamesCurrent, Covered, PrivateRun.TextLayout,
           PrivateRun.MeaningKeptRenamed, PrivateNames.StringsFit, PrivateNames.Stored, PrivateRun.ReadyForDev,
           PrivateRun.Texts, PrivateRun.News, PrivateTexts.TextsApart, HashRewrite.RewriteEntries, HashRewrite.Entries,
           HashRun.HashesAway, HashRun.Reached, HashRun.SpotEdit, PrivateRun.TextsDone, PrivateRun.OffTextsEdit,
           PrivateRun.HashedIn;
      ghost var s, names, numbered := script[..], priv.Contents(), !opt.noRemovePrivateExports;
      ghost var ats, news := PrivateRun.TheTexts(names, s, imports, strs, ps);
      RunStart(s, imports, strs, exports, opt.recomputeCRC, exportNames, importNames);
      rho := RenamePrivate();
      ghost var t := script[..];
      ApplyPrivateTexts(priv, s, strs, ps, rho);
      x, g, unsigned := script[..], SlotUse(0, [], [], [], false), script[..];
      HashRun.ReachedNow(names, s, t, x, imports, strs, ps, exports, exportNames, importNames, rho, numbered);
      ends, order := ApplyPrivateHashes(priv.hashes);
      y := script[..];
      if ends {
        HashRun.SpotsRewritten(names, s, x, y, order, imports, strs, ps, exports, exportNames, importNames, rho, false,
          numbered);
        HashRun.HashedIsLive(s, x, y, imports, strs, ats, exports, false);
        g, unsigned := TasksAfterTexts(s, t, x, strs, rho, ats, news);
      }
    }

    /** The passes over the texts of the script, which is `s` renamed. */
    method ApplyPrivateTexts(priv: PrivateNames.PrivateFile, ghost s: bytes, ghost strs: seq<nat>, ghost ps: seq<nat>,
                             ghost rho: Renaming)
      requires WellLaidOut(s, imports, strs, exports, opt.recomputeCRC) && PrivateRun.TextLayout(s, imports, strs, ps)
      requires |exportNames| == |exports| && |importNames| == |imports| && Bounded(rho)
      requires TablesApart(|s|, Refs(exports), imports)
      requires RenamedBy(s, script[..], Refs(exports), exportNames, imports, importNames, rho)
      requires priv.Valid() && PrivateRun.TextsStable(priv.Contents(), s, ps)
      modifies script
      ensures PrivateRun.ReadyForDev(s, old(script[..]), script[..], imports, strs, exports, opt.recomputeCRC,
        exportNames, importNames, rho, PrivateRun.Texts(s, ps), PrivateRun.News(priv.Contents(), s, ps))
      ensures PrivateRun.TextsDone(priv.Contents(), s, old(script[..]), script[..], ps)
    {
      assert Prepared(s, imports, strs);
      hide WellLaidOut, RenamedBy, TablesApart, Collect, ChecksumLayout, Bounded, Get16, Get32, Refs, PrivateRun.TextLayout,
           PrivateNames.StringsFit, PrivateNames.Stored, PrivateRun.ReadyForDev, PrivateTexts.TextsRenamed, Prepared,
           PrivateTexts.StringsStable, PrivateTexts.ScriptsStable, PrivateTexts.Once, PrivateRun.SameTexts,
           PrivateRun.TextsDone;
      ghost var t := script[..];
      PrivateRun.RenamedKeepsLive(s, t, imports, strs, exports, opt.recomputeCRC, exportNames, importNames, rho);
      PrivateRun.SameLiveTexts(s, t, imports, strs, ps);
      PrivateRun.StableAfter(priv.Contents(), s, t, imports, strs, ps);
      ApplyPrivateStrings(priv, ps);
      ghost var u := script[..];
      PrivateRun.StableAfterStrings(priv.Contents(), s, t, u, imports, strs, ps);
      ApplyPrivateScripts(priv);
      ghost var x := script[..];
      PrivateRun.UnchangedTexts(u, PrivateTexts.ScriptTexts(u));
      PrivateRun.TextsInPlace(priv.Contents(), s, t, u, x, imports, strs, ps);
      PrivateRun.DevIsReady(priv.Contents(), s, t, x, imports, strs, ps, exports, opt.recomputeCRC, exportNames,
                            importNames, rho);
    }

    /** Everything after the hashes, which were rewritten in `x`: the texts of `t` in
        place, which is `s` renamed. */
    method TasksAfterTexts(ghost s: bytes, ghost t: bytes, ghost x: bytes, ghost strs: seq<nat>, ghost rho: Renaming,
                           ghost ats: seq<nat>, ghost news: seq<bytes>)
      returns (ghost g: SlotUse, ghost unsigned: bytes)
      requires Tables() && Small() && trampolineFreeLocations == [] && junkLocation == 0
      requires |exportNames| == |exports| && |importNames| == |imports| && Bounded(rho) && |s| >= HEADER_SIZE
      requires PrivateTexts.TextsApart(s, ats) && |news| == |ats|
      requires PrivateRun.ReadyForDev(s, t, x, imports, strs, exports, opt.recomputeCRC,
        exportNames, importNames, rho, ats, news)
      requires |x| == |s| == script.Length && PrivateRun.OffTextsEdit(s, x, script[..], imports, strs, ats)
      modifies this`trampolineFreeLocations, this`junkLocation, script
      ensures PrivateRun.MeaningKeptRenamed(s, script[..], imports, strs, exports, exportNames, importNames,
        rho, ats, news, !opt.noDebugKill, g, false, PrivateRun.HashedIn(s, x, old(script[..])))
      ensures Uses(g)
      ensures ChecksumsSet(crc, unsigned, script[..], exports, exports, opt.recomputeCRC)
    {
      hide WellLaidOut, RenamedBy, TablesApart, MeaningKept, Collect, ChecksumLayout, Bounded, ChecksumsSet, Get16, Get32,
           Refs, PrivateRun.MeaningKeptRenamed, PrivateRun.ReadyForDev, PrivateTexts.TextsApart, PrivateRun.LiveEdit,
           PrivateRun.OffTextsEdit, PrivateRun.HashedIn;
      ghost var y := script[..];
      ghost var now, imported := PrivateRun.NamesBeforeDev(s, t, x, imports, strs, exports, opt.recomputeCRC, exportNames,
        importNames, rho, ats, news);
      HashRun.HashesAfterTexts(s, t, x, y, imports, strs, exports, opt.recomputeCRC, exportNames, importNames, rho, ats,
                               news);
      HashRun.NamesAfterHashes(x, y, imports, strs, exports, opt.recomputeCRC, now, imported);
      g, unsigned := TasksAfterRenaming(y, strs, map[], now, imported);
      HashRun.MeaningBeforeHashes(x, y, script[..], imports, strs, exports, opt.recomputeCRC, now, imported,
                                  !opt.noDebugKill, g);
      PrivateRun.ConcludeRun(s, t, x, script[..], imports, strs, exports, opt.recomputeCRC, exportNames, importNames, rho,
        ats, news, now, imported, !opt.noDebugKill, g, y);
    }

    /** Everything after the texts, for a script whose records carry the given
        names renamed. */
    method TasksAfterRenaming(ghost s: bytes, ghost strs: seq<nat>, ghost rho: Renaming, ghost names: seq<NameLocated>,
                              ghost imported: seq<NameLocated>)
      returns (ghost g: SlotUse, ghost unsigned: bytes)
      requires Tables() && Small() && trampolineFreeLocations == [] && junkLocation == 0
      requires |s| == script.Length >= HEADER_SIZE && WellLaidOut(s, imports, strs, exports, opt.recomputeCRC)
      requires TablesApart(|s|, Refs(exports), imports) && ChecksumLayout(|s|, exports, opt.recomputeCRC)
      requires |names| == |exports| == Get16(s, EXPORT_COUNT) as int && |imported| == |imports| && Bounded(rho)
      requires RenamedBy(s, script[..], Refs(exports), names, imports, imported, rho)
      modifies this`trampolineFreeLocations, this`junkLocation, script
      ensures MeaningKept(s, script[..], imports, strs, exports, names, imported, rho, !opt.noDebugKill, g, s) && Uses(g)
      ensures ChecksumsSet(crc, unsigned, script[..], exports, exports, opt.recomputeCRC)
    {
      hide SlotsShared, WellLaidOut, Prepared, AfterDev, Jumps.Redirected, Jumps.SlotsClear, ChecksumsSet, RenamedBy, TablesApart,
           MeaningKept, Collect, FromFree, SlotsFree, ChecksumLayout, Bounded, Get16, Get32, Refs, Covered,
           SameEvents, InTable, ExportEnd, NamesCurrent, PrivateSingle, Jumps.Addresses, AllRecs, Recs;
      ghost var t := script[..];
      RenamingKeepsLayout(s, t, imports, strs, exports, opt.recomputeCRC, names, imported, rho);
      PreparedFacts(t, imports, strs);
      KillDev(strs);
      ghost var u, dev := script[..], !opt.noDebugKill;
      AfterDevFacts(t, u, trampolineFreeLocations, junkLocation, dev, imports, strs);
      g, unsigned := TrampolinesAndChecksums(t);
      WholeRunKeepsMeaning(crc, s, t, u, unsigned, script[..], imports, strs, exports, opt.recomputeCRC,
                           names, imported, rho, g, dev);
    }

    /** What follows the dev passes: trampolines, then checksums. */
    method TrampolinesAndChecksums(ghost t: bytes) returns (ghost g: SlotUse, ghost unsigned: bytes)
      requires Tables() && Small() && |t| == script.Length >= HEADER_SIZE
      requires HEADER_SIZE <= ExportTable(t) && ExportEnd(t) <= |t|
      requires ExportTable(script[..]) == ExportTable(t)
      requires Get16(script[..], EXPORT_COUNT) == Get16(t, EXPORT_COUNT)
      requires SlotsFree(|t|, ExportTable(t), Get16(t, EXPORT_COUNT), trampolineFreeLocations)
      requires ChecksumLayout(script.Length, exports, opt.recomputeCRC)
      modifies this`trampolineFreeLocations, script
      ensures Uses(g) && g.freed == old(trampolineFreeLocations)
      ensures |g.given| == Get16(t, EXPORT_COUNT) && FromFree(g.given, g.freed)
      ensures Jumps.SlotsClear(|t|, ExportTable(t), |g.given|, g.given)
      ensures Jumps.Redirected(old(script[..]), unsigned, ExportTable(t), g.given, |g.given|)
      ensures SlotsShared(Jumps.Addresses(old(script[..]), ExportTable(t), |g.given|), g)
      ensures ChecksumsSet(crc, unsigned, script[..], exports, exports, opt.recomputeCRC)
    {
      hide SlotsShared, Jumps.Redirected, Jumps.SlotsClear, ChecksumsSet, Collect, FromFree, SlotsFree, ChecksumLayout, Get16,
           Get32, Jumps.Addresses;
      ghost var free := trampolineFreeLocations;
      ghost var slots := Trampolinate(t);
      g := SlotUse(junkLocation, free, slots, trampolineFreeLocations, !opt.noTrampoline);
      unsigned := script[..];
      ComputeChecksums();
    }

    /** The renaming of private exports, unless it is disabled. */
    method RenamePrivate() returns (ghost rho: Renaming)
      requires Tables() && NamesCurrent(script[..]) && |exports| < NAME_LIMIT
      modifies script
      ensures Numbering(rho) && Bounded(rho)
      ensures forall nl :: nl in rho <==>
        !opt.noRemovePrivateExports && nl in exportsMap && PrivateSingle(exportsMap, old(script[..]), nl)
      ensures RenamedBy(old(script[..]), script[..], Refs(exports), exportNames, imports, importNames, rho)
    {
      rho := map[];
      if !opt.noRemovePrivateExports {
        rho := KillPrivateExports();
      }
    }

    /** The two dev-block passes, unless they are disabled. */
    method KillDev(ghost strs: seq<nat>)
      requires Tables() && Small() && trampolineFreeLocations == [] && junkLocation == 0
      requires Prepared(script[..], imports, strs)
      modifies this`trampolineFreeLocations, this`junkLocation, script
      ensures Small()
      ensures AfterDev(old(script[..]), script[..], trampolineFreeLocations, junkLocation, !opt.noDebugKill, imports, strs)
    {
      PreparedFacts(script[..], imports, strs);
      hide Prepared, AfterDev, Layout, Run, PassEvents, DevEvents, StringPass, RegionClear, SameEvents, Fenced, DevStringWalk;
      ghost var t := script[..];
      if opt.noDebugKill {
        WithoutDev(t, imports, strs);
        return;
      }
      ImportLayout(t, imports, strs);
      ghost var seen := KillDevImports();
      PreparedPermute(t, imports, seen, strs);
      StringLayout(t, seen, strs);
      PassesAreOneRun(t, seen, strs);
      KillDevStrings(strs);
      DevRunDone(t, imports, seen, strs);
    }

    /** The trampolines, unless they are disabled; the slots given out. */
    method Trampolinate(ghost t: bytes) returns (ghost slots: seq<Option<nat>>)
      requires Small() && |t| == script.Length >= HEADER_SIZE
      requires HEADER_SIZE <= ExportTable(t) && ExportEnd(t) <= |t|
      requires ExportTable(script[..]) == ExportTable(t)
      requires Get16(script[..], EXPORT_COUNT) == Get16(t, EXPORT_COUNT)
      requires SlotsFree(|t|, ExportTable(t), Get16(t, EXPORT_COUNT), trampolineFreeLocations)
      modifies this`trampolineFreeLocations, script
      ensures |slots| == Get16(t, EXPORT_COUNT) && FromFree(slots, old(trampolineFreeLocations))
      ensures SlotsShared(Jumps.Addresses(old(script[..]), ExportTable(t), |slots|),
        SlotUse(junkLocation, old(trampolineFreeLocations), slots, trampolineFreeLocations, !opt.noTrampoline))
      ensures Jumps.SlotsClear(|t|, ExportTable(t), |slots|, slots)
      ensures Jumps.Redirected(old(script[..]), script[..], ExportTable(t), slots, |slots|)
    {
      ghost var u, free := script[..], trampolineFreeLocations;
      ghost var table, count := ExportTable(t), Get16(t, EXPORT_COUNT);
      if opt.noTrampoline {
        slots := seq(count, _ => None);
        NoSlots(u, table, slots);
        return;
      }
      ghost var dests := Jumps.Addresses(u, table, count);
      slots := Trampolines.Allocate(Trampolines.Sorted(free), dests).slots;
      SlotsWereFree(|t|, table, count, free, dests);
      AllocationShares(|t|, table, count, free, dests, junkLocation);
      CreateTrampolines();
    }
  }
}
