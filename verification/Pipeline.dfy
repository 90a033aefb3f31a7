/** A fastfile from reading to writing back (HandleFFFile in main.cpp). */
module Pipeline {
  import opened Bytes
  import opened Results
  import opened Compression
  import opened FastfileFormat
  import opened Linking
  import GscFormat
  import opened ScriptTables
  import GscFinder
  import PrivateNames
  import PrivateTexts
  import SlotPass
  import WholeRun
  import PrivateRun
  import LocalRun

  /** A script file's new name is a script file's name of the same length. */
  lemma RenamedIsScriptFile(scripts: map<bytes, bytes>, name: bytes)
    requires PrivateNames.Stored(scripts) && GscFinder.ScriptFile(name) && 0 !in name
    ensures var r := PrivateNames.NewName(scripts, name);
      |r| == |name| && GscFinder.ScriptFile(r) && 0 !in r
  {
    if name in scripts {
      var repl := scripts[name];
      PrivateNames.DisguiseHasNoZero(repl, name);
      assert repl[|repl| - 4..] == name[|name| - 4..];
    }
  }

  /** The header with another compression or builder: still accepted, same size. */
  ghost predicate Reheaded(header: bytes, h: bytes) {
    |header| == |h| == HEADER_SIZE && HeaderError(h).None? && Get64(h, SIZE) == Get64(header, SIZE)
  }

  /** What the run over one found script was: its tables as loaded, the numbering
      chosen, the options that decide what changes, and the script with the rewritten
      hashes in it. */
  datatype ScriptRun = ScriptRun(imps: seq<nat>, strs: seq<nat>, ps: seq<nat>, exports: seq<GscExportData>,
                                 recompute: bool, exportNames: seq<GscFormat.NameLocated>,
                                 importNames: seq<GscFormat.NameLocated>, rho: Renaming, dev: bool, g: SlotPass.SlotUse,
                                 locals: bool, hashed: bytes)

  function ObjOf(s: bytes, o: GscFinder.GscObject): bytes
    requires o.End() <= |s|
  {
    s[o.Obj()..o.End()]
  }

  /** One found script renamed and run over: its name as the private file says, its
      contents as the run promises. */
  ghost predicate ObjectRun(names: PrivateNames.Names, s: bytes, t: bytes, o: GscFinder.GscObject, r: ScriptRun) {
    && |t| == |s| && o.name <= o.nameEnd && o.End() <= |s|
    && t[o.name..o.nameEnd] == PrivateNames.NewName(names.scripts, s[o.name..o.nameEnd])
    && WholeRun.WellLaidOut(ObjOf(s, o), r.imps, r.strs, r.exports, r.recompute)
    && (r.locals ==> LocalRun.LocalLayout(ObjOf(s, o), r.imps, r.strs, r.ps, r.exports))
    && PrivateRun.LiveEdit(ObjOf(s, o), r.hashed, r.imps, r.strs)
    && PrivateRun.RunKept(names, ObjOf(s, o), ObjOf(t, o), r.imps, r.strs, r.ps, r.exports, r.exportNames,
                          r.importNames, r.rho, r.dev, r.g, r.locals, r.hashed)
  }

  /** A run keeps the magic number of the script. */
  lemma MagicComesThrough(names: PrivateNames.Names, s: bytes, v: bytes, r: ScriptRun)
    requires WholeRun.WellLaidOut(s, r.imps, r.strs, r.exports, r.recompute)
    requires r.locals ==> LocalRun.LocalLayout(s, r.imps, r.strs, r.ps, r.exports)
    requires PrivateRun.RunKept(names, s, v, r.imps, r.strs, r.ps, r.exports, r.exportNames, r.importNames, r.rho, r.dev,
                                r.g, r.locals, r.hashed)
    requires PrivateRun.LiveEdit(s, r.hashed, r.imps, r.strs)
    ensures |s| == |v| >= 8 && Get64(v, 0) == Get64(s, 0)
  {
    var ats, news := PrivateRun.TheTexts(names, s, r.imps, r.strs, r.ps);
    assert PrivateRun.TextsLive(s, r.imps, r.strs, ats);
    assert r.locals ==> PrivateRun.LocalsLive(s, r.imps, r.strs, r.exports) by {
      if r.locals {
        LocalRun.LocalsAreLive(s, r.imps, r.strs, r.ps, r.exports);
      }
    }
    hide WholeRun.WellLaidOut, PrivateRun.TextLayout, PrivateRun.OthersKept, PrivateTexts.TextsApart, Get64,
         LocalRun.LocalLayout, PrivateRun.TextsLive, PrivateRun.LocalsLive;
    PrivateRun.HeaderComesThrough(s, v, r.imps, r.strs, r.exports, r.recompute, ats, r.dev, r.locals, r.hashed);
  }

  ghost predicate InNoObject(objs: seq<GscFinder.GscObject>, k: int) {
    forall i :: 0 <= i < |objs| ==> !GscFinder.InObject(objs[i], k)
  }

  /** Renaming and running over every script found patches the contents: names
      stay script names and scripts stay scripts. */
  lemma RunsPatch(names: PrivateNames.Names, s: bytes, t: bytes, runs: seq<ScriptRun>)
    requires PrivateNames.Stored(names.scripts) && GscFinder.Scan(s, 0).Ok? && |t| == |s|
    requires |runs| == |GscFinder.Scan(s, 0).value|
    requires forall i :: 0 <= i < |runs| ==> ObjectRun(names, s, t, GscFinder.Scan(s, 0).value[i], runs[i])
    requires forall k :: 0 <= k < |s| && InNoObject(GscFinder.Scan(s, 0).value, k) ==> t[k] == s[k]
    ensures GscFinder.Patched(s, t, 0, GscFinder.Scan(s, 0).value)
  {
    hide GscFinder.Scan, ObjectRun, GscFinder.IsScript, GscFinder.StillScript, PrivateNames.Stored, GscFinder.InObject;
    var objs := GscFinder.Scan(s, 0).value;
    GscFinder.ScanFindsScripts(s, 0);
    forall i | 0 <= i < |objs|
      ensures GscFinder.StillScript(t, objs[i])
    {
      RunIsScript(names, s, t, objs[i], runs[i]);
    }
  }

  lemma RunIsScript(names: PrivateNames.Names, s: bytes, t: bytes, o: GscFinder.GscObject, r: ScriptRun)
    requires PrivateNames.Stored(names.scripts) && GscFinder.IsScript(s, o) && ObjectRun(names, s, t, o, r)
    ensures GscFinder.StillScript(t, o)
  {
    hide PrivateNames.Stored, GscFinder.ScriptFile, Get64, PrivateRun.RunKept, WholeRun.WellLaidOut, LocalRun.LocalLayout, PrivateRun.LiveEdit,
         PrivateNames.NewName;
    RenamedIsScriptFile(names.scripts, s[o.name..o.nameEnd]);
    MagicComesThrough(names, ObjOf(s, o), ObjOf(t, o), r);
    SameMagic(s, o);
    SameMagic(t, o);
  }

  lemma SameMagic(s: bytes, o: GscFinder.GscObject)
    requires o.End() <= |s| && o.fileSize >= 8
    ensures Get64(ObjOf(s, o), 0) == Get64(s, o.Obj())
  {
  }

  /** Reading a fastfile, patching the scripts found in it and writing it back
      gives a file that reads as the patched contents, in which the same scripts
      are found in the same places. */
  lemma PatchedFileReadsBack(lib: Libraries, file: bytes, patched: bytes, header: bytes)
    requires Sound(lib) && Unpack(lib, file).Ok?
    requires var info := Unpack(lib, file).value;
      && Reheaded(info.header, header) && GscFinder.Scan(info.out, 0).Ok?
      && GscFinder.Patched(info.out, patched, 0, GscFinder.Scan(info.out, 0).value)
    requires var info := FastfileInfo(Unpack(lib, file).value.maxBlockSize, header, patched);
      && Pack(lib, info).Ok?
      && Undoes(lib, Codec(info), info.maxBlockSize)
      && SizesFit(lib, Codec(info), patched, info.maxBlockSize)
      && Below4G(Starts(lib, Codec(info), patched, info.maxBlockSize, HEADER_SIZE))
    ensures
      var info := Unpack(lib, file).value;
      var g := Pack(lib, FastfileInfo(info.maxBlockSize, header, patched)).value;
      && Unpack(lib, g) == Ok(FastfileInfo(info.maxBlockSize, ClearSignature(header), patched))
      && GscFinder.Scan(patched, 0) == GscFinder.Scan(info.out, 0)
  {
    hide GscFinder.Scan, Stream, SizesFit, Starts, Undoes, HeaderError, ReadBlocks, ClearSignature;
    var info := Unpack(lib, file).value;
    RoundTrip(lib, FastfileInfo(info.maxBlockSize, header, patched));
    GscFinder.RescanFindsTheSame(info.out, patched, 0);
  }
}
