/** What the obfuscator reads from a script, and the steps of its passes over
    the tables it has read. */
module ScriptTables {
  import opened Bytes
  import opened Results
  import opened GscFormat
  import opened Grouping
  import opened DevKill
  import opened DevTables
  import opened Linking
  import opened PrivateExports
  import Checksums

  /** An export record, its code at load time, and the length its checksum covers. */
  datatype GscExportData = GscExportData(ref: nat, bc: nat, len: nat)

  // ----- What loading reads

  /** Room for the least code: parameter creation and an end. */
  predicate CodeFits(s: bytes, e: nat)
    requires e + EXPORT_SIZE <= |s|
  {
    AlignUp(ExportAddress(s, e), 2) + 4 <= |s|
  }

  predicate ExportsFit(s: bytes)
    requires |s| >= HEADER_SIZE
  {
    var table, count := Get32(s, EXPORT_OFFSET), Get16(s, EXPORT_COUNT);
    count == 0 ||
    (table + EXPORT_SIZE * count <= |s| &&
     forall i :: 0 <= i < count ==> CodeFits(s, ExportAt(table, i)))
  }

  function ImportWalk(s: bytes): Option<seq<nat>>
    requires |s| >= HEADER_SIZE
  {
    Walk(s, Get32(s, IMPORT_OFFSET), Get16(s, IMPORT_COUNT), ImportRecord)
  }

  predicate Loadable(s: bytes) {
    && |s| >= HEADER_SIZE && Get64(s, 0) == VMI_T7_1C
    && ExportsFit(s) && ImportWalk(s).Some?
  }

  function ExportData(crc: Checksums.Crc32, s: bytes, e: nat): GscExportData
    requires e + EXPORT_SIZE <= |s|
  {
    var bc := ExportAddress(s, e);
    GscExportData(e, bc, Checksums.LeastLength(crc, s, bc, Get32(s, e), 1))
  }

  /** What is filed for an export: its record, its code, and the least positive number of
      bytes from there whose checksum is the recorded one, or zero. */
  lemma ExportDataIs(crc: Checksums.Crc32, s: bytes, e: nat)
    requires e + 20 <= |s|
    ensures var d, want := ExportData(crc, s, e), Get32(s, e);
      && d.ref == e && d.bc == Get32(s, e + 4)
      && (d.len > 0 ==> Checksums.Matches(crc, s, d.bc, want, d.len))
      && forall l :: 1 <= l && (d.len == 0 || l < d.len) ==> !Checksums.Matches(crc, s, d.bc, want, l)
  {
    hide Checksums.Matches;
    Checksums.LeastLengthIsLeast(crc, s, Get32(s, e + 4), Get32(s, e), 1, ExportData(crc, s, e).len);
  }

  /** Which scripts load: the size of the header, the magic number "\x80GSC\r\n\0\x1c", room
      for the export table and the least code of each export, and for every import. */
  lemma LoadableIff(s: bytes)
    ensures Loadable(s) <==>
      && |s| >= 72 && s[..8] == [0x80, 71, 83, 67, 13, 10, 0, 0x1c]
      && (Get16(s, 58) == 0 ||
           (Get32(s, 32) + 20 * Get16(s, 58) <= |s|
            && forall i: nat :: i < Get16(s, 58) ==>
                 AlignUp(Get32(s, ExportAt(Get32(s, 32), i) + 4), 2) + 4 <= |s|))
      && exists ps: seq<nat> :: |ps| == Get16(s, 60) && Table(s, Get32(s, 36), ps, ImportRecord)
  {
    hide AlignUp, Get16, Get32, Get64, Walk, Table;
    if |s| >= 72 {
      ScriptMagic(s);
      forall ps: seq<nat>
        ensures ImportWalk(s) == Some(ps) <==> |ps| == Get16(s, 60) && Table(s, Get32(s, 36), ps, ImportRecord)
      {
        WalkIsTable(s, Get32(s, 36), Get16(s, 60), ImportRecord, ps);
      }
    }
  }

  lemma ScriptMagic(s: bytes)
    requires |s| >= 8
    ensures Get64(s, 0) == VMI_T7_1C <==> s[..8] == [0x80, 71, 83, 67, 13, 10, 0, 0x1c]
  {
    var w: bytes := [0x80, 71, 83, 67, 13, 10, 0, 0x1c];
    assert Get64(w, 0) == VMI_T7_1C;
    hide Get64;
    Get64Injective(s, 0, w, 0);
    assert w[0..8] == w && s[0..8] == s[..8];
  }

  function ExportNames(s: bytes, table: nat, n: nat): (r: seq<NameLocated>)
    requires n == 0 || table + EXPORT_SIZE * n <= |s|
    ensures |r| == n
    ensures forall i :: 0 <= i < n ==> r[i] == ExportName(s, ExportAt(table, i))
  {
    seq(n, i requires 0 <= i < n => ExportName(s, ExportAt(table, i)))
  }

  function ExportDatas(crc: Checksums.Crc32, s: bytes, table: nat, n: nat): (r: seq<GscExportData>)
    requires n == 0 || table + EXPORT_SIZE * n <= |s|
    ensures |r| == n
    ensures forall i :: 0 <= i < n ==> r[i] == ExportData(crc, s, ExportAt(table, i))
  {
    seq(n, i requires 0 <= i < n => ExportData(crc, s, ExportAt(table, i)))
  }

  function ImportNames(s: bytes, ps: seq<nat>): (r: seq<NameLocated>)
    requires forall i :: 0 <= i < |ps| ==> ps[i] + IMPORT_SIZE <= |s|
    ensures |r| == |ps|
    ensures forall i :: 0 <= i < |ps| ==> r[i] == ImportName(s, ps[i])
  {
    seq(|ps|, i requires 0 <= i < |ps| => ImportName(s, ps[i]))
  }

  function Recs(ps: seq<nat>, kind: Kind): (r: seq<Rec>)
    ensures |r| == |ps|
    ensures forall i :: 0 <= i < |ps| ==> r[i] == Rec(ps[i], kind)
  {
    seq(|ps|, i requires 0 <= i < |ps| => Rec(ps[i], kind))
  }

  /** Names and data of the first `n` exports. */
  ghost predicate ExportsAre(crc: Checksums.Crc32, s: bytes, n: nat, names: seq<NameLocated>, data: seq<GscExportData>)
    requires |s| >= HEADER_SIZE
  {
    var table := Get32(s, EXPORT_OFFSET);
    && (n == 0 || table + EXPORT_SIZE * n <= |s|)
    && names == ExportNames(s, table, n) && data == ExportDatas(crc, s, table, n)
  }

  lemma NoExportsYet(crc: Checksums.Crc32, s: bytes)
    requires |s| >= HEADER_SIZE
    ensures ExportsAre(crc, s, 0, [], [])
    ensures var names: seq<NameLocated>, data: seq<GscExportData> := [], []; Collect(names, data) == map[]
  {
  }

  lemma ExportsOneMore(crc: Checksums.Crc32, s: bytes, n: nat, names: seq<NameLocated>, data: seq<GscExportData>)
    requires |s| >= HEADER_SIZE && ExportsAre(crc, s, n, names, data)
    requires Get32(s, EXPORT_OFFSET) + EXPORT_SIZE * (n + 1) <= |s|
    ensures var e := ExportAt(Get32(s, EXPORT_OFFSET), n);
      ExportsAre(crc, s, n + 1, names + [ExportName(s, e)], data + [ExportData(crc, s, e)])
  {
  }

  function Prepend<T>(a: seq<T>, r: Option<seq<T>>): Option<seq<T>> {
    match r
    case None => None
    case Some(b) => Some(a + b)
  }

  lemma PrependNothing<T>(r: Option<seq<T>>)
    ensures Prepend([], r) == r && (r.Some? ==> Prepend(r.value, Some([])) == r)
  {
    if r.Some? {
      assert [] + r.value == r.value + [] == r.value;
    }
  }

  /** Names and positions of the imports. */
  ghost predicate ImportsAre(s: bytes, names: seq<NameLocated>, ps: seq<nat>) {
    && (forall i :: 0 <= i < |ps| ==> Fits(s, ps[i], ImportRecord))
    && names == ImportNames(s, ps)
  }

  /** One more import record of the walk. */
  lemma ImportsOneMore(s: bytes, names: seq<NameLocated>, ps: seq<nat>, p: nat, left: nat)
    requires ImportsAre(s, names, ps) && left > 0 && Fits(s, p, ImportRecord)
    ensures ImportsAre(s, names + [ImportName(s, p)], ps + [p])
    ensures Prepend(ps, Walk(s, p, left, ImportRecord))
         == Prepend(ps + [p], Walk(s, RecordEnd(s, p, ImportRecord), left - 1, ImportRecord))
  {
    var r := Walk(s, RecordEnd(s, p, ImportRecord), left - 1, ImportRecord);
    if r.Some? {
      assert ps + ([p] + r.value) == ps + [p] + r.value;
    }
  }

  /** A name exported once, by a private function. */
  predicate PrivateSingle(m: map<NameLocated, seq<GscExportData>>, s: bytes, nl: NameLocated) {
    && nl in m && |m[nl]| == 1
    && m[nl][0].ref + EXPORT_SIZE <= |s| && ExportPrivate(s, m[nl][0].ref)
  }

  lemma PrivateByFlags(m: map<NameLocated, seq<GscExportData>>, s: bytes, nl: NameLocated, flags: byte)
    requires nl in m && |m[nl]| == 1 && m[nl][0].ref + EXPORT_SIZE <= |s| && s[m[nl][0].ref + 17] == flags
    ensures PrivateSingle(m, s, nl) <==> IsPrivate(flags)
  {
  }

  lemma RecsMore(ps: seq<nat>, p: nat, kind: Kind)
    ensures Recs(ps + [p], kind) == Recs(ps, kind) + [Rec(p, kind)]
  {
  }

  lemma EmptyPass(st: State)
    requires |st.script| < 0x1_0000_0000 && st.junk < 0x1_0000_0000
    ensures AllFit(st.script, Recs([], ImportRecord))
    ensures Run(st, PassEvents(st.script, Recs([], ImportRecord))) == st
  {
    assert Recs([], ImportRecord) == [];
  }

  lemma LayoutFits(s: bytes, rs: seq<Rec>)
    requires Layout(s, rs)
    ensures AllFit(s, rs)
  {
  }

  lemma ImportHeader(st: State, done: seq<Rec>, r: Rec, n: nat)
    requires |st.script| < 0x1_0000_0000 && st.junk < 0x1_0000_0000 && r.kind == ImportRecord
    requires Layout(st.script, done + [r]) && AllFit(st.script, done) && Fits(st.script, r.p, r.kind)
    requires n <= |RecordEvents(st.script, r)|
    ensures var t := Run(st, Progress(st.script, done, r, n)).script;
      && Get16(t, r.p + 8) == Get16(st.script, r.p + 8)
      && t[r.p + 11] == st.script[r.p + 11]
  {
    HeaderStable(st, done, r, n, r.p + 8);
    HeaderStable(st, done, r, n, r.p + 9);
    HeaderStable(st, done, r, n, r.p + 11);
  }

  lemma NoEvents(s: bytes, p: nat)
    requires Fits(s, p, ImportRecord) && !IsDevCall(s[p + 11])
    ensures RecordEvents(s, Rec(p, ImportRecord)) == []
  {
  }

  lemma ImportEvents(s: bytes, p: nat)
    requires Fits(s, p, ImportRecord) && IsDevCall(s[p + 11])
    ensures var es := RecordEvents(s, Rec(p, ImportRecord)); var n := Get16(s, p + 8);
      && |es| == 2 + n && es[0] == Write(p, Le32(AssertHash())) && es[1] == Write(p + 10, [1])
      && forall j :: 0 <= j < n ==>
           es[2 + j] == Kill(p + IMPORT_SIZE + 4 * j, 8, if IsMethod(s[p + 11]) then 1 else 0)
  {
    hide AssertHash, IsMethod, IsDevCall, Le32;
    var n := Get16(s, p + 8);
    var delta := if IsMethod(s[p + 11]) then 1 else 0;
    var kills := Kills(p + IMPORT_SIZE, n, 8, delta);
    var es := RecordEvents(s, Rec(p, ImportRecord));
    assert es == [Write(p, Le32(AssertHash())), Write(p + 10, [1])] + kills;
    forall j | 0 <= j < n
      ensures es[2 + j] == Kill(p + IMPORT_SIZE + 4 * j, 8, delta)
    {
      assert es[2 + j] == kills[j];
    }
  }

  /** The records visited, and the next one of the group, are a well laid out
      part of the table. */
  lemma NextRecord(s: bytes, names: seq<NameLocated>, ps: seq<nat>, ks: set<NameLocated>, nl: NameLocated,
                   before: seq<nat>, group: seq<nat>, i: nat)
    requires |names| == |ps| && Layout(s, Recs(ps, ImportRecord))
    requires nl !in ks && nl in Collect(names, ps) && group == Collect(names, ps)[nl] && i < |group|
    requires multiset(before) == multiset(SelectAll(names, ps, ks))
    ensures Fits(s, group[i], ImportRecord)
    ensures Layout(s, Recs(before + group[..i], ImportRecord) + [Rec(group[i], ImportRecord)])
  {
    hide Collect, SelectAll, MarksAvoid, InRecord;
    VisitGroup(names, ps, ks, nl, before);
    var rest := UnvisitedPart(names, ps, ks + {nl});
    var all := before + group + rest;
    RecsPermute(ps, all, ImportRecord);
    LayoutOfPermutation(s, Recs(ps, ImportRecord), Recs(all, ImportRecord));
    var front := before + group[..i] + [group[i]];
    assert all[..|front|] == front;
    RecsMore(before + group[..i], group[i], ImportRecord);
    assert Recs(all, ImportRecord)[..|front|] == Recs(front, ImportRecord);
    LayoutPrefix(s, Recs(all, ImportRecord), |front|);
    assert all[|before| + i] == group[i];
    assert Recs(all, ImportRecord)[|before| + i] == Rec(group[i], ImportRecord);
  }

  lemma {:induction false} LayoutPrefix(s: bytes, rs: seq<Rec>, n: nat)
    requires Layout(s, rs) && n <= |rs|
    ensures Layout(s, rs[..n])
    decreases |rs|
  {
    if n < |rs| {
      LayoutFront(s, rs);
      LayoutPrefix(s, rs[..|rs| - 1], n);
      assert rs[..|rs| - 1][..n] == rs[..n];
    } else {
      assert rs[..n] == rs;
    }
  }

  /** What is left of a table once some of its groups have been visited. */
  lemma {:induction false} UnvisitedPart(names: seq<NameLocated>, ps: seq<nat>, ks: set<NameLocated>)
    returns (rest: seq<nat>)
    requires |names| == |ps|
    ensures multiset(SelectAll(names, ps, ks)) + multiset(rest) == multiset(ps)
    decreases |names|
  {
    if names == [] {
      rest := [];
      assert ps == [];
    } else {
      var n := |names| - 1;
      rest := UnvisitedPart(names[..n], ps[..n], ks);
      assert ps == ps[..n] + [ps[n]];
      if names[n] !in ks {
        rest := rest + [ps[n]];
      }
    }
  }

  lemma {:induction false} RecsMultiset(ps: seq<nat>, kind: Kind, x: nat)
    ensures multiset(Recs(ps, kind))[Rec(x, kind)] == multiset(ps)[x]
    ensures forall r: Rec :: r.kind != kind ==> multiset(Recs(ps, kind))[r] == 0
    decreases |ps|
  {
    if ps != [] {
      var n := |ps| - 1;
      RecsMultiset(ps[..n], kind, x);
      assert ps == ps[..n] + [ps[n]];
      RecsMore(ps[..n], ps[n], kind);
    }
  }

  lemma RecsPermute(a: seq<nat>, b: seq<nat>, kind: Kind)
    requires multiset(a) == multiset(b)
    ensures multiset(Recs(a, kind)) == multiset(Recs(b, kind))
  {
    forall r: Rec
      ensures multiset(Recs(a, kind))[r] == multiset(Recs(b, kind))[r]
    {
      RecsMultiset(a, kind, r.p);
      RecsMultiset(b, kind, r.p);
      assert r.kind == kind ==> r == Rec(r.p, kind);
    }
  }

  function DevStringWalk(s: bytes): Option<seq<nat>>
    requires |s| >= HEADER_SIZE
  {
    Walk(s, Get32(s, DEVBLOCK_STRING_OFFSET), Get16(s, DEVBLOCK_STRING_COUNT), StringRecord)
  }

  /** The dev string pass: the records, then the header's count and offset. */
  function StringPass(s: bytes, strs: seq<nat>): seq<Event>
    requires AllFit(s, Recs(strs, StringRecord))
  {
    PassEvents(s, Recs(strs, StringRecord))
    + (if strs == [] then [] else [Write(DEVBLOCK_STRING_COUNT, Zeros(2))])
    + [Write(DEVBLOCK_STRING_OFFSET, Zeros(4))]
  }

  lemma DevStringTable(s: bytes, strs: seq<nat>)
    requires |s| >= HEADER_SIZE && DevStringWalk(s) == Some(strs)
    ensures |strs| == Get16(s, DEVBLOCK_STRING_COUNT) && AllFit(s, Recs(strs, StringRecord))
    ensures Table(s, Get32(s, DEVBLOCK_STRING_OFFSET), strs, StringRecord)
    ensures strs != [] ==> strs[0] == Get32(s, DEVBLOCK_STRING_OFFSET)
  {
    WalkIsTable(s, Get32(s, DEVBLOCK_STRING_OFFSET), Get16(s, DEVBLOCK_STRING_COUNT), StringRecord, strs);
  }

  lemma ForgetCount(st: State, strs: seq<nat>)
    requires |st.script| < 0x1_0000_0000 && st.junk < 0x1_0000_0000
    requires AllFit(st.script, Recs(strs, StringRecord))
    ensures var es := PassEvents(st.script, Recs(strs, StringRecord));
      Run(st, es + [Write(DEVBLOCK_STRING_COUNT, Zeros(2))])
      == Apply(Run(st, es), Write(DEVBLOCK_STRING_COUNT, Zeros(2)))
  {
    RunOne(st, PassEvents(st.script, Recs(strs, StringRecord)), Write(DEVBLOCK_STRING_COUNT, Zeros(2)));
  }

  lemma ForgetOffset(st: State, strs: seq<nat>)
    requires |st.script| < 0x1_0000_0000 && st.junk < 0x1_0000_0000
    requires AllFit(st.script, Recs(strs, StringRecord))
    ensures var es := PassEvents(st.script, Recs(strs, StringRecord));
      Run(st, StringPass(st.script, strs)) ==
        Apply(if strs == [] then Run(st, es) else Run(st, es + [Write(DEVBLOCK_STRING_COUNT, Zeros(2))]),
              Write(DEVBLOCK_STRING_OFFSET, Zeros(4)))
  {
    var es := PassEvents(st.script, Recs(strs, StringRecord));
    var last := Write(DEVBLOCK_STRING_OFFSET, Zeros(4));
    if strs == [] {
      assert StringPass(st.script, strs) == es + [last];
      RunOne(st, es, last);
    } else {
      RunOne(st, es + [Write(DEVBLOCK_STRING_COUNT, Zeros(2))], last);
    }
  }

  lemma StringEvents(s: bytes, p: nat)
    requires Fits(s, p, StringRecord)
    ensures var es := RecordEvents(s, Rec(p, StringRecord)); var n: nat := s[p + 4];
      && |es| == n + 2 && Addresses(s, p, StringRecord) == n
      && (forall j :: 0 <= j < n ==> es[j] == Kill(p + STRING_SIZE + 4 * j, 4, 0))
      && es[n] == Write(p + STRING_SIZE, Zeros(4 * n)) && es[n + 1] == Write(p, Zeros(STRING_SIZE))
  {
    hide Zeros, AssertHash, Le32, Kills, Get16, Get32;
    var n: nat := s[p + 4];
    var kills := Kills(p + STRING_SIZE, n, 4, 0);
    var es := RecordEvents(s, Rec(p, StringRecord));
    assert es == kills + [Write(p + STRING_SIZE, Zeros(4 * n)), Write(p, Zeros(STRING_SIZE))];
    forall j | 0 <= j < n
      ensures es[j] == Kill(p + STRING_SIZE + 4 * j, 4, 0)
    {
      assert es[j] == kills[j];
    }
  }

  lemma StringHeader(st: State, done: seq<Rec>, r: Rec, n: nat)
    requires |st.script| < 0x1_0000_0000 && st.junk < 0x1_0000_0000 && r.kind == StringRecord
    requires Layout(st.script, done + [r]) && AllFit(st.script, done) && Fits(st.script, r.p, r.kind)
    requires n <= |RecordEvents(st.script, r)| && n <= Addresses(st.script, r.p, r.kind)
    ensures Run(st, Progress(st.script, done, r, n)).script[r.p + 4] == st.script[r.p + 4]
  {
    HeaderStable(st, done, r, n, r.p + 4);
  }

  lemma PassPrefix(s: bytes, rs: seq<Rec>, n: nat)
    requires AllFit(s, rs) && n <= |rs|
    ensures AllFit(s, rs[..n])
    ensures n == 0 ==> PassEvents(s, rs[..n]) == []
    ensures n == |rs| ==> rs[..n] == rs
  {
    assert forall i :: 0 <= i < n ==> rs[..n][i] == rs[i];
  }

  /** The next string record: still as it was, and followed by the one after. */
  lemma NextString(st: State, strs: seq<nat>, i: nat)
    requires |st.script| < 0x1_0000_0000 && st.junk < 0x1_0000_0000 && i < |strs|
    requires Layout(st.script, Recs(strs, StringRecord)) && AllFit(st.script, Recs(strs, StringRecord)[..i])
    requires |st.script| >= HEADER_SIZE
    requires Table(st.script, Get32(st.script, DEVBLOCK_STRING_OFFSET), strs, StringRecord)
    ensures Fits(st.script, strs[i], StringRecord)
    ensures Layout(st.script, Recs(strs, StringRecord)[..i] + [Rec(strs[i], StringRecord)])
    ensures Recs(strs, StringRecord)[..i] + [Rec(strs[i], StringRecord)] == Recs(strs, StringRecord)[..i + 1]
    ensures Run(st, PassEvents(st.script, Recs(strs, StringRecord)[..i])).script[strs[i] + 4] == st.script[strs[i] + 4]
    ensures i + 1 < |strs| ==> strs[i + 1] == strs[i] + STRING_SIZE + 4 * st.script[strs[i] + 4] as int
  {
    hide Run, PassEvents, RecordEvents, MarksAvoid, Get32;
    var rs, r := Recs(strs, StringRecord), Rec(strs[i], StringRecord);
    LayoutPrefix(st.script, rs, i + 1);
    assert rs[..i] + [r] == rs[..i + 1];
    StringHeader(st, rs[..i], r, 0);
    ProgressStarts(st.script, rs[..i], r);
  }

  lemma HeaderKept(st: State, rs: seq<Rec>, i: nat)
    requires |st.script| < 0x1_0000_0000 && st.junk < 0x1_0000_0000 && |st.script| >= HEADER_SIZE
    requires Layout(st.script, rs) && RegionClear(st.script, rs, 0, HEADER_SIZE) && i <= |rs|
    ensures AllFit(st.script, rs[..i])
    ensures Get16(Run(st, PassEvents(st.script, rs[..i])).script, DEVBLOCK_STRING_COUNT)
         == Get16(st.script, DEVBLOCK_STRING_COUNT)
  {
    hide Run, PassEvents, Layout, RegionClear, Get16;
    LayoutPrefix(st.script, rs, i);
    RegionClearPrefix(st.script, rs, 0, HEADER_SIZE, i);
    RegionKept(st, rs[..i], 0, HEADER_SIZE, DEVBLOCK_STRING_COUNT);
    RegionKept(st, rs[..i], 0, HEADER_SIZE, DEVBLOCK_STRING_COUNT + 1);
    LayoutFits(st.script, rs[..i]);
    SameField16(Run(st, PassEvents(st.script, rs[..i])).script, st.script, DEVBLOCK_STRING_COUNT);
  }

  /** The numbers given out once only the names in `keys` are left. */
  ghost predicate Numbered(m: map<NameLocated, seq<GscExportData>>, s: bytes, keys: set<NameLocated>, rho: Renaming) {
    && Numbering(rho) && |rho| + |keys| <= |m|
    && forall nl :: nl in rho <==> nl in m && nl !in keys && PrivateSingle(m, s, nl)
  }

  lemma NumberStep(m: map<NameLocated, seq<GscExportData>>, s: bytes, keys: set<NameLocated>,
                   nl: NameLocated, rho: Renaming)
    requires |m| < NAME_LIMIT && nl in keys && keys <= m.Keys && Numbered(m, s, keys, rho)
    ensures var next := rho[nl := |rho| + 1];
      && |next| == |rho| + 1 < NAME_LIMIT
      && Numbered(m, s, keys - {nl}, if PrivateSingle(m, s, nl) then next else rho)
  {
    assert |keys - {nl}| == |keys| - 1;
    NumberOneMore(rho, nl);
  }

  function Refs(exports: seq<GscExportData>): (r: seq<nat>)
    ensures |r| == |exports| && forall i :: 0 <= i < |r| ==> r[i] == exports[i].ref
  {
    seq(|exports|, i requires 0 <= i < |exports| => exports[i].ref)
  }

  lemma {:induction false} CollectSize<T>(names: seq<NameLocated>, vals: seq<T>)
    requires |names| == |vals|
    ensures |Collect(names, vals)| <= |vals|
    decreases |names|
  {
    if names != [] {
      var n := |names| - 1;
      CollectSize(names[..n], vals[..n]);
      var m := Collect(names[..n], vals[..n]);
      assert Collect(names, vals).Keys == m.Keys + {names[n]};
      assert |Collect(names, vals)| == |Collect(names, vals).Keys| && |m| == |m.Keys|;
    }
  }

  /** A name filed once belongs to exactly one export record. */
  lemma SingleExport(names: seq<NameLocated>, exports: seq<GscExportData>, nl: NameLocated)
    returns (x: nat)
    requires |names| == |exports| && nl in Collect(names, exports) && |Collect(names, exports)[nl]| == 1
    requires forall i, j :: 0 <= i < j < |exports| ==> exports[i].ref + EXPORT_SIZE <= exports[j].ref
    ensures x < |exports| && exports[x] == Collect(names, exports)[nl][0]
    ensures forall i :: 0 <= i < |exports| ==> (names[i] == nl <==> i == x)
  {
    CollectSelects(names, exports, nl);
    var one := Select(names, exports, nl);
    x := SelectOrigin(names, exports, nl, one[0]);
    forall i | 0 <= i < |exports| && names[i] == nl
      ensures i == x
    {
      SelectHas(names, exports, i);
      assert exports[i] == one[0];
    }
  }

  /** The group of imports under a name is exactly the imports of that name. */
  lemma GroupMembers(names: seq<NameLocated>, ps: seq<nat>, nl: NameLocated, size: nat)
    requires |names| == |ps| && forall i :: 0 <= i < |ps| ==> ps[i] + IMPORT_SIZE <= size
    requires forall i, j :: 0 <= i < j < |ps| ==> ps[i] + IMPORT_SIZE <= ps[j]
    ensures var group := if nl in Collect(names, ps) then Collect(names, ps)[nl] else [];
      && (forall i :: 0 <= i < |ps| ==> (ps[i] in group <==> names[i] == nl))
      && (forall p :: p in group ==> p in ps)
      && forall i :: 0 <= i < |group| ==> group[i] + 4 <= size
  {
    CollectSelects(names, ps, nl);
    var group := Select(names, ps, nl);
    assert group == if nl in Collect(names, ps) then Collect(names, ps)[nl] else [];
    forall p: nat | p in group
      ensures p in ps && p + IMPORT_SIZE <= size
    {
      var j := SelectOrigin(names, ps, nl, p);
    }
    assert forall i :: 0 <= i < |group| ==> group[i] in group;
    forall i | 0 <= i < |ps|
      ensures ps[i] in group <==> names[i] == nl
    {
      if ps[i] in group {
        var j := SelectOrigin(names, ps, nl, ps[i]);
      }
      if names[i] == nl {
        SelectHas(names, ps, i);
      }
    }
  }

  lemma ExportFacts(names: seq<NameLocated>, exports: seq<GscExportData>, ps: seq<nat>, size: nat, nl: NameLocated)
    returns (x: nat)
    requires |names| == |exports| && nl in Collect(names, exports) && |Collect(names, exports)[nl]| == 1
    requires TablesApart(size, Refs(exports), ps)
    ensures x < |exports| && exports[x] == Collect(names, exports)[nl][0]
    ensures exports[x].ref == Refs(exports)[x] && exports[x].ref + EXPORT_SIZE <= size
    ensures forall i :: 0 <= i < |exports| ==> (names[i] == nl <==> i == x)
  {
    forall i, j | 0 <= i < j < |exports|
      ensures exports[i].ref + EXPORT_SIZE <= exports[j].ref
    {
      assert Refs(exports)[i] + EXPORT_SIZE <= Refs(exports)[j];
    }
    x := SingleExport(names, exports, nl);
    assert Refs(exports)[x] + EXPORT_SIZE <= size;
  }

  lemma ImportFacts(exports: seq<GscExportData>, names: seq<NameLocated>, ps: seq<nat>, size: nat, nl: NameLocated)
    requires |names| == |ps| && TablesApart(size, Refs(exports), ps)
    ensures var group := if nl in Collect(names, ps) then Collect(names, ps)[nl] else [];
      && (forall i :: 0 <= i < |ps| ==> (ps[i] in group <==> names[i] == nl))
      && (forall p :: p in group ==> p in ps)
      && forall i :: 0 <= i < |group| ==> group[i] + 4 <= size
  {
    GroupMembers(names, ps, nl, size);
  }

  lemma SingleByCount(m: map<NameLocated, seq<GscExportData>>, s: bytes, nl: NameLocated)
    requires nl in m && |m[nl]| != 1
    ensures !PrivateSingle(m, s, nl)
  {
  }

  /** Renaming does not touch an export's flags. */
  lemma FlagKept(s: bytes, t: bytes, refs: seq<nat>, exportNames: seq<NameLocated>,
                 ps: seq<nat>, importNames: seq<NameLocated>, rho: Renaming, x: nat)
    requires |exportNames| == |refs| && |importNames| == |ps| && TablesApart(|s|, refs, ps) && Bounded(rho)
    requires RenamedBy(s, t, refs, exportNames, ps, importNames, rho) && x < |refs|
    ensures |t| == |s| && refs[x] + EXPORT_SIZE <= |s| && t[refs[x] + 17] == s[refs[x] + 17]
  {
    assert !NameByte(refs, ps, refs[x] + 17);
  }

  lemma NumberOneMore(rho: Renaming, nl: NameLocated)
    requires Numbering(rho) && nl !in rho && |rho| + 1 < NAME_LIMIT
    ensures Numbering(rho[nl := |rho| + 1]) && |rho[nl := |rho| + 1]| == |rho| + 1
  {
    var r := rho[nl := |rho| + 1];
    assert r.Keys == rho.Keys + {nl};
    assert |r| == |r.Keys| && |rho| == |rho.Keys|;
  }

  lemma CollectOneMore<T>(names: seq<NameLocated>, vals: seq<T>, k: NameLocated, v: T)
    requires |names| == |vals|
    ensures Collect(names + [k], vals + [v]) == Add(Collect(names, vals), k, v)
  {
    assert (names + [k])[..|names|] == names && (vals + [v])[..|vals|] == vals;
  }
}
