/** The name fields that GscObfuscator::KillPrivateExports rewrites. */
module PrivateExports {
  import opened Bytes
  import opened GscFormat
  import opened Grouping
  import opened Linking

  /** Export records, then import headers, pairwise apart and in the script. */
  ghost predicate TablesApart(size: nat, refs: seq<nat>, ps: seq<nat>) {
    && (forall i :: 0 <= i < |refs| ==> refs[i] + EXPORT_SIZE <= size)
    && (forall i :: 0 <= i < |ps| ==> ps[i] + IMPORT_SIZE <= size)
    && (forall i, j :: 0 <= i < j < |refs| ==> refs[i] + EXPORT_SIZE <= refs[j])
    && (forall i, j :: 0 <= i < j < |ps| ==> ps[i] + IMPORT_SIZE <= ps[j])
    && forall i, j :: 0 <= i < |refs| && 0 <= j < |ps| ==>
         refs[i] + EXPORT_SIZE <= ps[j] || ps[j] + IMPORT_SIZE <= refs[i]
  }

  predicate NameByte(refs: seq<nat>, ps: seq<nat>, k: int) {
    || (exists i :: 0 <= i < |refs| && refs[i] + 8 <= k < refs[i] + 12)
    || (exists i :: 0 <= i < |ps| && ps[i] <= k < ps[i] + 4)
  }

  ghost predicate Bounded(rho: Renaming) {
    forall k :: k in rho ==> rho[k] < NAME_LIMIT
  }

  /** Every record carries its renamed name, and no other byte changed. */
  ghost predicate RenamedBy(s: bytes, t: bytes, refs: seq<nat>, exportNames: seq<NameLocated>,
                            ps: seq<nat>, importNames: seq<NameLocated>, rho: Renaming)
    requires |exportNames| == |refs| && |importNames| == |ps| && TablesApart(|s|, refs, ps) && Bounded(rho)
  {
    && |t| == |s|
    && (forall i :: 0 <= i < |refs| ==> ExportName(t, refs[i]) == Renamed(exportNames[i], rho))
    && (forall i :: 0 <= i < |ps| ==> ImportName(t, ps[i]) == Renamed(importNames[i], rho))
    && forall k :: 0 <= k < |s| && !NameByte(refs, ps, k) ==> t[k] == s[k]
  }

  /** Writing one name into a group of imports. */
  function PutNames(s: bytes, group: seq<nat>, v: u32): (r: bytes)
    requires forall i :: 0 <= i < |group| ==> group[i] + 4 <= |s|
    ensures |r| == |s|
    decreases |group|
  {
    if group == [] then s
    else
      var n := |group| - 1;
      Put32(PutNames(s, group[..n], v), group[n], v)
  }

  /** A name written into one export and a group of imports. */
  function WriteNames(s: bytes, e: nat, group: seq<nat>, v: u32): (r: bytes)
    requires e + EXPORT_SIZE <= |s| && forall i :: 0 <= i < |group| ==> group[i] + 4 <= |s|
    ensures |r| == |s|
  {
    PutNames(Put32(s, e + 8, v), group, v)
  }

  predicate InGroup(group: seq<nat>, k: int) {
    exists i :: 0 <= i < |group| && group[i] <= k < group[i] + 4
  }

  lemma {:induction false} PutNamesFrame(s: bytes, group: seq<nat>, v: u32)
    requires forall i :: 0 <= i < |group| ==> group[i] + 4 <= |s|
    ensures forall k :: 0 <= k < |s| && !InGroup(group, k) ==> PutNames(s, group, v)[k] == s[k]
    decreases |group|
  {
    if group != [] {
      var n := |group| - 1;
      PutNamesFrame(s, group[..n], v);
      forall k | 0 <= k < |s| && !InGroup(group, k)
        ensures PutNames(s, group, v)[k] == s[k]
      {
        assert !(group[n] <= k < group[n] + 4);
        assert !InGroup(group[..n], k) by {
          assert forall i :: 0 <= i < n ==> group[..n][i] == group[i];
        }
      }
    }
  }

  /** Members of the group carry the name, fields apart from it are as before. */
  lemma {:induction false} PutNamesFields(s: bytes, group: seq<nat>, v: u32, p: nat)
    requires forall i :: 0 <= i < |group| ==> group[i] + 4 <= |s|
    requires forall i :: 0 <= i < |group| ==> group[i] == p || group[i] + 4 <= p || p + 4 <= group[i]
    requires p + 4 <= |s|
    ensures Get32(PutNames(s, group, v), p) == if p in group then v else Get32(s, p)
    decreases |group|
  {
    if group != [] {
      var n := |group| - 1;
      PutNamesFields(s, group[..n], v, p);
      assert group == group[..n] + [group[n]];
    }
  }

  lemma GroupAvoids(size: nat, refs: seq<nat>, ps: seq<nat>, group: seq<nat>, i: nat, k: int)
    requires TablesApart(size, refs, ps) && forall p :: p in group ==> p in ps
    requires i < |refs| && refs[i] <= k < refs[i] + EXPORT_SIZE
    ensures !InGroup(group, k)
  {
    forall j | 0 <= j < |group|
      ensures !(group[j] <= k < group[j] + 4)
    {
      assert group[j] in ps;
    }
  }

  lemma GroupApart(size: nat, refs: seq<nat>, ps: seq<nat>, group: seq<nat>, i: nat)
    requires TablesApart(size, refs, ps) && i < |ps| && forall p :: p in group ==> p in ps
    ensures forall j :: 0 <= j < |group| ==>
      group[j] == ps[i] || group[j] + IMPORT_SIZE <= ps[i] || ps[i] + IMPORT_SIZE <= group[j]
    ensures ps[i] + 4 !in group
  {
    forall j | 0 <= j < |group|
      ensures group[j] == ps[i] || group[j] + IMPORT_SIZE <= ps[i] || ps[i] + IMPORT_SIZE <= group[j]
    {
      assert group[j] in ps;
    }
  }

  lemma ExportPut(t: bytes, x: nat, r: nat, c: u32)
    requires x + EXPORT_SIZE <= |t| && r + EXPORT_SIZE <= |t|
    requires r == x || r + EXPORT_SIZE <= x || x + EXPORT_SIZE <= r
    ensures ExportName(Put32(t, x + 8, c), r)
         == if r == x then NameLocated(ExportName(t, r).name_space, c) else ExportName(t, r)
  {
    if r != x {
      Put32Elsewhere(t, x + 8, c, r + 8);
    }
    Put32Elsewhere(t, x + 8, c, r + 12);
  }

  lemma GroupKeepsExports(u: bytes, refs: seq<nat>, ps: seq<nat>, group: seq<nat>, c: u32, i: nat)
    requires TablesApart(|u|, refs, ps) && i < |refs| && forall p :: p in group ==> p in ps
    requires forall j :: 0 <= j < |group| ==> group[j] + 4 <= |u|
    ensures refs[i] + EXPORT_SIZE <= |u| && ExportName(PutNames(u, group, c), refs[i]) == ExportName(u, refs[i])
  {
    hide PutNames;
    var v := PutNames(u, group, c);
    var r := refs[i];
    PutNamesFrame(u, group, c);
    forall k | r + 8 <= k < r + 16
      ensures v[k] == u[k]
    {
      GroupAvoids(|u|, refs, ps, group, i, k);
    }
  }

  /** The export's own field changes, every other export keeps its name. */
  lemma ExportStep(t: bytes, refs: seq<nat>, ps: seq<nat>, x: nat, group: seq<nat>, c: u32, i: nat)
    requires TablesApart(|t|, refs, ps) && x < |refs| && i < |refs|
    requires forall p :: p in group ==> p in ps
    requires forall j :: 0 <= j < |group| ==> group[j] + 4 <= |t|
    ensures ExportName(PutNames(Put32(t, refs[x] + 8, c), group, c), refs[i])
         == if i == x then NameLocated(ExportName(t, refs[i]).name_space, c) else ExportName(t, refs[i])
  {
    hide PutNames, Put32, ExportName;
    GroupKeepsExports(Put32(t, refs[x] + 8, c), refs, ps, group, c, i);
    ExportPut(t, refs[x], refs[i], c);
  }

  lemma GroupName(u: bytes, group: seq<nat>, c: u32, p: nat)
    requires p + IMPORT_SIZE <= |u| && p + 4 !in group
    requires forall j :: 0 <= j < |group| ==> group[j] + 4 <= |u|
    requires forall j :: 0 <= j < |group| ==>
      group[j] == p || group[j] + IMPORT_SIZE <= p || p + IMPORT_SIZE <= group[j]
    ensures ImportName(PutNames(u, group, c), p)
         == if p in group then NameLocated(ImportName(u, p).name_space, c) else ImportName(u, p)
  {
    PutNamesFields(u, group, c, p);
    PutNamesFields(u, group, c, p + 4);
  }

  /** Imports of the group take the name, the others keep theirs. */
  lemma ImportStep(t: bytes, refs: seq<nat>, ps: seq<nat>, x: nat, group: seq<nat>, c: u32, i: nat)
    requires TablesApart(|t|, refs, ps) && x < |refs| && i < |ps|
    requires forall p :: p in group ==> p in ps
    requires forall j :: 0 <= j < |group| ==> group[j] + 4 <= |t|
    ensures ImportName(PutNames(Put32(t, refs[x] + 8, c), group, c), ps[i])
         == if ps[i] in group then NameLocated(ImportName(t, ps[i]).name_space, c) else ImportName(t, ps[i])
  {
    var u := Put32(t, refs[x] + 8, c);
    var p := ps[i];
    assert refs[x] + EXPORT_SIZE <= p || p + IMPORT_SIZE <= refs[x];
    Put32Elsewhere(t, refs[x] + 8, c, p);
    Put32Elsewhere(t, refs[x] + 8, c, p + 4);
    GroupApart(|t|, refs, ps, group, i);
    GroupName(u, group, c, p);
  }

  lemma OtherByteStep(t: bytes, refs: seq<nat>, ps: seq<nat>, x: nat, group: seq<nat>, c: u32, k: nat)
    requires TablesApart(|t|, refs, ps) && x < |refs| && k < |t| && !NameByte(refs, ps, k)
    requires forall p :: p in group ==> p in ps
    requires forall j :: 0 <= j < |group| ==> group[j] + 4 <= |t|
    ensures PutNames(Put32(t, refs[x] + 8, c), group, c)[k] == t[k]
  {
    PutNamesFrame(Put32(t, refs[x] + 8, c), group, c);
    forall j | 0 <= j < |group|
      ensures !(group[j] <= k < group[j] + 4)
    {
      assert group[j] in ps;
    }
    assert !(refs[x] + 8 <= k < refs[x] + 12);
  }

  /** The step for one private name: its export and every import of its group. */
  lemma RenameOne(s: bytes, t: bytes, v: bytes, refs: seq<nat>, exportNames: seq<NameLocated>,
                  ps: seq<nat>, importNames: seq<NameLocated>, rho: Renaming,
                  nl: NameLocated, x: nat, group: seq<nat>, c: u32)
    requires |exportNames| == |refs| && |importNames| == |ps| && TablesApart(|s|, refs, ps) && Bounded(rho)
    requires RenamedBy(s, t, refs, exportNames, ps, importNames, rho)
    requires nl !in rho && x < |refs| && forall i :: 0 <= i < |refs| ==> (exportNames[i] == nl <==> i == x)
    requires forall i :: 0 <= i < |ps| ==> (ps[i] in group <==> importNames[i] == nl)
    requires forall p :: p in group ==> p in ps
    requires forall i :: 0 <= i < |group| ==> group[i] + 4 <= |s|
    requires v == WriteNames(t, refs[x], group, c)
    ensures Bounded(rho[nl := c])
    ensures RenamedBy(s, v, refs, exportNames, ps, importNames, rho[nl := c])
  {
    forall i | 0 <= i < |refs|
      ensures ExportName(v, refs[i]) == Renamed(exportNames[i], rho[nl := c])
    {
      ExportStep(t, refs, ps, x, group, c, i);
    }
    forall i | 0 <= i < |ps|
      ensures ImportName(v, ps[i]) == Renamed(importNames[i], rho[nl := c])
    {
      ImportStep(t, refs, ps, x, group, c, i);
    }
    forall k | 0 <= k < |s| && !NameByte(refs, ps, k)
      ensures v[k] == s[k]
    {
      OtherByteStep(t, refs, ps, x, group, c, k);
    }
  }
}
