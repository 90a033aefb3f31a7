/** What GscObfuscator::ComputeChecksums leaves in the export table. */
module ChecksumPass {
  import opened Bytes
  import opened GscFormat
  import opened Grouping
  import opened ScriptTables
  import Checksums

  /** How many bytes the new checksum covers; zero when it is left alone. */
  function Covered(d: GscExportData, recompute: bool): nat {
    if !recompute then 1 else d.len
  }

  /** Records and covered code inside the script, records apart, and no covered
      code in a checksum field. */
  ghost predicate ChecksumLayout(size: nat, exports: seq<GscExportData>, recompute: bool) {
    && (forall i :: 0 <= i < |exports| ==>
         exports[i].ref + EXPORT_SIZE <= size && exports[i].bc + Covered(exports[i], recompute) <= size)
    && (forall i, j :: 0 <= i < j < |exports| ==> exports[i].ref + EXPORT_SIZE <= exports[j].ref)
    && forall i, j :: 0 <= i < |exports| && 0 <= j < |exports| ==>
         exports[i].bc + Covered(exports[i], recompute) <= exports[j].ref || exports[j].ref + 4 <= exports[i].bc
  }

  predicate ChecksumByte(exports: seq<GscExportData>, recompute: bool, k: int) {
    exists i :: 0 <= i < |exports| && Covered(exports[i], recompute) != 0 && exports[i].ref <= k < exports[i].ref + 4
  }

  /** The exports seen carry the checksum of their covered code as it now is,
      and nothing but checksum fields changed. */
  ghost predicate ChecksumsSet(crc: Checksums.Crc32, s: bytes, t: bytes, exports: seq<GscExportData>,
                               seen: seq<GscExportData>, recompute: bool)
  {
    && |t| == |s|
    && (forall i :: 0 <= i < |seen| ==> seen[i] in exports)
    && (forall i :: 0 <= i < |seen| && Covered(seen[i], recompute) != 0 ==>
         && seen[i].ref + 4 <= |t| && seen[i].bc + Covered(seen[i], recompute) <= |t|
         && Get32(t, seen[i].ref) == Checksums.Checksum(crc, t, seen[i].bc, Covered(seen[i], recompute)))
    && forall k :: 0 <= k < |s| && !ChecksumByte(exports, recompute, k) ==> t[k] == s[k]
  }

  lemma ChecksumsStart(crc: Checksums.Crc32, s: bytes, exports: seq<GscExportData>, recompute: bool)
    ensures ChecksumsSet(crc, s, s, exports, [], recompute)
  {
  }

  lemma ChecksumRoom(size: nat, exports: seq<GscExportData>, recompute: bool, d: GscExportData)
    requires ChecksumLayout(size, exports, recompute) && d in exports
    ensures d.ref + EXPORT_SIZE <= size && d.bc + Covered(d, recompute) <= size
  {
  }

  lemma ChecksumSkip(crc: Checksums.Crc32, s: bytes, t: bytes, exports: seq<GscExportData>,
                     seen: seq<GscExportData>, recompute: bool, d: GscExportData)
    requires ChecksumsSet(crc, s, t, exports, seen, recompute) && d in exports && Covered(d, recompute) == 0
    ensures ChecksumsSet(crc, s, t, exports, seen + [d], recompute)
  {
  }

  lemma ChecksumStep(crc: Checksums.Crc32, s: bytes, t: bytes, v: bytes, exports: seq<GscExportData>,
                     seen: seq<GscExportData>, recompute: bool, d: GscExportData)
    requires ChecksumLayout(|t|, exports, recompute) && ChecksumsSet(crc, s, t, exports, seen, recompute)
    requires d in exports && Covered(d, recompute) != 0
    requires d.ref + EXPORT_SIZE <= |t| && d.bc + Covered(d, recompute) <= |t|
    requires v == Put32(t, d.ref, Checksums.Checksum(crc, t, d.bc, Covered(d, recompute)))
    ensures ChecksumsSet(crc, s, v, exports, seen + [d], recompute)
  {
    hide Checksums.Checksum, Get32, Put32;
    var more := seen + [d];
    var x :| 0 <= x < |exports| && exports[x] == d;
    forall i | 0 <= i < |more| && Covered(more[i], recompute) != 0
      ensures more[i].ref + 4 <= |v| && more[i].bc + Covered(more[i], recompute) <= |v|
      ensures Get32(v, more[i].ref) == Checksums.Checksum(crc, v, more[i].bc, Covered(more[i], recompute))
    {
      var e := more[i];
      assert e in exports;
      var y :| 0 <= y < |exports| && exports[y] == e;
      assert e.bc + Covered(e, recompute) <= d.ref || d.ref + 4 <= e.bc;
      Checksums.ChecksumFrame(crc, t, v, e.bc, Covered(e, recompute));
      if x != y {
        Put32Elsewhere(t, d.ref, Checksums.Checksum(crc, t, d.bc, Covered(d, recompute)), e.ref);
        assert i < |seen|;
      }
    }
    forall k | 0 <= k < |s| && !ChecksumByte(exports, recompute, k)
      ensures v[k] == s[k]
    {
      assert !(exports[x].ref <= k < exports[x].ref + 4);
    }
  }

  lemma ChecksumsAll(crc: Checksums.Crc32, s: bytes, t: bytes, exports: seq<GscExportData>,
                     seen: seq<GscExportData>, recompute: bool)
    requires ChecksumsSet(crc, s, t, exports, seen, recompute) && multiset(seen) == multiset(exports)
    ensures ChecksumsSet(crc, s, t, exports, exports, recompute)
  {
    forall i | 0 <= i < |exports|
      ensures exists j :: 0 <= j < |seen| && seen[j] == exports[i]
    {
      assert exports[i] in multiset(exports);
      assert exports[i] in seen;
    }
  }

  /** What the pass leaves in an export: the checksum of the first byte of its code, or
      of as many bytes as the old one covered; the old checksum when it covered none. */
  lemma ChecksumOf(crc: Checksums.Crc32, s: bytes, t: bytes, exports: seq<GscExportData>, recompute: bool, i: nat)
    requires ChecksumsSet(crc, s, t, exports, exports, recompute) && ChecksumLayout(|s|, exports, recompute)
    requires i < |exports|
    ensures var d := exports[i];
      && |t| == |s| && d.ref + 20 <= |t|
      && (!recompute ==> d.bc + 1 <= |t| && Get32(t, d.ref) == Checksums.Checksum(crc, t, d.bc, 1))
      && (recompute && d.len != 0 ==>
           d.bc + d.len <= |t| && Get32(t, d.ref) == Checksums.Checksum(crc, t, d.bc, d.len))
      && (recompute && d.len == 0 ==> Get32(t, d.ref) == Get32(s, d.ref))
  {
    hide Checksums.Checksum, Get32;
    var d := exports[i];
    if recompute && d.len == 0 {
      forall k | d.ref <= k < d.ref + 4
        ensures t[k] == s[k]
      {
        NoOwnChecksum(|s|, exports, recompute, i, k);
      }
      SameField(t, s, d.ref);
    }
  }

  lemma NoOwnChecksum(size: nat, exports: seq<GscExportData>, recompute: bool, i: nat, k: nat)
    requires ChecksumLayout(size, exports, recompute) && i < |exports| && Covered(exports[i], recompute) == 0
    requires exports[i].ref <= k < exports[i].ref + 4
    ensures !ChecksumByte(exports, recompute, k)
  {
    forall j | 0 <= j < |exports| && Covered(exports[j], recompute) != 0
      ensures !(exports[j].ref <= k < exports[j].ref + 4)
    {
      assert i < j ==> exports[i].ref + EXPORT_SIZE <= exports[j].ref;
      assert j < i ==> exports[j].ref + EXPORT_SIZE <= exports[i].ref;
    }
  }

  lemma GroupInTable(names: seq<NameLocated>, exports: seq<GscExportData>, nl: NameLocated, i: nat)
    requires |names| == |exports| && nl in Collect(names, exports) && i < |Collect(names, exports)[nl]|
    ensures Collect(names, exports)[nl][i] in exports
  {
    CollectSelects(names, exports, nl);
    var x := SelectOrigin(names, exports, nl, Collect(names, exports)[nl][i]);
  }

  /** A later search at the recorded code finds the new checksum at the covered
      length or before: exactly one byte when checksums are removed, the least
      matching length when they are recomputed. */
  lemma LaterSearch(crc: Checksums.Crc32, s: bytes, t: bytes, exports: seq<GscExportData>, recompute: bool, i: nat)
    requires ChecksumsSet(crc, s, t, exports, exports, recompute) && i < |exports|
    requires Covered(exports[i], recompute) != 0
    ensures exports[i].ref + 4 <= |t|
    ensures var d := exports[i]; var n := Covered(d, recompute); var want := Get32(t, d.ref);
      var r := Checksums.LeastLength(crc, t, d.bc, want, 1);
      && 1 <= r <= n && (!recompute ==> r == 1)
      && Checksums.Matches(crc, t, d.bc, want, r)
      && forall l :: 1 <= l < r ==> !Checksums.Matches(crc, t, d.bc, want, l)
  {
    var d := exports[i];
    Checksums.SearchFindsRecorded(crc, t, d.bc, Covered(d, recompute));
  }
}
