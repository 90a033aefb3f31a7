/** A whole run with a private file: between the renaming and the dev passes the
    strings the file names are replaced in place. */
module PrivateRun {
  import opened Bytes
  import opened Results
  import opened GscFormat
  import opened DevTables
  import opened Linking
  import opened PrivateExports
  import opened ScriptLayout
  import opened ScriptTables
  import opened ChecksumPass
  import opened SlotPass
  import opened DevRun
  import opened LocalNames
  import opened WholeRun
  import opened PrivateNames
  import opened PrivateTexts
  import Jumps

  /** The strings of the string table, then the script's name and includes. */
  function Texts(s: bytes, ps: seq<nat>): seq<nat> {
    Referenced(s, ps) + ScriptTexts(s)
  }

  /** All texts lie apart, in live bytes after the header; so do the string table
      and the include table. */
  ghost predicate TextLayout(s: bytes, imps: seq<nat>, strs: seq<nat>, ps: seq<nat>) {
    && StringsReady(s, ps) && ScriptTextsReady(s)
    && TextsApart(s, Texts(s, ps))
    && TextsLive(s, imps, strs, Texts(s, ps))
    && (forall i, k: nat :: 0 <= i < |ps| && ps[i] <= k < RecordEnd(s, ps[i], StringRecord) ==>
         LiveByte(s, imps, strs, k))
    && OffTexts(s, Referenced(s, ps), IncludeTable(s), IncludeTable(s) + 4 * Includes(s))
    && forall k: nat :: IncludeTable(s) <= k < IncludeTable(s) + 4 * Includes(s) ==> LiveByte(s, imps, strs, k)
  }

  ghost predicate TextsLive(s: bytes, imps: seq<nat>, strs: seq<nat>, ats: seq<nat>)
    requires |s| >= HEADER_SIZE && TextsApart(s, ats)
  {
    forall i, k: nat {:trigger InText(s, ats[i], k)} :: 0 <= i < |ats| && InText(s, ats[i], k) ==>
      k >= HEADER_SIZE && LiveByte(s, imps, strs, k)
  }

  /** The texts a script gets: its own name decides the side. */
  ghost function ScriptNews(scripts: map<bytes, bytes>, s: bytes, ats: seq<nat>): (r: seq<bytes>)
    requires TextsApart(s, ats) && |ats| >= 1
    ensures |r| == |ats|
  {
    var side := Side(CString(s, ats[0]));
    if side.None? then OldTexts(s, ats) else NewTexts(scripts, s, ats, side.value)
  }

  ghost function OldTexts(s: bytes, ats: seq<nat>): (r: seq<bytes>)
    requires TextsApart(s, ats)
    ensures |r| == |ats| && forall i :: 0 <= i < |ats| ==> r[i] == CString(s, ats[i])
  {
    seq(|ats|, i requires 0 <= i < |ats| => CString(s, ats[i]))
  }

  // ----- One pass after the other

  lemma TextsAllInside(s: bytes, ats: seq<nat>)
    requires TextsApart(s, ats)
    ensures forall i :: 0 <= i < |ats| ==> ats[i] <= |s|
  {
  }

  lemma ApartParts(s: bytes, a: seq<nat>, b: seq<nat>)
    requires TextsApart(s, a + b)
    ensures TextsApart(s, a) && TextsApart(s, b)
    ensures forall i, j :: 0 <= i < |a| && 0 <= j < |b| ==> TextEnd(s, a[i]) <= b[j] || TextEnd(s, b[j]) <= a[i]
  {
    hide CString, TextEnd, Terminated;
    var c := a + b;
    assert forall i :: 0 <= i < |a| ==> c[i] == a[i];
    assert forall j :: 0 <= j < |b| ==> c[|a| + j] == b[j];
  }

  /** A text off the renamed ones reads as before. */
  lemma OtherTextStill(s: bytes, t: bytes, ats: seq<nat>, news: seq<bytes>, at: nat)
    requires TextsApart(s, ats) && |news| == |ats| && TextsRenamed(s, t, ats, news, |ats|) && Terminated(s, at)
    requires forall i :: 0 <= i < |ats| ==> TextEnd(s, ats[i]) <= at || TextEnd(s, at) <= ats[i]
    ensures Terminated(t, at) && CString(t, at) == CString(s, at)
  {
    hide CString;
    SameText(s, t, at);
  }

  lemma UnchangedTexts(s: bytes, ats: seq<nat>)
    requires TextsApart(s, ats)
    ensures TextsRenamed(s, s, ats, OldTexts(s, ats), |ats|)
  {
    hide CString;
  }

  /** A renamed text is still renamed after other texts have been. */
  lemma RenamedTextStill(s: bytes, t: bytes, u: bytes, a: seq<nat>, na: seq<bytes>, b: seq<nat>, nb: seq<bytes>, i: nat)
    requires TextsApart(s, a + b) && TextsApart(s, a) && NewsFit(s, a, na) && TextsRenamed(s, t, a, na, |a|)
    requires TextsApart(t, b) && |nb| == |b| && TextsRenamed(t, u, b, nb, |b|) && i < |a|
    requires forall j :: 0 <= j < |b| ==> b[j] <= |s| && TextEnd(t, b[j]) == TextEnd(s, b[j])
    ensures Terminated(u, a[i]) && CString(u, a[i]) == na[i]
  {
    hide CString;
    ApartParts(s, a, b);
    assert TextEnd(t, a[i]) <= TextEnd(s, a[i]);
    OtherTextStill(t, u, b, nb, a[i]);
  }

  lemma OtherByteStill(s: bytes, t: bytes, u: bytes, a: seq<nat>, na: seq<bytes>, b: seq<nat>, nb: seq<bytes>, k: nat)
    requires TextsApart(s, a + b) && TextsApart(s, a) && |na| == |a| && TextsRenamed(s, t, a, na, |a|)
    requires TextsApart(t, b) && |nb| == |b| && TextsRenamed(t, u, b, nb, |b|) && k < |s|
    requires forall j :: 0 <= j < |b| ==> b[j] <= |s| && TextEnd(t, b[j]) == TextEnd(s, b[j])
    requires forall i :: 0 <= i < |a + b| ==> !InText(s, (a + b)[i], k)
    ensures u[k] == s[k]
  {
    hide CString, TextEnd, Terminated;
    var c := a + b;
    assert forall i :: 0 <= i < |a| ==> c[i] == a[i];
    assert forall j :: 0 <= j < |b| ==> c[|a| + j] == b[j];
    assert t[k] == s[k];
    assert forall j :: 0 <= j < |b| ==> !InText(t, b[j], k);
  }

  /** Renaming some texts and then others renames them all. */
  lemma TextsInTurn(s: bytes, t: bytes, u: bytes, a: seq<nat>, na: seq<bytes>, b: seq<nat>, nb: seq<bytes>)
    requires TextsApart(s, a + b) && TextsApart(s, a) && NewsFit(s, a, na) && TextsRenamed(s, t, a, na, |a|)
    requires TextsApart(t, b) && |nb| == |b| && TextsRenamed(t, u, b, nb, |b|)
    requires forall j :: 0 <= j < |b| ==> b[j] <= |s| && TextEnd(t, b[j]) == TextEnd(s, b[j])
    ensures TextsRenamed(s, u, a + b, na + nb, |a + b|)
  {
    hide CString, TextEnd, InText, NewsFit, TextsApart, Terminated;
    var c, nc := a + b, na + nb;
    TextsAllInside(s, c);
    assert |u| == |t| == |s|;
    assert |na| == |a| by {
      NewsCounted(s, a, na);
    }
    forall i | 0 <= i < |c|
      ensures Terminated(u, c[i]) && CString(u, c[i]) == nc[i]
    {
      if i < |a| {
        RenamedTextStill(s, t, u, a, na, b, nb, i);
      } else {
        assert c[i] == b[i - |a|] && nc[i] == nb[i - |a|];
      }
    }
    forall k | 0 <= k < |s| && (forall i :: 0 <= i < |c| ==> !InText(s, c[i], k))
      ensures u[k] == s[k]
    {
      OtherByteStill(s, t, u, a, na, b, nb, k);
    }
  }

  lemma NewsCounted(s: bytes, ats: seq<nat>, news: seq<bytes>)
    requires TextsApart(s, ats) && NewsFit(s, ats, news)
    ensures |news| == |ats|
  {
  }

  // ----- Renaming leaves the texts where and as they are

  ghost predicate SameLive(s: bytes, t: bytes, imps: seq<nat>, strs: seq<nat>)
    requires |s| >= HEADER_SIZE
  {
    |t| == |s| && forall k: nat :: LiveByte(s, imps, strs, k) ==> t[k] == s[k]
  }

  lemma HeaderLive(s: bytes, imps: seq<nat>, strs: seq<nat>, k: nat)
    requires Prepared(s, imps, strs) && k < HEADER_SIZE && k !in {28, 29, 30, 31, 66, 67}
    ensures LiveByte(s, imps, strs, k)
  {
    hide Fenced, Layout, OperandLayout, DevStringWalk;
    FencedInside(s, AllRecs(imps, strs), 0, HEADER_SIZE, k);
  }

  lemma RenamedKeepsLive(s: bytes, t: bytes, imps: seq<nat>, strs: seq<nat>, exports: seq<GscExportData>,
                         recompute: bool, exportNames: seq<NameLocated>, importNames: seq<NameLocated>, rho: Renaming)
    requires WellLaidOut(s, imps, strs, exports, recompute)
    requires |exportNames| == |exports| && |importNames| == |imps| && Bounded(rho)
    requires TablesApart(|s|, Refs(exports), imps)
    requires RenamedBy(s, t, Refs(exports), exportNames, imps, importNames, rho)
    ensures |s| >= HEADER_SIZE && SameLive(s, t, imps, strs)
  {
    hide Fenced, TablesApart, Refs;
    assert |t| == |s| >= HEADER_SIZE;
    hide RenamedBy, Prepared;
    forall k: nat | LiveByte(s, imps, strs, k)
      ensures t[k] == s[k]
    {
      LiveIsNoName(s, imps, strs, exports, recompute, k);
      RenamingKeepsByte(s, t, imps, strs, exports, recompute, exportNames, importNames, rho, k);
    }
  }

  /** What the text passes read is unchanged: header, texts, the string records
      and the include table. */
  ghost predicate SameTexts(s: bytes, t: bytes, imps: seq<nat>, strs: seq<nat>, ps: seq<nat>)
    requires TextLayout(s, imps, strs, ps)
  {
    && |t| == |s|
    && (forall k: nat :: k < HEADER_SIZE && k !in {28, 29, 30, 31, 66, 67} ==> t[k] == s[k])
    && (forall i, k: nat :: 0 <= i < |Texts(s, ps)| && InText(s, Texts(s, ps)[i], k) && k < |s| ==> t[k] == s[k])
    && (forall i, k: nat :: 0 <= i < |ps| && ps[i] <= k < RecordEnd(s, ps[i], StringRecord) && k < |s| ==> t[k] == s[k])
    && forall k: nat :: IncludeTable(s) <= k < IncludeTable(s) + 4 * Includes(s) ==> t[k] == s[k]
  }

  lemma SameLiveTexts(s: bytes, t: bytes, imps: seq<nat>, strs: seq<nat>, ps: seq<nat>)
    requires Prepared(s, imps, strs) && TextLayout(s, imps, strs, ps) && SameLive(s, t, imps, strs)
    ensures SameTexts(s, t, imps, strs, ps)
  {
    forall k: nat | k < HEADER_SIZE && k !in {28, 29, 30, 31, 66, 67}
      ensures |t| == |s| && t[k] == s[k]
    {
      HeaderSame(s, t, imps, strs, k);
    }
    hide Prepared, CString, TextsApart, OffTexts, StringsReady, ScriptTextsReady, LiveByte, IncludeTable, Includes;
    assert TextsLive(s, imps, strs, Texts(s, ps));
  }

  lemma TextsSame(s: bytes, t: bytes, ats: seq<nat>)
    requires TextsApart(s, ats) && |t| == |s|
    requires forall i, k: nat :: 0 <= i < |ats| && InText(s, ats[i], k) && k < |s| ==> t[k] == s[k]
    ensures TextsApart(t, ats)
    ensures forall i :: 0 <= i < |ats| ==> CString(t, ats[i]) == CString(s, ats[i])
  {
    hide CString;
    forall i | 0 <= i < |ats|
      ensures Terminated(t, ats[i]) && CString(t, ats[i]) == CString(s, ats[i])
    {
      assert forall k: nat :: k < |s| && InText(s, ats[i], k) ==> t[k] == s[k];
      SameText(s, t, ats[i]);
    }
  }

  lemma HeaderSame(s: bytes, t: bytes, imps: seq<nat>, strs: seq<nat>, k: nat)
    requires Prepared(s, imps, strs) && SameLive(s, t, imps, strs)
    requires k < HEADER_SIZE && k !in {28, 29, 30, 31, 66, 67}
    ensures |t| == |s| && t[k] == s[k]
  {
    hide Prepared, LiveByte;
    HeaderLive(s, imps, strs, k);
  }

  lemma StringRecordSame(s: bytes, t: bytes, imps: seq<nat>, strs: seq<nat>, ps: seq<nat>, i: nat)
    requires TextLayout(s, imps, strs, ps) && SameTexts(s, t, imps, strs, ps) && i < |ps|
    ensures |t| == |s| && ps[i] + STRING_SIZE <= |s| && Get32(t, ps[i]) == Get32(s, ps[i])
    ensures Addresses(t, ps[i], StringRecord) == Addresses(s, ps[i], StringRecord)
  {
    hide TextsApart, OffTexts, ScriptTextsReady, LiveByte, TextsLive, StringTableWalk;
    forall k: nat | ps[i] <= k < ps[i] + 8
      ensures t[k] == s[k]
    {
      assert k < RecordEnd(s, ps[i], StringRecord);
    }
  }

  lemma OffTextsSame(s: bytes, t: bytes, ats: seq<nat>, lo: nat, hi: nat)
    requires TextsApart(s, ats) && TextsApart(t, ats) && OffTexts(s, ats, lo, hi)
    requires forall i :: 0 <= i < |ats| ==> CString(t, ats[i]) == CString(s, ats[i])
    ensures OffTexts(t, ats, lo, hi)
  {
    hide CString;
  }

  lemma StringTableSame(s: bytes, t: bytes, imps: seq<nat>, strs: seq<nat>, ps: seq<nat>)
    requires Prepared(s, imps, strs) && TextLayout(s, imps, strs, ps) && SameTexts(s, t, imps, strs, ps)
    ensures |t| == |s| >= HEADER_SIZE && StringTableWalk(t) == Some(ps)
    ensures forall i :: 0 <= i < |ps| ==>
      && Fits(t, ps[i], StringRecord) && Get32(t, ps[i]) == Get32(s, ps[i])
      && RecordEnd(t, ps[i], StringRecord) == RecordEnd(s, ps[i], StringRecord)
  {
    hide Prepared, LiveByte, CString, TextsApart, OffTexts, ScriptTextsReady, TextsLive, Walk;
    assert |t| == |s| >= HEADER_SIZE && forall k: nat :: k in {24, 25, 26, 27, 56, 57} ==> t[k] == s[k];
    hide SameTexts;
    forall i | 0 <= i < |ps|
      ensures |t| == |s| && ps[i] + STRING_SIZE <= |s| && Get32(t, ps[i]) == Get32(s, ps[i])
      ensures Addresses(t, ps[i], StringRecord) == Addresses(s, ps[i], StringRecord)
    {
      StringRecordSame(s, t, imps, strs, ps, i);
    }
    hide Get32, Get16;
    SameCountsSameWalk(s, t, Get32(s, STRING_OFFSET), Get16(s, STRING_COUNT), StringRecord, ps);
  }

  lemma StringsReadySame(s: bytes, t: bytes, imps: seq<nat>, strs: seq<nat>, ps: seq<nat>)
    requires Prepared(s, imps, strs) && TextLayout(s, imps, strs, ps) && SameTexts(s, t, imps, strs, ps)
    requires TextsApart(t, Referenced(s, ps))
    requires forall i :: 0 <= i < |Referenced(s, ps)| ==> CString(t, Referenced(s, ps)[i]) == CString(s, Referenced(s, ps)[i])
    ensures StringsReady(t, ps) && Referenced(t, ps) == Referenced(s, ps) && Pointers(t, ps) == Pointers(s, ps)
  {
    hide Prepared, LiveByte, CString, TextsApart, OffTexts, ScriptTextsReady, TextsLive, SameTexts, StringTableWalk, Get32,
         Once;
    StringTableSame(s, t, imps, strs, ps);
    var ats := Referenced(s, ps);
    assert Pointers(t, ps) == Pointers(s, ps);
    forall i | 0 <= i < |ps|
      ensures OffTexts(t, ats, ps[i], RecordEnd(t, ps[i], StringRecord))
    {
      OffTextsSame(s, t, ats, ps[i], RecordEnd(s, ps[i], StringRecord));
    }
  }

  /** The header fields and the table of includes, unchanged, say the same. */
  lemma IncludesKept(s: bytes, t: bytes)
    requires |t| == |s| >= HEADER_SIZE && IncludeTable(s) + 4 * Includes(s) <= |s|
    requires forall k :: k in {12, 13, 14, 15, 52, 53, 54, 55, 68} ==> t[k] == s[k]
    requires forall k :: IncludeTable(s) <= k < IncludeTable(s) + 4 * Includes(s) ==> t[k] == s[k]
    ensures IncludeTable(t) == IncludeTable(s) && Includes(t) == Includes(s)
    ensures ScriptPointers(t) == ScriptPointers(s) && ScriptTexts(t) == ScriptTexts(s)
  {
    hide Once, Get32, ScriptPointers;
    SameField(t, s, INCLUDE_OFFSET);
    SameField(t, s, NAME_OFFSET);
    var table := IncludeTable(s);
    forall i: nat | i < Includes(s)
      ensures Get32(t, table + 4 * i) == Get32(s, table + 4 * i)
    {
      SameField(t, s, table + 4 * i);
    }
    SamePointers(s, t);
  }

  lemma SamePointers(s: bytes, t: bytes)
    requires |t| == |s| >= HEADER_SIZE && IncludeTable(s) + 4 * Includes(s) <= |s|
    requires IncludeTable(t) == IncludeTable(s) && Includes(t) == Includes(s)
    requires Get32(t, NAME_OFFSET) == Get32(s, NAME_OFFSET)
    requires forall i: nat :: i < Includes(s) ==> Get32(t, IncludeTable(s) + 4 * i) == Get32(s, IncludeTable(s) + 4 * i)
    ensures ScriptPointers(t) == ScriptPointers(s)
  {
    hide Get32, IncludeTable, Includes, ScriptPointers;
    var a, b := ScriptPointers(t), ScriptPointers(s);
    forall i | 0 <= i < |a|
      ensures a[i] == b[i]
    {
      if i > 0 {
        PointerAt(s, i - 1);
        PointerAt(t, i - 1);
        assert Get32(t, IncludeTable(s) + 4 * (i - 1)) == Get32(s, IncludeTable(s) + 4 * (i - 1));
      }
    }
  }

  lemma PointerAt(s: bytes, j: nat)
    requires |s| >= HEADER_SIZE && IncludeTable(s) + 4 * Includes(s) <= |s| && j < Includes(s)
    ensures |ScriptPointers(s)| == 1 + Includes(s)
    ensures ScriptPointers(s)[j + 1] == Get32(s, IncludeTable(s) + 4 * j)
  {
    hide Get32, IncludeTable, Includes;
  }

  lemma ScriptTextsReadyKept(s: bytes, t: bytes)
    requires ScriptTextsReady(s) && |t| == |s|
    requires IncludeTable(t) == IncludeTable(s) && Includes(t) == Includes(s) && ScriptTexts(t) == ScriptTexts(s)
    requires TextsApart(t, ScriptTexts(s))
    requires forall i :: 0 <= i < |ScriptTexts(s)| ==> CString(t, ScriptTexts(s)[i]) == CString(s, ScriptTexts(s)[i])
    ensures ScriptTextsReady(t)
  {
    hide CString, TextsApart, OffTexts, IncludeTable, Includes, ScriptTexts, Terminated;
    var ats := ScriptTexts(s);
    OffTextsSame(s, t, ats, 0, HEADER_SIZE);
    OffTextsSame(s, t, ats, IncludeTable(s), IncludeTable(s) + 4 * Includes(s));
  }

  lemma IncludesSame(s: bytes, t: bytes, imps: seq<nat>, strs: seq<nat>, ps: seq<nat>)
    requires Prepared(s, imps, strs) && TextLayout(s, imps, strs, ps) && SameTexts(s, t, imps, strs, ps)
    ensures |t| == |s| && IncludeTable(t) == IncludeTable(s) && Includes(t) == Includes(s)
    ensures ScriptPointers(t) == ScriptPointers(s) && ScriptTexts(t) == ScriptTexts(s)
  {
    hide Once, Prepared, CString, TextsApart, OffTexts, StringsReady, TextsLive, LiveByte, IncludeTable, Includes;
    IncludesKept(s, t);
  }

  lemma TextBytesSame(s: bytes, t: bytes, imps: seq<nat>, strs: seq<nat>, ps: seq<nat>)
    requires TextLayout(s, imps, strs, ps) && SameTexts(s, t, imps, strs, ps)
    ensures TextsApart(t, Texts(s, ps))
    ensures forall i :: 0 <= i < |Texts(s, ps)| ==> CString(t, Texts(s, ps)[i]) == CString(s, Texts(s, ps)[i])
  {
    hide LiveByte, CString, OffTexts, TextsLive, TextEnd, IncludeTable, Includes, StringTableWalk;
    TextsSame(s, t, Texts(s, ps));
  }

  /** After the renaming every text is where it was and reads as it did. */
  lemma ReadyAfterRenaming(s: bytes, t: bytes, imps: seq<nat>, strs: seq<nat>, ps: seq<nat>)
    requires Prepared(s, imps, strs) && TextLayout(s, imps, strs, ps) && SameTexts(s, t, imps, strs, ps)
    ensures StringsReady(t, ps) && ScriptTextsReady(t)
    ensures Referenced(t, ps) == Referenced(s, ps) && ScriptTexts(t) == ScriptTexts(s)
    ensures Pointers(t, ps) == Pointers(s, ps) && ScriptPointers(t) == ScriptPointers(s)
    ensures TextsApart(t, Texts(s, ps))
    ensures forall i :: 0 <= i < |Texts(s, ps)| ==> CString(t, Texts(s, ps)[i]) == CString(s, Texts(s, ps)[i])
  {
    hide Prepared, LiveByte, CString, OffTexts, TextsLive, StringTableWalk, IncludeTable, Includes, SameTexts;
    var a, b, c := Referenced(s, ps), ScriptTexts(s), Texts(s, ps);
    hide TextsApart, StringsReady, ScriptTextsReady;
    TextBytesSame(s, t, imps, strs, ps);
    ApartParts(t, a, b);
    assert forall i :: 0 <= i < |a| ==> c[i] == a[i];
    assert forall j :: 0 <= j < |b| ==> c[|a| + j] == b[j];
    StringsReadySame(s, t, imps, strs, ps);
    IncludesSame(s, t, imps, strs, ps);
    ScriptTextsReadyKept(s, t);
  }

  lemma TextsAfterHeader(s: bytes, imps: seq<nat>, strs: seq<nat>, a: seq<nat>, b: seq<nat>)
    requires |s| >= HEADER_SIZE && TextsApart(s, a + b) && TextsLive(s, imps, strs, a + b)
    ensures TextsApart(s, a) && OffTexts(s, a, 0, HEADER_SIZE)
  {
    hide CString, LiveByte;
    ApartParts(s, a, b);
    var c := a + b;
    forall i | 0 <= i < |a|
      ensures HEADER_SIZE <= a[i]
    {
      var k := c[i];
      assert k == a[i] && InText(s, c[i], k) && LiveByte(s, imps, strs, k);
    }
  }

  /** After the strings the script's own texts are still to be renamed. */
  lemma ReadyAfterStrings(t: bytes, u: bytes, a: seq<nat>, na: seq<bytes>)
    requires ScriptTextsReady(t) && TextsApart(t, a) && TextsApart(t, a + ScriptTexts(t))
    requires |na| == |a| && TextsRenamed(t, u, a, na, |a|)
    requires OffTexts(t, a, 0, HEADER_SIZE)
    requires OffTexts(t, a, IncludeTable(t), IncludeTable(t) + 4 * Includes(t))
    ensures ScriptTextsReady(u) && ScriptTexts(u) == ScriptTexts(t) && ScriptPointers(u) == ScriptPointers(t)
    ensures forall j :: 0 <= j < |ScriptTexts(t)| ==> CString(u, ScriptTexts(t)[j]) == CString(t, ScriptTexts(t)[j])
  {
    hide CString, TextsApart, TextsRenamed, OffTexts, IncludeTable, Includes, Terminated, ScriptTexts, ScriptPointers;
    var b := ScriptTexts(t);
    ApartParts(t, a, b);
    forall k: nat | k < HEADER_SIZE
      ensures |u| == |t| && u[k] == t[k]
    {
      RegionStill(t, u, a, na, |a|, 0, HEADER_SIZE, k);
    }
    forall k: nat | IncludeTable(t) <= k < IncludeTable(t) + 4 * Includes(t)
      ensures u[k] == t[k]
    {
      RegionStill(t, u, a, na, |a|, IncludeTable(t), IncludeTable(t) + 4 * Includes(t), k);
    }
    IncludesKept(t, u);
    ScriptTextsStill(t, u, a, na, b);
    ScriptTextsReadyKept(t, u);
  }

  lemma ScriptTextsStill(t: bytes, u: bytes, a: seq<nat>, na: seq<bytes>, b: seq<nat>)
    requires TextsApart(t, a) && TextsApart(t, b) && TextsApart(t, a + b) && |na| == |a| && TextsRenamed(t, u, a, na, |a|)
    ensures TextsApart(u, b) && forall j :: 0 <= j < |b| ==> CString(u, b[j]) == CString(t, b[j])
  {
    hide CString;
    ApartParts(t, a, b);
    forall j | 0 <= j < |b|
      ensures Terminated(u, b[j]) && CString(u, b[j]) == CString(t, b[j])
    {
      OtherTextStill(t, u, a, na, b[j]);
    }
  }

  /** What all texts become. */
  ghost function News(names: Names, s: bytes, ps: seq<nat>): (r: seq<bytes>)
    requires StringsReady(s, ps) && ScriptTextsReady(s)
    ensures |r| == |Referenced(s, ps)| + |ScriptTexts(s)|
  {
    NewStrings(names.strings, s, Referenced(s, ps)) + ScriptNews(names.scripts, s, ScriptTexts(s))
  }

  lemma SameNewStrings(strings: map<bytes, bytes>, s: bytes, t: bytes, ats: seq<nat>)
    requires TextsApart(s, ats) && TextsApart(t, ats)
    requires forall i :: 0 <= i < |ats| ==> CString(t, ats[i]) == CString(s, ats[i])
    ensures NewStrings(strings, t, ats) == NewStrings(strings, s, ats)
  {
    hide CString, NewString;
  }

  lemma SameScriptNews(scripts: map<bytes, bytes>, s: bytes, t: bytes, ats: seq<nat>)
    requires TextsApart(s, ats) && TextsApart(t, ats) && |ats| >= 1
    requires forall i :: 0 <= i < |ats| ==> CString(t, ats[i]) == CString(s, ats[i])
    ensures ScriptNews(scripts, t, ats) == ScriptNews(scripts, s, ats)
  {
    hide CString, NewName, NewInclude, Side;
    var side := Side(CString(s, ats[0]));
    if side.None? {
      assert OldTexts(t, ats) == OldTexts(s, ats);
    } else {
      var n, m := NewTexts(scripts, t, ats, side.value), NewTexts(scripts, s, ats, side.value);
      assert n == m;
    }
  }

  lemma SameTextEnds(s: bytes, t: bytes, ats: seq<nat>)
    requires TextsApart(s, ats) && TextsApart(t, ats) && |t| == |s|
    requires forall i :: 0 <= i < |ats| ==> CString(t, ats[i]) == CString(s, ats[i])
    ensures forall i :: 0 <= i < |ats| ==> ats[i] <= |s| && TextEnd(t, ats[i]) == TextEnd(s, ats[i])
  {
    hide CString;
  }

  lemma StringsOffTables(s: bytes, imps: seq<nat>, strs: seq<nat>, ps: seq<nat>)
    requires TextLayout(s, imps, strs, ps)
    ensures OffTexts(s, Referenced(s, ps), 0, HEADER_SIZE)
    ensures OffTexts(s, Referenced(s, ps), IncludeTable(s), IncludeTable(s) + 4 * Includes(s))
  {
    hide LiveByte, CString, TextsApart, OffTexts, TextsLive, IncludeTable, Includes;
    TextsAfterHeader(s, imps, strs, Referenced(s, ps), ScriptTexts(s));
  }

  lemma OffTablesAfterRenaming(s: bytes, t: bytes, imps: seq<nat>, strs: seq<nat>, ps: seq<nat>, a: seq<nat>)
    requires Prepared(s, imps, strs) && TextLayout(s, imps, strs, ps) && SameTexts(s, t, imps, strs, ps)
    requires a == Referenced(s, ps) && TextsApart(s, a) && TextsApart(t, a)
    requires forall i :: 0 <= i < |a| ==> CString(t, a[i]) == CString(s, a[i])
    ensures |t| == |s| && OffTexts(t, a, 0, HEADER_SIZE)
    ensures OffTexts(t, a, IncludeTable(t), IncludeTable(t) + 4 * Includes(t))
  {
    hide Prepared, LiveByte, CString, TextsApart, OffTexts, TextsLive, IncludeTable, Includes, StringsReady;
    StringsOffTables(s, imps, strs, ps);
    IncludesSame(s, t, imps, strs, ps);
    hide TextLayout, SameTexts;
    OffTextsSame(s, t, a, 0, HEADER_SIZE);
    OffTextsSame(s, t, a, IncludeTable(s), IncludeTable(s) + 4 * Includes(s));
  }

  lemma PartsAfterRenaming(s: bytes, t: bytes, imps: seq<nat>, strs: seq<nat>, ps: seq<nat>, a: seq<nat>, b: seq<nat>)
    requires Prepared(s, imps, strs) && TextLayout(s, imps, strs, ps) && SameTexts(s, t, imps, strs, ps)
    requires a == Referenced(s, ps) && b == ScriptTexts(s)
    ensures ScriptTextsReady(t) && Referenced(t, ps) == a && ScriptTexts(t) == b
    ensures StringsReady(t, ps) && Pointers(t, ps) == Pointers(s, ps) && ScriptPointers(t) == ScriptPointers(s)
    ensures TextsApart(s, a) && TextsApart(s, b) && TextsApart(t, a) && TextsApart(t, b) && TextsApart(t, a + b)
    ensures forall i :: 0 <= i < |a| ==> CString(t, a[i]) == CString(s, a[i])
    ensures forall j :: 0 <= j < |b| ==> CString(t, b[j]) == CString(s, b[j])
  {
    hide Prepared, LiveByte, CString, OffTexts, TextsLive, SameTexts, Once, StringTableWalk, Terminated, IncludeTable,
         Includes, Referenced, ScriptTexts;
    ReadyAfterRenaming(s, t, imps, strs, ps);
    var c := Texts(s, ps);
    hide TextsApart, StringsReady, ScriptTextsReady, TextLayout;
    ApartParts(t, a, b);
    ApartParts(s, a, b);
    assert forall i :: 0 <= i < |a| ==> c[i] == a[i];
    assert forall j :: 0 <= j < |b| ==> c[|a| + j] == b[j];
  }

  /** The string pass over `t` gave `u`. */
  ghost predicate StringsDone(names: Names, t: bytes, u: bytes, ps: seq<nat>) {
    && StringsReady(t, ps)
    && TextsRenamed(t, u, Referenced(t, ps), NewStrings(names.strings, t, Referenced(t, ps)), |Referenced(t, ps)|)
  }

  /** The script pass over `u` gave `v`. */
  ghost predicate ScriptsDone(names: Names, u: bytes, v: bytes) {
    && ScriptTextsReady(u)
    && TextsRenamed(u, v, ScriptTexts(u), ScriptNews(names.scripts, u, ScriptTexts(u)), |ScriptTexts(u)|)
  }

  /** From `t` to `v` every text became what the private file says of `s`. */
  ghost predicate TextsDone(names: Names, s: bytes, t: bytes, v: bytes, ps: seq<nat>) {
    && StringsReady(s, ps) && ScriptTextsReady(s) && TextsApart(t, Texts(s, ps))
    && TextsRenamed(t, v, Texts(s, ps), News(names, s, ps), |Texts(s, ps)|)
  }

  /** The string pass leaves the script's own texts as they were in `s`. */
  lemma StringsInPlace(names: Names, s: bytes, t: bytes, u: bytes, imps: seq<nat>, strs: seq<nat>, ps: seq<nat>)
    requires Prepared(s, imps, strs) && TextLayout(s, imps, strs, ps) && SameTexts(s, t, imps, strs, ps)
    requires StringsDone(names, t, u, ps)
    ensures Referenced(t, ps) == Referenced(s, ps) && TextsApart(t, Texts(s, ps)) && |u| == |t| == |s|
    ensures NewStrings(names.strings, t, Referenced(s, ps)) == NewStrings(names.strings, s, Referenced(s, ps))
    ensures ScriptTextsReady(u) && ScriptTexts(u) == ScriptTexts(s) && ScriptPointers(u) == ScriptPointers(s)
    ensures forall j :: 0 <= j < |ScriptTexts(s)| ==>
      && CString(u, ScriptTexts(s)[j]) == CString(s, ScriptTexts(s)[j])
      && ScriptTexts(s)[j] <= |t| && TextEnd(u, ScriptTexts(s)[j]) == TextEnd(t, ScriptTexts(s)[j])
  {
    hide Prepared, LiveByte, CString, OffTexts, TextsLive, SameTexts, TextsRenamed, NewString, IncludeTable, Includes,
         TextEnd, StringTableWalk, Terminated, Once, Referenced, ScriptTexts, NewStrings;
    var a, b := Referenced(s, ps), ScriptTexts(s);
    PartsAfterRenaming(s, t, imps, strs, ps, a, b);
    hide TextsApart, StringsReady, ScriptTextsReady, TextLayout;
    var na := NewStrings(names.strings, t, a);
    OffTablesAfterRenaming(s, t, imps, strs, ps, a);
    ReadyAfterStrings(t, u, a, na);
    ScriptTextsStill(t, u, a, na, b);
    SameNewStrings(names.strings, s, t, a);
    TextsLength(t, u, a, na);
    SameTextEnds(t, u, b);
  }

  /** Both passes over the texts of `t`, which is `s` renamed. */
  lemma TextsInPlace(names: Names, s: bytes, t: bytes, u: bytes, v: bytes, imps: seq<nat>, strs: seq<nat>, ps: seq<nat>)
    requires Prepared(s, imps, strs) && TextLayout(s, imps, strs, ps) && SameTexts(s, t, imps, strs, ps)
    requires StringsFit(names.strings) && StringsDone(names, t, u, ps) && ScriptsDone(names, u, v)
    ensures TextsDone(names, s, t, v, ps)
  {
    hide Prepared, LiveByte, CString, OffTexts, TextsLive, SameTexts, TextsRenamed, NewString, StringsFit, TextEnd, NewsFit,
         ScriptNews, IncludeTable, Includes, StringTableWalk, Terminated;
    StringsInPlace(names, s, t, u, imps, strs, ps);
    var a, b := Referenced(s, ps), ScriptTexts(s);
    assert TextsApart(s, a + b);
    var na, nb := NewStrings(names.strings, t, a), ScriptNews(names.scripts, u, b);
    hide TextsApart, StringsReady, ScriptTextsReady, TextLayout;
    ApartParts(t, a, b);
    ApartParts(s, a, b);
    NewStringsFit(names.strings, t, a);
    SameScriptNews(names.scripts, s, u, b);
    hide Referenced, ScriptTexts, NewStrings;
    TextsInTurn(t, u, v, a, na, b, nb);
  }

  lemma TextsLength(s: bytes, t: bytes, ats: seq<nat>, news: seq<bytes>)
    requires TextsApart(s, ats) && |news| == |ats| && TextsRenamed(s, t, ats, news, |ats|)
    ensures |t| == |s|
  {
  }

  // ----- Texts that are renamed more than once

  /** A text that is renamed more than once is not renamed further. */
  ghost predicate TextsStable(names: Names, s: bytes, ps: seq<nat>) {
    && StringsReady(s, ps) && ScriptTextsReady(s)
    && StringsStable(names.strings, s, ps) && ScriptsStable(names.scripts, s)
  }

  lemma StringsStableSame(strings: map<bytes, bytes>, s: bytes, t: bytes, ps: seq<nat>)
    requires StringsReady(s, ps) && StringsReady(t, ps) && StringsStable(strings, s, ps) && |t| == |s|
    requires Pointers(t, ps) == Pointers(s, ps) && TextsApart(s, Referenced(s, ps)) && TextsApart(t, Referenced(s, ps))
    requires forall i :: 0 <= i < |Referenced(s, ps)| ==> CString(t, Referenced(s, ps)[i]) == CString(s, Referenced(s, ps)[i])
    ensures StringsStable(strings, t, ps)
  {
    hide CString, NewString, Once, StringTableWalk, OffTexts, Terminated;
    var raw := Pointers(s, ps);
    forall i, j | 0 <= i < j < |ps| && raw[i] == raw[j] && raw[i] <= |t|
      ensures NewString(strings, NewString(strings, CString(t, raw[i]))) == NewString(strings, CString(t, raw[i]))
    {
      OnceMembers(raw);
      assert raw[i] in Referenced(s, ps);
    }
  }

  lemma ScriptsStableSame(scripts: map<bytes, bytes>, s: bytes, t: bytes)
    requires ScriptTextsReady(s) && ScriptTextsReady(t) && ScriptsStable(scripts, s) && |t| == |s|
    requires ScriptPointers(t) == ScriptPointers(s) && TextsApart(t, ScriptTexts(s))
    requires forall i :: 0 <= i < |ScriptTexts(s)| ==> CString(t, ScriptTexts(s)[i]) == CString(s, ScriptTexts(s)[i])
    ensures ScriptsStable(scripts, t)
  {
    hide CString, NewInclude, NewName, Once, OffTexts, Side, ScriptPointers, IncludeTable, Includes;
    var raw := ScriptPointers(s);
    OnceMembers(raw);
    forall i | 0 <= i < |raw| && raw[i] <= |s|
      ensures CString(t, raw[i]) == CString(s, raw[i])
    {
      assert raw[i] in ScriptTexts(s);
    }
    if raw[0] <= |t| && Side(CString(t, raw[0])).Some? {
      var ext := Side(CString(t, raw[0])).value;
      forall i, j | 0 <= i < j < |raw| && raw[i] == raw[j] && raw[i] <= |t|
        ensures NewInclude(scripts, FirstText(scripts, t, raw, i, ext), ext) == FirstText(scripts, t, raw, i, ext)
      {
        assert FirstText(scripts, t, raw, i, ext) == FirstText(scripts, s, raw, i, ext);
      }
    }
  }

  /** Where texts read as before they are as stable as before. */
  lemma StableAfter(names: Names, s: bytes, t: bytes, imps: seq<nat>, strs: seq<nat>, ps: seq<nat>)
    requires Prepared(s, imps, strs) && TextLayout(s, imps, strs, ps) && SameTexts(s, t, imps, strs, ps)
    requires TextsStable(names, s, ps)
    ensures TextsStable(names, t, ps)
  {
    hide Prepared, LiveByte, CString, OffTexts, TextsLive, SameTexts, Once, StringTableWalk, IncludeTable,
         Includes, StringsStable, ScriptsStable;
    assert |t| == |s| by {
      SameTextsSize(s, t, imps, strs, ps);
    }
    PartsAfterRenaming(s, t, imps, strs, ps, Referenced(s, ps), ScriptTexts(s));
    StringsStableSame(names.strings, s, t, ps);
    ScriptsStableSame(names.scripts, s, t);
  }

  lemma SameTextsSize(s: bytes, t: bytes, imps: seq<nat>, strs: seq<nat>, ps: seq<nat>)
    requires TextLayout(s, imps, strs, ps) && SameTexts(s, t, imps, strs, ps)
    ensures |t| == |s|
  {
  }

  /** After the string pass the script's own texts are as stable as they were. */
  lemma StableAfterStrings(names: Names, s: bytes, t: bytes, u: bytes, imps: seq<nat>, strs: seq<nat>, ps: seq<nat>)
    requires Prepared(s, imps, strs) && TextLayout(s, imps, strs, ps) && SameTexts(s, t, imps, strs, ps)
    requires StringsDone(names, t, u, ps) && TextsStable(names, s, ps)
    ensures ScriptTextsReady(u) && ScriptsStable(names.scripts, u)
  {
    hide Prepared, LiveByte, CString, OffTexts, TextsLive, SameTexts, Once, StringTableWalk, IncludeTable,
         Includes, StringsStable, ScriptsStable, StringsDone;
    StringsInPlace(names, s, t, u, imps, strs, ps);
    ScriptsStableSame(names.scripts, s, u);
  }

  // ----- The layout after the texts

  /** Texts renamed in `t`, which reads as `s` where texts are. */
  ghost predicate TextsOnly(s: bytes, t: bytes, x: bytes, imps: seq<nat>, strs: seq<nat>, ats: seq<nat>, news: seq<bytes>)
    requires |s| >= HEADER_SIZE
  {
    && |t| == |s| && TextsApart(s, ats) && TextsLive(s, imps, strs, ats) && TextsApart(t, ats)
    && (forall i :: 0 <= i < |ats| ==> CString(t, ats[i]) == CString(s, ats[i]))
    && |news| == |ats| && TextsRenamed(t, x, ats, news, |ats|)
  }

  /** Texts lie in live bytes after the header: the rest is as it was. */
  lemma OtherBytesKept(s: bytes, t: bytes, x: bytes, imps: seq<nat>, strs: seq<nat>, ats: seq<nat>, news: seq<bytes>,
                       k: nat)
    requires |s| >= HEADER_SIZE && TextsOnly(s, t, x, imps, strs, ats, news) && k < |s|
    requires k < HEADER_SIZE || !LiveByte(s, imps, strs, k)
    ensures |x| == |s| && x[k] == t[k]
  {
    hide CString, LiveByte;
    forall i | 0 <= i < |ats|
      ensures !InText(t, ats[i], k)
    {
      assert InText(s, ats[i], k) <==> InText(t, ats[i], k);
    }
  }

  lemma LiveIsNoRecord(s: bytes, imps: seq<nat>, strs: seq<nat>, i: nat, k: nat)
    requires |s| >= HEADER_SIZE && AllFit(s, AllRecs(imps, strs)) && i < |AllRecs(imps, strs)|
    ensures LiveByte(s, imps, strs, k) ==> !InRecord(s, AllRecs(imps, strs)[i], k)
  {
    assert LiveByte(s, imps, strs, k) ==> ClearOf(s, AllRecs(imps, strs)[i], k);
  }

  lemma TextsKeepEvents(s: bytes, t: bytes, x: bytes, imps: seq<nat>, strs: seq<nat>, ats: seq<nat>, news: seq<bytes>)
    requires |s| >= HEADER_SIZE && TextsOnly(s, t, x, imps, strs, ats, news) && SameEvents(s, t, AllRecs(imps, strs))
    ensures SameEvents(t, x, AllRecs(imps, strs))
  {
    hide LiveByte, RecordEvents, TextsOnly;
    var rs := AllRecs(imps, strs);
    SameSize(s, t, x, imps, strs, ats, news);
    forall i | 0 <= i < |rs|
      ensures Fits(x, rs[i].p, rs[i].kind) && SameRecord(t, x, rs[i])
    {
      forall k: nat | InRecord(t, rs[i], k)
        ensures x[k] == t[k]
      {
        assert InRecord(s, rs[i], k);
        LiveIsNoRecord(s, imps, strs, i, k);
        OtherBytesKept(s, t, x, imps, strs, ats, news, k);
      }
      RecordKept(t, x, rs[i]);
    }
  }

  lemma SameSize(s: bytes, t: bytes, x: bytes, imps: seq<nat>, strs: seq<nat>, ats: seq<nat>, news: seq<bytes>)
    requires |s| >= HEADER_SIZE && TextsOnly(s, t, x, imps, strs, ats, news)
    ensures |x| == |t| == |s|
  {
  }

  /** Both tables of the script survive both steps. */
  lemma ImportsStillWalked(s: bytes, t: bytes, x: bytes, imps: seq<nat>, strs: seq<nat>)
    requires |s| == |t| == |x| >= HEADER_SIZE && ImportWalk(s) == Some(imps)
    requires SameEvents(s, t, AllRecs(imps, strs)) && SameEvents(t, x, AllRecs(imps, strs))
    requires forall k :: k in {36, 37, 38, 39, 60, 61} ==> x[k] == s[k]
    ensures ImportWalk(x) == Some(imps)
  {
    hide RecordEvents, Walk;
    var rs := AllRecs(imps, strs);
    forall i | 0 <= i < |imps| && Fits(s, imps[i], ImportRecord)
      ensures Addresses(x, imps[i], ImportRecord) == Addresses(s, imps[i], ImportRecord)
    {
      assert rs[i] == Rec(imps[i], ImportRecord);
      assert SameRecord(s, t, rs[i]) && SameRecord(t, x, rs[i]);
    }
    SameCountsSameWalk(s, x, Get32(s, IMPORT_OFFSET), Get16(s, IMPORT_COUNT), ImportRecord, imps);
  }

  /** Renamed and with its texts replaced, the script is laid out as before. */
  lemma TextsKeepLayout(s: bytes, t: bytes, x: bytes, imps: seq<nat>, strs: seq<nat>, exports: seq<GscExportData>,
                        recompute: bool, ats: seq<nat>, news: seq<bytes>)
    requires WellLaidOut(s, imps, strs, exports, recompute) && Prepared(t, imps, strs)
    requires SameEvents(s, t, AllRecs(imps, strs)) && SameLive(s, t, imps, strs)
    requires TextsOnly(s, t, x, imps, strs, ats, news)
    ensures |x| == |t| == |s| >= HEADER_SIZE && SameEvents(t, x, AllRecs(imps, strs))
    ensures ExportTable(x) == ExportTable(t) == ExportTable(s)
    ensures WellLaidOut(x, imps, strs, exports, recompute)
  {
    hide LiveByte, TextsOnly, SameEvents, SameLive, Layout, OperandLayout, Fenced, DevStringWalk, ImportFenced, Walk;
    assert Prepared(s, imps, strs) && ImportWalk(s) == Some(imps);
    hide Prepared;
    SameSize(s, t, x, imps, strs, ats, news);
    TextsKeepEvents(s, t, x, imps, strs, ats, news);
    forall k: nat | k < HEADER_SIZE
      ensures x[k] == t[k]
    {
      OtherBytesKept(s, t, x, imps, strs, ats, news, k);
    }
    forall k: nat | k < HEADER_SIZE && k !in {28, 29, 30, 31, 66, 67}
      ensures t[k] == s[k]
    {
      HeaderSame(s, t, imps, strs, k);
    }
    PreparedSame(t, x, imps, strs);
    ImportsStillWalked(s, t, x, imps, strs);
  }

  // ----- The promise of the whole run

  ghost predicate TextsAre(v: bytes, ats: seq<nat>, news: seq<bytes>)
    requires |news| == |ats|
  {
    forall i :: 0 <= i < |ats| ==> Terminated(v, ats[i]) && CString(v, ats[i]) == news[i]
  }

  /** No other byte changes: one that is in no text, that no pass over the tables
      or the dev blocks writes, and that is of no local variable's name, is the one
      of `z`, the script with the rewritten hashes in it. */
  ghost predicate OthersKept(s: bytes, v: bytes, imps: seq<nat>, strs: seq<nat>, exports: seq<GscExportData>, dev: bool,
                             ats: seq<nat>, locals: bool, z: bytes)
    requires |v| == |s| == |z| && TextsApart(s, ats)
  {
    forall k: nat :: OtherByte(s, imps, strs, exports, dev, ats, locals, k) ==> k < |s| && v[k] == z[k]
  }

  /** The script with what a rewriting from `x` to `y` changed written over it. */
  function HashedIn(s: bytes, x: bytes, y: bytes): (z: bytes)
    requires |x| == |y| == |s|
    ensures |z| == |s| && forall k :: 0 <= k < |s| ==> z[k] == if y[k] != x[k] then y[k] else s[k]
  {
    seq(|s|, k requires 0 <= k < |s| => if y[k] != x[k] then y[k] else s[k])
  }

  /** Only live bytes after the header that are of no text differ. */
  ghost predicate OffTextsEdit(s: bytes, x: bytes, y: bytes, imps: seq<nat>, strs: seq<nat>, ats: seq<nat>)
    requires TextsApart(s, ats)
  {
    && |x| == |y| == |s| >= HEADER_SIZE
    && forall k: nat :: k < |s| && y[k] != x[k] ==> k >= HEADER_SIZE && LiveByte(s, imps, strs, k) && NoText(s, ats, k)
  }

  /** Only live bytes after the header differ. */
  ghost predicate LiveEdit(s: bytes, z: bytes, imps: seq<nat>, strs: seq<nat>) {
    |z| == |s| >= HEADER_SIZE && forall k: nat :: k < |s| && z[k] != s[k] ==> k >= HEADER_SIZE && LiveByte(s, imps, strs, k)
  }

  ghost predicate OtherByte(s: bytes, imps: seq<nat>, strs: seq<nat>, exports: seq<GscExportData>, dev: bool,
                            ats: seq<nat>, locals: bool, k: nat)
    requires TextsApart(s, ats)
  {
    && KeptByte(s, imps, strs, exports, dev, k) && NoText(s, ats, k)
    && (locals ==> !AnyLocalByte(s, exports, k))
  }

  ghost predicate NoText(s: bytes, ats: seq<nat>, k: nat)
    requires TextsApart(s, ats)
  {
    forall i :: 0 <= i < |ats| ==> !InText(s, ats[i], k)
  }

  /** What the run promises of local variables, when it removes their names. */
  ghost predicate LocalsKept(s: bytes, v: bytes, exports: seq<GscExportData>, locals: bool)
    requires |v| == |s|
  {
    locals ==> forall i :: 0 <= i < |exports| ==> LocalsNamed(s, v, exports[i].bc)
  }

  /** Local variables' names are live bytes after the header. */
  ghost predicate LocalsLive(s: bytes, imps: seq<nat>, strs: seq<nat>, exports: seq<GscExportData>)
    requires |s| >= HEADER_SIZE
  {
    forall k: nat :: AnyLocalByte(s, exports, k) ==> k >= HEADER_SIZE && LiveByte(s, imps, strs, k)
  }

  /** As for a run without a private file, but that every text is the new one. */
  ghost predicate MeaningKeptRenamed(s: bytes, v: bytes, imps: seq<nat>, strs: seq<nat>, exports: seq<GscExportData>,
                                     exportNames: seq<NameLocated>, importNames: seq<NameLocated>, rho: Renaming,
                                     ats: seq<nat>, news: seq<bytes>, dev: bool, g: SlotUse, locals: bool,
                                     z: bytes)
    requires |s| >= HEADER_SIZE && |exportNames| == |exports| && |importNames| == |imps| && Bounded(rho)
    requires TextsApart(s, ats) && |news| == |ats|
  {
    && |v| == |s|
    && ExportsKept(s, v, exports, exportNames, rho)
    && ImportsKept(s, v, imps, dev, importNames, rho)
    && TrampolinesMade(s, v, exports, dev, g)
    && (dev ==> DevDone(s, v, g.junk, g.freed, imps, strs))
    && TextsAre(v, ats, news)
    && LocalsKept(s, v, exports, locals)
    && |z| == |s| && OthersKept(s, v, imps, strs, exports, dev, ats, locals, z)
  }

  /** The promise of a whole run over a script with such texts. */
  ghost predicate RunKept(names: Names, s: bytes, v: bytes, imps: seq<nat>, strs: seq<nat>, ps: seq<nat>,
                          exports: seq<GscExportData>, exportNames: seq<NameLocated>, importNames: seq<NameLocated>,
                          rho: Renaming, dev: bool, g: SlotUse, locals: bool, z: bytes)
  {
    && TextLayout(s, imps, strs, ps) && |exportNames| == |exports| && |importNames| == |imps| && Bounded(rho)
    && MeaningKeptRenamed(s, v, imps, strs, exports, exportNames, importNames, rho, Texts(s, ps), News(names, s, ps), dev,
                          g, locals, z)
  }

  lemma ExportAfterTexts(s: bytes, t: bytes, x: bytes, imps: seq<nat>, strs: seq<nat>, exports: seq<GscExportData>,
                         recompute: bool, ats: seq<nat>, news: seq<bytes>, i: nat)
    requires WellLaidOut(s, imps, strs, exports, recompute) && i < |exports|
    requires TextsOnly(s, t, x, imps, strs, ats, news)
    ensures exports[i].ref + EXPORT_SIZE <= |s| == |t| == |x|
    ensures ExportName(x, exports[i].ref) == ExportName(t, exports[i].ref)
    ensures ExportAddress(x, exports[i].ref) == ExportAddress(t, exports[i].ref)
  {
    assert |s| >= HEADER_SIZE;
    hide TextsOnly, Prepared, ImportWalk;
    TableOf(s, imps, strs, exports, recompute);
    SameSize(s, t, x, imps, strs, ats, news);
    var e := exports[i].ref;
    assert e == ExportAt(ExportTable(s), i) && e + EXPORT_SIZE <= ExportEnd(s);
    hide WellLaidOut, InTable;
    forall k: nat | e <= k < e + EXPORT_SIZE
      ensures x[k] == t[k]
    {
      OtherBytesKept(s, t, x, imps, strs, ats, news, k);
    }
  }

  lemma ImportAfterTexts(s: bytes, t: bytes, x: bytes, imps: seq<nat>, strs: seq<nat>, ats: seq<nat>, news: seq<bytes>,
                         i: nat)
    requires |s| >= HEADER_SIZE && AllFit(s, AllRecs(imps, strs)) && i < |imps|
    requires TextsOnly(s, t, x, imps, strs, ats, news)
    ensures imps[i] + IMPORT_SIZE <= |s| == |t| == |x|
    ensures ImportName(x, imps[i]) == ImportName(t, imps[i]) && x[imps[i] + 11] == t[imps[i] + 11]
  {
    hide TextsOnly, LiveByte;
    var rs := AllRecs(imps, strs);
    assert rs[i] == Rec(imps[i], ImportRecord);
    SameSize(s, t, x, imps, strs, ats, news);
    forall k: nat | imps[i] <= k < imps[i] + IMPORT_SIZE
      ensures x[k] == t[k]
    {
      assert InRecord(s, rs[i], k);
      LiveIsNoRecord(s, imps, strs, i, k);
      OtherBytesKept(s, t, x, imps, strs, ats, news, k);
    }
  }

  /** A text is still the new one after the rest of the run, whose bytes are live. */
  lemma TextAfterRun(s: bytes, t: bytes, x: bytes, v: bytes, imps: seq<nat>, strs: seq<nat>, ats: seq<nat>,
                     news: seq<bytes>, i: nat)
    requires |s| >= HEADER_SIZE && TextsOnly(s, t, x, imps, strs, ats, news) && i < |ats| && NewsFit(t, ats, news)
    requires |v| == |x| && forall k: nat :: LiveByte(s, imps, strs, k) && k < |x| && InText(s, ats[i], k) ==> v[k] == x[k]
    ensures Terminated(v, ats[i]) && CString(v, ats[i]) == news[i]
  {
    hide CString, LiveByte;
    forall k: nat | ats[i] <= k < TextEnd(x, ats[i]) && k < |x|
      ensures v[k] == x[k]
    {
      assert InText(s, ats[i], k);
    }
    SameText(x, v, ats[i]);
  }

  /** What is known once the texts are in place: `s` renamed to `t`, texts
      replaced to `x`. */
  ghost predicate ReadyForDev(s: bytes, t: bytes, x: bytes, imps: seq<nat>, strs: seq<nat>, exports: seq<GscExportData>,
                              recompute: bool, exportNames: seq<NameLocated>, importNames: seq<NameLocated>,
                              rho: Renaming, ats: seq<nat>, news: seq<bytes>)
    requires |exportNames| == |exports| && |importNames| == |imps| && Bounded(rho)
  {
    && WellLaidOut(s, imps, strs, exports, recompute) && WellLaidOut(x, imps, strs, exports, recompute)
    && TablesApart(|s|, Refs(exports), imps)
    && RenamedBy(s, t, Refs(exports), exportNames, imps, importNames, rho)
    && |t| == |s| == |x| && SameEvents(s, t, AllRecs(imps, strs)) && SameEvents(t, x, AllRecs(imps, strs))
    && ExportTable(t) == ExportTable(s) == ExportTable(x)
    && Get16(t, EXPORT_COUNT) == Get16(s, EXPORT_COUNT) == Get16(x, EXPORT_COUNT)
    && (forall i :: 0 <= i < |exports| ==>
         exports[i].ref + EXPORT_SIZE <= |s| && ExportAddress(t, exports[i].ref) == ExportAddress(s, exports[i].ref))
    && TextsOnly(s, t, x, imps, strs, ats, news) && NewsFit(t, ats, news)
  }

  lemma ConcludeExport(s: bytes, t: bytes, x: bytes, v: bytes, imps: seq<nat>, strs: seq<nat>,
                       exports: seq<GscExportData>, recompute: bool, exportNames: seq<NameLocated>,
                       importNames: seq<NameLocated>, rho: Renaming, ats: seq<nat>, news: seq<bytes>,
                       now: seq<NameLocated>, imported: seq<NameLocated>, dev: bool, g: SlotUse, y: bytes, i: nat)
    requires |exportNames| == |exports| && |importNames| == |imps| && Bounded(rho) && i < |exports|
    requires ReadyForDev(s, t, x, imps, strs, exports, recompute, exportNames, importNames, rho, ats, news)
    requires |now| == |exports| && |imported| == |imps| && |x| >= HEADER_SIZE
    requires exports[i].ref + EXPORT_SIZE <= |x| && now[i] == ExportName(x, exports[i].ref)
    requires MeaningKept(x, v, imps, strs, exports, now, imported, map[], dev, g, y)
    ensures exports[i].ref + EXPORT_SIZE <= |s| == |v|
    ensures Jumps.Reaches(v, ExportAddress(v, exports[i].ref), ExportAddress(s, exports[i].ref))
    ensures ExportName(v, exports[i].ref) == Renamed(exportNames[i], rho)
  {
    hide WellLaidOut, TablesApart, SameEvents, TextsOnly, NewsFit, Jumps.Reaches, LiveByte;
    ExportAfterTexts(s, t, x, imps, strs, exports, recompute, ats, news, i);
    assert Refs(exports)[i] == exports[i].ref;
  }

  lemma ConcludeImport(s: bytes, t: bytes, x: bytes, v: bytes, imps: seq<nat>, strs: seq<nat>,
                       exports: seq<GscExportData>, recompute: bool, exportNames: seq<NameLocated>,
                       importNames: seq<NameLocated>, rho: Renaming, ats: seq<nat>, news: seq<bytes>,
                       now: seq<NameLocated>, imported: seq<NameLocated>, dev: bool, g: SlotUse, y: bytes, i: nat)
    requires |exportNames| == |exports| && |importNames| == |imps| && Bounded(rho) && i < |imps|
    requires ReadyForDev(s, t, x, imps, strs, exports, recompute, exportNames, importNames, rho, ats, news)
    requires |now| == |exports| && |imported| == |imps| && |x| >= HEADER_SIZE
    requires imps[i] + IMPORT_SIZE <= |x| && imported[i] == ImportName(x, imps[i])
    requires MeaningKept(x, v, imps, strs, exports, now, imported, map[], dev, g, y)
    ensures imps[i] + IMPORT_SIZE <= |s| == |v|
    ensures !(dev && IsDevCall(s[imps[i] + 11])) ==> ImportName(v, imps[i]) == Renamed(importNames[i], rho)
  {
    FlagsOfImportKept(s, t, Refs(exports), exportNames, imps, importNames, rho, i);
    assert AllFit(s, AllRecs(imps, strs));
    hide WellLaidOut, TablesApart, SameEvents, TextsOnly, NewsFit, Jumps.Reaches, LiveByte;
    ImportAfterTexts(s, t, x, imps, strs, ats, news, i);
  }

  lemma ConcludeByte(s: bytes, t: bytes, x: bytes, v: bytes, imps: seq<nat>, strs: seq<nat>,
                     exports: seq<GscExportData>, recompute: bool, exportNames: seq<NameLocated>,
                     importNames: seq<NameLocated>, rho: Renaming, ats: seq<nat>, news: seq<bytes>,
                     now: seq<NameLocated>, imported: seq<NameLocated>, dev: bool, g: SlotUse, y: bytes, k: nat)
    requires |exportNames| == |exports| && |importNames| == |imps| && Bounded(rho)
    requires ReadyForDev(s, t, x, imps, strs, exports, recompute, exportNames, importNames, rho, ats, news)
    requires |now| == |exports| && |imported| == |imps| && |x| == |s| >= HEADER_SIZE
    requires MeaningKept(x, v, imps, strs, exports, now, imported, map[], dev, g, y)
    requires KeptByte(s, imps, strs, exports, dev, k)
    ensures k < |x| == |v| == |y| && v[k] == y[k]
  {
    hide WellLaidOut, TablesApart, SameEvents, TextsOnly, NewsFit, Spared, TableField, RenamedBy, ExportsKept, ImportsKept,
         DevDone;
    if dev {
      SparedSame(s, t, imps, strs, k);
      SparedSame(t, x, imps, strs, k);
    }
    assert KeptByte(x, imps, strs, exports, dev, k);
  }

  lemma ConcludeOther(s: bytes, t: bytes, x: bytes, imps: seq<nat>, strs: seq<nat>, exports: seq<GscExportData>,
                      recompute: bool, exportNames: seq<NameLocated>, importNames: seq<NameLocated>, rho: Renaming,
                      ats: seq<nat>, news: seq<bytes>, dev: bool, k: nat)
    requires |exportNames| == |exports| && |importNames| == |imps| && Bounded(rho)
    requires ReadyForDev(s, t, x, imps, strs, exports, recompute, exportNames, importNames, rho, ats, news)
    requires KeptByte(s, imps, strs, exports, dev, k) && TextsApart(s, ats) && NoText(s, ats, k)
    ensures k < |s| == |x| && x[k] == s[k]
  {
    hide ReadyForDev, WellLaidOut, TablesApart, RenamedBy, Bounded, KeptByte, TextsOnly, NoText, TextsApart, Refs;
    ReadyFacts(s, t, x, imps, strs, exports, recompute, exportNames, importNames, rho, ats, news);
    KeptByRenaming(s, t, imps, strs, exports, recompute, exportNames, importNames, rho, dev, k);
    KeptByTexts(s, t, x, imps, strs, ats, news, k);
  }

  lemma ReadyFacts(s: bytes, t: bytes, x: bytes, imps: seq<nat>, strs: seq<nat>, exports: seq<GscExportData>,
                   recompute: bool, exportNames: seq<NameLocated>, importNames: seq<NameLocated>, rho: Renaming,
                   ats: seq<nat>, news: seq<bytes>)
    requires |exportNames| == |exports| && |importNames| == |imps| && Bounded(rho)
    requires ReadyForDev(s, t, x, imps, strs, exports, recompute, exportNames, importNames, rho, ats, news)
    ensures |t| == |s| == |x| && |s| >= HEADER_SIZE && WellLaidOut(s, imps, strs, exports, recompute)
    ensures TablesApart(|s|, Refs(exports), imps)
    ensures RenamedBy(s, t, Refs(exports), exportNames, imps, importNames, rho)
    ensures TextsOnly(s, t, x, imps, strs, ats, news)
  {
    hide TablesApart, RenamedBy, Bounded, TextsOnly, Refs, SameEvents, NewsFit, ExportAddress;
  }

  lemma KeptByRenaming(s: bytes, t: bytes, imps: seq<nat>, strs: seq<nat>, exports: seq<GscExportData>, recompute: bool,
                       exportNames: seq<NameLocated>, importNames: seq<NameLocated>, rho: Renaming, dev: bool, k: nat)
    requires WellLaidOut(s, imps, strs, exports, recompute)
    requires |exportNames| == |exports| && |importNames| == |imps| && Bounded(rho)
    requires TablesApart(|s|, Refs(exports), imps)
    requires RenamedBy(s, t, Refs(exports), exportNames, imps, importNames, rho)
    requires KeptByte(s, imps, strs, exports, dev, k)
    ensures k < |s| == |t| && t[k] == s[k]
  {
    hide WellLaidOut, Spared;
    RenamingKeepsByte(s, t, imps, strs, exports, recompute, exportNames, importNames, rho, k);
  }

  lemma KeptByTexts(s: bytes, t: bytes, x: bytes, imps: seq<nat>, strs: seq<nat>, ats: seq<nat>, news: seq<bytes>, k: nat)
    requires |s| >= HEADER_SIZE && TextsOnly(s, t, x, imps, strs, ats, news) && NoText(s, ats, k) && k < |s|
    ensures |x| == |t| && x[k] == t[k]
  {
    hide CString, TextsLive;
    assert forall i :: 0 <= i < |ats| ==> !InText(t, ats[i], k);
  }

  lemma ConcludeExports(s: bytes, t: bytes, x: bytes, v: bytes, imps: seq<nat>, strs: seq<nat>,
                        exports: seq<GscExportData>, recompute: bool, exportNames: seq<NameLocated>,
                        importNames: seq<NameLocated>, rho: Renaming, ats: seq<nat>, news: seq<bytes>,
                        now: seq<NameLocated>, imported: seq<NameLocated>, dev: bool, g: SlotUse, y: bytes)
    requires |exportNames| == |exports| && |importNames| == |imps| && Bounded(rho)
    requires ReadyForDev(s, t, x, imps, strs, exports, recompute, exportNames, importNames, rho, ats, news)
    requires |now| == |exports| && |imported| == |imps| && |x| == |s| >= HEADER_SIZE
    requires MeaningKept(x, v, imps, strs, exports, now, imported, map[], dev, g, y)
    requires forall i :: 0 <= i < |exports| ==>
      exports[i].ref + EXPORT_SIZE <= |x| && now[i] == ExportName(x, exports[i].ref)
    ensures |v| == |s| && ExportsKept(s, v, exports, exportNames, rho)
  {
    assert |v| == |s|;
    hide ReadyForDev, MeaningKept, Jumps.Reaches, ExportName, Renamed, ExportAddress;
    forall i | 0 <= i < |exports|
      ensures exports[i].ref + EXPORT_SIZE <= |s|
      ensures Jumps.Reaches(v, ExportAddress(v, exports[i].ref), ExportAddress(s, exports[i].ref))
      ensures ExportName(v, exports[i].ref) == Renamed(exportNames[i], rho)
    {
      ConcludeExport(s, t, x, v, imps, strs, exports, recompute, exportNames, importNames, rho, ats, news, now, imported,
                     dev, g, y, i);
    }
  }

  lemma ConcludeImports(s: bytes, t: bytes, x: bytes, v: bytes, imps: seq<nat>, strs: seq<nat>,
                        exports: seq<GscExportData>, recompute: bool, exportNames: seq<NameLocated>,
                        importNames: seq<NameLocated>, rho: Renaming, ats: seq<nat>, news: seq<bytes>,
                        now: seq<NameLocated>, imported: seq<NameLocated>, dev: bool, g: SlotUse, y: bytes)
    requires |exportNames| == |exports| && |importNames| == |imps| && Bounded(rho)
    requires ReadyForDev(s, t, x, imps, strs, exports, recompute, exportNames, importNames, rho, ats, news)
    requires |now| == |exports| && |imported| == |imps| && |x| == |s| >= HEADER_SIZE
    requires MeaningKept(x, v, imps, strs, exports, now, imported, map[], dev, g, y)
    requires forall i :: 0 <= i < |imps| ==> imps[i] + IMPORT_SIZE <= |x| && imported[i] == ImportName(x, imps[i])
    ensures |v| == |s| && ImportsKept(s, v, imps, dev, importNames, rho)
  {
    assert |v| == |s|;
    hide ReadyForDev, MeaningKept, ImportName, Renamed;
    forall i | 0 <= i < |imps|
      ensures imps[i] + IMPORT_SIZE <= |s|
      ensures !(dev && IsDevCall(s[imps[i] + 11])) ==> ImportName(v, imps[i]) == Renamed(importNames[i], rho)
    {
      ConcludeImport(s, t, x, v, imps, strs, exports, recompute, exportNames, importNames, rho, ats, news, now, imported,
                     dev, g, y, i);
    }
  }

  lemma ConcludeMade(s: bytes, t: bytes, x: bytes, v: bytes, imps: seq<nat>, strs: seq<nat>,
                     exports: seq<GscExportData>, recompute: bool, exportNames: seq<NameLocated>,
                     importNames: seq<NameLocated>, rho: Renaming, ats: seq<nat>, news: seq<bytes>,
                     now: seq<NameLocated>, imported: seq<NameLocated>, dev: bool, g: SlotUse, y: bytes)
    requires |exportNames| == |exports| && |importNames| == |imps| && Bounded(rho)
    requires ReadyForDev(s, t, x, imps, strs, exports, recompute, exportNames, importNames, rho, ats, news)
    requires |now| == |exports| && |imported| == |imps| && |x| == |s| >= HEADER_SIZE
    requires MeaningKept(x, v, imps, strs, exports, now, imported, map[], dev, g, y)
    ensures |v| == |s| && TrampolinesMade(s, v, exports, dev, g)
  {
    hide WellLaidOut, TablesApart, SameEvents, TextsOnly, NewsFit, RenamedBy, ExportsKept, ImportsKept, DevDone, KeptByte,
         TrampolinesMade, ExportAddress;
    forall i | 0 <= i < |exports|
      ensures exports[i].ref + EXPORT_SIZE <= |s| == |x|
      ensures ExportAddress(x, exports[i].ref) == ExportAddress(s, exports[i].ref)
    {
      ExportAfterTexts(s, t, x, imps, strs, exports, recompute, ats, news, i);
    }
    MadeSame(s, x, v, exports, dev, g);
  }

  lemma ConcludeDev(s: bytes, t: bytes, x: bytes, v: bytes, imps: seq<nat>, strs: seq<nat>,
                    exports: seq<GscExportData>, recompute: bool, exportNames: seq<NameLocated>,
                    importNames: seq<NameLocated>, rho: Renaming, ats: seq<nat>, news: seq<bytes>,
                    now: seq<NameLocated>, imported: seq<NameLocated>, dev: bool, g: SlotUse, y: bytes)
    requires |exportNames| == |exports| && |importNames| == |imps| && Bounded(rho)
    requires ReadyForDev(s, t, x, imps, strs, exports, recompute, exportNames, importNames, rho, ats, news)
    requires |now| == |exports| && |imported| == |imps| && |x| == |s| >= HEADER_SIZE
    requires MeaningKept(x, v, imps, strs, exports, now, imported, map[], dev, g, y)
    ensures |v| == |s| && (dev ==> DevDone(s, v, g.junk, g.freed, imps, strs))
  {
    hide WellLaidOut, TablesApart, SameEvents, TextsOnly, NewsFit, RenamedBy, ExportsKept, ImportsKept, DevDone, KeptByte;
    if dev {
      DevDoneSame(t, x, v, g.junk, g.freed, imps, strs);
      DevDoneSame(s, t, v, g.junk, g.freed, imps, strs);
    }
  }

  lemma ConcludeTexts(s: bytes, t: bytes, x: bytes, v: bytes, imps: seq<nat>, strs: seq<nat>,
                      exports: seq<GscExportData>, recompute: bool, exportNames: seq<NameLocated>,
                      importNames: seq<NameLocated>, rho: Renaming, ats: seq<nat>, news: seq<bytes>,
                      now: seq<NameLocated>, imported: seq<NameLocated>, dev: bool, g: SlotUse, y: bytes)
    requires |exportNames| == |exports| && |importNames| == |imps| && Bounded(rho)
    requires ReadyForDev(s, t, x, imps, strs, exports, recompute, exportNames, importNames, rho, ats, news)
    requires |now| == |exports| && |imported| == |imps| && |x| == |s| >= HEADER_SIZE
    requires MeaningKept(x, v, imps, strs, exports, now, imported, map[], dev, g, y)
    requires TextsApart(s, ats) && OffTextsEdit(s, x, y, imps, strs, ats)
    ensures |news| == |ats| && TextsAre(v, ats, news)
  {
    assert TextsOnly(s, t, x, imps, strs, ats, news) && NewsFit(t, ats, news) && |v| == |x|;
    assert WellLaidOut(s, imps, strs, exports, recompute);
    hide ReadyForDev, MeaningKept, NewsFit, TextsApart, TextsRenamed, CString, LiveByte, TextsLive, Terminated, WellLaidOut,
         KeptByte;
    forall i, k: nat | 0 <= i < |ats| && LiveByte(s, imps, strs, k) && k < |x| && InText(s, ats[i], k)
      ensures v[k] == x[k]
    {
      LiveIsKept(s, imps, strs, exports, recompute, dev, k);
      ConcludeByte(s, t, x, v, imps, strs, exports, recompute, exportNames, importNames, rho, ats, news, now, imported,
                   dev, g, y, k);
    }
    forall i | 0 <= i < |ats|
      ensures Terminated(v, ats[i]) && CString(v, ats[i]) == news[i]
    {
      TextAfterRun(s, t, x, v, imps, strs, ats, news, i);
    }
  }

  lemma ConcludeOthers(s: bytes, t: bytes, x: bytes, v: bytes, imps: seq<nat>, strs: seq<nat>,
                       exports: seq<GscExportData>, recompute: bool, exportNames: seq<NameLocated>,
                       importNames: seq<NameLocated>, rho: Renaming, ats: seq<nat>, news: seq<bytes>,
                       now: seq<NameLocated>, imported: seq<NameLocated>, dev: bool, g: SlotUse, y: bytes)
    requires |exportNames| == |exports| && |importNames| == |imps| && Bounded(rho)
    requires ReadyForDev(s, t, x, imps, strs, exports, recompute, exportNames, importNames, rho, ats, news)
    requires |now| == |exports| && |imported| == |imps| && |x| == |s| >= HEADER_SIZE
    requires MeaningKept(x, v, imps, strs, exports, now, imported, map[], dev, g, y)
    ensures |v| == |s| == |x| == |y| && TextsApart(s, ats)
    ensures OthersKept(s, v, imps, strs, exports, dev, ats, false, HashedIn(s, x, y))
  {
    assert TextsOnly(s, t, x, imps, strs, ats, news) && |v| == |x|;
    assert TextsApart(s, ats) && forall i :: 0 <= i < |ats| ==> ats[i] <= |s|;
    hide ReadyForDev, MeaningKept, TextsApart, CString, TextsOnly, InText, KeptByte;
    forall k: nat | OtherByte(s, imps, strs, exports, dev, ats, false, k)
      ensures k < |s| && v[k] == HashedIn(s, x, y)[k]
    {
      ConcludeByte(s, t, x, v, imps, strs, exports, recompute, exportNames, importNames, rho, ats, news, now, imported,
                   dev, g, y, k);
      ConcludeOther(s, t, x, imps, strs, exports, recompute, exportNames, importNames, rho, ats, news, dev, k);
    }
  }

  /** The names the tables carry once the texts are in place. */
  lemma NamesBeforeDev(s: bytes, t: bytes, x: bytes, imps: seq<nat>, strs: seq<nat>, exports: seq<GscExportData>,
                       recompute: bool, exportNames: seq<NameLocated>, importNames: seq<NameLocated>, rho: Renaming,
                       ats: seq<nat>, news: seq<bytes>)
    returns (now: seq<NameLocated>, imported: seq<NameLocated>)
    requires |exportNames| == |exports| && |importNames| == |imps| && Bounded(rho)
    requires ReadyForDev(s, t, x, imps, strs, exports, recompute, exportNames, importNames, rho, ats, news)
    ensures |now| == |exports| && |imported| == |imps| && |x| == |s| >= HEADER_SIZE
    ensures forall i :: 0 <= i < |exports| ==>
      exports[i].ref + EXPORT_SIZE <= |x| && now[i] == ExportName(x, exports[i].ref)
    ensures forall i :: 0 <= i < |imps| ==> imps[i] + IMPORT_SIZE <= |x| && imported[i] == ImportName(x, imps[i])
    ensures WellLaidOut(x, imps, strs, exports, recompute) && |exports| == Get16(x, EXPORT_COUNT)
    ensures TablesApart(|x|, Refs(exports), imps) && ChecksumLayout(|x|, exports, recompute)
    ensures Bounded(map[]) && RenamedBy(x, x, Refs(exports), now, imps, imported, map[])
  {
    assert WellLaidOut(x, imps, strs, exports, recompute) && |x| == |s| >= HEADER_SIZE;
    TableOf(x, imps, strs, exports, recompute);
    TablesAreApart(x, imps, strs, exports, recompute);
    LayoutFits(x, AllRecs(imps, strs));
    forall i | 0 <= i < |imps|
      ensures Fits(x, imps[i], ImportRecord)
    {
      assert AllRecs(imps, strs)[i] == Rec(imps[i], ImportRecord);
    }
    hide ReadyForDev, WellLaidOut;
    now, imported := NamesOf(x, exports), ImportNames(x, imps);
    NamesAreCurrent(x, exports, now, imps, imported);
  }

  /** From the texts in place (`x`) and the rest of the run (`x` to `v`), the
      promise of the whole run, told from the loaded script. */
  lemma ConcludeRun(s: bytes, t: bytes, x: bytes, v: bytes, imps: seq<nat>, strs: seq<nat>,
                    exports: seq<GscExportData>, recompute: bool, exportNames: seq<NameLocated>,
                    importNames: seq<NameLocated>, rho: Renaming, ats: seq<nat>, news: seq<bytes>,
                    now: seq<NameLocated>, imported: seq<NameLocated>, dev: bool, g: SlotUse, y: bytes)
    requires |exportNames| == |exports| && |importNames| == |imps| && Bounded(rho)
    requires ReadyForDev(s, t, x, imps, strs, exports, recompute, exportNames, importNames, rho, ats, news)
    requires |now| == |exports| && |imported| == |imps| && |x| == |s| >= HEADER_SIZE
    requires MeaningKept(x, v, imps, strs, exports, now, imported, map[], dev, g, y)
    requires forall i :: 0 <= i < |exports| ==>
      exports[i].ref + EXPORT_SIZE <= |x| && now[i] == ExportName(x, exports[i].ref)
    requires forall i :: 0 <= i < |imps| ==> imps[i] + IMPORT_SIZE <= |x| && imported[i] == ImportName(x, imps[i])
    requires TextsApart(s, ats) && OffTextsEdit(s, x, y, imps, strs, ats)
    ensures |news| == |ats| && |x| == |y| == |s|
    ensures MeaningKeptRenamed(s, v, imps, strs, exports, exportNames, importNames, rho, ats, news, dev, g, false,
      HashedIn(s, x, y))
  {
    hide ReadyForDev, MeaningKept, ExportsKept, ImportsKept, DevDone, TextsAre, OthersKept, TextsApart, Bounded,
         TrampolinesMade;
    ConcludeExports(s, t, x, v, imps, strs, exports, recompute, exportNames, importNames, rho, ats, news, now, imported,
                    dev, g, y);
    ConcludeImports(s, t, x, v, imps, strs, exports, recompute, exportNames, importNames, rho, ats, news, now, imported,
                    dev, g, y);
    ConcludeMade(s, t, x, v, imps, strs, exports, recompute, exportNames, importNames, rho, ats, news, now, imported,
                 dev, g, y);
    ConcludeDev(s, t, x, v, imps, strs, exports, recompute, exportNames, importNames, rho, ats, news, now, imported,
                dev, g, y);
    ConcludeTexts(s, t, x, v, imps, strs, exports, recompute, exportNames, importNames, rho, ats, news, now, imported,
                  dev, g, y);
    ConcludeOthers(s, t, x, v, imps, strs, exports, recompute, exportNames, importNames, rho, ats, news, now, imported,
                   dev, g, y);
  }

  lemma NewsFitTogether(s: bytes, a: seq<nat>, na: seq<bytes>, b: seq<nat>, nb: seq<bytes>)
    requires TextsApart(s, a) && TextsApart(s, b) && TextsApart(s, a + b) && NewsFit(s, a, na) && NewsFit(s, b, nb)
    ensures NewsFit(s, a + b, na + nb)
  {
    hide CString, TextEnd;
    var c, nc := a + b, na + nb;
    forall i | 0 <= i < |c|
      ensures |nc[i]| <= |CString(s, c[i])| && 0 !in nc[i]
    {
      if i >= |a| {
        assert c[i] == b[i - |a|] && nc[i] == nb[i - |a|];
      } else {
        assert c[i] == a[i] && nc[i] == na[i];
      }
    }
  }

  lemma NewsFitSame(s: bytes, t: bytes, ats: seq<nat>, news: seq<bytes>)
    requires TextsApart(s, ats) && TextsApart(t, ats) && NewsFit(s, ats, news)
    requires forall i :: 0 <= i < |ats| ==> CString(t, ats[i]) == CString(s, ats[i])
    ensures NewsFit(t, ats, news)
  {
    hide CString, TextEnd;
  }

  lemma NewsOfAllFit(names: Names, s: bytes, t: bytes, imps: seq<nat>, strs: seq<nat>, ps: seq<nat>)
    requires Prepared(s, imps, strs) && TextLayout(s, imps, strs, ps) && SameTexts(s, t, imps, strs, ps)
    requires StringsFit(names.strings) && Stored(names.scripts)
    ensures TextsApart(t, Texts(s, ps)) && NewsFit(t, Texts(s, ps), News(names, s, ps))
  {
    hide Prepared, LiveByte, CString, OffTexts, TextsLive, SameTexts, NewString, StringsFit, Stored, TextEnd, NewsFit,
         ScriptNews, StringTableWalk, Terminated, IncludeTable, Includes;
    ReadyAfterRenaming(s, t, imps, strs, ps);
    var a, b := Referenced(s, ps), ScriptTexts(s);
    assert TextsApart(s, a + b);
    hide TextsApart, StringsReady, ScriptTextsReady;
    ApartParts(s, a, b);
    NewStringsFit(names.strings, s, a);
    ScriptNewsFit(names.scripts, s, b);
    NewsFitTogether(s, a, NewStrings(names.strings, s, a), b, ScriptNews(names.scripts, s, b));
    NewsFitSame(s, t, Texts(s, ps), News(names, s, ps));
  }

  lemma ScriptNewsFit(scripts: map<bytes, bytes>, s: bytes, ats: seq<nat>)
    requires TextsApart(s, ats) && |ats| >= 1 && Stored(scripts)
    ensures NewsFit(s, ats, ScriptNews(scripts, s, ats))
  {
    hide CString, Side, Stored, NewName, NewInclude;
    var side := Side(CString(s, ats[0]));
    if side.Some? {
      NewTextsFit(scripts, s, ats, side.value);
    } else {
      TextsHaveNoZero(s, ats);
    }
  }

  lemma TextsHaveNoZero(s: bytes, ats: seq<nat>)
    requires TextsApart(s, ats)
    ensures forall i :: 0 <= i < |ats| ==> 0 !in CString(s, ats[i])
  {
  }

  /** The texts in place, everything the rest of the run asks for is there. */
  lemma DevIsReady(names: Names, s: bytes, t: bytes, x: bytes, imps: seq<nat>, strs: seq<nat>, ps: seq<nat>,
                   exports: seq<GscExportData>, recompute: bool, exportNames: seq<NameLocated>,
                   importNames: seq<NameLocated>, rho: Renaming)
    requires WellLaidOut(s, imps, strs, exports, recompute) && TextLayout(s, imps, strs, ps)
    requires |exportNames| == |exports| && |importNames| == |imps| && Bounded(rho)
    requires TablesApart(|s|, Refs(exports), imps)
    requires RenamedBy(s, t, Refs(exports), exportNames, imps, importNames, rho)
    requires StringsFit(names.strings) && Stored(names.scripts)
    requires TextsDone(names, s, t, x, ps)
    ensures ReadyForDev(s, t, x, imps, strs, exports, recompute, exportNames, importNames, rho,
      Texts(s, ps), News(names, s, ps))
  {
    hide LiveByte, TextsLive, SameTexts, SameLive, TextsRenamed, RenamedBy, NewsFit, News, StringsFit, Stored, SameEvents,
         Prepared, CString, OffTexts, Terminated, StringTableWalk;
    var ats, news := Texts(s, ps), News(names, s, ps);
    assert Prepared(s, imps, strs) && TextsApart(s, ats) && TextsLive(s, imps, strs, ats);
    assert |exports| == Get16(s, EXPORT_COUNT);
    TableOf(s, imps, strs, exports, recompute);
    hide TextLayout, TextsApart, TablesApart, StringsReady, ScriptTextsReady;
    RenamingKeepsEvents(s, t, imps, strs, exports, recompute, exportNames, importNames, rho);
    RenamingKeepsLayout(s, t, imps, strs, exports, recompute, exportNames, importNames, rho);
    RenamedKeepsLive(s, t, imps, strs, exports, recompute, exportNames, importNames, rho);
    SameLiveTexts(s, t, imps, strs, ps);
    ReadyAfterRenaming(s, t, imps, strs, ps);
    NewsOfAllFit(names, s, t, imps, strs, ps);
    assert |t| == |s| by {
      SameLiveSize(s, t, imps, strs);
    }
    assert TextsOnly(s, t, x, imps, strs, ats, news);
    TextsKeepLayout(s, t, x, imps, strs, exports, recompute, ats, news);
  }

  lemma SameLiveSize(s: bytes, t: bytes, imps: seq<nat>, strs: seq<nat>)
    requires |s| >= HEADER_SIZE && SameLive(s, t, imps, strs)
    ensures |t| == |s|
  {
  }

  lemma TheTexts(names: Names, s: bytes, imps: seq<nat>, strs: seq<nat>, ps: seq<nat>)
    returns (ats: seq<nat>, news: seq<bytes>)
    requires TextLayout(s, imps, strs, ps)
    ensures ats == Texts(s, ps) && news == News(names, s, ps)
    ensures TextsApart(s, ats) && |news| == |ats|
  {
    ats, news := Texts(s, ps), News(names, s, ps);
  }

  // ----- What follows from the promise

  lemma HeaderNoText(s: bytes, imps: seq<nat>, strs: seq<nat>, ats: seq<nat>, k: nat)
    requires |s| >= HEADER_SIZE && TextsApart(s, ats) && TextsLive(s, imps, strs, ats) && k < HEADER_SIZE
    ensures NoText(s, ats, k)
  {
    hide LiveByte, CString;
  }

  /** The header, but for the dev string table's own fields, comes through the run:
      the magic number that marks a compiled script with it. */
  lemma HeaderComesThrough(s: bytes, v: bytes, imps: seq<nat>, strs: seq<nat>, exports: seq<GscExportData>, recompute: bool,
                           ats: seq<nat>, dev: bool, locals: bool, z: bytes)
    requires WellLaidOut(s, imps, strs, exports, recompute) && |s| >= HEADER_SIZE
    requires TextsApart(s, ats) && TextsLive(s, imps, strs, ats)
    requires |v| == |s| && LiveEdit(s, z, imps, strs) && OthersKept(s, v, imps, strs, exports, dev, ats, locals, z)
    requires locals ==> LocalsLive(s, imps, strs, exports)
    ensures Get64(v, 0) == Get64(s, 0)
    ensures forall k :: 0 <= k < HEADER_SIZE && k !in {28, 29, 30, 31, 66, 67} ==> v[k] == s[k]
  {
    hide LiveByte, CString, WellLaidOut, KeptByte, TextsApart, TextsLive, InText, NoText, AnyLocalByte;
    forall k: nat | k < HEADER_SIZE && k !in {28, 29, 30, 31, 66, 67}
      ensures v[k] == s[k]
    {
      HeaderIsKept(s, imps, strs, exports, recompute, dev, k);
      HeaderNoText(s, imps, strs, ats, k);
      assert OtherByte(s, imps, strs, exports, dev, ats, locals, k);
    }
  }

  lemma TableNoText(s: bytes, imps: seq<nat>, strs: seq<nat>, ats: seq<nat>, k: nat)
    requires |s| >= HEADER_SIZE && TextsApart(s, ats) && TextsLive(s, imps, strs, ats) && !LiveByte(s, imps, strs, k)
    ensures NoText(s, ats, k)
  {
    hide LiveByte, CString;
  }

  /** Of a killed dev call its namespace, its address count and its flags; of any
      other import every byte but its name, its call sites with them. */
  predicate KeptInImport(s: bytes, p: nat, dev: bool, k: nat)
    requires Fits(s, p, ImportRecord)
  {
    && p + 4 <= k < RecordEnd(s, p, ImportRecord)
    && (k in OwnBytes(p) || !(dev && IsDevCall(s[p + 11])))
  }

  ghost predicate ImportBytesKept(s: bytes, v: bytes, p: nat, dev: bool)
    requires |v| == |s|
  {
    && Fits(s, p, ImportRecord)
    && forall k: nat :: KeptInImport(s, p, dev, k) ==> v[k] == s[k]
  }

  /** After the run the import table is the same list of records, with these bytes. */
  lemma ImportsComeThrough(s: bytes, v: bytes, imps: seq<nat>, strs: seq<nat>, exports: seq<GscExportData>, recompute: bool,
                           ats: seq<nat>, dev: bool, locals: bool, z: bytes)
    requires WellLaidOut(s, imps, strs, exports, recompute) && |s| >= HEADER_SIZE
    requires TextsApart(s, ats) && TextsLive(s, imps, strs, ats)
    requires |v| == |s| && LiveEdit(s, z, imps, strs) && OthersKept(s, v, imps, strs, exports, dev, ats, locals, z)
    requires locals ==> LocalsLive(s, imps, strs, exports)
    ensures ImportWalk(v) == Some(imps)
    ensures forall i :: 0 <= i < |imps| ==> ImportBytesKept(s, v, imps[i], dev)
  {
    assert ImportWalk(s) == Some(imps);
    HeaderComesThrough(s, v, imps, strs, exports, recompute, ats, dev, locals, z);
    hide WellLaidOut, TextsApart, TextsLive, OthersKept, Walk, ImportBytesKept, Get16, Get32;
    forall i | 0 <= i < |imps|
      ensures ImportBytesKept(s, v, imps[i], dev)
    {
      ImportComesThrough(s, v, imps, strs, exports, recompute, ats, dev, locals, z, i);
    }
    forall i, k: nat | 0 <= i < |imps| && Fits(s, imps[i], ImportRecord) && k in {imps[i] + 8, imps[i] + 9}
      ensures v[k] == s[k]
    {
      CountComesThrough(s, v, imps[i], dev, k);
    }
    CountsKeepWalk(s, v, imps);
  }

  lemma CountComesThrough(s: bytes, v: bytes, p: nat, dev: bool, k: nat)
    requires |v| == |s| && ImportBytesKept(s, v, p, dev) && k in {p + 8, p + 9}
    ensures k < |s| && v[k] == s[k]
  {
    assert KeptInImport(s, p, dev, k);
  }

  lemma ImportComesThrough(s: bytes, v: bytes, imps: seq<nat>, strs: seq<nat>, exports: seq<GscExportData>, recompute: bool,
                           ats: seq<nat>, dev: bool, locals: bool, z: bytes, i: nat)
    requires WellLaidOut(s, imps, strs, exports, recompute) && |s| >= HEADER_SIZE
    requires TextsApart(s, ats) && TextsLive(s, imps, strs, ats)
    requires |v| == |s| && LiveEdit(s, z, imps, strs) && OthersKept(s, v, imps, strs, exports, dev, ats, locals, z) && i < |imps|
    requires locals ==> LocalsLive(s, imps, strs, exports)
    ensures ImportBytesKept(s, v, imps[i], dev)
  {
    ImportInBounds(s, imps, strs, i);
    assert Prepared(s, imps, strs);
    hide WellLaidOut, Prepared, TextsApart, TextsLive, OthersKept, OwnBytes, Get16, IsDevCall;
    var p := imps[i];
    hide KeptInImport;
    forall k: nat | KeptInImport(s, p, dev, k)
      ensures k < |s| && v[k] == s[k]
    {
      ImportByteComesThrough(s, v, imps, strs, exports, recompute, ats, dev, locals, z, i, k);
    }
  }

  lemma ImportByteComesThrough(s: bytes, v: bytes, imps: seq<nat>, strs: seq<nat>, exports: seq<GscExportData>,
                               recompute: bool, ats: seq<nat>, dev: bool, locals: bool, z: bytes, i: nat, k: nat)
    requires WellLaidOut(s, imps, strs, exports, recompute) && |s| >= HEADER_SIZE
    requires TextsApart(s, ats) && TextsLive(s, imps, strs, ats)
    requires |v| == |s| && LiveEdit(s, z, imps, strs) && OthersKept(s, v, imps, strs, exports, dev, ats, locals, z) && i < |imps|
    requires Fits(s, imps[i], ImportRecord) && (locals ==> LocalsLive(s, imps, strs, exports))
    requires KeptInImport(s, imps[i], dev, k)
    ensures k < |s| && v[k] == s[k]
  {
    ImportIsKept(s, imps, strs, exports, recompute, dev, i, k);
    assert Prepared(s, imps, strs);
    hide WellLaidOut, Prepared, KeptByte, TextsApart, TextsLive, InText, OwnBytes, NoText, AnyLocalByte, LiveByte;
    ImportNoText(s, imps, strs, ats, i, k);
    assert OtherByte(s, imps, strs, exports, dev, ats, locals, k);
  }

  lemma ImportNoText(s: bytes, imps: seq<nat>, strs: seq<nat>, ats: seq<nat>, i: nat, k: nat)
    requires Prepared(s, imps, strs) && TextsApart(s, ats) && TextsLive(s, imps, strs, ats) && i < |imps|
    requires Fits(s, imps[i], ImportRecord) && imps[i] <= k < RecordEnd(s, imps[i], ImportRecord)
    ensures NoText(s, ats, k) && !LiveByte(s, imps, strs, k)
  {
    var rs := AllRecs(imps, strs);
    PreparedFacts(s, imps, strs);
    LayoutFits(s, rs);
    assert rs[i] == Rec(imps[i], ImportRecord) && InRecord(s, rs[i], k);
    hide Prepared, TextsApart, TextsLive, LiveByte, InText;
    LiveIsNoRecord(s, imps, strs, i, k);
    TableNoText(s, imps, strs, ats, k);
  }

  /** An export's namespace, parameter count, flags and padding come through. */
  lemma ExportsComeThrough(s: bytes, v: bytes, imps: seq<nat>, strs: seq<nat>, exports: seq<GscExportData>, recompute: bool,
                           ats: seq<nat>, dev: bool, locals: bool, z: bytes)
    requires WellLaidOut(s, imps, strs, exports, recompute) && |s| >= HEADER_SIZE
    requires TextsApart(s, ats) && TextsLive(s, imps, strs, ats)
    requires |v| == |s| && LiveEdit(s, z, imps, strs) && OthersKept(s, v, imps, strs, exports, dev, ats, locals, z)
    requires locals ==> LocalsLive(s, imps, strs, exports)
    ensures forall i, k: nat :: 0 <= i < |exports| && exports[i].ref + 12 <= k < exports[i].ref + EXPORT_SIZE ==>
      k < |s| && v[k] == s[k]
  {
    TableOf(s, imps, strs, exports, recompute);
    forall i, k: nat | 0 <= i < |exports| && exports[i].ref + 12 <= k < exports[i].ref + EXPORT_SIZE
      ensures k < |s| && v[k] == s[k]
    {
      assert exports[i].ref == ExportAt(ExportTable(s), i);
      assert !LiveByte(s, imps, strs, k);
      hide WellLaidOut, LiveByte, KeptByte, TextsApart, TextsLive, InText, NoText, AnyLocalByte;
      ExportIsKept(s, imps, strs, exports, recompute, dev, i, k);
      TableNoText(s, imps, strs, ats, k);
      assert OtherByte(s, imps, strs, exports, dev, ats, locals, k);
    }
  }

  /** After the run an import that is no killed dev call names exactly the exports it
      named before, whenever the numbering captures nothing. */
  lemma LinksComeThrough(s: bytes, v: bytes, imps: seq<nat>, exports: seq<GscExportData>,
                         exportNames: seq<NameLocated>, importNames: seq<NameLocated>, rho: Renaming, dev: bool)
    requires |v| == |s| && |exportNames| == |exports| && |importNames| == |imps| && Bounded(rho)
    requires ExportsKept(s, v, exports, exportNames, rho) && ImportsKept(s, v, imps, dev, importNames, rho)
    requires Numbering(rho) && forall k :: k in rho ==> k in exportNames
    requires forall k :: k in rho ==> !Captures(exportNames, importNames, rho.Keys, k, rho[k])
    ensures forall i, j :: 0 <= i < |imps| && 0 <= j < |exports| ==>
      && imps[i] + IMPORT_SIZE <= |v| && exports[j].ref + EXPORT_SIZE <= |v|
      && (!(dev && IsDevCall(s[imps[i] + 11])) ==>
        (ImportName(v, imps[i]) == ExportName(v, exports[j].ref) <==> importNames[i] == exportNames[j]))
  {
    hide Captures, Renamed, Numbering, ImportName, ExportName, Jumps.Reaches;
    LinksPreservedIffNoCapture(exportNames, importNames, rho);
  }

  /** After the run, too, an include still names the script it named. */
  lemma IncludesComeThrough(names: Names, s: bytes, v: bytes, imps: seq<nat>, strs: seq<nat>, ps: seq<nat>)
    requires TextLayout(s, imps, strs, ps) && Stored(names.scripts) && |v| == |s|
    requires TextsAre(v, Texts(s, ps), News(names, s, ps))
    ensures Get32(s, NAME_OFFSET) <= |s| && ScriptsFollow(names.scripts, s, v)
  {
    hide CString, Stored, OffTexts, ScriptTexts, Referenced, ScriptsFollow, Side, TextsLive, TextsApart, NewTexts, OldTexts,
         Terminated, StringTableWalk, IncludeTable, Includes, NewStrings;
    var a, b := Referenced(s, ps), ScriptTexts(s);
    TextsAllInside(s, Texts(s, ps));
    forall m | 0 <= m < |b|
      ensures b[m] <= |s| && CString(v, b[m]) == ScriptNews(names.scripts, s, b)[m]
    {
      assert Texts(s, ps)[|a| + m] == b[m];
      assert News(names, s, ps)[|a| + m] == ScriptNews(names.scripts, s, b)[m];
    }
    OwnNameDecides(names.scripts, s, v);
  }

  lemma SampleName(s: bytes)
    requires Sample(s)
    ensures Texts(s, []) == [130] && ScriptTexts(s) == [130] && Referenced(s, []) == [] && CString(s, 130) == []
    ensures Terminated(s, 130)
  {
  }

  lemma SampleReady(s: bytes)
    requires Sample(s)
    ensures StringsReady(s, []) && ScriptTextsReady(s)
    ensures IncludeTable(s) == Includes(s) == 0
  {
    hide CString, Get32, Terminated, ScriptTexts, Referenced, TextsApart;
    SampleName(s);
    OneText(s, 130);
  }

  lemma OneText(s: bytes, at: nat)
    requires Terminated(s, at) && at >= HEADER_SIZE
    ensures TextsApart(s, [at]) && TextsApart(s, []) && OffTexts(s, [at], 0, HEADER_SIZE) && OffTexts(s, [at], 0, 0)
  {
    hide Terminated, CString;
  }

  /** The sample script's only text lies where it may. */
  lemma SampleTexts(s: bytes)
    requires Sample(s)
    ensures TextLayout(s, [92], [], [])
  {
    hide Fenced, CString, Terminated, Get32, Get16, StringsReady, ScriptTextsReady, ScriptTexts, Referenced, IncludeTable,
         Includes;
    SampleName(s);
    SampleReady(s);
    SampleLive(s);
    hide LiveByte, Sample;
    OneText(s, 130);
    assert forall k: nat :: InText(s, 130, k) ==> k == 130;
  }

  lemma SampleLive(s: bytes)
    requires Sample(s)
    ensures |s| >= HEADER_SIZE && LiveByte(s, [92], [], 130)
  {
    hide Fenced, Get32, Get16;
    SampleFenced(s, AllRecs([92], []), 130, 131);
    SampleTables(s);
  }

  lemma SampleTables(s: bytes)
    requires Sample(s)
    ensures AllRecs([92], []) == [DevTables.Rec(92, ImportRecord)] && ExportTable(s) == 72 && ExportEnd(s) == 92
    ensures |s| == 148
  {
  }
}
