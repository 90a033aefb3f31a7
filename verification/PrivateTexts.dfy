/** The strings of a script that a private file renames: its string table, its
    own name, and its includes (ApplyPrivateStrings and ApplyPrivateScripts). */
module PrivateTexts {
  import opened Bytes
  import opened Results
  import opened GscFormat
  import opened PrivateNames

  /** One past the terminator of the string at `at`. */
  function TextEnd(s: bytes, at: nat): nat
    requires at <= |s|
  {
    at + |CString(s, at)| + 1
  }

  ghost predicate TextsApart(s: bytes, ats: seq<nat>) {
    && (forall i :: 0 <= i < |ats| ==> Terminated(s, ats[i]))
    && forall i, j :: 0 <= i < j < |ats| ==> TextEnd(s, ats[i]) <= ats[j] || TextEnd(s, ats[j]) <= ats[i]
  }

  predicate InText(s: bytes, at: nat, k: int)
    requires at <= |s|
  {
    at <= k < TextEnd(s, at)
  }

  /** `t` is `s` with the first `n` strings replaced by `news`, and nothing else. */
  ghost predicate TextsRenamed(s: bytes, t: bytes, ats: seq<nat>, news: seq<bytes>, n: nat)
    requires TextsApart(s, ats) && |news| == |ats| && n <= |ats|
  {
    && |t| == |s|
    && (forall i :: 0 <= i < n ==> Terminated(t, ats[i]) && CString(t, ats[i]) == news[i])
    && forall k :: 0 <= k < |s| && (forall i :: 0 <= i < n ==> !InText(s, ats[i], k)) ==> t[k] == s[k]
  }

  /** New texts fit in place of the old ones and hold no terminator. */
  ghost predicate NewsFit(s: bytes, ats: seq<nat>, news: seq<bytes>)
    requires TextsApart(s, ats)
  {
    |news| == |ats| && forall i :: 0 <= i < |ats| ==> |news[i]| <= |CString(s, ats[i])| && 0 !in news[i]
  }

  lemma SameText(s: bytes, t: bytes, at: nat)
    requires Terminated(s, at) && |t| == |s|
    requires forall k :: at <= k < TextEnd(s, at) && k < |s| ==> t[k] == s[k]
    ensures Terminated(t, at) && CString(t, at) == CString(s, at)
  {
    var text := CString(s, at);
    TerminatedRoom(s, at);
    var u := t[at..];
    assert u[..|text|] == s[at..at + |text|];
    assert u[|text|] == 0;
    TextLength(u, |text|);
  }

  lemma TextInside(s: bytes, at: nat)
    requires Terminated(s, at)
    ensures at < TextEnd(s, at) <= |s|
  {
    TerminatedRoom(s, at);
  }

  lemma NothingRenamed(s: bytes, ats: seq<nat>, news: seq<bytes>)
    requires TextsApart(s, ats) && |news| == |ats|
    ensures TextsRenamed(s, s, ats, news, 0)
    ensures forall i :: 0 <= i < |ats| ==> Terminated(s, ats[i])
  {
  }

  /** Before its turn a string still reads as it did. */
  lemma TextStill(s: bytes, t: bytes, ats: seq<nat>, news: seq<bytes>, n: nat)
    requires TextsApart(s, ats) && |news| == |ats| && n < |ats| && TextsRenamed(s, t, ats, news, n)
    ensures Terminated(t, ats[n]) && CString(t, ats[n]) == CString(s, ats[n])
  {
    hide CString;
    forall k | ats[n] <= k < TextEnd(s, ats[n]) && k < |s|
      ensures t[k] == s[k]
    {
      forall i | 0 <= i < n
        ensures !InText(s, ats[i], k)
      {
      }
    }
    SameText(s, t, ats[n]);
  }

  lemma EarlierTextKept(s: bytes, t: bytes, u: bytes, ats: seq<nat>, news: seq<bytes>, n: nat, i: nat)
    requires TextsApart(s, ats) && NewsFit(s, ats, news) && i < n < |ats|
    requires TextsRenamed(s, t, ats, news, n) && |u| == |t|
    requires forall k :: 0 <= k < |s| && !InText(s, ats[n], k) ==> u[k] == t[k]
    ensures Terminated(u, ats[i]) && CString(u, ats[i]) == news[i]
  {
    hide CString, Terminated;
    SameText(t, u, ats[i]);
  }

  lemma WrittenText(t: bytes, at: nat, text: bytes)
    requires at + |text| + 1 <= |t| && 0 !in text
    ensures var u := Over(t, at, text + [0]);
      && Terminated(u, at) && CString(u, at) == text
      && forall k :: 0 <= k < |t| && !(at <= k < at + |text| + 1) ==> u[k] == t[k]
  {
    OverTerminated(t, at, text);
    assert Over(t, at, text + [0])[at..][|text|] == 0;
  }

  /** Writing one more text. */
  lemma TextStep(s: bytes, t: bytes, ats: seq<nat>, news: seq<bytes>, n: nat)
    requires TextsApart(s, ats) && NewsFit(s, ats, news) && n < |ats| && TextsRenamed(s, t, ats, news, n)
    ensures ats[n] + |news[n]| + 1 <= |t|
    ensures TextsRenamed(s, Over(t, ats[n], news[n] + [0]), ats, news, n + 1)
  {
    hide CString, Over;
    TextInside(s, ats[n]);
    var at := ats[n];
    var u := Over(t, at, news[n] + [0]);
    WrittenText(t, at, news[n]);
    forall i | 0 <= i < n
      ensures Terminated(u, ats[i]) && CString(u, ats[i]) == news[i]
    {
      EarlierTextKept(s, t, u, ats, news, n, i);
    }
    forall k | 0 <= k < |s| && (forall i :: 0 <= i < n + 1 ==> !InText(s, ats[i], k))
      ensures u[k] == s[k]
    {
      assert !InText(s, ats[n], k);
    }
  }

  /** The same for a text of the old one's length, whose terminator is in place. */
  lemma TextStepInPlace(s: bytes, t: bytes, ats: seq<nat>, news: seq<bytes>, n: nat)
    requires TextsApart(s, ats) && NewsFit(s, ats, news) && n < |ats| && TextsRenamed(s, t, ats, news, n)
    requires |news[n]| == |CString(s, ats[n])|
    ensures ats[n] + |news[n]| + 1 <= |t|
    ensures TextsRenamed(s, Over(t, ats[n], news[n]), ats, news, n + 1)
  {
    hide CString, Over, TextsRenamed;
    TextStill(s, t, ats, news, n);
    TerminatedRoom(t, ats[n]);
    OverThenZero(t, ats[n], news[n]);
    TextStep(s, t, ats, news, n);
  }

  /** A region off the strings is as it was. */
  ghost predicate OffTexts(s: bytes, ats: seq<nat>, lo: nat, hi: nat)
    requires TextsApart(s, ats)
  {
    forall i :: 0 <= i < |ats| ==> TextEnd(s, ats[i]) <= lo || hi <= ats[i]
  }

  lemma RegionStill(s: bytes, t: bytes, ats: seq<nat>, news: seq<bytes>, n: nat, lo: nat, hi: nat, k: nat)
    requires TextsApart(s, ats) && |news| == |ats| && n <= |ats| && TextsRenamed(s, t, ats, news, n)
    requires OffTexts(s, ats, lo, hi) && lo <= k < hi && k < |s|
    ensures |t| == |s| && t[k] == s[k]
  {
    hide CString;
  }

  // ----- Strings referred to more than once

  /** Every address once, in the order in which it is first met. */
  function Once(raw: seq<nat>): (r: seq<nat>)
    ensures |r| <= |raw| && (raw != [] ==> r != [] && r[0] == raw[0])
    decreases |raw|
  {
    if raw == [] then []
    else
      var front := Once(raw[..|raw| - 1]);
      if raw[|raw| - 1] in front then front else front + [raw[|raw| - 1]]
  }

  lemma OnceStep(raw: seq<nat>, i: nat)
    requires i < |raw|
    ensures var c := Once(raw[..i]); Once(raw[..i + 1]) == if raw[i] in c then c else c + [raw[i]]
  {
    assert raw[..i + 1][..i] == raw[..i];
  }

  lemma {:induction false} OncePrefix(raw: seq<nat>, i: nat)
    requires i <= |raw|
    ensures Once(raw[..i]) <= Once(raw)
    decreases |raw|
  {
    if i == |raw| {
      assert raw[..i] == raw;
    } else {
      OncePrefix(raw[..|raw| - 1], i);
      assert raw[..|raw| - 1][..i] == raw[..i];
    }
  }

  lemma {:induction false} OnceMembers(raw: seq<nat>)
    ensures forall x :: x in Once(raw) <==> x in raw
    decreases |raw|
  {
    if raw != [] {
      OnceMembers(raw[..|raw| - 1]);
      assert raw == raw[..|raw| - 1] + [raw[|raw| - 1]];
    }
  }

  /** The next reference: a new text, or one already met, at its place in the list. */
  lemma NextReference(raw: seq<nat>, i: nat) returns (m: nat)
    requires i < |raw|
    ensures var n := |Once(raw[..i])|; var all := Once(raw);
      && m < |all| && all[m] == raw[i] && n <= |all|
      && (raw[i] !in Once(raw[..i]) ==> m == n && |Once(raw[..i + 1])| == n + 1)
      && (raw[i] in Once(raw[..i]) ==>
           m < n && |Once(raw[..i + 1])| == n && exists j :: 0 <= j < i && raw[j] == raw[i])
  {
    hide Once;
    OnceStep(raw, i);
    OncePrefix(raw, i);
    OncePrefix(raw, i + 1);
    OnceMembers(raw[..i]);
    var c := Once(raw[..i]);
    if raw[i] in c {
      m :| 0 <= m < |c| && c[m] == raw[i];
      assert raw[i] in raw[..i];
      var j :| 0 <= j < i && raw[..i][j] == raw[i];
      assert raw[j] == raw[i];
    } else {
      m := |c|;
      assert Once(raw[..i + 1])[m] == raw[i];
    }
  }

  lemma NothingReferenced(raw: seq<nat>)
    ensures Once(raw[..0]) == []
  {
  }

  lemma OneReference(raw: seq<nat>)
    requires raw != []
    ensures |Once(raw[..1])| == 1 <= |Once(raw)|
  {
    OnceStep(raw, 0);
  }

  /** A text already done, done again with the same result, stays as it is. */
  lemma TextDoneAgain(s: bytes, t: bytes, ats: seq<nat>, news: seq<bytes>, n: nat, m: nat)
    requires TextsApart(s, ats) && |news| == |ats| && m < n <= |ats| && TextsRenamed(s, t, ats, news, n)
    ensures Terminated(t, ats[m]) && CString(t, ats[m]) == news[m] && ats[m] + |news[m]| + 1 <= |t|
    ensures Over(t, ats[m], news[m]) == t == Over(t, ats[m], news[m] + [0])
  {
    hide CString, Terminated, Over;
    OverItself(t, ats[m]);
  }

  // ----- The string table

  function StringTableWalk(s: bytes): Option<seq<nat>>
    requires |s| >= HEADER_SIZE
  {
    Walk(s, Get32(s, STRING_OFFSET), Get16(s, STRING_COUNT), StringRecord)
  }

  /** The string each record in the script refers to. */
  function Pointers(s: bytes, ps: seq<nat>): (r: seq<nat>)
    ensures |r| == |ps| && forall i :: 0 <= i < |ps| && ps[i] + STRING_SIZE <= |s| ==> r[i] == Get32(s, ps[i])
  {
    seq(|ps|, i requires 0 <= i < |ps| => if ps[i] + STRING_SIZE <= |s| then Get32(s, ps[i]) as nat else 0)
  }

  /** The strings records refer to, each once: a string with many addresses has
      several records. */
  function Referenced(s: bytes, ps: seq<nat>): seq<nat> {
    Once(Pointers(s, ps))
  }

  function NewString(strings: map<bytes, bytes>, text: bytes): bytes {
    if text in strings then strings[text] else text
  }

  ghost function NewStrings(strings: map<bytes, bytes>, s: bytes, ats: seq<nat>): (r: seq<bytes>)
    requires TextsApart(s, ats)
    ensures |r| == |ats| && forall i :: 0 <= i < |ats| ==> r[i] == NewString(strings, CString(s, ats[i]))
  {
    seq(|ats|, i requires 0 <= i < |ats| => NewString(strings, CString(s, ats[i])))
  }

  /** The string table lies in the script, and the strings lie apart from it and
      from each other. */
  ghost predicate StringsReady(s: bytes, ps: seq<nat>) {
    && |s| >= HEADER_SIZE && StringTableWalk(s) == Some(ps)
    && (forall i :: 0 <= i < |ps| ==> Fits(s, ps[i], StringRecord))
    && var ats := Referenced(s, ps);
    && TextsApart(s, ats)
    && forall i :: 0 <= i < |ps| ==> OffTexts(s, ats, ps[i], RecordEnd(s, ps[i], StringRecord))
  }

  /** A string of several records is renamed as often: its new text is not renamed
      further. */
  ghost predicate StringsStable(strings: map<bytes, bytes>, s: bytes, ps: seq<nat>)
    requires StringsReady(s, ps)
  {
    forall i, j :: 0 <= i < j < |ps| && Pointers(s, ps)[i] == Pointers(s, ps)[j] && Pointers(s, ps)[i] <= |s| ==>
      NewString(strings, NewString(strings, CString(s, Pointers(s, ps)[i])))
      == NewString(strings, CString(s, Pointers(s, ps)[i]))
  }

  /** Renaming a string once more is harmless exactly when its new text is no key,
      or is its own replacement. */
  lemma TwiceIsOnceIff(strings: map<bytes, bytes>, text: bytes)
    ensures var text' := NewString(strings, text);
      NewString(strings, text') == text' <==> text' !in strings || strings[text'] == text'
  {
  }

  lemma StringAgain(strings: map<bytes, bytes>, s: bytes, ps: seq<nat>, i: nat, m: nat)
    requires StringsReady(s, ps) && StringsStable(strings, s, ps) && i < |ps|
    requires exists j :: 0 <= j < i && Pointers(s, ps)[j] == Pointers(s, ps)[i]
    requires m < |Referenced(s, ps)| && Referenced(s, ps)[m] == Pointers(s, ps)[i]
    ensures var news := NewStrings(strings, s, Referenced(s, ps)); NewString(strings, news[m]) == news[m]
  {
    hide CString, NewString, Once, StringTableWalk, OffTexts;
    assert Terminated(s, Referenced(s, ps)[m]);
  }

  lemma NewStringsFit(strings: map<bytes, bytes>, s: bytes, ats: seq<nat>)
    requires TextsApart(s, ats) && StringsFit(strings)
    ensures NewsFit(s, ats, NewStrings(strings, s, ats))
  {
    forall i | 0 <= i < |ats|
      ensures |NewString(strings, CString(s, ats[i]))| <= |CString(s, ats[i])|
      ensures 0 !in NewString(strings, CString(s, ats[i]))
    {
      if CString(s, ats[i]) in strings {
        StoredStringHasNoZero(strings, CString(s, ats[i]));
      }
    }
  }

  lemma StringsCounted(s: bytes, ps: seq<nat>)
    requires StringsReady(s, ps)
    ensures |ps| == Get16(s, STRING_COUNT) && (ps != [] ==> ps[0] == Get32(s, STRING_OFFSET))
  {
    WalkIsTable(s, Get32(s, STRING_OFFSET), Get16(s, STRING_COUNT), StringRecord, ps);
  }

  /** A record not yet reached reads as it did. */
  lemma RecordStill(s: bytes, t: bytes, ps: seq<nat>, news: seq<bytes>, n: nat, i: nat)
    requires StringsReady(s, ps) && |news| == |Referenced(s, ps)| && n <= |news| && i < |ps|
    requires TextsRenamed(s, t, Referenced(s, ps), news, n)
    ensures |t| == |s| && ps[i] + STRING_SIZE <= |s|
    ensures Get32(t, ps[i]) == Get32(s, ps[i]) && t[ps[i] + 4] == s[ps[i] + 4]
    ensures i + 1 < |ps| ==> ps[i + 1] == RecordEnd(s, ps[i], StringRecord)
  {
    hide CString, TextsRenamed, TextsApart;
    WalkIsTable(s, Get32(s, STRING_OFFSET), Get16(s, STRING_COUNT), StringRecord, ps);
    var p := ps[i];
    forall k | p <= k < p + 8
      ensures |t| == |s| && t[k] == s[k]
    {
      RegionStill(s, t, Referenced(s, ps), news, n, p, RecordEnd(s, p, StringRecord), k);
    }
  }

  // ----- The script's own name and its includes

  function IncludeTable(s: bytes): nat
    requires |s| >= HEADER_SIZE
  {
    Get32(s, INCLUDE_OFFSET)
  }

  function Includes(s: bytes): nat
    requires |s| >= HEADER_SIZE
  {
    s[INCLUDE_COUNT] as int
  }

  /** Where the name and the includes are, of a script with room for both tables. */
  function ScriptPointers(s: bytes): (r: seq<nat>)
    ensures |r| >= 1
    ensures |s| >= HEADER_SIZE && IncludeTable(s) + 4 * Includes(s) <= |s| ==>
      && |r| == 1 + Includes(s) && r[0] == Get32(s, NAME_OFFSET)
      && forall i :: 0 <= i < Includes(s) ==> r[1 + i] == Get32(s, IncludeTable(s) + 4 * i)
  {
    if |s| < HEADER_SIZE || IncludeTable(s) + 4 * Includes(s) > |s| then [0]
    else
      [Get32(s, NAME_OFFSET)]
      + seq(Includes(s), i requires 0 <= i < Includes(s) => Get32(s, IncludeTable(s) + 4 * i) as nat)
  }

  /** The name and the includes, each once. */
  function ScriptTexts(s: bytes): (r: seq<nat>)
    ensures |r| >= 1
    ensures |s| >= HEADER_SIZE && IncludeTable(s) + 4 * Includes(s) <= |s| ==> r[0] == Get32(s, NAME_OFFSET)
  {
    Once(ScriptPointers(s))
  }

  /** The extension of the scripts a script includes, by its own name. */
  function Side(name: bytes): (r: Option<bytes>)
    ensures r.Some? ==> r.value == CSC || r.value == GSC
  {
    if EndsWith(name, CSC) || EndsWith(name, CSH) then Some(CSC)
    else if EndsWith(name, GSC) || EndsWith(name, GSH) then Some(GSC)
    else None
  }

  ghost function NewTexts(scripts: map<bytes, bytes>, s: bytes, ats: seq<nat>, ext: bytes): (r: seq<bytes>)
    requires TextsApart(s, ats) && |ats| >= 1 && (ext == CSC || ext == GSC)
    ensures |r| == |ats| && r[0] == NewName(scripts, CString(s, ats[0]))
    ensures forall i :: 1 <= i < |ats| ==> r[i] == NewInclude(scripts, CString(s, ats[i]), ext)
  {
    seq(|ats|, i requires 0 <= i < |ats| =>
      if i == 0 then NewName(scripts, CString(s, ats[i])) else NewInclude(scripts, CString(s, ats[i]), ext))
  }

  /** The include table lies in the script; name and includes lie apart from it,
      from the header and from each other. */
  ghost predicate ScriptTextsReady(s: bytes) {
    && |s| >= HEADER_SIZE && IncludeTable(s) + 4 * Includes(s) <= |s|
    && TextsApart(s, ScriptTexts(s))
    && OffTexts(s, ScriptTexts(s), 0, HEADER_SIZE)
    && OffTexts(s, ScriptTexts(s), IncludeTable(s), IncludeTable(s) + 4 * Includes(s))
  }

  /** A text that several includes share, or the name, is renamed as often: its new
      text is not renamed further. */
  ghost predicate ScriptsStable(scripts: map<bytes, bytes>, s: bytes)
    requires ScriptTextsReady(s)
  {
    var raw := ScriptPointers(s);
    raw[0] <= |s| && Side(CString(s, raw[0])).Some? ==>
      var ext := Side(CString(s, raw[0])).value;
      forall i, j :: 0 <= i < j < |raw| && raw[i] == raw[j] && raw[i] <= |s| ==>
        var text := FirstText(scripts, s, raw, i, ext);
        NewInclude(scripts, text, ext) == text
  }

  /** What the text of a reference becomes at its first renaming. */
  function FirstText(scripts: map<bytes, bytes>, s: bytes, raw: seq<nat>, i: nat, ext: bytes): bytes
    requires i < |raw| && raw[i] <= |s| && (ext == CSC || ext == GSC)
  {
    if raw[i] == raw[0] then NewName(scripts, CString(s, raw[i])) else NewInclude(scripts, CString(s, raw[i]), ext)
  }

  lemma IncludeAgain(scripts: map<bytes, bytes>, s: bytes, ext: bytes, i: nat, m: nat)
    requires ScriptTextsReady(s) && ScriptsStable(scripts, s)
    requires Side(CString(s, ScriptTexts(s)[0])) == Some(ext)
    requires i < |ScriptPointers(s)| && m < |ScriptTexts(s)| && ScriptTexts(s)[m] == ScriptPointers(s)[i]
    requires exists j :: 0 <= j < i && ScriptPointers(s)[j] == ScriptPointers(s)[i]
    ensures var news := NewTexts(scripts, s, ScriptTexts(s), ext); NewInclude(scripts, news[m], ext) == news[m]
  {
    hide CString, NewInclude, NewName, Once, Side, OffTexts, IncludeTable, Includes, ScriptPointers, ScriptTexts, TextEnd;
    NameIsFirst(s);
    SameTextSameIndex(s, ScriptTexts(s), 0, m);
  }

  lemma NameIsFirst(s: bytes)
    ensures ScriptTexts(s)[0] == ScriptPointers(s)[0]
  {
  }

  lemma SameTextSameIndex(s: bytes, ats: seq<nat>, i: nat, m: nat)
    requires TextsApart(s, ats) && i <= m < |ats|
    ensures Terminated(s, ats[i]) && Terminated(s, ats[m]) && ats[i] <= |s| && ats[m] <= |s|
    ensures ats[i] == ats[m] ==> i == m
  {
    hide CString;
  }

  // ----- Which script an include names afterwards

  predicate Ends(name: bytes, ext: bytes)
    requires |ext| == 4
  {
    |name| >= 4 && name[|name| - 4..] == ext
  }

  /** The name is the new one, and every include in backslash form with the extension
      behind it is the new name of the script that was called so. */
  ghost predicate IncludesFollow(scripts: map<bytes, bytes>, s: bytes, t: bytes, ext: bytes)
    requires |t| == |s| >= HEADER_SIZE && IncludeTable(s) + 4 * Includes(s) <= |s| && Get32(s, NAME_OFFSET) <= |s|
  {
    var name := Get32(s, NAME_OFFSET);
    && CString(t, name) == NewName(scripts, CString(s, name))
    && forall i: nat :: i < Includes(s) ==>
         var at := Get32(s, IncludeTable(s) + 4 * i);
         at != name && at <= |s| && 47 !in CString(s, at) ==>
           CString(t, at) + ext == NewName(scripts, CString(s, at) + ext)
  }

  /** The name and every include read as they did. */
  ghost predicate IncludesStay(s: bytes, t: bytes)
    requires |t| == |s| >= HEADER_SIZE && IncludeTable(s) + 4 * Includes(s) <= |s| && Get32(s, NAME_OFFSET) <= |s|
  {
    && CString(t, Get32(s, NAME_OFFSET)) == CString(s, Get32(s, NAME_OFFSET))
    && forall i: nat :: i < Includes(s) ==>
         var at := Get32(s, IncludeTable(s) + 4 * i); at <= |s| ==> CString(t, at) == CString(s, at)
  }

  predicate OtherEnding(name: bytes) {
    && !Ends(name, [46, 103, 115, 99]) && !Ends(name, [46, 103, 115, 104])
    && !Ends(name, [46, 99, 115, 99]) && !Ends(name, [46, 99, 115, 104])
  }

  /** A server script includes server scripts, a client script client scripts; the
      ending of its own name says which it is. */
  ghost predicate ScriptsFollow(scripts: map<bytes, bytes>, s: bytes, t: bytes)
    requires |t| == |s| >= HEADER_SIZE && IncludeTable(s) + 4 * Includes(s) <= |s| && Get32(s, NAME_OFFSET) <= |s|
  {
    var name := CString(s, Get32(s, NAME_OFFSET));
    && (Ends(name, [46, 103, 115, 99]) || Ends(name, [46, 103, 115, 104]) ==>
         IncludesFollow(scripts, s, t, [46, 103, 115, 99]))
    && (Ends(name, [46, 99, 115, 99]) || Ends(name, [46, 99, 115, 104]) ==>
         IncludesFollow(scripts, s, t, [46, 99, 115, 99]))
    && (OtherEnding(name) ==> IncludesStay(s, t))
  }

  lemma SideByEnding(name: bytes)
    ensures Side(name) == Some([46, 103, 115, 99]) <==>
      Ends(name, [46, 103, 115, 99]) || Ends(name, [46, 103, 115, 104])
    ensures Side(name) == Some([46, 99, 115, 99]) <==> Ends(name, [46, 99, 115, 99]) || Ends(name, [46, 99, 115, 104])
    ensures Side(name).Some? ==> Side(name).value == [46, 103, 115, 99] || Side(name).value == [46, 99, 115, 99]
  {
    assert GSC[1] != CSC[1] && GSC[1] != CSH[1] && GSH[1] != CSC[1] && GSH[1] != CSH[1];
  }

  /** Each include is one of the texts. */
  lemma IncludeIsText(s: bytes, i: nat) returns (m: nat)
    requires ScriptTextsReady(s) && i < Includes(s)
    ensures m < |ScriptTexts(s)| && ScriptTexts(s)[m] == Get32(s, IncludeTable(s) + 4 * i)
    ensures Terminated(s, ScriptTexts(s)[m])
  {
    hide Once, Get32, CString, Terminated, ScriptPointers;
    var raw := ScriptPointers(s);
    assert raw[1 + i] == Get32(s, IncludeTable(s) + 4 * i);
    OnceMembers(raw);
    assert raw[1 + i] in Once(raw);
    m :| 0 <= m < |ScriptTexts(s)| && ScriptTexts(s)[m] == raw[1 + i];
  }

  lemma IncludeFollows(scripts: map<bytes, bytes>, inc: bytes, ext: bytes)
    requires Stored(scripts) && (ext == GSC || ext == CSC) && 0 !in inc && 47 !in inc
    ensures NewInclude(scripts, inc, ext) + ext == NewName(scripts, inc + ext)
  {
    hide Clean, Disguises;
    IncludeStillNames(scripts, inc, ext);
    assert 47 !in ext;
  }

  lemma TextNoZero(s: bytes, at: nat)
    requires at <= |s|
    ensures 0 !in CString(s, at)
  {
  }

  /** Where every text reads as its new one, names and includes agree. */
  lemma NamesFollow(scripts: map<bytes, bytes>, s: bytes, t: bytes, ext: bytes)
    requires ScriptTextsReady(s) && Stored(scripts) && |t| == |s| && (ext == GSC || ext == CSC)
    requires forall m :: 0 <= m < |ScriptTexts(s)| ==>
      && ScriptTexts(s)[m] <= |s|
      && CString(t, ScriptTexts(s)[m]) == NewTexts(scripts, s, ScriptTexts(s), ext)[m]
    ensures Get32(s, NAME_OFFSET) <= |s| && IncludesFollow(scripts, s, t, ext)
  {
    hide CString, NewInclude, NewName, Stored, TextsApart, OffTexts, ScriptTexts;
    var ats := ScriptTexts(s);
    forall i: nat | i < Includes(s) && Get32(s, IncludeTable(s) + 4 * i) != Get32(s, NAME_OFFSET)
      && Get32(s, IncludeTable(s) + 4 * i) <= |s| && 47 !in CString(s, Get32(s, IncludeTable(s) + 4 * i))
      ensures CString(t, Get32(s, IncludeTable(s) + 4 * i)) + ext
        == NewName(scripts, CString(s, Get32(s, IncludeTable(s) + 4 * i)) + ext)
    {
      var m := IncludeIsText(s, i);
      TextNoZero(s, ats[m]);
      IncludeFollows(scripts, CString(s, ats[m]), ext);
    }
  }

  lemma NamesStay(s: bytes, t: bytes)
    requires ScriptTextsReady(s) && |t| == |s|
    requires forall m :: 0 <= m < |ScriptTexts(s)| ==>
      && ScriptTexts(s)[m] <= |s|
      && CString(t, ScriptTexts(s)[m]) == CString(s, ScriptTexts(s)[m])
    ensures Get32(s, NAME_OFFSET) <= |s| && IncludesStay(s, t)
  {
    hide CString, TextsApart, OffTexts, ScriptTexts;
    forall i: nat | i < Includes(s) && Get32(s, IncludeTable(s) + 4 * i) <= |s|
      ensures CString(t, Get32(s, IncludeTable(s) + 4 * i)) == CString(s, Get32(s, IncludeTable(s) + 4 * i))
    {
      var m := IncludeIsText(s, i);
    }
  }

  /** What both say of a script whose texts all read as they should. */
  lemma OwnNameDecides(scripts: map<bytes, bytes>, s: bytes, t: bytes)
    requires ScriptTextsReady(s) && Stored(scripts) && |t| == |s|
    requires forall m :: 0 <= m < |ScriptTexts(s)| ==> ScriptTexts(s)[m] <= |s|
    requires var ats := ScriptTexts(s); var side := Side(CString(s, ats[0]));
      forall m :: 0 <= m < |ats| ==>
        CString(t, ats[m]) == if side.None? then CString(s, ats[m]) else NewTexts(scripts, s, ats, side.value)[m]
    ensures Get32(s, NAME_OFFSET) <= |s| && ScriptsFollow(scripts, s, t)
  {
    hide CString, NewTexts, Stored, TextsApart, OffTexts, ScriptTexts, IncludesFollow, IncludesStay, Side, Ends;
    var side := Side(CString(s, ScriptTexts(s)[0]));
    SideByEnding(CString(s, ScriptTexts(s)[0]));
    if side.None? {
      NamesStay(s, t);
    } else {
      NamesFollow(scripts, s, t, side.value);
    }
  }

  /** The same for a script after the pass. */
  lemma PassFollows(scripts: map<bytes, bytes>, s: bytes, t: bytes)
    requires ScriptTextsReady(s) && Stored(scripts)
    requires var ats := ScriptTexts(s); var side := Side(CString(s, ats[0]));
      if side.None? then t == s else TextsRenamed(s, t, ats, NewTexts(scripts, s, ats, side.value), |ats|)
    ensures |t| == |s| && Get32(s, NAME_OFFSET) <= |s| && ScriptsFollow(scripts, s, t)
    ensures OtherEnding(CString(s, Get32(s, NAME_OFFSET))) ==> t == s
  {
    hide CString, NewTexts, Stored, OffTexts, ScriptTexts, ScriptsFollow, Side, Ends;
    SideByEnding(CString(s, ScriptTexts(s)[0]));
    OwnNameDecides(scripts, s, t);
  }

  lemma ScriptTextsInside(s: bytes)
    requires ScriptTextsReady(s)
    ensures Terminated(s, Get32(s, NAME_OFFSET))
  {
    assert ScriptTexts(s)[0] == Get32(s, NAME_OFFSET);
  }

  lemma NewNameFits(scripts: map<bytes, bytes>, name: bytes)
    requires Stored(scripts) && 0 !in name
    ensures |NewName(scripts, name)| == |name| && 0 !in NewName(scripts, name)
  {
    if name in scripts {
      DisguiseHasNoZero(scripts[name], name);
    }
  }

  lemma NewIncludeFits(scripts: map<bytes, bytes>, inc: bytes, ext: bytes)
    requires Stored(scripts) && 0 !in inc && (ext == CSC || ext == GSC)
    ensures |NewInclude(scripts, inc, ext)| == |inc| && 0 !in NewInclude(scripts, inc, ext)
  {
    var k := Clean(inc + ext);
    if k in scripts {
      DisguiseHasNoZero(scripts[k], k);
    }
  }

  lemma NewTextsFit(scripts: map<bytes, bytes>, s: bytes, ats: seq<nat>, ext: bytes)
    requires TextsApart(s, ats) && |ats| >= 1 && (ext == CSC || ext == GSC) && Stored(scripts)
    ensures NewsFit(s, ats, NewTexts(scripts, s, ats, ext))
    ensures forall i :: 0 <= i < |ats| ==> |NewTexts(scripts, s, ats, ext)[i]| == |CString(s, ats[i])|
  {
    hide Clean, NewName, NewInclude, Stored;
    forall i | 0 <= i < |ats|
      ensures |NewTexts(scripts, s, ats, ext)[i]| == |CString(s, ats[i])| && 0 !in NewTexts(scripts, s, ats, ext)[i]
    {
      NewNameFits(scripts, CString(s, ats[i]));
      NewIncludeFits(scripts, CString(s, ats[i]), ext);
    }
  }

  /** The table of includes and the header read as they did. */
  lemma IncludeStill(s: bytes, t: bytes, news: seq<bytes>, n: nat, i: nat)
    requires ScriptTextsReady(s) && |news| == |ScriptTexts(s)| && n <= |news|
    requires TextsRenamed(s, t, ScriptTexts(s), news, n)
    ensures |t| == |s| && Includes(t) == Includes(s) && IncludeTable(t) == IncludeTable(s)
    ensures i < Includes(s) ==>
      Get32(t, IncludeTable(s) + 4 * i) == Get32(s, IncludeTable(s) + 4 * i)
  {
    hide CString, TextsRenamed, TextsApart;
    var ats, table := ScriptTexts(s), IncludeTable(s);
    forall k: nat | k in {12, 13, 14, 15, 68}
      ensures |t| == |s| && t[k] == s[k]
    {
      RegionStill(s, t, ats, news, n, 0, HEADER_SIZE, k);
    }
    if i < Includes(s) {
      forall k | table + 4 * i <= k < table + 4 * i + 4
        ensures t[k] == s[k]
      {
        RegionStill(s, t, ats, news, n, table, table + 4 * Includes(s), k);
      }
    }
  }
}
