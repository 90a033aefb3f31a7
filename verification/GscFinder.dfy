/** Finding the scripts of a decompressed fastfile (gsc_finder.cpp). */
module GscFinder {
  import opened Bytes
  import opened Results
  import opened Search
  import opened ByteBuffers
  import GscFormat
  import PrivateNames

  const RECORD: nat := 24
  const LEN: nat := 8

  /** name = -1, any len, pad = 0, buffer = -1. */
  const PATTERN: bytes :=
    [255, 255, 255, 255, 255, 255, 255, 255, 0, 0, 0, 0, 0, 0, 0, 0, 255, 255, 255, 255, 255, 255, 255, 255]
  const MASK: bytes :=
    [255, 255, 255, 255, 255, 255, 255, 255, 0, 0, 0, 0, 255, 255, 255, 255, 255, 255, 255, 255, 255, 255, 255, 255]

  /** Where the name starts and ends, and the script that follows its terminator. */
  datatype GscObject = GscObject(name: nat, nameEnd: nat, fileSize: nat) {
    function Obj(): nat { nameEnd + 1 }
    function End(): nat { nameEnd + 1 + fileSize }
  }

  /** A string ran past the end of the buffer. */
  datatype ScanError = Unterminated(name: nat)

  predicate ScriptFile(name: bytes) {
    PrivateNames.ScriptName(name) || PrivateNames.EndsWith(name, PrivateNames.CSH)
  }

  /** What the scan does with the record at `q` whose name ends at `e`: where it
      goes on, and the object it adds if any. */
  function Judge(s: bytes, q: nat, e: nat): (r: (nat, Option<GscObject>))
    requires q + RECORD <= e < |s|
    ensures e < r.0 <= |s|
  {
    var len := Signed32(Get32(s, q + LEN));
    if len < 8 || !ScriptFile(s[q + RECORD..e]) then (e + 1, None)
    else
      var fileSize := len + 1;
      if e + 1 + fileSize > |s| then (e + 1, None)
      else if Get64(s, e + 1) != GscFormat.VMI_T7_1C then (e + 1 + fileSize, None)
      else (e + 1 + fileSize, Some(GscObject(q + RECORD, e, fileSize)))
  }

  /** The same with the name read: it may run past the end of the buffer. */
  function Candidate(s: bytes, q: nat): (r: Result<(nat, Option<GscObject>), ScanError>)
    requires q + RECORD <= |s|
    ensures r.Ok? ==> q + RECORD < r.value.0 <= |s|
  {
    match StringEnd(s, q + RECORD)
    case None => Err(Unterminated(q + RECORD))
    case Some(e) => Ok(Judge(s, q, e))
  }

  function Listed(o: Option<GscObject>): seq<GscObject> {
    if o.Some? then [o.value] else []
  }

  /** The objects found from `pos` on. */
  function Scan(s: bytes, pos: nat): Result<seq<GscObject>, ScanError>
    decreases |s| - pos
  {
    match FindMaskedFrom(s, PATTERN, MASK, pos)
    case None => Ok([])
    case Some(q) =>
      FindMaskedFromIsLeast(s, PATTERN, MASK, pos, Some(q));
      match Candidate(s, q)
      case Err(x) => Err(x)
      case Ok(c) => Prepend(Listed(c.1), Scan(s, c.0))
  }

  function Prepend(a: seq<GscObject>, r: Result<seq<GscObject>, ScanError>): Result<seq<GscObject>, ScanError> {
    match r
    case Err(x) => Err(x)
    case Ok(b) => Ok(a + b)
  }

  lemma PrependNothing(r: Result<seq<GscObject>, ScanError>)
    ensures Prepend([], r) == r
  {
    if r.Ok? {
      assert [] + r.value == r.value;
    }
  }

  lemma PrependOk(a: seq<GscObject>, b: seq<GscObject>)
    ensures Prepend(a, Ok([])) == Ok(a) && Prepend(a, Ok(b)) == Ok(a + b)
  {
    assert a + [] == a;
  }

  lemma PrependErr(a: seq<GscObject>, x: ScanError)
    ensures Prepend(a, Err(x)) == Err(x)
  {
  }

  lemma PrependTwice(a: seq<GscObject>, b: seq<GscObject>, r: Result<seq<GscObject>, ScanError>)
    ensures Prepend(a, Prepend(b, r)) == Prepend(a + b, r)
  {
    if r.Ok? {
      assert a + (b + r.value) == a + b + r.value;
    }
  }

  /** Reads the record at `q` and moves the cursor past what was read. */
  method ReadCandidate(decReader: ByteBuffer, q: nat) returns (r: Result<Option<GscObject>, ScanError>)
    requires decReader.Valid() && q + RECORD <= decReader.len == decReader.buffer.Length
    modifies decReader`pointer
    ensures decReader.Valid()
    ensures
      var c := Candidate(decReader.buffer[..], q);
      match r
      case Err(x) => c == Err(x)
      case Ok(o) => c == Ok((decReader.pointer, o))
  {
    hide StringEnd, ScriptFile, Get32, Get64;
    var buffer := decReader.buffer;
    var _ := decReader.Goto(q);
    var spt := decReader.ReadPtr(RECORD);
    var name := decReader.pointer;
    var nameEnd := decReader.ReadString();
    assert decReader.Region() == buffer[..];
    if nameEnd.None? {
      return Err(Unterminated(name));
    }
    var e := nameEnd.value;
    var word := Read32(buffer, q + LEN);
    var len := Signed32(word);
    if len < 8 || !ScriptFile(buffer[..][name..e]) {
      return Ok(None);
    }
    var fileSize: nat := len + 1;
    if !decReader.CanRead(fileSize) {
      return Ok(None);
    }
    var data := decReader.ReadPtr(fileSize);
    var magic := Get64(buffer[..], data.value);
    if magic != GscFormat.VMI_T7_1C {
      return Ok(None);
    }
    return Ok(Some(GscObject(name, e, fileSize)));
  }

  method FindGscInBuffer(buffer: array<byte>) returns (r: Result<seq<GscObject>, ScanError>)
    ensures r == Scan(buffer[..], 0)
  {
    hide FindMaskedFrom, Candidate, Prepend;
    var decReader := new ByteBuffer(buffer, buffer.Length);
    var results: seq<GscObject> := [];
    ghost var s := buffer[..];
    PrependNothing(Scan(s, 0));
    while true
      invariant decReader.Valid()
      invariant Scan(s, 0) == Prepend(results, Scan(s, decReader.pointer))
      decreases decReader.len - decReader.pointer
    {
      var off := decReader.FindMasked(PATTERN, MASK, 0);
      assert decReader.Region() == s;
      if off.None? {
        PrependOk(results, []);
        return Ok(results);
      }
      FindMaskedFromIsLeast(s, PATTERN, MASK, decReader.pointer, off);
      var found := ReadCandidate(decReader, off.value);
      if found.Err? {
        PrependErr(results, found.error);
        return Err(found.error);
      }
      PrependTwice(results, Listed(found.value), Scan(s, decReader.pointer));
      results := results + Listed(found.value);
    }
  }

  // ----- What is found

  lemma {:induction false} StringEndIs(s: bytes, from: nat, e: nat)
    requires from <= e < |s| && s[e] == 0 && 0 !in s[from..e]
    ensures StringEnd(s, from) == Some(e)
    decreases e - from
  {
    if from < e {
      assert s[from] == s[from..e][0];
      assert s[from + 1..e] == s[from..e][1..];
      StringEndIs(s, from + 1, e);
    }
  }

  /** A record, a terminated script name, and a script of the recorded size with
      the right magic, all inside the buffer. */
  ghost predicate IsScript(s: bytes, o: GscObject) {
    && RECORD <= o.name <= o.nameEnd && o.fileSize >= 9 && o.End() <= |s|
    && MatchMaskedAt(s, o.name - RECORD, PATTERN, MASK)
    && o.fileSize == Signed32(Get32(s, o.name - RECORD + LEN)) + 1
    && s[o.nameEnd] == 0 && 0 !in s[o.name..o.nameEnd] && ScriptFile(s[o.name..o.nameEnd])
    && Get64(s, o.Obj()) == GscFormat.VMI_T7_1C
  }

  /** In increasing order, each with its record after the end of the one before. */
  ghost predicate InOrder(objs: seq<GscObject>) {
    forall i, j :: 0 <= i < j < |objs| ==> objs[i].End() + RECORD <= objs[j].name
  }

  ghost predicate StartAfter(objs: seq<GscObject>, pos: nat) {
    forall i :: 0 <= i < |objs| ==> pos + RECORD <= objs[i].name <= objs[i].nameEnd
  }

  lemma CandidateIsScript(s: bytes, pos: nat, q: nat)
    requires FindMaskedFrom(s, PATTERN, MASK, pos) == Some(q)
    ensures pos <= q && q + RECORD <= |s|
    ensures var c := Candidate(s, q);
      c.Ok? && c.value.1.Some? ==>
        var o := c.value.1.value;
        IsScript(s, o) && o.name == q + RECORD && c.value.0 == o.End()
  {
    hide ScriptFile, Get32, Get64;
    FindMaskedFromIsLeast(s, PATTERN, MASK, pos, Some(q));
  }

  lemma ListedScript(s: bytes, o: Option<GscObject>, pos: nat, next: nat, rest: seq<GscObject>)
    requires o.Some? ==> IsScript(s, o.value) && pos + RECORD <= o.value.name && next == o.value.End()
    requires pos <= next && InOrder(rest) && StartAfter(rest, next)
    requires forall i :: 0 <= i < |rest| ==> IsScript(s, rest[i])
    ensures var objs := Listed(o) + rest;
      InOrder(objs) && StartAfter(objs, pos) && forall i :: 0 <= i < |objs| ==> IsScript(s, objs[i])
  {
    hide IsScript;
    assert o.Some? ==> IsScript(s, o.value);
    NamesFit(s, o);
  }

  lemma NamesFit(s: bytes, o: Option<GscObject>)
    requires o.Some? ==> IsScript(s, o.value)
    ensures o.Some? ==> o.value.name <= o.value.nameEnd
  {
  }

  /** The scan ends on every buffer; what it finds are scripts, in order and
      without overlap. */
  lemma {:induction false} ScanFindsScripts(s: bytes, pos: nat)
    requires Scan(s, pos).Ok?
    ensures var objs := Scan(s, pos).value;
      InOrder(objs) && StartAfter(objs, pos) && forall i :: 0 <= i < |objs| ==> IsScript(s, objs[i])
    decreases |s| - pos
  {
    hide IsScript, InOrder, StartAfter, Candidate, Listed, FindMaskedFrom;
    var q := FindMaskedFrom(s, PATTERN, MASK, pos);
    if q.None? {
      NothingFound(s, pos);
    } else {
      CandidateIsScript(s, pos, q.value);
      var c := Candidate(s, q.value).value;
      ScanFindsScripts(s, c.0);
      ListedScript(s, c.1, pos, c.0, Scan(s, c.0).value);
    }
  }

  lemma NothingFound(s: bytes, pos: nat)
    ensures InOrder([]) && StartAfter([], pos)
  {
  }

  /** A script whose record is the first one after `pos` is found, and the scan
      goes on after it. */
  lemma FirstScriptIsFound(s: bytes, pos: nat, o: GscObject)
    requires IsScript(s, o) && pos + RECORD <= o.name
    requires forall p: nat :: pos <= p < o.name - RECORD ==> !MatchMaskedAt(s, p, PATTERN, MASK)
    ensures Scan(s, pos) == Prepend([o], Scan(s, o.End()))
  {
    hide StringEnd, ScriptFile, Get32, Get64, FindMaskedFrom, Masked;
    var q := o.name - RECORD;
    FindMaskedFromIsLeast(s, PATTERN, MASK, pos, Some(q));
    StringEndIs(s, o.name, o.nameEnd);
    assert Candidate(s, q) == Ok((o.End(), Some(o)));
  }

  // ----- Everything there is is found

  /** A record: its name pointer and its buffer pointer are -1, its padding is zero. */
  ghost predicate RecordAt(s: bytes, p: nat) {
    && p + 24 <= |s|
    && (forall k :: p <= k < p + 8 || p + 16 <= k < p + 24 ==> s[k] == 255)
    && forall k :: p + 12 <= k < p + 16 ==> s[k] == 0
  }

  lemma RecordIsMatch(s: bytes, p: nat)
    ensures MatchMaskedAt(s, p, PATTERN, MASK) <==> RecordAt(s, p)
  {
    forall b: byte
      ensures Masked(b, 255) == b && Masked(b, 0) == 0
    {
      assert Bits.Pow2(8) == 256;
      Bits.AndAll(b, 8);
    }
    hide Masked;
    if MatchMaskedAt(s, p, PATTERN, MASK) {
      forall k | p <= k < p + 24
        ensures Masked(s[k], MASK[k - p]) == PATTERN[k - p]
      {
        assert k == p + (k - p);
      }
    }
  }

  /** The name of a compiled script or of a header of one. */
  predicate CompiledName(name: bytes) {
    && |name| >= 4
    && var end := name[|name| - 4..];
    end == [46, 103, 115, 99] || end == [46, 99, 115, 99] || end == [46, 103, 115, 104] || end == [46, 99, 115, 104]
  }

  lemma ScriptFileByEnding(name: bytes)
    ensures ScriptFile(name) <==> CompiledName(name)
  {
  }

  /** What reading one record consumes: the record at `q`, its name up to the
      terminator at `e`, and the data when there is room for it. */
  datatype Visit = Visit(q: nat, e: nat, next: nat) {
    function Object(): GscObject
      requires e < next
    {
      GscObject(q + 24, e, next - e - 1)
    }
  }

  ghost predicate Consumed(s: bytes, v: Visit) {
    && RecordAt(s, v.q) && v.q + 24 <= v.e < |s| && s[v.e] == 0 && 0 !in s[v.q + 24..v.e]
    && var len := Signed32(Get32(s, v.q + 8));
    v.next == if len >= 8 && CompiledName(s[v.q + 24..v.e]) && v.e + 1 + (len + 1) <= |s| then v.e + 1 + (len + 1)
              else v.e + 1
  }

  /** Record after record, each the first one behind what was consumed; the scan stops
      where there is no further record, or at one whose name has no end. */
  ghost predicate Visits(s: bytes, pos: nat, vs: seq<Visit>, stop: Option<nat>)
    decreases |vs|
  {
    if vs == [] then
      match stop
      case None => forall p: nat :: pos <= p ==> !RecordAt(s, p)
      case Some(q) =>
        && pos <= q && RecordAt(s, q) && (forall p: nat :: pos <= p < q ==> !RecordAt(s, p)) && 0 !in s[q + 24..]
    else
      && pos <= vs[0].q && Consumed(s, vs[0]) && (forall p: nat :: pos <= p < vs[0].q ==> !RecordAt(s, p))
      && Visits(s, vs[0].next, vs[1..], stop)
  }

  /** The scripts among the records visited. */
  ghost function Found(s: bytes, vs: seq<Visit>): seq<GscObject> {
    if vs == [] then []
    else
      var v := vs[0];
      (if v.e < v.next && IsScript(s, v.Object()) then [v.Object()] else []) + Found(s, vs[1..])
  }

  lemma NextRecord(s: bytes, pos: nat, found: Option<nat>)
    requires FindMaskedFrom(s, PATTERN, MASK, pos) == found
    ensures match found
      case None => forall p: nat :: pos <= p ==> !RecordAt(s, p)
      case Some(q) => pos <= q && RecordAt(s, q) && forall p: nat :: pos <= p < q ==> !RecordAt(s, p)
  {
    hide MatchMaskedAt, RecordAt;
    FindMaskedFromIsLeast(s, PATTERN, MASK, pos, found);
    forall p: nat
      ensures MatchMaskedAt(s, p, PATTERN, MASK) <==> RecordAt(s, p)
    {
      RecordIsMatch(s, p);
    }
  }

  /** The record at `q`, judged. */
  lemma CandidateConsumes(s: bytes, q: nat) returns (v: Visit)
    requires RecordAt(s, q) && Candidate(s, q).Ok?
    ensures v.q == q && Consumed(s, v) && v.next == Candidate(s, q).value.0 && Found(s, [v]) == Listed(Candidate(s, q).value.1)
  {
    hide StringEnd, Get64, Get32, RecordAt, CompiledName, ScriptFile, MatchMaskedAt;
    var e := StringEnd(s, q + RECORD).value;
    v := Visit(q, e, Candidate(s, q).value.0);
    ScriptFileByEnding(s[q + RECORD..e]);
    RecordIsMatch(s, q);
  }

  lemma FoundMore(s: bytes, v: Visit, vs: seq<Visit>)
    ensures Found(s, [v] + vs) == Found(s, [v]) + Found(s, vs)
  {
    assert ([v] + vs)[1..] == vs && [v][1..] == [];
    assert Found(s, []) == [];
  }

  lemma VisitsMore(s: bytes, pos: nat, v: Visit, vs: seq<Visit>, stop: Option<nat>)
    requires pos <= v.q && Consumed(s, v) && (forall p: nat :: pos <= p < v.q ==> !RecordAt(s, p))
    requires Visits(s, v.next, vs, stop)
    ensures Visits(s, pos, [v] + vs, stop)
  {
    hide Consumed, RecordAt;
    assert ([v] + vs)[1..] == vs;
  }

  /** The scan is that walk: its answer is the scripts among the records visited, or
      the name that has no end. */
  lemma {:induction false} ScanVisits(s: bytes, pos: nat) returns (vs: seq<Visit>, stop: Option<nat>)
    ensures Visits(s, pos, vs, stop)
    ensures Scan(s, pos) == if stop.None? then Ok(Found(s, vs)) else Err(Unterminated(stop.value + 24))
    decreases |s| - pos
  {
    hide RecordAt, Consumed, Found, Listed, FindMaskedFrom, Visits, StringEnd;
    var found := FindMaskedFrom(s, PATTERN, MASK, pos);
    NextRecord(s, pos, found);
    if found.None? {
      vs, stop := [], None;
      NoVisits(s, pos, stop);
    } else {
      RecordFits(s, found.value);
      var c := Candidate(s, found.value);
      if c.Err? {
        vs, stop := [], found;
        NoVisits(s, pos, stop);
      } else {
        var v := CandidateConsumes(s, found.value);
        vs, stop := ScanVisits(s, v.next);
        VisitsMore(s, pos, v, vs, stop);
        FoundMore(s, v, vs);
        vs := [v] + vs;
      }
    }
  }

  lemma RecordFits(s: bytes, q: nat)
    requires RecordAt(s, q)
    ensures q + 24 <= |s|
  {
  }

  lemma NoVisits(s: bytes, pos: nat, stop: Option<nat>)
    requires match stop
      case None => forall p: nat :: pos <= p ==> !RecordAt(s, p)
      case Some(q) =>
        && pos <= q && RecordAt(s, q) && (forall p: nat :: pos <= p < q ==> !RecordAt(s, p))
        && StringEnd(s, q + 24).None?
    ensures Visits(s, pos, [], stop) && Found(s, []) == []
  {
    hide StringEnd, RecordAt;
    if stop.Some? {
      RecordFits(s, stop.value);
    }
  }

  /** Nothing is missed: every script in the buffer whose record does not start inside
      another record, its name or its data is found. */
  lemma {:induction false} EveryScriptIsFound(s: bytes, pos: nat, vs: seq<Visit>, o: GscObject)
    requires Visits(s, pos, vs, None) && IsScript(s, o) && pos + 24 <= o.name
    requires forall i :: 0 <= i < |vs| ==> !(vs[i].q < o.name - 24 < vs[i].next)
    ensures o in Found(s, vs)
    decreases |vs|
  {
    hide RecordAt, Consumed, IsScript;
    ScriptAtRecord(s, o);
    if vs != [] && vs[0].q != o.name - 24 {
      assert forall i :: 0 <= i < |vs[1..]| ==> vs[1..][i] == vs[i + 1];
      EveryScriptIsFound(s, vs[0].next, vs[1..], o);
    } else if vs != [] {
      SameName(s, vs[0], o);
    }
  }

  lemma ScriptAtRecord(s: bytes, o: GscObject)
    requires IsScript(s, o)
    ensures o.name >= 24 && RecordAt(s, o.name - 24)
  {
    hide RecordAt, MatchMaskedAt, Get64, Get32, ScriptFile;
    RecordIsMatch(s, o.name - RECORD);
  }

  lemma SameName(s: bytes, v: Visit, o: GscObject)
    requires Consumed(s, v) && IsScript(s, o) && o.name == v.q + 24
    ensures v.e < v.next && v.Object() == o
  {
    hide RecordAt, MatchMaskedAt, Get64, Get32, CompiledName, ScriptFile;
    StringEndIs(s, o.name, o.nameEnd);
    StringEndIs(s, o.name, v.e);
    ScriptFileByEnding(s[o.name..o.nameEnd]);
  }

  // ----- Patching what was found

  predicate InObject(o: GscObject, k: int) {
    o.name <= k < o.nameEnd || o.Obj() <= k < o.End()
  }

  /** Two found objects never share a byte of name or script, so a patch of one
      leaves the other as it was. */
  lemma ObjectsApart(s: bytes, i: nat, j: nat, k: nat)
    requires Scan(s, 0).Ok? && i < |Scan(s, 0).value| && j < |Scan(s, 0).value|
    requires InObject(Scan(s, 0).value[i], k) && InObject(Scan(s, 0).value[j], k)
    ensures i == j && k < |s|
  {
    hide Scan;
    ScanFindsScripts(s, 0);
    var objs := Scan(s, 0).value;
    assert IsScript(s, objs[i]) && IsScript(s, objs[j]);
  }

  /** `t` is `s` with the names and contents of the objects changed: names stay
      script names of the same length, and scripts keep their magic. */
  ghost predicate Patched(s: bytes, t: bytes, pos: nat, objs: seq<GscObject>) {
    && |t| == |s|
    && (forall k :: pos <= k < |s| && (forall i :: 0 <= i < |objs| ==> !InObject(objs[i], k)) ==> t[k] == s[k])
    && forall i :: 0 <= i < |objs| ==> StillScript(t, objs[i])
  }

  ghost predicate StillScript(t: bytes, o: GscObject) {
    && o.name <= o.nameEnd && o.End() <= |t| && o.fileSize >= 8
    && 0 !in t[o.name..o.nameEnd] && ScriptFile(t[o.name..o.nameEnd]) && Get64(t, o.Obj()) == GscFormat.VMI_T7_1C
  }

  lemma SameBytesMatch(s: bytes, t: bytes, p: nat, pat: bytes, mask: bytes)
    requires |s| == |t| && |mask| == |pat| && p + |pat| <= |s|
    requires forall k :: p <= k < p + |pat| ==> t[k] == s[k]
    ensures MatchMaskedAt(s, p, pat, mask) <==> MatchMaskedAt(t, p, pat, mask)
  {
    hide Masked;
  }

  /** The same bytes up to the end of the match found give the same match. */
  lemma SameMatch(s: bytes, t: bytes, pos: nat, q: nat, pat: bytes, mask: bytes)
    requires |mask| == |pat| && FindMaskedFrom(s, pat, mask, pos) == Some(q) && |s| == |t|
    requires forall k :: pos <= k < q + |pat| && k < |s| ==> t[k] == s[k]
    ensures FindMaskedFrom(t, pat, mask, pos) == Some(q)
  {
    hide FindMaskedFrom, MatchMaskedAt;
    FindMaskedFromIsLeast(s, pat, mask, pos, Some(q));
    FindMaskedFromIsLeast(t, pat, mask, pos, Some(q));
    MatchFits(s, q, pat, mask);
    forall p: nat | pos <= p <= q
      ensures MatchMaskedAt(s, p, pat, mask) <==> MatchMaskedAt(t, p, pat, mask)
    {
      SameBytesMatch(s, t, p, pat, mask);
    }
  }

  lemma MatchFits(s: bytes, q: nat, pat: bytes, mask: bytes)
    requires |mask| == |pat| && MatchMaskedAt(s, q, pat, mask)
    ensures q + |pat| <= |s|
  {
  }

  lemma SameNone(s: bytes, t: bytes, pos: nat, pat: bytes, mask: bytes)
    requires |mask| == |pat| && FindMaskedFrom(s, pat, mask, pos).None? && |s| == |t|
    requires forall k :: pos <= k < |s| ==> t[k] == s[k]
    ensures FindMaskedFrom(t, pat, mask, pos).None?
  {
    hide FindMaskedFrom;
    FindMaskedFromIsLeast(s, pat, mask, pos, None);
    FindMaskedFromIsLeast(t, pat, mask, pos, None);
    forall p: nat | pos <= p && p + |pat| <= |s|
      ensures MatchMaskedAt(s, p, pat, mask) <==> MatchMaskedAt(t, p, pat, mask)
    {
      SameBytesMatch(s, t, p, pat, mask);
    }
  }

  /** Up to where the scan goes on, a record that gives no object is judged the
      same from the same bytes. */
  lemma SameRefusal(s: bytes, t: bytes, q: nat)
    requires q + RECORD <= |s| == |t| && Candidate(s, q).Ok? && Candidate(s, q).value.1.None?
    requires forall k :: q <= k < Candidate(s, q).value.0 ==> t[k] == s[k]
    ensures Candidate(t, q) == Candidate(s, q)
  {
    hide StringEnd, ScriptFile;
    var e := StringEnd(s, q + RECORD).value;
    assert s[q + RECORD..e] == t[q + RECORD..e];
    StringEndIs(t, q + RECORD, e);
  }

  /** A patched object is found again. */
  lemma SameObject(s: bytes, t: bytes, q: nat)
    requires q + RECORD <= |s| == |t| && Candidate(s, q).Ok? && Candidate(s, q).value.1.Some?
    requires var o := Candidate(s, q).value.1.value;
      StillScript(t, o) && t[o.nameEnd] == s[o.nameEnd] && forall k :: q <= k < q + RECORD ==> t[k] == s[k]
    ensures Candidate(t, q) == Candidate(s, q)
  {
    hide StringEnd, ScriptFile, Get64;
    var e := StringEnd(s, q + RECORD).value;
    StringEndIs(t, q + RECORD, e);
  }

  lemma PatchedTail(s: bytes, t: bytes, pos: nat, o: Option<GscObject>, next: nat, rest: seq<GscObject>)
    requires Patched(s, t, pos, Listed(o) + rest) && pos <= next
    requires o.Some? ==> o.value.End() <= next
    ensures Patched(s, t, next, rest)
    ensures o.Some? ==> StillScript(t, o.value)
  {
    hide StillScript;
    var objs := Listed(o) + rest;
    assert o.Some? ==> objs[0] == o.value;
    forall i | 0 <= i < |rest|
      ensures StillScript(t, rest[i])
    {
      assert rest[i] == objs[i + |Listed(o)|];
    }
    forall k | next <= k < |s| && (forall i :: 0 <= i < |rest| ==> !InObject(rest[i], k))
      ensures t[k] == s[k]
    {
      forall i | 0 <= i < |objs|
        ensures !InObject(objs[i], k)
      {
        if o.None? || i > 0 {
          assert objs[i] == rest[i - |Listed(o)|];
        } else {
          NamesOrdered(t, o.value);
        }
      }
    }
  }

  lemma NamesOrdered(t: bytes, o: GscObject)
    requires StillScript(t, o)
    ensures o.name <= o.nameEnd
  {
  }

  /** Bytes before the first object, and its terminator, are as they were. */
  lemma Unpatched(s: bytes, t: bytes, pos: nat, o: Option<GscObject>, next: nat, rest: seq<GscObject>, k: nat)
    requires Patched(s, t, pos, Listed(o) + rest) && pos <= k < |s|
    requires InOrder(Listed(o) + rest) && StartAfter(rest, next) && k < next
    requires o.Some? ==> k < o.value.name || k == o.value.nameEnd
    ensures t[k] == s[k]
  {
    var objs := Listed(o) + rest;
    forall i | 0 <= i < |objs|
      ensures !InObject(objs[i], k)
    {
      if o.None? || i > 0 {
        assert objs[i] == rest[i - |Listed(o)|];
      } else {
        assert objs[0] == o.value;
        NamesOrdered(t, o.value);
      }
    }
  }

  /** Scanning a patched buffer finds the same objects in the same places. */
  lemma {:induction false} RescanFindsTheSame(s: bytes, t: bytes, pos: nat)
    requires Scan(s, pos).Ok? && Patched(s, t, pos, Scan(s, pos).value)
    ensures Scan(t, pos) == Scan(s, pos)
    decreases |s| - pos
  {
    hide IsScript, InOrder, StartAfter, Candidate, Listed, FindMaskedFrom, Patched, StillScript, InObject;
    var objs := Scan(s, pos).value;
    var found := FindMaskedFrom(s, PATTERN, MASK, pos);
    ScanFindsScripts(s, pos);
    PatchedLength(s, t, pos, objs);
    if found.None? {
      PatchedNothing(s, t, pos);
      SameNone(s, t, pos, PATTERN, MASK);
    } else {
      var q := found.value;
      CandidateIsScript(s, pos, q);
      var c := Candidate(s, q).value;
      var rest := Scan(s, c.0).value;
      ScanFindsScripts(s, c.0);
      assert objs == Listed(c.1) + rest;
      forall k: nat | pos <= k < c.0 && (c.1.Some? ==> k < c.1.value.name || k == c.1.value.nameEnd)
        ensures t[k] == s[k]
      {
        Unpatched(s, t, pos, c.1, c.0, rest, k);
      }
      SameMatch(s, t, pos, q, PATTERN, MASK);
      PatchedTail(s, t, pos, c.1, c.0, rest);
      if c.1.Some? {
        NamesFit(s, c.1);
        SameObject(s, t, q);
      } else {
        SameRefusal(s, t, q);
      }
      RescanFindsTheSame(s, t, c.0);
    }
  }

  lemma PatchedLength(s: bytes, t: bytes, pos: nat, objs: seq<GscObject>)
    requires Patched(s, t, pos, objs)
    ensures |s| == |t|
  {
  }

  lemma PatchedNothing(s: bytes, t: bytes, pos: nat)
    requires Patched(s, t, pos, [])
    ensures |s| == |t| && forall k :: pos <= k < |s| ==> t[k] == s[k]
  {
  }
}
