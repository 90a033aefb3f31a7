/** The private names file (private_file.cpp): base-38 names, the replacements
    stored for each row, and the renaming of strings in place. */
module PrivateNames {
  import opened Bytes
  import opened Results
  import Bits
  import HashMini

  // ----- Base-38 digits

  const BASE: nat := 38

  /** The dictionary "abcdefghijklmnopqrstuvwxyz0123456789_." by position. */
  function Dict(d: nat): byte
    requires d < BASE
  {
    if d < 26 then 97 + d else if d < 36 then 48 + (d - 26) else if d == 36 then 95 else 46
  }

  predicate InDict(c: byte) {
    97 <= c <= 122 || 48 <= c <= 57 || c == 95 || c == 46
  }

  function Digit(c: byte): (d: nat)
    ensures d < BASE
    ensures InDict(c) ==> Dict(d) == c
  {
    if 97 <= c <= 122 then c - 97 else if 48 <= c <= 57 then 26 + (c - 48) else if c == 95 then 36 else 37
  }

  lemma DigitOfDict(d: nat)
    requires d < BASE
    ensures Digit(Dict(d)) == d && InDict(Dict(d))
  {
  }

  /** Least significant digit first, stopping at zero or when the room is used up. */
  function Encode(v: nat, room: nat): bytes {
    if v == 0 || room == 0 then [] else [Dict(v % BASE)] + Encode(v / BASE, room - 1)
  }

  function Decode(t: bytes): nat {
    if t == [] then 0 else Digit(t[0]) + BASE * Decode(t[1..])
  }

  function Pow38(n: nat): (r: nat)
    ensures r >= 1
  {
    if n == 0 then 1 else BASE * Pow38(n - 1)
  }

  lemma ModStep(v: nat, p: nat)
    requires p >= 1
    ensures v % (BASE * p) == v % BASE + BASE * (v / BASE % p)
  {
    var q, r := v / BASE, v % BASE;
    var q2, r2 := q / p, q % p;
    assert v == BASE * q + r && q == p * q2 + r2;
    assert v == (BASE * p) * q2 + (BASE * r2 + r);
    Bits.DivModUnique(v, q2, BASE * r2 + r, BASE * p);
  }

  /** Decoding gives the value modulo 38 to the number of digits there is room for. */
  lemma {:induction false} DecodeEncode(v: nat, room: nat)
    ensures Decode(Encode(v, room)) == v % Pow38(room)
    ensures |Encode(v, room)| <= room && forall i :: 0 <= i < |Encode(v, room)| ==> InDict(Encode(v, room)[i])
    decreases room
  {
    if v == 0 {
      Bits.DivModUnique(0, 0, 0, Pow38(room));
    } else if room != 0 {
      DecodeEncode(v / BASE, room - 1);
      DigitOfDict(v % BASE);
      ModStep(v, Pow38(room - 1));
      var e := Encode(v, room);
      assert e[1..] == Encode(v / BASE, room - 1);
      assert forall i :: 0 < i < |e| ==> e[i] == e[1..][i - 1];
    } else {
      assert v % 1 == 0;
    }
  }

  lemma QuotientBelow(v: nat, p: nat)
    requires v < BASE * p
    ensures v / BASE < p
  {
  }

  lemma {:induction false} EncodeLength(v: nat, room: nat, n: nat)
    requires v < Pow38(n)
    ensures |Encode(v, room)| <= n
    decreases room
  {
    if v != 0 && room != 0 {
      QuotientBelow(v, Pow38(n - 1));
      EncodeLength(v / BASE, room - 1, n - 1);
    }
  }

  lemma ThirteenDigitsSuffice()
    ensures Pow38(13) > 0x1_0000_0000_0000_0000
  {
    assert Pow38(4) == 2085136;
    assert Pow38(8) == 2085136 * 2085136 by {
      assert Pow38(8) == 38 * 38 * 38 * 38 * Pow38(4);
    }
    assert Pow38(12) == 38 * 38 * 38 * 38 * Pow38(8);
  }

  // ----- Names of rows

  const NAME_ROOM: nat := 15

  function EncodeNumber(val: u64, uid: u64): u64 {
    Bits.WordIsPow2();
    Bits.XorBound(val, uid, 64);
    Bits.Xor(val, uid)
  }

  /** The name of a row, as the 16-byte buffer holds it. */
  function RowName(i: u64, uid: u64): bytes {
    Encode(EncodeNumber(i, uid), NAME_ROOM)
  }

  /** The 16-byte buffer never truncates: at most 13 digits, and decoding gives
      the row exclusive-ored with the file's identifier. */
  lemma RowNameDecodes(i: u64, uid: u64)
    ensures |RowName(i, uid)| <= 13 && Decode(RowName(i, uid)) == EncodeNumber(i, uid)
    ensures Bits.Xor(Decode(RowName(i, uid)), uid) == i
  {
    var v := EncodeNumber(i, uid);
    ThirteenDigitsSuffice();
    EncodeLength(v, NAME_ROOM, 13);
    DecodeEncode(v, NAME_ROOM);
    assert Pow38(15) == BASE * (BASE * Pow38(13));
    Bits.DivModUnique(v, 0, v, Pow38(15));
    Bits.XorCancel(i, uid);
  }

  lemma RowNamesDistinct(i: u64, j: u64, uid: u64)
    requires RowName(i, uid) == RowName(j, uid)
    ensures i == j
  {
    RowNameDecodes(i, uid);
    RowNameDecodes(j, uid);
  }

  // ----- Padding

  /** One round of digits; unlike a name it writes a digit even for zero. */
  function Round(r: u64, room: nat): bytes
    requires room >= 1
  {
    [Dict(r % BASE)] + Encode(r / BASE, room - 1)
  }

  function NextHash(name: bytes, rnd: u64): u64 {
    HashMini.Fold(HashMini.Text(name), rnd, HashMini.IV_DEFAULT)
  }

  /** The padding of `n` characters, round after round of the name's hash. */
  function Fill(name: bytes, rnd: u64, n: nat): bytes
    decreases n
  {
    if n == 0 then []
    else
      DecodeEncode(rnd / BASE, n - 1);
      var d := Round(rnd, n);
      d + Fill(name, NextHash(name, rnd), n - |d|)
  }

  function Padding(name: bytes, n: nat): bytes {
    Fill(name, NextHash(name, HashMini.FNV1A_PRIME), n)
  }

  lemma {:induction false} FillIsDict(name: bytes, rnd: u64, n: nat)
    ensures |Fill(name, rnd, n)| == n
    ensures forall i :: 0 <= i < n ==> InDict(Fill(name, rnd, n)[i])
    decreases n
  {
    if n != 0 {
      DecodeEncode(rnd / BASE, n - 1);
      DigitOfDict(rnd % BASE);
      var d := Round(rnd, n);
      FillIsDict(name, NextHash(name, rnd), n - |d|);
      assert forall i :: 1 <= i < |d| ==> d[i] == Encode(rnd / BASE, n - 1)[i - 1];
    }
  }

  // ----- Script replacements

  const GSC: bytes := [46, 103, 115, 99]
  const GSH: bytes := [46, 103, 115, 104]
  const CSC: bytes := [46, 99, 115, 99]
  const CSH: bytes := [46, 99, 115, 104]

  predicate EndsWith(s: bytes, ext: bytes) {
    |ext| <= |s| && s[|s| - |ext|..] == ext
  }

  function Extension(s: bytes): bytes
    requires |s| >= 4
  {
    s[|s| - 4..]
  }

  predicate ScriptName(val: bytes) {
    EndsWith(val, GSC) || EndsWith(val, GSH) || EndsWith(val, CSC)
  }

  /** Slashes become backslashes up to the first zero. */
  function Clean(s: bytes): (r: bytes)
    ensures |r| == |s|
  {
    seq(|s|, i requires 0 <= i < |s| => if i < |HashMini.Text(s)| && s[i] == 47 then 92 else s[i])
  }

  /** A text without terminator loses every slash and nothing else. */
  lemma CleanSlashes(s: bytes)
    requires 0 !in s
    ensures 47 !in Clean(s)
    ensures forall i :: 0 <= i < |s| ==> (s[i] != 47 ==> Clean(s)[i] == s[i]) && (s[i] == 47 ==> Clean(s)[i] == 92)
  {
    HashMini.TextWhole(s);
  }

  /** The replacement stored for a script row, when it is not too small. */
  function Replacement(i: u64, uid: u64, val: bytes): Option<bytes>
    requires ScriptName(val)
  {
    var name := RowName(i, uid);
    if |name| + 4 > |val| then None
    else if |name| + 4 == |val| then Some(name + Extension(val))
    else Some(Padding(name, |val| - 4) + Extension(val))
  }

  /** Same length, same extension, dictionary characters before it. */
  predicate Disguises(repl: bytes, key: bytes) {
    && |repl| == |key| >= 4 && Extension(repl) == Extension(key)
    && (EndsWith(key, GSC) || EndsWith(key, GSH) || EndsWith(key, CSC))
    && forall i :: 0 <= i < |repl| - 4 ==> InDict(repl[i])
  }

  lemma {:induction false} TextOfExtension(s: bytes)
    requires ScriptName(s)
    ensures |s| >= 4 && forall k :: |s| - 4 <= k < |s| ==> s[k] != 47 && s[k] != 0
  {
    assert s[|s| - 4] == Extension(s)[0] && s[|s| - 3] == Extension(s)[1];
    assert s[|s| - 2] == Extension(s)[2] && s[|s| - 1] == Extension(s)[3];
  }

  lemma CleanKeepsExtension(val: bytes)
    requires ScriptName(val)
    ensures ScriptName(Clean(val)) && Extension(Clean(val)) == Extension(val)
  {
    TextOfExtension(val);
    assert Extension(Clean(val)) == Extension(val);
    assert Extension(val) in {GSC, GSH, CSC};
  }

  lemma RowNameInDict(i: u64, uid: u64)
    ensures forall k :: 0 <= k < |RowName(i, uid)| ==> InDict(RowName(i, uid)[k])
  {
    DecodeEncode(EncodeNumber(i, uid), NAME_ROOM);
  }

  lemma ReplacementDisguises(i: u64, uid: u64, val: bytes)
    requires ScriptName(val) && Replacement(i, uid, val).Some?
    ensures Disguises(Replacement(i, uid, val).value, Clean(val))
  {
    hide RowName, Fill, NextHash, Clean, InDict;
    var name, repl := RowName(i, uid), Replacement(i, uid, val).value;
    CleanKeepsExtension(val);
    RowNameInDict(i, uid);
    FillIsDict(name, NextHash(name, HashMini.FNV1A_PRIME), |val| - 4);
    assert Extension(repl) == Extension(val);
  }

  // ----- Includes and the scripts they name

  /** The name a script has after RenamedScript. */
  function NewName(scripts: map<bytes, bytes>, name: bytes): bytes {
    if name in scripts then scripts[name] else name
  }

  /** The text an include has after RenamedScriptExt; `ext` is .gsc or .csc. */
  function NewInclude(scripts: map<bytes, bytes>, inc: bytes, ext: bytes): bytes
    requires ext == GSC || ext == CSC
  {
    var k := Clean(inc + ext);
    if k in scripts && |scripts[k]| >= 4 then scripts[k][..|scripts[k]| - 4] else inc
  }

  /** Every stored replacement disguises its key, and keys hold no slash. */
  ghost predicate Stored(scripts: map<bytes, bytes>) {
    forall k :: k in scripts ==> Disguises(scripts[k], k) && Clean(k) == k
  }

  lemma CleanNoSlash(s: bytes)
    requires 0 !in s
    ensures Clean(s) == s <==> 47 !in s
  {
    HashMini.TextWhole(s);
    if Clean(s) == s {
      forall i | 0 <= i < |s|
        ensures s[i] != 47
      {
        assert Clean(s)[i] == s[i];
      }
    }
  }

  lemma DisguiseHasNoSlash(repl: bytes, key: bytes)
    requires Disguises(repl, key)
    ensures 47 !in repl
  {
    TextOfExtension(key);
    forall i | 0 <= i < |repl|
      ensures repl[i] != 47
    {
      assert i >= |repl| - 4 ==> repl[i] == Extension(key)[i - (|repl| - 4)] == key[i];
    }
  }

  /** What an include and its extension become together. */
  lemma RenamedInclude(scripts: map<bytes, bytes>, inc: bytes, ext: bytes)
    requires Stored(scripts) && (ext == GSC || ext == CSC)
    ensures var name := inc + ext;
      NewInclude(scripts, inc, ext) + ext == if Clean(name) in scripts then scripts[Clean(name)] else name
  {
    hide Clean, InDict;
    var name := inc + ext;
    assert EndsWith(name, ext) && Extension(name) == ext;
    CleanKeepsExtension(name);
    if Clean(name) in scripts {
      var repl := scripts[Clean(name)];
      assert repl == repl[..|repl| - 4] + Extension(repl);
    }
  }

  /** An include that names a script still names it after renaming exactly when
      the name is in backslash form or its backslash form is not a private
      script: script names are looked up as they are, includes are cleaned. */
  lemma IncludeStillNames(scripts: map<bytes, bytes>, inc: bytes, ext: bytes)
    requires Stored(scripts) && (ext == GSC || ext == CSC) && 0 !in inc
    ensures var name := inc + ext;
      NewInclude(scripts, inc, ext) + ext == NewName(scripts, name) <==>
        47 !in name || Clean(name) !in scripts
  {
    hide Clean, Disguises, NewInclude;
    var name := inc + ext;
    CleanNoSlash(name);
    RenamedInclude(scripts, inc, ext);
    if Clean(name) in scripts {
      DisguiseHasNoSlash(scripts[Clean(name)], Clean(name));
    }
  }

  /** Slash form is where it fails: the include moves on, the script does not. */
  lemma SlashFormLosesItsScript(scripts: map<bytes, bytes>)
    requires scripts == map[[97, 92, 98] + GSC := [99, 99, 99] + GSC]
    ensures NewInclude(scripts, [97, 47, 98], GSC) + GSC != NewName(scripts, [97, 47, 98] + GSC)
  {
    var inc: bytes := [97, 47, 98];
    var name := inc + GSC;
    HashMini.TextWhole(name);
    assert Clean(name) == [97, 92, 98] + GSC;
    assert name[1] == 47 && ([97, 92, 98] + GSC)[1] == 92;
    assert name !in scripts;
    assert ([99, 99, 99] + GSC)[..3] == [99, 99, 99];
    assert NewInclude(scripts, inc, GSC) == [99, 99, 99];
    assert ([99, 99, 99] + GSC)[0] != name[0];
  }

  // ----- The rows of the file

  datatype Names = Names(scripts: map<bytes, bytes>, strings: map<bytes, bytes>, hashes: map<bytes, u32>)

  const STRING_TYPE: bytes := [115, 116, 114, 105, 110, 103]
  const HASH_TYPE: bytes := [104, 97, 115, 104]
  const SCRIPT_TYPE: bytes := [115, 99, 114, 105, 112, 116]

  /** A row is its type and its value. */
  datatype Row = Row(kind: bytes, val: bytes)

  predicate StoresString(row: Row, i: u64, uid: u64) {
    row.kind == STRING_TYPE && |RowName(i, uid)| <= |row.val|
  }

  predicate StoresScript(row: Row, i: u64, uid: u64) {
    row.kind == SCRIPT_TYPE && ScriptName(row.val) && Replacement(i, uid, row.val).Some?
  }

  function HashNumber(i: u64, uid: u64): u32 {
    EncodeNumber(i % 0x1_0000_0000, uid) % 0x1_0000_0000
  }

  function AddRow(n: Names, row: Row, i: u64, uid: u64): Names {
    if StoresString(row, i, uid) then n.(strings := n.strings[row.val := RowName(i, uid)])
    else if row.kind == HASH_TYPE then n.(hashes := n.hashes[row.val := HashNumber(i, uid)])
    else if StoresScript(row, i, uid) then
      n.(scripts := n.scripts[Clean(row.val) := Replacement(i, uid, row.val).value])
    else n
  }

  const NO_NAMES := Names(map[], map[], map[])

  function AddRows(n: Names, rows: seq<Row>, uid: u64): Names
    requires |rows| <= Bits.WORD
    decreases |rows|
  {
    if rows == [] then n
    else AddRow(AddRows(n, rows[..|rows| - 1], uid), rows[|rows| - 1], |rows| - 1, uid)
  }

  lemma RowAdded(n: Names, rows: seq<Row>, i: nat, uid: u64)
    requires i < |rows| <= Bits.WORD
    ensures AddRows(n, rows[..i + 1], uid) == AddRow(AddRows(n, rows[..i], uid), rows[i], i, uid)
  {
    assert rows[..i + 1][..i] == rows[..i];
  }

  /** `i` is the last row that stores a string under `k`. */
  ghost predicate LastString(rows: seq<Row>, uid: u64, k: bytes, i: nat)
    requires |rows| <= Bits.WORD
  {
    && i < |rows| && rows[i] == Row(STRING_TYPE, k) && |RowName(i, uid)| <= |k|
    && forall j :: i < j < |rows| && rows[j] == Row(STRING_TYPE, k) ==> |RowName(j, uid)| > |k|
  }

  /** A string is stored exactly when a row stores it, and the last such row
      names it. */
  lemma {:induction false} StringsAreLastRows(rows: seq<Row>, uid: u64, k: bytes, v: bytes)
    requires |rows| <= Bits.WORD
    ensures var m := AddRows(NO_NAMES, rows, uid).strings;
      k in m && m[k] == v <==> exists i: nat :: LastString(rows, uid, k, i) && RowName(i, uid) == v
    decreases |rows|
  {
    hide RowName, Replacement, HashNumber, Clean;
    if rows != [] {
      var last := |rows| - 1;
      var front, row := rows[..last], rows[last];
      StringsAreLastRows(front, uid, k, v);
      var m, m0 := AddRows(NO_NAMES, rows, uid).strings, AddRows(NO_NAMES, front, uid).strings;
      if row.val == k && StoresString(row, last, uid) {
        assert LastString(rows, uid, k, last);
        assert forall i: nat :: LastString(rows, uid, k, i) ==> i == last;
      } else {
        assert (k in m <==> k in m0) && (k in m ==> m[k] == m0[k]);
        assert forall i: nat :: i < last ==> front[i] == rows[i];
        assert forall i: nat :: LastString(rows, uid, k, i) <==> LastString(front, uid, k, i);
      }
    }
  }

  /** Different strings of one file never become the same string. */
  lemma StringsStayDifferent(rows: seq<Row>, uid: u64, a: bytes, b: bytes)
    requires |rows| <= Bits.WORD
    requires var m := AddRows(NO_NAMES, rows, uid).strings; a in m && b in m && m[a] == m[b]
    ensures a == b
  {
    hide RowName, AddRows;
    var m := AddRows(NO_NAMES, rows, uid).strings;
    StringsAreLastRows(rows, uid, a, m[a]);
    StringsAreLastRows(rows, uid, b, m[b]);
    var i: nat :| LastString(rows, uid, a, i) && RowName(i, uid) == m[a];
    var j: nat :| LastString(rows, uid, b, j) && RowName(j, uid) == m[b];
    RowNamesDistinct(i, j, uid);
  }

  // ----- Private hashes

  /** `i` is the last row that names a hash `k`. */
  ghost predicate LastHash(rows: seq<Row>, k: bytes, i: nat) {
    && i < |rows| && rows[i] == Row(HASH_TYPE, k)
    && forall j :: i < j < |rows| ==> rows[j] != Row(HASH_TYPE, k)
  }

  /** A row's number undoes the low half of the identifier. */
  lemma HashNumberIs(i: u64, uid: u64, v: u32)
    ensures v == HashNumber(i, uid) <==> Bits.Xor(v, uid % 0x1_0000_0000) == i % 0x1_0000_0000
  {
    hide Bits.Xor, Bits.Pow2;
    var low, uidLow := i % 0x1_0000_0000, uid % 0x1_0000_0000;
    Bits.WordIsPow2();
    Bits.XorMod(low, uid, 32);
    LowTwice(i);
    assert HashNumber(i, uid) == Bits.Xor(low, uidLow);
    Bits.XorCancel(low, uidLow);
    Bits.XorCancel(v, uidLow);
  }

  lemma LowTwice(i: nat)
    ensures i % 0x1_0000_0000 % 0x1_0000_0000 == i % 0x1_0000_0000
  {
  }

  /** A hash is stored exactly when a row names it, with the number that, with the
      low half of the identifier taken off, is the last such row. */
  lemma {:induction false} HashesAreLastRows(rows: seq<Row>, uid: u64, k: bytes, v: u32)
    requires |rows| <= Bits.WORD
    ensures var m := AddRows(NO_NAMES, rows, uid).hashes;
      k in m && m[k] == v <==>
      exists i: nat :: LastHash(rows, k, i) && Bits.Xor(v, uid % 0x1_0000_0000) == i % 0x1_0000_0000
    decreases |rows|
  {
    hide RowName, Replacement, HashNumber, Clean, ScriptName, Bits.Xor;
    if rows != [] {
      var last := |rows| - 1;
      var front, row := rows[..last], rows[last];
      HashesAreLastRows(front, uid, k, v);
      var m, m0 := AddRows(NO_NAMES, rows, uid).hashes, AddRows(NO_NAMES, front, uid).hashes;
      assert forall i: nat :: i < last ==> front[i] == rows[i];
      if row == Row(HASH_TYPE, k) {
        HashNumberIs(last, uid, v);
        assert LastHash(rows, k, last);
        assert forall i: nat :: LastHash(rows, k, i) ==> i == last;
      } else {
        assert (k in m <==> k in m0) && (k in m ==> m[k] == m0[k]);
        assert forall i: nat :: LastHash(rows, k, i) <==> LastHash(front, k, i);
      }
    }
  }

  /** Different hashes of one file never become the same number, in a file of at
      most 2^32 rows. */
  lemma HashesStayDifferent(rows: seq<Row>, uid: u64, a: bytes, b: bytes)
    requires |rows| <= 0x1_0000_0000
    requires var m := AddRows(NO_NAMES, rows, uid).hashes; a in m && b in m && m[a] == m[b]
    ensures a == b
  {
    hide AddRows, Bits.Xor;
    var m := AddRows(NO_NAMES, rows, uid).hashes;
    HashesAreLastRows(rows, uid, a, m[a]);
    HashesAreLastRows(rows, uid, b, m[b]);
    var i: nat :| LastHash(rows, a, i) && Bits.Xor(m[a], uid % 0x1_0000_0000) == i % 0x1_0000_0000;
    var j: nat :| LastHash(rows, b, j) && Bits.Xor(m[b], uid % 0x1_0000_0000) == j % 0x1_0000_0000;
    assert i == j;
  }

  // ----- When two scripts get the same name

  /** Row `j` names a script, cleaned `k`, that has room for the row's name and a known
      extension. */
  predicate NamesScript(row: Row, j: u64, uid: u64, k: bytes) {
    && row.kind == SCRIPT_TYPE && Clean(row.val) == k && |RowName(j, uid)| + 4 <= |row.val|
    && var end := Extension(row.val); end == GSC || end == GSH || end == CSC
  }

  /** `i` is the last row that stores a script under `k`. */
  ghost predicate LastScript(rows: seq<Row>, uid: u64, k: bytes, i: nat)
    requires |rows| <= Bits.WORD
  {
    && i < |rows| && NamesScript(rows[i], i, uid, k)
    && forall j :: i < j < |rows| ==> !NamesScript(rows[j], j, uid, k)
  }

  lemma StoresIffNames(row: Row, j: u64, uid: u64, k: bytes)
    ensures StoresScript(row, j, uid) && Clean(row.val) == k <==> NamesScript(row, j, uid, k)
  {
    hide RowName, Clean, Fill, NextHash;
  }

  /** A script is stored exactly when a row stores it, and the last such row
      gives its replacement. */
  lemma {:induction false} ScriptsAreLastRows(rows: seq<Row>, uid: u64, k: bytes, v: bytes)
    requires |rows| <= Bits.WORD
    ensures var m := AddRows(NO_NAMES, rows, uid).scripts;
      k in m && m[k] == v <==>
      exists i: nat :: LastScript(rows, uid, k, i) && Replacement(i, uid, rows[i].val).value == v
    decreases |rows|
  {
    hide RowName, Replacement, HashNumber, Clean, ScriptName, NamesScript;
    if rows != [] {
      var last := |rows| - 1;
      var front, row := rows[..last], rows[last];
      ScriptsAreLastRows(front, uid, k, v);
      var m, m0 := AddRows(NO_NAMES, rows, uid).scripts, AddRows(NO_NAMES, front, uid).scripts;
      assert forall i: nat :: i < last ==> front[i] == rows[i];
      StoresIffNames(row, last, uid, k);
      if NamesScript(row, last, uid, k) {
        assert LastScript(rows, uid, k, last);
        assert forall i: nat :: LastScript(rows, uid, k, i) ==> i == last;
      } else {
        assert (k in m <==> k in m0) && (k in m ==> m[k] == m0[k]);
        assert forall i: nat :: LastScript(rows, uid, k, i) <==> LastScript(front, uid, k, i);
      }
    }
  }

  /** What a script's name becomes, up to the extension, in `n` characters. */
  function Stem(i: u64, uid: u64, n: nat): bytes {
    var name := RowName(i, uid);
    if |name| == n then name else Padding(name, n)
  }

  lemma ReplacementIsStem(i: u64, uid: u64, val: bytes)
    requires ScriptName(val) && Replacement(i, uid, val).Some?
    ensures |val| >= 4 && |Stem(i, uid, |val| - 4)| == |val| - 4
    ensures Replacement(i, uid, val).value == Stem(i, uid, |val| - 4) + Extension(val)
  {
    hide RowName, Fill, NextHash;
    var name := RowName(i, uid);
    FillIsDict(name, NextHash(name, HashMini.FNV1A_PRIME), |val| - 4);
  }

  lemma StemsAndExtensions(a: bytes, b: bytes, x: bytes, y: bytes)
    requires |x| == |y| == 4
    ensures a + x == b + y <==> a == b && x == y
  {
    if a + x == b + y {
      assert a == (a + x)[..|a|] && b == (b + y)[..|b|];
      assert x == (a + x)[|a|..] && y == (b + y)[|b|..];
    }
  }

  // ----- When two stems are the same

  /** How many digits a round writes when there is room: one for zero. */
  function DigitCount(q: nat): (k: nat)
    ensures k >= 1
  {
    if q < BASE then 1 else 1 + DigitCount(q / BASE)
  }

  /** The digits still to come from a hash, of which `q` is what is left, then the
      rounds of the hashes continued from it. */
  function Stream(name: bytes, r: u64, q: u64, n: nat): bytes
    decreases n
  {
    if n == 0 then []
    else
      DecodeEncode(q / BASE, n - 1);
      Round(q, n) + Fill(name, NextHash(name, r), n - |Round(q, n)|)
  }

  /** Two streams, compared by their numbers: as many digits of both as the shorter
      has, then what is left of the longer against the next hash of the other. */
  predicate Agree(a: bytes, ra: u64, qa: u64, b: bytes, rb: u64, qb: u64, n: nat)
    decreases n
  {
    n == 0 ||
    var m := Min(n, Min(DigitCount(qa), DigitCount(qb)));
    var (ra', qa') := Rest(a, ra, qa, m);
    var (rb', qb') := Rest(b, rb, qb, m);
    qa % Pow38(m) == qb % Pow38(m) && Agree(a, ra', qa', b, rb', qb', n - m)
  }

  /** The hash and what is left of it, `m` digits later. */
  function Rest(name: bytes, r: u64, q: u64, m: nat): (u64, u64)
    requires m <= DigitCount(q)
  {
    if m == DigitCount(q) then (NextHash(name, r), NextHash(name, r)) else (r, q / Pow38(m))
  }

  lemma {:induction false} DigitsBound(q: nat)
    ensures q < Pow38(DigitCount(q)) && (DigitCount(q) > 1 ==> Pow38(DigitCount(q) - 1) <= q)
    decreases q
  {
    if q >= BASE {
      DigitsBound(q / BASE);
      var k := DigitCount(q / BASE);
      assert q < BASE * Pow38(k);
      assert k == 1 || BASE * Pow38(k - 1) <= q;
    }
  }

  lemma {:induction false} EncodeCount(q: nat, n: nat)
    ensures |Encode(q, n)| == if q == 0 then 0 else Min(n, DigitCount(q))
    decreases n
  {
    if q != 0 && n != 0 {
      EncodeCount(q / BASE, n - 1);
      assert q / BASE == 0 <==> q < BASE;
    }
  }

  lemma RoundCount(q: u64, n: nat)
    requires n >= 1
    ensures |Round(q, n)| == Min(n, DigitCount(q))
  {
    EncodeCount(q / BASE, n - 1);
    assert q / BASE == 0 <==> q < BASE;
  }

  /** What a round shows after its first digit. */
  lemma RoundTail(q: u64, n: nat)
    requires n > 1 && q >= BASE
    ensures Round(q, n) == [Dict(q % BASE)] + Round(q / BASE, n - 1)
  {
    EncodeStep(q / BASE, n - 1);
  }

  lemma DivStep(q: nat, p: nat)
    requires p >= 1
    ensures q / (BASE * p) == (q / BASE) / p
  {
    var u := q / BASE;
    var x, y := u / p, u % p;
    assert u == p * x + y;
    assert q == BASE * (p * x + y) + q % BASE == (BASE * p) * x + (BASE * y + q % BASE);
    Bits.DivModUnique(q, x, BASE * y + q % BASE, BASE * p);
  }

  /** A stream after `m` digits is the stream of what is left. */
  lemma {:induction false} StreamDrop(name: bytes, r: u64, q: u64, n: nat, m: nat)
    requires 1 <= m <= n && m <= DigitCount(q)
    ensures |Stream(name, r, q, n)| == n
    ensures var (r', q') := Rest(name, r, q, m); Stream(name, r, q, n)[m..] == Stream(name, r', q', n - m)
    decreases m
  {
    hide NextHash, Encode, Dict, Round, Fill;
    StreamFills(name, r, q, n);
    if m == n {
      var (r', q') := Rest(name, r, q, m);
      NoStream(name, r', q');
    } else if m == DigitCount(q) {
      RoundCount(q, n);
      StreamOfHash(name, NextHash(name, r), n - m);
    } else if m == 1 {
      StreamTail(name, r, q, n);
      assert Pow38(1) == BASE;
    } else {
      StreamTail(name, r, q, n);
      StreamDrop(name, r, q / BASE, n - 1, m - 1);
      DivStep(q, Pow38(m - 1));
      assert Stream(name, r, q, n)[m..] == Stream(name, r, q, n)[1..][m - 1..];
    }
  }

  lemma StreamUnfolds(name: bytes, r: u64, q: u64, n: nat)
    requires n >= 1
    ensures |Round(q, n)| <= n
    ensures Stream(name, r, q, n) == Round(q, n) + Fill(name, NextHash(name, r), n - |Round(q, n)|)
  {
    hide NextHash, Fill, Encode, Dict;
    DecodeEncode(q / BASE, n - 1);
  }

  lemma StreamTail(name: bytes, r: u64, q: u64, n: nat)
    requires n > 1 && q >= BASE
    ensures |Stream(name, r, q, n)| == n
    ensures Stream(name, r, q, n)[0] == Dict(q % BASE)
    ensures Stream(name, r, q, n)[1..] == Stream(name, r, q / BASE, n - 1)
  {
    hide NextHash, Fill, Encode, Dict, Round, Stream, InDict;
    StreamFills(name, r, q, n);
    RoundTail(q, n);
    StreamUnfolds(name, r, q, n);
    StreamUnfolds(name, r, q / BASE, n - 1);
  }

  lemma StreamFills(name: bytes, r: u64, q: u64, n: nat)
    ensures |Stream(name, r, q, n)| == n
    ensures forall i :: 0 <= i < n ==> InDict(Stream(name, r, q, n)[i])
  {
    hide NextHash, InDict;
    if n != 0 {
      DecodeEncode(q / BASE, n - 1);
      DigitOfDict(q % BASE);
      var d := Round(q, n);
      FillIsDict(name, NextHash(name, r), n - |d|);
      assert forall i :: 1 <= i < |d| ==> d[i] == Encode(q / BASE, n - 1)[i - 1];
    }
  }

  /** A fill is the stream of a hash nothing of which is written yet. */
  lemma StreamOfHash(name: bytes, r: u64, n: nat)
    ensures Stream(name, r, r, n) == Fill(name, r, n)
  {
    if n != 0 {
      FillStep(name, r, n);
    }
  }

  /** The first digits of a stream are those of the number left. */
  lemma {:induction false} StreamTake(name: bytes, r: u64, q: u64, n: nat, m: nat)
    requires m <= n && m <= DigitCount(q)
    ensures |Stream(name, r, q, n)| == n && Decode(Stream(name, r, q, n)[..m]) == q % Pow38(m)
    decreases m
  {
    hide NextHash, Fill, Round;
    StreamFills(name, r, q, n);
    var s := Stream(name, r, q, n);
    if m == 0 {
      assert s[..0] == [] && q % 1 == 0;
    } else {
      StreamHead(name, r, q, n);
      DigitOfDict(q % BASE);
      assert s[..m][0] == s[0] && s[..m][1..] == s[1..][..m - 1];
      if m == 1 {
        assert s[..m][1..] == [] && Pow38(1) == BASE;
      } else {
        StreamTail(name, r, q, n);
        StreamTake(name, r, q / BASE, n - 1, m - 1);
        ModStep(q, Pow38(m - 1));
      }
    }
  }

  lemma StreamHead(name: bytes, r: u64, q: u64, n: nat)
    requires n >= 1
    ensures |Stream(name, r, q, n)| == n && Stream(name, r, q, n)[0] == Dict(q % BASE)
  {
    StreamFills(name, r, q, n);
  }

  lemma SplitEqual<T>(a: seq<T>, b: seq<T>, m: nat)
    requires |a| == |b| && m <= |a|
    ensures a == b <==> a[..m] == b[..m] && a[m..] == b[m..]
  {
    assert a == a[..m] + a[m..] && b == b[..m] + b[m..];
  }

  lemma DigitsEqual(a: bytes, b: bytes)
    requires |a| == |b| && forall k :: 0 <= k < |a| ==> InDict(a[k]) && InDict(b[k])
    ensures a == b <==> Decode(a) == Decode(b)
  {
    if Decode(a) == Decode(b) {
      DecodeInjective(a, b);
    }
  }

  /** Two streams are the same text exactly when their numbers agree. */
  lemma {:induction false} StreamsEqualIff(a: bytes, ra: u64, qa: u64, b: bytes, rb: u64, qb: u64, n: nat)
    ensures Stream(a, ra, qa, n) == Stream(b, rb, qb, n) <==> Agree(a, ra, qa, b, rb, qb, n)
    decreases n
  {
    hide NextHash, Stream, InDict, Decode;
    if n == 0 {
      NoStream(a, ra, qa);
      NoStream(b, rb, qb);
    } else {
      var m := Min(n, Min(DigitCount(qa), DigitCount(qb)));
      var (ra', qa') := Rest(a, ra, qa, m);
      var (rb', qb') := Rest(b, rb, qb, m);
      var s, t := Stream(a, ra, qa, n), Stream(b, rb, qb, n);
      StreamDrop(a, ra, qa, n, m);
      StreamDrop(b, rb, qb, n, m);
      StreamTake(a, ra, qa, n, m);
      StreamTake(b, rb, qb, n, m);
      StreamFills(a, ra, qa, n);
      StreamFills(b, rb, qb, n);
      SplitEqual(s, t, m);
      DigitsEqual(s[..m], t[..m]);
      StreamsEqualIff(a, ra', qa', b, rb', qb', n - m);
    }
  }

  lemma NoStream(name: bytes, r: u64, q: u64)
    ensures Stream(name, r, q, 0) == []
  {
  }

  /** The number a stem is written from: the row's own, or the hash of its name. */
  function StemNumber(i: u64, uid: u64, n: nat): u64 {
    if |RowName(i, uid)| == n then EncodeNumber(i, uid) else NextHash(RowName(i, uid), HashMini.FNV1A_PRIME)
  }

  /** The stems of two rows, compared by their numbers. */
  predicate StemsAgree(i: u64, j: u64, uid: u64, n: nat) {
    var a, b := StemNumber(i, uid, n), StemNumber(j, uid, n);
    Agree(RowName(i, uid), a, a, RowName(j, uid), b, b, n)
  }

  lemma {:induction false} EncodeShorter(v: nat, room: nat, n: nat)
    requires |Encode(v, room)| == n <= room
    ensures Encode(v, room) == Encode(v, n)
    decreases room
  {
    if v != 0 && room != 0 {
      EncodeShorter(v / BASE, room - 1, n - 1);
    }
  }

  /** A stem is the stream of its number, whatever its length. */
  lemma StemIsStream(i: u64, uid: u64, n: nat)
    ensures var r := StemNumber(i, uid, n); Stem(i, uid, n) == Stream(RowName(i, uid), r, r, n)
  {
    var r, name := StemNumber(i, uid, n), RowName(i, uid);
    if |name| == n {
      if n != 0 {
        RowNameDecodes(i, uid);
        EncodeShorter(r, NAME_ROOM, n);
        EncodeStep(r, n);
        FillNothing(name, NextHash(name, r));
      }
    } else {
      hide RowName, NextHash, Fill;
      StreamOfHash(name, r, n);
    }
  }

  /** The stems of two rows are the same exactly when their numbers agree, for stems
      of any length. */
  lemma StemsEqualIff(i: u64, j: u64, uid: u64, n: nat)
    ensures Stem(i, uid, n) == Stem(j, uid, n) <==> StemsAgree(i, j, uid, n)
  {
    hide RowName, Stem, Stream, NextHash, Agree, EncodeNumber;
    StemIsStream(i, uid, n);
    StemIsStream(j, uid, n);
    var a, b := StemNumber(i, uid, n), StemNumber(j, uid, n);
    StreamsEqualIff(RowName(i, uid), a, a, RowName(j, uid), b, b, n);
  }

  lemma AgreeUnfolds(a: bytes, ra: u64, qa: u64, b: bytes, rb: u64, qb: u64, n: nat)
    requires n >= 1
    ensures var m := Min(n, Min(DigitCount(qa), DigitCount(qb)));
      var (ra', qa') := Rest(a, ra, qa, m);
      var (rb', qb') := Rest(b, rb, qb, m);
      Agree(a, ra, qa, b, rb, qb, n) <==>
        qa % Pow38(m) == qb % Pow38(m) && Agree(a, ra', qa', b, rb', qb', n - m)
  {
    hide NextHash, Rest;
  }

  /** Numbers that differ in the digits both show make different stems. */
  lemma FirstDigitsDecide(i: u64, j: u64, uid: u64, n: nat)
    ensures var a, b := StemNumber(i, uid, n), StemNumber(j, uid, n);
      var m := Min(n, Min(DigitCount(a), DigitCount(b)));
      && (a % Pow38(m) != b % Pow38(m) ==> Stem(i, uid, n) != Stem(j, uid, n))
      && (m == n ==> (Stem(i, uid, n) == Stem(j, uid, n) <==> a % Pow38(n) == b % Pow38(n)))
  {
    hide RowName, Stem, Agree, NextHash, EncodeNumber, DigitCount;
    StemsEqualIff(i, j, uid, n);
    var a, b := StemNumber(i, uid, n), StemNumber(j, uid, n);
    if n == 0 {
      assert a % 1 == 0 && b % 1 == 0;
      AgreeOnNothing(RowName(i, uid), a, a, RowName(j, uid), b, b);
    } else {
      AgreeUnfolds(RowName(i, uid), a, a, RowName(j, uid), b, b, n);
      var m := Min(n, Min(DigitCount(a), DigitCount(b)));
      if m == n {
        var (ra, qa) := Rest(RowName(i, uid), a, a, m);
        var (rb, qb) := Rest(RowName(j, uid), b, b, m);
        AgreeOnNothing(RowName(i, uid), ra, qa, RowName(j, uid), rb, qb);
      }
    }
  }

  lemma AgreeOnNothing(a: bytes, ra: u64, qa: u64, b: bytes, rb: u64, qb: u64)
    ensures Agree(a, ra, qa, b, rb, qb, 0)
  {
  }

  /** Two padded stems whose first hashes have as many digits are the same exactly
      when the hashes are and what follows is: different hashes never collide. */
  lemma SameLengthHashes(i: u64, j: u64, uid: u64, n: nat, k: nat)
    requires |RowName(i, uid)| != n && |RowName(j, uid)| != n && k < n
    requires var a, b := StemNumber(i, uid, n), StemNumber(j, uid, n); DigitCount(a) == DigitCount(b) == k
    ensures var a, b := StemNumber(i, uid, n), StemNumber(j, uid, n);
      Stem(i, uid, n) == Stem(j, uid, n) <==>
        && a == b
        && Fill(RowName(i, uid), NextHash(RowName(i, uid), a), n - k)
        == Fill(RowName(j, uid), NextHash(RowName(j, uid), b), n - k)
  {
    hide RowName, Stem, Agree, NextHash, EncodeNumber, DigitCount, Fill, Stream;
    StemsEqualIff(i, j, uid, n);
    var a, b := StemNumber(i, uid, n), StemNumber(j, uid, n);
    var x, y := RowName(i, uid), RowName(j, uid);
    AgreeUnfolds(x, a, a, y, b, b, n);
    DigitsBound(a);
    DigitsBound(b);
    Bits.DivModUnique(a, 0, a, Pow38(k));
    Bits.DivModUnique(b, 0, b, Pow38(k));
    StreamsEqualIff(x, NextHash(x, a), NextHash(x, a), y, NextHash(y, b), NextHash(y, b), n - k);
    StreamOfHash(x, NextHash(x, a), n - k);
    StreamOfHash(y, NextHash(y, b), n - k);
  }

  /** Two scripts get the same name exactly when they have the same length and
      extension and their rows' numbers agree in as many digits as the name shows.
      Where both rows' own names fill it, only one and the same script does. */
  lemma ScriptsCollideIff(rows: seq<Row>, uid: u64, a: bytes, b: bytes, i: nat, j: nat)
    requires |rows| <= Bits.WORD && LastScript(rows, uid, a, i) && LastScript(rows, uid, b, j)
    ensures var m := AddRows(NO_NAMES, rows, uid).scripts;
      && a in m && b in m && |a| >= 4 && |b| >= 4
      && (m[a] == m[b] <==>
           |a| == |b| && Extension(a) == Extension(b) && StemsAgree(i, j, uid, |a| - 4))
      && (|RowName(i, uid)| == |a| - 4 && |RowName(j, uid)| == |b| - 4 && m[a] == m[b] ==> a == b)
  {
    hide RowName, Replacement, Stem, AddRows, Clean, StemsAgree;
    var x, y := rows[i].val, rows[j].val;
    StoresIffNames(rows[i], i, uid, a);
    StoresIffNames(rows[j], j, uid, b);
    ScriptsAreLastRows(rows, uid, a, Replacement(i, uid, x).value);
    ScriptsAreLastRows(rows, uid, b, Replacement(j, uid, y).value);
    CleanKeepsExtension(x);
    CleanKeepsExtension(y);
    ReplacementIsStem(i, uid, x);
    ReplacementIsStem(j, uid, y);
    StemsAndExtensions(Stem(i, uid, |a| - 4), Stem(j, uid, |b| - 4), Extension(x), Extension(y));
    StemsEqualIff(i, j, uid, |a| - 4);
    if |RowName(i, uid)| == |a| - 4 && |RowName(j, uid)| == |b| - 4 {
      StemIsRowName(i, uid, |a| - 4);
      StemIsRowName(j, uid, |b| - 4);
      if RowName(i, uid) == RowName(j, uid) {
        RowNamesDistinct(i, j, uid);
      }
    }
  }

  lemma StemIsRowName(i: u64, uid: u64, n: nat)
    requires |RowName(i, uid)| == n
    ensures Stem(i, uid, n) == RowName(i, uid)
  {
  }

  lemma RoundIsEncode(r: u64, n: nat)
    requires r != 0 && n >= 1
    ensures Round(r, n) == Encode(r, n)
  {
  }

  lemma {:induction false} DecodeInjective(a: bytes, b: bytes)
    requires |a| == |b| && Decode(a) == Decode(b)
    requires forall k :: 0 <= k < |a| ==> InDict(a[k]) && InDict(b[k])
    ensures a == b
    decreases |a|
  {
    hide Digit, Dict, InDict, Decode;
    if a != [] {
      DecodeSplits(a);
      DecodeSplits(b);
      assert a == [a[0]] + a[1..] && b == [b[0]] + b[1..];
      DecodeInjective(a[1..], b[1..]);
    }
  }

  lemma DecodeSplits(a: bytes)
    requires a != [] && InDict(a[0])
    ensures Decode(a) % BASE == Digit(a[0]) && Decode(a) / BASE == Decode(a[1..]) && Dict(Digit(a[0])) == a[0]
  {
    hide Dict, InDict;
    Bits.DivModUnique(Decode(a), Decode(a[1..]), Digit(a[0]), BASE);
  }

  /** The row whose number is the identifier has no digits of its own; its padded
      name in one character is that of another row. */
  lemma PaddedNameCollides(uid: u64)
    ensures var j: u64 := EncodeNumber(HashMini.FNV1A_PRIME % BASE, uid);
      && j != uid && Stem(uid, uid, 1) == RowName(j, uid) == Stem(j, uid, 1)
      && |RowName(uid, uid)| == 0 && |RowName(j, uid)| == 1
  {
    var d: u64 := HashMini.FNV1A_PRIME % BASE;
    var j: u64 := EncodeNumber(d, uid);
    Bits.XorSymmetric(uid, d);
    Bits.XorCancel(d, uid);
    assert EncodeNumber(j, uid) == d;
    Bits.XorZero(uid);
    Bits.XorSymmetric(0, uid);
    Bits.XorCancel(0, uid);
    assert EncodeNumber(uid, uid) == 0;
    assert RowName(uid, uid) == [];
    OneDigit(d);
    assert RowName(j, uid) == [Dict(d)];
    RoundIsEncode(HashMini.FNV1A_PRIME, 1);
    FillStep([], HashMini.FNV1A_PRIME, 1);
    assert NextHash([], HashMini.FNV1A_PRIME) == HashMini.FNV1A_PRIME;
  }

  function TwoScripts(i: nat, a: bytes, j: nat, b: bytes): (r: seq<Row>)
    ensures |r| == Max(i, j) + 1
    ensures forall k :: 0 <= k < |r| ==>
      r[k] == if k == i then Row(SCRIPT_TYPE, a) else if k == j then Row(SCRIPT_TYPE, b) else Row([], [])
  {
    seq(Max(i, j) + 1, k => if k == i then Row(SCRIPT_TYPE, a) else if k == j then Row(SCRIPT_TYPE, b) else Row([], []))
  }

  lemma ShortScript(c: byte, i: u64, uid: u64)
    requires c != 47 && c != 0 && |RowName(i, uid)| <= 1
    ensures ScriptName([c] + GSC) && Replacement(i, uid, [c] + GSC).Some? && Clean([c] + GSC) == [c] + GSC
    ensures Extension([c] + GSC) == GSC
  {
    hide RowName, Fill, NextHash;
    CleanNoSlash([c] + GSC);
  }

  /** Whatever the identifier, there is a file that gives two scripts one name. */
  lemma TwoScriptsCollide(uid: u64) returns (rows: seq<Row>, a: bytes, b: bytes)
    ensures |rows| <= Bits.WORD && a != b
    ensures var m := AddRows(NO_NAMES, rows, uid).scripts; a in m && b in m && m[a] == m[b]
  {
    var j: u64 := EncodeNumber(HashMini.FNV1A_PRIME % BASE, uid);
    a, b := [97] + GSC, [98] + GSC;
    PaddedNameCollides(uid);
    hide RowName, Stem, Clean, Replacement, ScriptName, AddRows, EncodeNumber;
    rows := TwoScripts(uid, a, j, b);
    assert a[0] != b[0];
    ShortScript(97, uid, uid);
    ShortScript(98, j, uid);
    assert LastScript(rows, uid, a, uid);
    assert LastScript(rows, uid, b, j);
    StemsEqualIff(uid, j, uid, 1);
    ScriptsCollideIff(rows, uid, a, b, uid, j);
  }

  lemma OneDigit(d: nat)
    requires 0 < d < BASE
    ensures Encode(d, NAME_ROOM) == [Dict(d)]
  {
    assert d / BASE == 0 && d % BASE == d;
  }

  /** Every stored string fits in place of its key and is all dictionary characters. */
  ghost predicate StringsFit(strings: map<bytes, bytes>) {
    forall k :: k in strings ==>
      |strings[k]| <= |k| && forall i :: 0 <= i < |strings[k]| ==> InDict(strings[k][i])
  }

  lemma CleanTwice(s: bytes)
    ensures Clean(Clean(s)) == Clean(s)
  {
    var c := Clean(s);
    TextOfClean(s);
    assert forall i :: 0 <= i < |s| ==> Clean(c)[i] == c[i];
  }

  lemma {:induction false} TextLength(s: bytes, n: nat)
    requires n <= |s| && 0 !in s[..n] && (n < |s| ==> s[n] == 0)
    ensures HashMini.Text(s) == s[..n]
    decreases n
  {
    if n != 0 {
      assert s[0] == s[..n][0];
      assert s[1..][..n - 1] == s[..n][1..];
      TextLength(s[1..], n - 1);
      assert s[..n] == [s[0]] + s[1..][..n - 1];
    }
  }

  lemma TextOfClean(s: bytes)
    ensures |HashMini.Text(Clean(s))| == |HashMini.Text(s)|
  {
    var c, n := Clean(s), |HashMini.Text(s)|;
    assert 0 !in c[..n] by {
      forall i | 0 <= i < n
        ensures c[..n][i] != 0
      {
        assert s[i] == HashMini.Text(s)[i];
      }
    }
    TextLength(c, n);
  }

  lemma AddRowKeeps(n: Names, row: Row, i: u64, uid: u64)
    requires Stored(n.scripts) && StringsFit(n.strings)
    ensures Stored(AddRow(n, row, i, uid).scripts) && StringsFit(AddRow(n, row, i, uid).strings)
  {
    hide RowName, Replacement, Clean, Disguises, InDict;
    RowNameInDict(i, uid);
    CleanTwice(row.val);
    if StoresScript(row, i, uid) {
      ReplacementDisguises(i, uid, row.val);
    }
  }

  lemma EncodeStep(v: nat, room: nat)
    requires v != 0 && room != 0
    ensures Encode(v, room) == [Dict(v % BASE)] + Encode(v / BASE, room - 1)
  {
  }

  lemma EncodeDone(v: nat, room: nat)
    requires v == 0 || room == 0
    ensures Encode(v, room) == []
  {
  }

  lemma NextHashIs(name: bytes, rnd: u64)
    ensures NextHash(name, rnd) == HashMini.Fold(HashMini.Text(name), rnd, HashMini.IV_DEFAULT)
  {
  }

  lemma FillNothing(name: bytes, rnd: u64)
    ensures Fill(name, rnd, 0) == []
  {
  }

  lemma FillStep(name: bytes, rnd: u64, n: nat)
    requires n != 0
    ensures |Round(rnd, n)| <= n
    ensures Fill(name, rnd, n) == Round(rnd, n) + Fill(name, NextHash(name, rnd), n - |Round(rnd, n)|)
  {
    DecodeEncode(rnd / BASE, n - 1);
  }

  // ----- Strings in place

  /** The text of the zero-terminated string at `at`. */
  function CString(s: bytes, at: nat): bytes
    requires at <= |s|
  {
    HashMini.Text(s[at..])
  }

  predicate Terminated(s: bytes, at: nat) {
    at <= |s| && 0 in s[at..]
  }

  lemma TerminatedRoom(s: bytes, at: nat)
    requires Terminated(s, at)
    ensures at + |CString(s, at)| < |s| && s[at + |CString(s, at)|] == 0
    ensures s[at..at + |CString(s, at)|] == CString(s, at)
  {
    var t := CString(s, at);
    assert s[at..][..|t|] == t;
  }

  /** Copying a zero-free text and a terminator makes the string that text. */
  lemma OverTerminated(s: bytes, at: nat, text: bytes)
    requires at + |text| + 1 <= |s| && 0 !in text
    ensures CString(Over(s, at, text + [0]), at) == text
  {
    var r := Over(s, at, text + [0]);
    assert r[at..][..|text|] == text;
    assert r[at..][|text|] == 0;
    TextLength(r[at..], |text|);
  }

  lemma DictHasNoZero(s: bytes)
    requires forall i :: 0 <= i < |s| ==> InDict(s[i])
    ensures 0 !in s
  {
  }

  lemma DisguiseHasNoZero(repl: bytes, key: bytes)
    requires Disguises(repl, key)
    ensures 0 !in repl
  {
    forall i | 0 <= i < |repl|
      ensures repl[i] != 0
    {
      if i >= |repl| - 4 {
        assert repl[i] == Extension(repl)[i - (|repl| - 4)];
        assert Extension(key) in {GSC, GSH, CSC};
      }
    }
  }

  lemma OverItself(s: bytes, at: nat)
    requires Terminated(s, at)
    ensures var t := CString(s, at); at + |t| + 1 <= |s| && Over(s, at, t) == s == Over(s, at, t + [0])
  {
    hide CString, Terminated;
    TerminatedRoom(s, at);
    var t := CString(s, at);
    assert s == s[..at] + s[at..at + |t|] + s[at + |t|..];
    OverThenZero(s, at, t);
  }

  lemma OverIs(s: bytes, t: bytes, text: bytes)
    requires |t| == |s| > |text| && t[..|text|] == text && t[|text|] == 0
    requires forall j :: |text| < j < |s| ==> t[j] == s[j]
    ensures t == Over(s, 0, text + [0])
  {
    assert t[|text| + 1..] == s[|text| + 1..];
    assert t == t[..|text|] + [t[|text|]] + t[|text| + 1..];
  }

  lemma OverThenZero(s: bytes, at: nat, text: bytes)
    requires at + |text| + 1 <= |s| && s[at + |text|] == 0
    ensures Over(s, at, text)[at + |text| := 0] == Over(s, at, text) == Over(s, at, text + [0])
  {
    assert s[at + |text|..] == [0] + s[at + |text| + 1..];
  }

  lemma ScriptNameRoom(t: bytes, repl: bytes, k: bytes, client: bool)
    requires k == Clean(t + if client then CSC else GSC) && Disguises(repl, k)
    ensures |repl| - 4 == |t| && 0 !in repl[..|t|]
  {
    DisguiseHasNoZero(repl, k);
  }

  lemma StoredStringHasNoZero(strings: map<bytes, bytes>, k: bytes)
    requires StringsFit(strings) && k in strings
    ensures |strings[k]| <= |k| && 0 !in strings[k]
  {
    DictHasNoZero(strings[k]);
  }

  lemma TextRoom(s: bytes)
    requires 0 in s
    ensures |HashMini.Text(s)| < |s|
    ensures forall i :: 0 <= i < |HashMini.Text(s)| ==> s[i] != 0
  {
    var t := HashMini.Text(s);
    assert forall i :: 0 <= i < |t| ==> s[i] == t[i];
  }

  lemma CleanTerminated(s: bytes)
    ensures Clean(s + [0])[..|s|] == Clean(s)
  {
    var n := |HashMini.Text(s)|;
    assert (s + [0])[..n] == HashMini.Text(s);
    TextLength(s + [0], n);
  }

  class PrivateFile {
    var uidVal: u64
    var scripts: map<bytes, bytes>
    var strings: map<bytes, bytes>
    var hashes: map<bytes, u32>

    ghost predicate Valid()
      reads this
    {
      Stored(scripts) && StringsFit(strings)
    }

    ghost function Contents(): Names
      reads this
    {
      Names(scripts, strings, hashes)
    }

    constructor ()
      ensures Valid() && Contents() == NO_NAMES
    {
      uidVal, scripts, strings, hashes := 0, map[], map[], map[];
    }

    /** Writes the digits of a number and a terminator; fails on no room at all. */
    method EncodeVal(val: u64, buff: array<byte>, buffSize: nat) returns (ok: bool)
      requires buffSize <= buff.Length
      modifies buff
      ensures ok <==> buffSize != 0
      ensures !ok ==> buff[..] == old(buff[..])
      ensures ok ==>
        var t := Encode(EncodeNumber(val, uidVal), buffSize - 1);
        |t| < buffSize && buff[..] == Over(old(buff[..]), 0, t + [0])
    {
      hide Encode, EncodeNumber, Dict, Over;
      if buffSize == 0 {
        return false;
      }
      var v: nat := EncodeNumber(val, uidVal);
      ghost var whole := Encode(v, buffSize - 1);
      DecodeEncode(v, buffSize - 1);
      var size, p := buffSize, 0;
      while v != 0
        invariant size >= 1 && p >= 0 && p + size == buffSize
        invariant |whole| < buffSize
        invariant whole == buff[..p] + Encode(v, size - 1)
        invariant forall j :: p <= j < buff.Length ==> buff[j] == old(buff[j])
        decreases size
      {
        if size == 1 {
          break;
        }
        EncodeStep(v, size - 1);
        buff[p] := Dict(v % BASE);
        v := v / BASE;
        size := size - 1;
        p := p + 1;
        assert buff[..p] == buff[..p - 1] + [buff[p - 1]];
      }
      EncodeDone(v, size - 1);
      buff[p] := 0;
      assert whole == buff[..p];
      OverIs(old(buff[..]), buff[..], whole);
      return true;
    }

    /** The name of a number in a 16-byte buffer. */
    method EncodeValTmp(val: u64) returns (str: bytes)
      ensures str == RowName(val, uidVal)
    {
      var tmp := new byte[NAME_ROOM + 1];
      var ok := EncodeVal(val, tmp, NAME_ROOM + 1);
      RowNameInDict(val, uidVal);
      DictHasNoZero(RowName(val, uidVal));
      ghost var t := RowName(val, uidVal);
      assert tmp[..][..|t|] == t && tmp[..][|t|] == 0;
      assert forall i :: 0 <= i < |t| ==> tmp[i] == tmp[..][..|t|][i];
      var n := 0;
      while tmp[n] != 0
        invariant 0 <= n <= |t|
        decreases |t| - n
      {
        assert tmp[..][|t|] == 0;
        n := n + 1;
      }
      str := tmp[..n];
    }

    /** Slashes become backslashes up to the terminator. */
    static method CleanPath(path: array<byte>)
      requires 0 in path[..]
      modifies path
      ensures path[..] == Clean(old(path[..]))
    {
      ghost var s := path[..];
      ghost var n := |HashMini.Text(s)|;
      TextRoom(s);
      var script := 0;
      while path[script] != 0
        invariant 0 <= script <= n
        invariant forall j :: 0 <= j < script ==> path[j] == Clean(s)[j]
        invariant forall j :: script <= j < |s| ==> path[j] == s[j]
        decreases n - script
      {
        if path[script] == 47 {
          path[script] := 92;
        }
        script := script + 1;
      }
      assert script == n;
    }

    /** CleanPath on a string that owns its terminator. */
    static method Cleaned(val: bytes) returns (key: bytes)
      ensures key == Clean(val)
    {
      hide Clean;
      var path := new byte[|val| + 1](i requires 0 <= i <= |val| => if i < |val| then val[i] else 0);
      assert path[..] == val + [0];
      CleanPath(path);
      CleanTerminated(val);
      key := path[..|val|];
    }

    /** The string at `at`, up to its terminator. */
    static method ReadText(buf: array<byte>, at: nat) returns (text: bytes)
      requires Terminated(buf[..], at)
      ensures text == CString(buf[..], at)
    {
      ghost var t := CString(buf[..], at);
      TerminatedRoom(buf[..], at);
      assert forall j :: 0 <= j < |t| ==> t[j] == buf[..][at..at + |t|][j];
      var n := 0;
      while buf[at + n] != 0
        invariant 0 <= n <= |t|
        decreases |t| - n
      {
        n := n + 1;
      }
      assert n == |t|;
      text := buf[at..at + n];
    }

    static method CopyOver(buf: array<byte>, at: nat, data: bytes)
      requires at + |data| <= buf.Length
      modifies buf
      ensures buf[..] == Over(old(buf[..]), at, data)
    {
      forall i | 0 <= i < |data| {
        buf[at + i] := data[i];
      }
    }

    /** Fills `k[start..end]` with the digits of the name's hash, then of the
        hash continued from there, as often as needed. */
    method EncodeBuffer(k: array<byte>, start: nat, end: nat, val: u64)
      requires start <= end <= k.Length
      modifies k
      ensures var name := RowName(val, uidVal);
        k[..] == old(k[..start]) + Padding(name, end - start) + old(k[end..])
    {
      hide Encode, Dict, RowName, NextHash, Fill, Round;
      var name := EncodeValTmp(val);
      var rnd := HashMini.Hash64A(name, HashMini.FNV1A_PRIME, HashMini.IV_DEFAULT);
      NextHashIs(name, HashMini.FNV1A_PRIME);
      ghost var whole := Padding(name, end - start);
      var i := start;
      while i < end
        invariant start <= i <= end
        invariant whole == k[start..i] + Fill(name, rnd, end - i)
        invariant k[..start] == old(k[..start]) && k[end..] == old(k[end..])
      {
        ghost var i0, before := i, k[..];
        FillStep(name, rnd, end - i);
        i := EncodeRound(k, i, end, rnd);
        assert k[start..i] == before[start..i0] + Round(rnd, end - i0);
        NextHashIs(name, rnd);
        rnd := HashMini.Hash64A(name, rnd, HashMini.IV_DEFAULT);
      }
      FillNothing(name, rnd);
      assert k[..] == k[..start] + k[start..end] + k[end..];
    }

    /** One round of EncodeBuffer: at least one digit, then until the hash is
        used up. */
    static method EncodeRound(k: array<byte>, start: nat, end: nat, rnd: u64) returns (i: nat)
      requires start < end <= k.Length
      modifies k
      ensures start < i == start + |Round(rnd, end - start)| <= end
      ensures k[..] == old(k[..start]) + Round(rnd, end - start) + old(k[i..])
    {
      hide Encode, Dict, InDict, Decode, Pow38;
      var r: nat := rnd;
      i := start;
      ghost var s, round := k[..], Round(rnd, end - start);
      DecodeEncode(rnd / BASE, end - start - 1);
      k[i] := Dict(r % BASE);
      r := r / BASE;
      i := i + 1;
      while r != 0 && i < end
        invariant start < i <= end
        invariant round == k[start..i] + Encode(r, end - i)
        invariant k[..start] == s[..start] && k[i..] == s[i..]
      {
        EncodeStep(r, end - i);
        k[i] := Dict(r % BASE);
        r := r / BASE;
        i := i + 1;
        assert k[start..i] == k[start..i - 1] + [k[i - 1]];
      }
      EncodeDone(r, end - i);
      assert k[..] == k[..start] + k[start..i] + k[i..];
    }

    /** Reads the rows of the file; a file without two columns changes only the
        identifier. */
    method ReadFile(columnCount: nat, rows: seq<Row>, uid: u64) returns (ok: bool)
      requires Valid() && |rows| <= Bits.WORD
      modifies this
      ensures Valid() && uidVal == uid
      ensures ok <==> columnCount == 2
      ensures Contents() == if ok then AddRows(old(Contents()), rows, uid) else old(Contents())
    {
      uidVal := uid;
      if columnCount != 2 {
        return false;
      }
      ghost var n0 := Contents();
      for i := 0 to |rows|
        invariant Valid() && uidVal == uid
        invariant Contents() == AddRows(n0, rows[..i], uid)
      {
        RowAdded(n0, rows, i, uid);
        AddRowKeeps(Contents(), rows[i], i, uid);
        ReadRow(rows[i], i);
      }
      assert rows[..|rows|] == rows;
      return true;
    }

    method ReadRow(row: Row, i: u64)
      modifies this
      ensures uidVal == old(uidVal)
      ensures Contents() == AddRow(old(Contents()), row, i, old(uidVal))
    {
      hide RowName, Clean, Fill, NextHash;
      if row.kind == STRING_TYPE {
        var str := EncodeValTmp(i);
        if |str| > |row.val| {
          return;
        }
        strings := strings[row.val := str];
        return;
      }
      if row.kind == HASH_TYPE {
        hashes := hashes[row.val := HashNumber(i, uidVal)];
        return;
      }
      if row.kind == SCRIPT_TYPE {
        if !ScriptName(row.val) {
          return;
        }
        var str := NewScriptName(row.val, i);
        if str.None? {
          return;
        }
        var key := Cleaned(row.val);
        scripts := scripts[key := str.value];
      }
    }

    /** The replacement of a script: its row's name, padded to the same length. */
    method NewScriptName(val: bytes, i: u64) returns (r: Option<bytes>)
      requires ScriptName(val)
      ensures r == Replacement(i, uidVal, val)
    {
      hide RowName, Fill, NextHash;
      var name := EncodeValTmp(i);
      var str := name + Extension(val);
      if |str| > |val| {
        return None;
      }
      if |str| < |val| {
        var p := new byte[|val|];
        p[|val| - 4], p[|val| - 3] := str[|str| - 4], str[|str| - 3];
        p[|val| - 2], p[|val| - 1] := str[|str| - 2], str[|str| - 1];
        ghost var tail := p[|val| - 4..];
        assert tail == Extension(val) by {
          assert Extension(str) == Extension(val);
          assert tail == Extension(str);
        }
        EncodeBuffer(p, 0, |val| - 4, i);
        assert p[..] == Padding(name, |val| - 4) + tail;
        str := p[..];
      }
      return Some(str);
    }

    /** Replaces a string in place; its text becomes the stored one and nothing
        past the old terminator changes. */
    method RenamedString(buf: array<byte>, at: nat)
      requires Valid() && Terminated(buf[..], at)
      modifies buf
      ensures var t := CString(old(buf[..]), at);
        && CString(buf[..], at) == (if t in strings then strings[t] else t)
        && at + |CString(buf[..], at)| + 1 <= buf.Length && |CString(buf[..], at)| <= |t|
        && buf[..] == Over(old(buf[..]), at, CString(buf[..], at) + [0])
    {
      hide InDict, CString, Over, Terminated;
      ghost var s := buf[..];
      var t := ReadText(buf, at);
      TerminatedRoom(s, at);
      if t !in strings {
        OverItself(s, at);
        return;
      }
      StoredStringHasNoZero(strings, t);
      OverTerminated(s, at, strings[t]);
      CopyOver(buf, at, strings[t] + [0]);
    }

    /** Replaces a script name in place, with one of the same length. */
    method RenamedScript(buf: array<byte>, at: nat)
      requires Valid() && Terminated(buf[..], at)
      modifies buf
      ensures var t := CString(old(buf[..]), at);
        && CString(buf[..], at) == NewName(scripts, t) && |NewName(scripts, t)| == |t|
        && at + |t| < buf.Length && buf[..] == Over(old(buf[..]), at, NewName(scripts, t))
    {
      hide InDict, Clean, CString, Over, Terminated;
      ghost var s := buf[..];
      var t := ReadText(buf, at);
      TerminatedRoom(s, at);
      if t !in scripts {
        OverItself(s, at);
        return;
      }
      var repl := scripts[t];
      DisguiseHasNoZero(repl, t);
      OverTerminated(s, at, repl);
      OverThenZero(s, at, repl);
      CopyOver(buf, at, repl + [0]);
    }

    /** Replaces an include, which has no extension, by the name its script got. */
    method RenamedScriptExt(buf: array<byte>, at: nat, client: bool)
      requires Valid() && Terminated(buf[..], at)
      modifies buf
      ensures var t, ext := CString(old(buf[..]), at), if client then CSC else GSC;
        && CString(buf[..], at) == NewInclude(scripts, t, ext) && |NewInclude(scripts, t, ext)| == |t|
        && at + |t| < buf.Length && buf[..] == Over(old(buf[..]), at, NewInclude(scripts, t, ext))
    {
      hide InDict, Clean, HashMini.Text, Over;
      ghost var s := buf[..];
      var t := ReadText(buf, at);
      TerminatedRoom(s, at);
      var k := Cleaned(t + if client then CSC else GSC);
      if k !in scripts {
        OverItself(s, at);
        return;
      }
      var repl := scripts[k];
      var noExt := |repl| - 4;
      var text := repl[..noExt];
      ScriptNameRoom(t, repl, k, client);
      OverTerminated(s, at, text);
      CopyOver(buf, at, text);
      buf[at + noExt] := 0;
      assert buf[..] == Over(s, at, text)[at + noExt := 0];
      OverThenZero(s, at, text);
    }
  }
}
