/** Renaming private exports to small numbers (GscObfuscator::KillPrivateExports)
    and when every import still resolves to the same exports. */
module Linking {
  import opened Bytes
  import opened GscFormat

  type Renaming = map<NameLocated, nat>

  const NAME_LIMIT: nat := 0x1_0000_0000

  /** The names 1..n given out in some iteration order. */
  ghost predicate Numbering(rho: Renaming) {
    && |rho| < NAME_LIMIT
    && (forall k :: k in rho ==> 1 <= rho[k] <= |rho|)
    && forall k, l :: k in rho && l in rho && rho[k] == rho[l] ==> k == l
  }

  function Renamed(k: NameLocated, rho: Renaming): NameLocated
    requires forall l :: l in rho ==> rho[l] < NAME_LIMIT
  {
    if k in rho then NameLocated(k.name_space, rho[k]) else k
  }

  /** Every import resolves to exactly the exports it resolved to. */
  ghost predicate LinksPreserved(exports: seq<NameLocated>, imports: seq<NameLocated>, rho: Renaming)
    requires Numbering(rho)
  {
    forall i, j :: 0 <= i < |imports| && 0 <= j < |exports| ==>
      (imports[i] == exports[j] <==> Renamed(imports[i], rho) == Renamed(exports[j], rho))
  }

  /** A name that is kept must not meet a name that is given out: no import
      keeps it, and no export keeps it while the renamed function is imported. */
  ghost predicate Captures(exports: seq<NameLocated>, imports: seq<NameLocated>, renamed: set<NameLocated>,
                           k: NameLocated, c: u32)
  {
    var given := NameLocated(k.name_space, c);
    given !in renamed && (given in imports || (k in imports && given in exports))
  }

  /** For one numbering, linking is preserved exactly when nothing is captured. */
  lemma LinksPreservedIffNoCapture(exports: seq<NameLocated>, imports: seq<NameLocated>, rho: Renaming)
    requires Numbering(rho) && forall k :: k in rho ==> k in exports
    ensures LinksPreserved(exports, imports, rho) <==>
      forall k :: k in rho ==> !Captures(exports, imports, rho.Keys, k, rho[k])
  {
    if k :| k in rho && Captures(exports, imports, rho.Keys, k, rho[k]) {
      var given := NameLocated(k.name_space, rho[k]);
      var importer := if given in imports then given else k;
      var exporter := if given in imports then k else given;
      var i :| 0 <= i < |imports| && imports[i] == importer;
      var j :| 0 <= j < |exports| && exports[j] == exporter;
      assert imports[i] != exports[j] && Renamed(imports[i], rho) == Renamed(exports[j], rho);
    } else {
      forall i, j | 0 <= i < |imports| && 0 <= j < |exports|
        ensures imports[i] == exports[j] <==> Renamed(imports[i], rho) == Renamed(exports[j], rho)
      {
        assert imports[i] in rho ==> !Captures(exports, imports, rho.Keys, imports[i], rho[imports[i]]);
        assert exports[j] in rho ==> !Captures(exports, imports, rho.Keys, exports[j], rho[exports[j]]);
      }
    }
  }

  lemma AnyNumbering(s: set<NameLocated>) returns (rho: Renaming)
    requires |s| < NAME_LIMIT
    ensures Numbering(rho) && rho.Keys == s
  {
    if s == {} {
      rho := map[];
    } else {
      var x :| x in s;
      var rest := AnyNumbering(s - {x});
      assert |rest| == |rest.Keys| == |s| - 1;
      rho := rest[x := |s|];
      assert rho.Keys == s;
      assert |rho| == |rho.Keys|;
    }
  }

  /** Some iteration order gives any chosen number to any chosen name. */
  lemma NumberingGiving(s: set<NameLocated>, k: NameLocated, c: nat) returns (rho: Renaming)
    requires |s| < NAME_LIMIT && k in s && 1 <= c <= |s|
    ensures Numbering(rho) && rho.Keys == s && rho[k] == c
  {
    var rest := AnyNumbering(s - {k});
    assert |rest| == |rest.Keys| == |s| - 1;
    rho := map l | l in s :: if l == k then c else if rest[l] < c then rest[l] else rest[l] + 1;
    assert rho.Keys == s;
    assert |rho| == |rho.Keys|;
  }

  /** Linking is preserved in every iteration order exactly when no kept name
      of a renamed namespace lies among the numbers given out. */
  lemma LinksPreservedInAnyOrder(exports: seq<NameLocated>, imports: seq<NameLocated>, renamed: set<NameLocated>)
    requires |renamed| < NAME_LIMIT && forall k :: k in renamed ==> k in exports
    ensures
      (forall rho: Renaming :: Numbering(rho) && rho.Keys == renamed ==> LinksPreserved(exports, imports, rho))
      <==>
      forall k, c: u32 :: k in renamed && 1 <= c <= |renamed| ==> !Captures(exports, imports, renamed, k, c)
  {
    if forall k, c: u32 :: k in renamed && 1 <= c <= |renamed| ==> !Captures(exports, imports, renamed, k, c) {
      forall rho: Renaming | Numbering(rho) && rho.Keys == renamed
        ensures LinksPreserved(exports, imports, rho)
      {
        assert |rho| == |rho.Keys|;
        LinksPreservedIffNoCapture(exports, imports, rho);
      }
    } else {
      var k, c: u32 :| k in renamed && 1 <= c <= |renamed| && Captures(exports, imports, renamed, k, c);
      var rho := NumberingGiving(renamed, k, c);
      LinksPreservedIffNoCapture(exports, imports, rho);
    }
  }
}
