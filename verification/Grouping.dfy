/** Name-indexed tables: values collected under their name in table order, and
    visits of all groups in some order of the names. */
module Grouping {
  import opened GscFormat

  function Collect<T>(names: seq<NameLocated>, vals: seq<T>): map<NameLocated, seq<T>>
    requires |names| == |vals|
    decreases |names|
  {
    if names == [] then map[]
    else
      var n := |names| - 1;
      Add(Collect(names[..n], vals[..n]), names[n], vals[n])
  }

  function Add<T>(m: map<NameLocated, seq<T>>, k: NameLocated, v: T): map<NameLocated, seq<T>> {
    m[k := (if k in m then m[k] else []) + [v]]
  }

  /** The values filed under a name, in table order. */
  function Select<T>(names: seq<NameLocated>, vals: seq<T>, k: NameLocated): seq<T>
    requires |names| == |vals|
    decreases |names|
  {
    SelectAll(names, vals, {k})
  }

  function SelectAll<T>(names: seq<NameLocated>, vals: seq<T>, ks: set<NameLocated>): seq<T>
    requires |names| == |vals|
    decreases |names|
  {
    if names == [] then []
    else
      var n := |names| - 1;
      SelectAll(names[..n], vals[..n], ks) + if names[n] in ks then [vals[n]] else []
  }

  /** A lookup finds exactly the values filed under the name. */
  lemma {:induction false} CollectSelects<T>(names: seq<NameLocated>, vals: seq<T>, k: NameLocated)
    requires |names| == |vals|
    ensures k in Collect(names, vals) <==> k in names
    ensures k in Collect(names, vals) ==> Collect(names, vals)[k] == Select(names, vals, k)
    ensures k !in names ==> Select(names, vals, k) == []
    decreases |names|
  {
    if names != [] {
      var n := |names| - 1;
      CollectSelects(names[..n], vals[..n], k);
      assert names == names[..n] + [names[n]];
    }
  }

  lemma {:induction false} SelectOneMore<T>(names: seq<NameLocated>, vals: seq<T>, ks: set<NameLocated>, k: NameLocated)
    requires |names| == |vals| && k !in ks
    ensures multiset(SelectAll(names, vals, ks + {k}))
         == multiset(SelectAll(names, vals, ks)) + multiset(Select(names, vals, k))
    decreases |names|
  {
    if names != [] {
      var n := |names| - 1;
      SelectOneMore(names[..n], vals[..n], ks, k);
    }
  }

  lemma {:induction false} SelectEverything<T>(names: seq<NameLocated>, vals: seq<T>, ks: set<NameLocated>)
    requires |names| == |vals| && forall k :: k in names ==> k in ks
    ensures SelectAll(names, vals, ks) == vals
    decreases |names|
  {
    if names != [] {
      var n := |names| - 1;
      SelectEverything(names[..n], vals[..n], ks);
      assert names[n] in names;
      assert vals == vals[..n] + [vals[n]];
    } else {
      assert vals == [];
    }
  }

  lemma {:induction false} SelectNothing<T>(names: seq<NameLocated>, vals: seq<T>)
    requires |names| == |vals|
    ensures SelectAll(names, vals, {}) == []
    decreases |names|
  {
    if names != [] {
      var n := |names| - 1;
      SelectNothing(names[..n], vals[..n]);
    }
  }

  /** Visiting one more group. */
  lemma VisitGroup<T>(names: seq<NameLocated>, vals: seq<T>, ks: set<NameLocated>, k: NameLocated, seen: seq<T>)
    requires |names| == |vals| && k !in ks && k in Collect(names, vals)
    requires multiset(seen) == multiset(SelectAll(names, vals, ks))
    ensures multiset(seen + Collect(names, vals)[k]) == multiset(SelectAll(names, vals, ks + {k}))
  {
    CollectSelects(names, vals, k);
    SelectOneMore(names, vals, ks, k);
  }

  /** Visiting every group, in any order, visits every value once. */
  lemma VisitAll<T>(names: seq<NameLocated>, vals: seq<T>, ks: set<NameLocated>, seen: seq<T>)
    requires |names| == |vals| && ks == Collect(names, vals).Keys
    requires multiset(seen) == multiset(SelectAll(names, vals, ks))
    ensures multiset(seen) == multiset(vals)
  {
    forall k | k in names
      ensures k in ks
    {
      CollectSelects(names, vals, k);
    }
    SelectEverything(names, vals, ks);
  }

  /** A value found in a group is a table value of that name. */
  lemma {:induction false} SelectOrigin<T>(names: seq<NameLocated>, vals: seq<T>, k: NameLocated, x: T)
    returns (i: nat)
    requires |names| == |vals| && x in Select(names, vals, k)
    ensures i < |vals| && vals[i] == x && names[i] == k
    decreases |names|
  {
    var n := |names| - 1;
    if names[n] == k && vals[n] == x {
      i := n;
    } else {
      i := SelectOrigin(names[..n], vals[..n], k, x);
    }
  }

  lemma {:induction false} SelectHas<T>(names: seq<NameLocated>, vals: seq<T>, i: nat)
    requires |names| == |vals| && i < |vals|
    ensures vals[i] in Select(names, vals, names[i])
    decreases |names|
  {
    var n := |names| - 1;
    if i < n {
      SelectHas(names[..n], vals[..n], i);
    }
  }

  // ----- Permutations of distinct values

  ghost predicate NoRepeat<T>(s: seq<T>) {
    forall i, j :: 0 <= i < j < |s| ==> s[i] != s[j]
  }

  lemma {:induction false} NoRepeatOnce<T>(s: seq<T>, x: T)
    requires NoRepeat(s)
    ensures multiset(s)[x] <= 1
    decreases |s|
  {
    if s != [] {
      NoRepeatOnce(s[1..], x);
      assert s == [s[0]] + s[1..];
      assert s[0] !in s[1..];
    }
  }

  lemma PermutationNoRepeat<T>(s: seq<T>, t: seq<T>)
    requires NoRepeat(s) && multiset(s) == multiset(t)
    ensures NoRepeat(t) && |s| == |t|
    ensures forall x :: x in s <==> x in t
  {
    forall x
      ensures x in s <==> x in t
    {
      assert x in s <==> x in multiset(s);
      assert x in t <==> x in multiset(t);
    }
    forall i, j | 0 <= i < j < |t|
      ensures t[i] != t[j]
    {
      NoRepeatOnce(s, t[i]);
      assert t == t[..j] + [t[j]] + t[j + 1..];
      assert t[i] == t[..j][i];
    }
    assert |multiset(s)| == |s| && |multiset(t)| == |t|;
  }

  // ----- Steps of a visit

  lemma TakeNone<T>(a: seq<T>, b: seq<T>)
    ensures a + b[..0] == a
  {
  }

  lemma TakeMore<T>(a: seq<T>, b: seq<T>, i: nat)
    requires i < |b|
    ensures a + b[..i + 1] == a + b[..i] + [b[i]]
  {
  }

  lemma TakeAll<T>(a: seq<T>, b: seq<T>)
    ensures a + b[..|b|] == a + b
  {
  }

  lemma SetMinus<T>(all: set<T>, left: set<T>, x: T)
    requires x in left && left <= all
    ensures all - (left - {x}) == (all - left) + {x}
  {
  }
}
