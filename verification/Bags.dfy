/** Multisets of the values of a map, and lists without repetition. */
module Bags {

  ghost function SomeKey(m: map<string, string>): (k: string)
    requires m != map[]
    ensures k in m
  {
    var k :| k in m;
    k
  }

  /** The multiset of the values of a map. */
  ghost function ValuesOf(m: map<string, string>): multiset<string>
    decreases |m|
  {
    if m == map[] then multiset{}
    else
      var k := SomeKey(m);
      RemoveSmaller(m, k);
      ValuesOf(m - {k}) + multiset{m[k]}
  }

  lemma RemoveSmaller(m: map<string, string>, k: string)
    requires k in m
    ensures |m - {k}| == |m| - 1
  {
    assert (m - {k}).Keys == m.Keys - {k};
    assert |(m - {k}).Keys| == |m.Keys| - 1;
  }

  lemma {:induction false} ValuesOfRemove(m: map<string, string>, k: string)
    requires k in m
    ensures ValuesOf(m) == ValuesOf(m - {k}) + multiset{m[k]}
    decreases |m|
  {
    var k0 := SomeKey(m);
    if k != k0 {
      var m0, m1, rest := m - {k0}, m - {k}, m - {k0, k};
      RemoveSmaller(m, k0);
      RemoveSmaller(m, k);
      RemoveBoth(m, k0, k);
      ValuesOfRemove(m0, k);
      ValuesOfRemove(m1, k0);
      AddBoth(ValuesOf(rest), ValuesOf(m0), ValuesOf(m1), m[k0], m[k]);
    }
  }

  lemma RemoveBoth(m: map<string, string>, x: string, y: string)
    requires x in m && y in m && x != y
    ensures m - {x} - {y} == m - {x, y} == m - {y} - {x}
    ensures y in m - {x} && (m - {x})[y] == m[y] && x in m - {y} && (m - {y})[x] == m[x]
  {
  }

  lemma AddBoth(rest: multiset<string>, v0: multiset<string>, v1: multiset<string>, x: string, y: string)
    requires v0 == rest + multiset{y} && v1 == rest + multiset{x}
    ensures v0 + multiset{x} == v1 + multiset{y}
  {
  }

  lemma ValuesOfAdd(m: map<string, string>, k: string, v: string)
    requires k !in m
    ensures ValuesOf(m[k := v]) == ValuesOf(m) + multiset{v}
  {
    ValuesOfRemove(m[k := v], k);
    assert m[k := v] - {k} == m;
  }

  lemma {:induction false} ValuesOfIn(m: map<string, string>, v: string)
    ensures v in ValuesOf(m) <==> exists k :: k in m && m[k] == v
    decreases |m|
  {
    if m != map[] {
      var k := SomeKey(m);
      var rest := m - {k};
      RemoveSmaller(m, k);
      ValuesOfIn(rest, v);
      if j :| j in m && m[j] == v && j != k {
        assert j in rest && rest[j] == v;
      }
    }
  }

  lemma SameValueTwice(m: map<string, string>, x: string, y: string)
    requires x in m && y in m && x != y && m[x] == m[y]
    ensures ValuesOf(m)[m[x]] >= 2
  {
    ValuesOfRemove(m, x);
    ValuesOfRemove(m - {x}, y);
  }

  predicate NoRepeats(s: seq<string>) {
    forall i, j :: 0 <= i < j < |s| ==> s[i] != s[j]
  }

  lemma NoRepeatsOnce(s: seq<string>, a: string)
    requires NoRepeats(s) && a in s
    ensures multiset(s)[a] == 1
  {
    var i :| 0 <= i < |s| && s[i] == a;
    assert s == s[..i] + [a] + s[i + 1..];
    assert a !in s[..i] && a !in s[i + 1..];
  }

  lemma RepeatedTwice(s: seq<string>, i: nat, j: nat)
    requires i < j < |s| && s[i] == s[j]
    ensures multiset(s)[s[i]] >= 2
  {
    assert s == s[..i] + [s[i]] + s[i + 1..j] + [s[j]] + s[j + 1..];
  }
}
