/** Stock definitions shared by every component: results that may be absent, duplicate-free
    lists, and the two library services the repository leans on (sorting a slice, listing a table). */
module Basics {

  datatype Option<+T> = None | Some(value: T)

  /** Application types; an absent one counts as stb. */
  const STB := "stb"
  const RDKCLOUD := "rdkcloud"

  predicate ValidApplicationType(t: string) {
    t == STB || t == RDKCLOUD
  }

  predicate ApplicationTypeEquals(a: string, b: string) {
    (if a == "" then STB else a) == (if b == "" then STB else b)
  }

  predicate Blank(s: string) {
    forall c | c in s :: c == ' '
  }

  predicate NoDup<T(==)>(s: seq<T>) {
    forall i, j :: 0 <= i < j < |s| ==> s[i] != s[j]
  }

  lemma NoDupCounts<T>(s: seq<T>)
    ensures NoDup(s) <==> forall x :: x in s ==> multiset(s)[x] == 1
  {
    if s != [] {
      var last, front := s[|s| - 1], s[..|s| - 1];
      assert s == front + [last];
      NoDupCounts(front);
      if NoDup(s) {
        assert last !in front;
      } else if NoDup(front) {
        var i, j :| 0 <= i < j < |s| && s[i] == s[j];
        assert front[i] == last;
        assert multiset(s)[last] >= 2;
      } else {
        var x :| x in front && multiset(front)[x] != 1;
        assert x in s && multiset(s)[x] >= 2;
      }
    }
  }

  lemma PermutationFacts<T>(s: seq<T>, t: seq<T>)
    requires multiset(s) == multiset(t)
    ensures |s| == |t|
    ensures forall x :: x in s <==> x in t
    ensures NoDup(s) ==> NoDup(t)
  {
    assert |multiset(s)| == |s| && |multiset(t)| == |t|;
    forall x ensures x in s <==> x in t {
      assert x in s <==> x in multiset(s);
      assert x in t <==> x in multiset(t);
    }
    NoDupCounts(s);
    NoDupCounts(t);
  }

  predicate Ordered<T(==)>(s: seq<T>, key: map<T, real>)
    requires forall x :: x in s ==> x in key
  {
    forall i, j :: 0 <= i < j < |s| ==> key[s[i]] <= key[s[j]]
  }

  /** The library sort is not stable: callers may use only that the result is some ordered
      permutation, which is all this contract says. */
  method SortSlice<T(==)>(s: seq<T>, key: map<T, real>) returns (r: seq<T>)
    requires forall x :: x in s ==> x in key
    ensures multiset(r) == multiset(s)
    ensures |r| == |s| && (NoDup(s) ==> NoDup(r))
    ensures forall x :: x in r <==> x in s
    ensures Ordered(r, key)
  {
    r := [];
    for n := 0 to |s|
      invariant multiset(r) == multiset(s[..n])
      invariant forall x :: x in r ==> x in key
      invariant Ordered(r, key)
    {
      PlaceKeepsOrder(r, s[n], key);
      r := Place(r, s[n], key);
      assert s[..n + 1] == s[..n] + [s[n]];
    }
    assert s[..|s|] == s;
    PermutationFacts(s, r);
  }

  function Place<T(==)>(s: seq<T>, x: T, key: map<T, real>): (r: seq<T>)
    requires x in key && (forall y | y in s :: y in key)
    ensures multiset(r) == multiset(s) + multiset{x}
    ensures forall y | y in r :: y == x || y in s
  {
    if s == [] || key[x] < key[s[0]] then
      [x] + s
    else
      assert s == [s[0]] + s[1..];
      [s[0]] + Place(s[1..], x, key)
  }

  lemma {:induction false} PlaceKeepsOrder<T>(s: seq<T>, x: T, key: map<T, real>)
    requires x in key && (forall y | y in s :: y in key) && Ordered(s, key)
    ensures Ordered(Place(s, x, key), key)
  {
    if s != [] && key[x] >= key[s[0]] {
      PlaceKeepsOrder(s[1..], x, key);
      var rest := Place(s[1..], x, key);
      forall i | 0 <= i < |rest| ensures key[s[0]] <= key[rest[i]] {
        assert rest[i] in rest;
      }
    }
  }

  /** The keys of a table, each once, in whatever order the store hands them out. */
  method ListKeys<K(==), V>(m: map<K, V>) returns (keys: seq<K>)
    ensures NoDup(keys)
    ensures forall k :: k in keys <==> k in m
  {
    keys := [];
    var rest := m.Keys;
    while rest != {}
      invariant NoDup(keys)
      invariant forall k :: k in keys <==> k in m && k !in rest
      invariant rest <= m.Keys
      decreases |rest|
    {
      var k :| k in rest;
      rest := rest - {k};
      keys := keys + [k];
    }
  }

  /** A scan of a table that stops at the first hit. */
  method AnyValue<K(==), V>(m: map<K, V>, hit: V -> bool) returns (found: bool)
    ensures found <==> exists k | k in m :: hit(m[k])
  {
    var keys := ListKeys(m);
    for n := 0 to |keys|
      invariant forall j | 0 <= j < n :: !hit(m[keys[j]])
    {
      if hit(m[keys[n]]) {
        return true;
      }
    }
    return false;
  }
}
