/** The list queries of both collections: every stored record, optionally
    filtered, sorted ascending by one string field. The collection is a map
    from id to record whose ids are all below a known bound. */
module Listing {
  import opened Text

  datatype Entry<T> = Entry(id: nat, rec: T)

  predicate IdsIncreasing<T>(s: seq<Entry<T>>) {
    forall i, j :: 0 <= i < j < |s| ==> s[i].id < s[j].id
  }

  /** No record appears twice in a listing. */
  predicate DistinctIds<T>(s: seq<Entry<T>>) {
    forall i, j :: 0 <= i < j < |s| ==> s[i].id != s[j].id
  }

  /** Ascending by key; records with equal keys may come in any order. */
  predicate SortedBy<T>(s: seq<Entry<T>>, key: T -> string) {
    forall i, j :: 0 <= i < j < |s| ==> StrLe(key(s[i].rec), key(s[j].rec))
  }

  /** The entries of m with an id below n, in increasing id order. */
  function Enumerate<T(!new)>(m: map<nat, T>, n: nat): (r: seq<Entry<T>>)
    ensures forall e :: e in r <==> e.id < n && e.id in m && e.rec == m[e.id]
    ensures IdsIncreasing(r)
  {
    if n == 0 then []
    else
      var rest := Enumerate(m, n - 1);
      if n - 1 in m then rest + [Entry(n - 1, m[n - 1])] else rest
  }

  /** The entries of s whose record satisfies p, in their order in s. */
  function Keep<T(!new)>(s: seq<Entry<T>>, p: T -> bool): (r: seq<Entry<T>>)
    ensures forall e :: e in r <==> e in s && p(e.rec)
    ensures IdsIncreasing(s) ==> IdsIncreasing(r)
  {
    if s == [] then []
    else
      var rest := Keep(s[1..], p);
      assert forall e :: e in rest ==> e in s[1..];
      if p(s[0].rec) then [s[0]] + rest else rest
  }

  /** Places x into the sorted s after every entry whose key is strictly below
      its own. */
  function Insert<T(==)>(x: Entry<T>, s: seq<Entry<T>>, key: T -> string): (r: seq<Entry<T>>)
    requires SortedBy(s, key)
    ensures SortedBy(r, key)
    ensures multiset(r) == multiset(s) + multiset{x}
    ensures DistinctIds(s) && (forall e :: e in s ==> e.id != x.id) ==> DistinctIds(r)
  {
    if s == [] || StrLe(key(x.rec), key(s[0].rec)) then
      LeAll(x, s, key);
      [x] + s
    else
      var rest := Insert(x, s[1..], key);
      InsertBehind(x, s, rest, key);
      [s[0]] + rest
  }

  /** The step of Insert that keeps the first entry of s in front. */
  lemma InsertBehind<T>(x: Entry<T>, s: seq<Entry<T>>, rest: seq<Entry<T>>, key: T -> string)
    requires SortedBy(s, key) && s != [] && !StrLe(key(x.rec), key(s[0].rec))
    requires SortedBy(rest, key) && multiset(rest) == multiset(s[1..]) + multiset{x}
    requires DistinctIds(s[1..]) && (forall e :: e in s[1..] ==> e.id != x.id) ==> DistinctIds(rest)
    ensures SortedBy([s[0]] + rest, key)
    ensures multiset([s[0]] + rest) == multiset(s) + multiset{x}
    ensures DistinctIds(s) && (forall e :: e in s ==> e.id != x.id) ==> DistinctIds([s[0]] + rest)
  {
    assert s == [s[0]] + s[1..];
    forall e | e in rest ensures StrLe(key(s[0].rec), key(e.rec)) && (e == x || e.id != s[0].id || !DistinctIds(s)) {
      FromFirstOn(x, s, rest, e, key);
    }
    ConsSorted(s[0], rest, key);
    if DistinctIds(s) && (forall e :: e in s ==> e.id != x.id) {
      assert DistinctIds(s[1..]) by {
        forall i, j | 0 <= i < j < |s[1..]| ensures s[1..][i].id != s[1..][j].id {
          assert s[1..][i] == s[i + 1] && s[1..][j] == s[j + 1];
        }
      }
      ConsDistinct(s[0], rest);
    }
  }

  /** What the first entry of s has in common with each entry of rest. */
  lemma FromFirstOn<T>(x: Entry<T>, s: seq<Entry<T>>, rest: seq<Entry<T>>, e: Entry<T>, key: T -> string)
    requires SortedBy(s, key) && s != [] && !StrLe(key(x.rec), key(s[0].rec))
    requires multiset(rest) == multiset(s[1..]) + multiset{x}
    requires e in rest
    ensures StrLe(key(s[0].rec), key(e.rec))
    ensures e == x || e.id != s[0].id || !DistinctIds(s)
  {
    assert e in multiset(rest);
    if e == x {
      StrLeTotal(key(x.rec), key(s[0].rec));
    } else {
      assert e in multiset(s[1..]);
      var k :| 0 <= k < |s[1..]| && s[1..][k] == e;
      assert s[k + 1] == e;
    }
  }

  lemma ConsSorted<T>(y: Entry<T>, rest: seq<Entry<T>>, key: T -> string)
    requires SortedBy(rest, key)
    requires forall e :: e in rest ==> StrLe(key(y.rec), key(e.rec))
    ensures SortedBy([y] + rest, key)
  {
  }

  lemma ConsDistinct<T>(y: Entry<T>, rest: seq<Entry<T>>)
    requires DistinctIds(rest)
    requires forall e :: e in rest ==> e.id != y.id
    ensures DistinctIds([y] + rest)
  {
  }

  /** An entry whose key is at most the first key of a sorted sequence is at
      most every key of it. */
  lemma LeAll<T>(x: Entry<T>, s: seq<Entry<T>>, key: T -> string)
    requires SortedBy(s, key)
    requires s == [] || StrLe(key(x.rec), key(s[0].rec))
    ensures SortedBy([x] + s, key)
  {
    var r := [x] + s;
    forall i, j | 0 <= i < j < |r| ensures StrLe(key(r[i].rec), key(r[j].rec)) {
      if i == 0 && j > 1 {
        StrLeTransitive(key(x.rec), key(s[0].rec), key(s[j - 1].rec));
      }
    }
  }

  /** Insertion sort by key: a permutation of s in ascending key order. */
  function SortBy<T(==)>(s: seq<Entry<T>>, key: T -> string): (r: seq<Entry<T>>)
    ensures SortedBy(r, key)
    ensures multiset(r) == multiset(s)
    ensures DistinctIds(s) ==> DistinctIds(r)
  {
    if s == [] then []
    else
      var rest := SortBy(s[1..], key);
      assert s == [s[0]] + s[1..];
      HeadIdFresh(s, rest);
      Insert(s[0], rest, key)
  }

  /** In a listing with distinct ids, no entry of a permutation of the tail
      shares the head's id. */
  lemma HeadIdFresh<T>(s: seq<Entry<T>>, rest: seq<Entry<T>>)
    requires s != [] && multiset(rest) == multiset(s[1..])
    ensures DistinctIds(s) ==> DistinctIds(s[1..]) && forall e :: e in rest ==> e.id != s[0].id
  {
    if DistinctIds(s) {
      forall e | e in rest ensures e.id != s[0].id {
        assert e in multiset(s[1..]);
        var k :| 0 <= k < |s[1..]| && s[1..][k] == e;
        assert s[k + 1] == e;
      }
    }
  }

  /** The records of m (ids below n) that satisfy p, each exactly once,
      ascending by key. */
  function Query<T(==, !new)>(m: map<nat, T>, n: nat, p: T -> bool, key: T -> string): (r: seq<Entry<T>>)
    requires forall id :: id in m ==> id < n
    ensures forall e :: e in r <==> e.id in m && e.rec == m[e.id] && p(e.rec)
    ensures DistinctIds(r)
    ensures SortedBy(r, key)
  {
    var all := Enumerate(m, n);
    var kept := Keep(all, p);
    var r := SortBy(kept, key);
    assert forall e :: e in r <==> e in multiset(kept);
    r
  }
}
