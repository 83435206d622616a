/** Listing, filtering and ordering of stored records, as the database queries of the
    services do it (`Where` followed by `OrderBy`). */
module Ordering {
  import opened Common

  /** `le` orders every pair of values and is transitive: a key order as `OrderBy` uses it. */
  ghost predicate TotalPreorder<T(!new)>(le: (T, T) -> bool) {
    && (forall a, b :: le(a, b) || le(b, a))
    && (forall a, b, c :: le(a, b) && le(b, c) ==> le(a, c))
  }

  ghost predicate Sorted<T>(s: seq<T>, le: (T, T) -> bool) {
    forall i, j :: 0 <= i < j < |s| ==> le(s[i], s[j])
  }

  /** No value occurs twice in `s`. */
  ghost predicate Distinct<T(!new)>(s: seq<T>) {
    forall x :: multiset(s)[x] <= 1
  }

  /** `k` is the least element of `ks`. */
  predicate IsMinId(k: Id, ks: set<Id>) {
    k in ks && forall j :: j in ks ==> k <= j
  }

  lemma {:induction false} MinIdExists(ks: set<Id>)
    requires ks != {}
    ensures exists k :: IsMinId(k, ks)
    decreases |ks|
  {
    var x :| x in ks;
    if ks == {x} {
      assert IsMinId(x, ks);
    } else {
      var rest := ks - {x};
      assert rest < ks;
      MinIdExists(rest);
      var m :| IsMinId(m, rest);
      var k := if x < m then x else m;
      forall j | j in ks ensures k <= j { if j != x { assert j in rest; } }
      assert IsMinId(k, ks);
    }
  }

  /** The least element of a non-empty set of ids. */
  function MinId(ks: set<Id>): (k: Id)
    requires ks != {}
    ensures k in ks && forall j :: j in ks ==> k <= j
  {
    MinIdExists(ks);
    var k :| IsMinId(k, ks);
    k
  }

  /** The (id, record) pairs of a store, each exactly once, in increasing id order. */
  function Entries<V(!new)>(m: map<Id, V>): (r: seq<(Id, V)>)
    ensures forall p :: p in r <==> p.0 in m && p.1 == m[p.0]
    ensures Distinct(r)
    decreases |m|
  {
    if |m| == 0 then []
    else
      var k := MinId(m.Keys);
      var rest := m - {k};
      assert |rest| < |m| by { assert rest.Keys == m.Keys - {k}; }
      var t := Entries(rest);
      assert (k, m[k]) !in t;
      [(k, m[k])] + t
  }

  /** The elements of `s` that satisfy `keep`, in their original order. */
  function Filter<T(!new)>(s: seq<T>, keep: T -> bool): (r: seq<T>)
    ensures forall x :: x in r <==> x in s && keep(x)
    ensures multiset(r) <= multiset(s)
  {
    if s == [] then []
    else
      var t := Filter(s[1..], keep);
      assert s == [s[0]] + s[1..];
      if keep(s[0]) then [s[0]] + t else t
  }

  lemma SortedCons<T>(h: T, t: seq<T>, le: (T, T) -> bool)
    requires Sorted(t, le)
    requires forall y :: y in t ==> le(h, y)
    ensures Sorted([h] + t, le)
  {
    forall i, j | 0 <= i < j < |[h] + t| ensures le(([h] + t)[i], ([h] + t)[j]) {
      if i > 0 {
        assert ([h] + t)[i] == t[i - 1] && ([h] + t)[j] == t[j - 1];
      } else {
        assert ([h] + t)[j] in t;
      }
    }
  }

  /** Inserts `x` into the sorted sequence `s` before the first element it is ordered before. */
  function Insert<T(!new)>(x: T, s: seq<T>, le: (T, T) -> bool): (r: seq<T>)
    requires TotalPreorder(le) && Sorted(s, le)
    ensures multiset(r) == multiset(s) + multiset{x}
    ensures Sorted(r, le)
  {
    if s == [] then [x]
    else if le(x, s[0]) then
      assert forall y :: y in s ==> le(x, y) by {
        forall y | y in s ensures le(x, y) {
          var j :| 0 <= j < |s| && s[j] == y;
          if j > 0 { assert le(s[0], s[j]); }
        }
      }
      SortedCons(x, s, le);
      [x] + s
    else
      assert s == [s[0]] + s[1..];
      assert Sorted(s[1..], le) by {
        forall i, j | 0 <= i < j < |s[1..]| ensures le(s[1..][i], s[1..][j]) {
          assert s[1..][i] == s[i + 1] && s[1..][j] == s[j + 1];
        }
      }
      var t := Insert(x, s[1..], le);
      assert forall y :: y in t ==> le(s[0], y) by {
        forall y | y in t ensures le(s[0], y) {
          assert y in multiset(t);
          if y != x {
            assert y in multiset(s[1..]);
            var j :| 0 <= j < |s[1..]| && s[1..][j] == y;
            assert s[j + 1] == y;
          }
        }
      }
      SortedCons(s[0], t, le);
      [s[0]] + t
  }

  /** Sorting of `s` by `le`: a permutation of `s` in which `le` holds between every
      earlier and later element. */
  function SortBy<T(!new)>(s: seq<T>, le: (T, T) -> bool): (r: seq<T>)
    requires TotalPreorder(le)
    ensures multiset(r) == multiset(s)
    ensures Sorted(r, le)
  {
    if s == [] then []
    else
      assert s == [s[0]] + s[1..];
      Insert(s[0], SortBy(s[1..], le), le)
  }

  /** The elements of a store whose records satisfy `keep`, ordered by `le`; this is the shape
      of every listing query. The result holds exactly the matching records, each once. */
  function Query<V(!new)>(m: map<Id, V>, keep: V -> bool, le: ((Id, V), (Id, V)) -> bool)
    : (r: seq<(Id, V)>)
    requires TotalPreorder(le)
    ensures forall p :: p in r <==> p.0 in m && p.1 == m[p.0] && keep(p.1)
    ensures forall id :: id in m && keep(m[id]) ==> multiset(r)[(id, m[id])] == 1
    ensures Sorted(r, le)
  {
    var entries := Entries(m);
    var kept := Filter(entries, (p: (Id, V)) => keep(p.1));
    var r := SortBy(kept, le);
    assert forall x :: x in r <==> x in kept by {
      forall x ensures x in r <==> x in kept {
        assert x in r <==> x in multiset(r);
        assert x in kept <==> x in multiset(kept);
      }
    }
    forall id | id in m && keep(m[id]) ensures multiset(r)[(id, m[id])] == 1 {
      assert (id, m[id]) in kept;
      assert multiset(kept)[(id, m[id])] <= multiset(entries)[(id, m[id])];
    }
    r
  }

  /** Lexicographic order on strings by character code, the BINARY collation of the
      application's SQLite database. */
  predicate StringLe(a: string, b: string) {
    if a == [] then true
    else if b == [] then false
    else a[0] < b[0] || (a[0] == b[0] && StringLe(a[1..], b[1..]))
  }

  lemma {:induction false} StringLeTotal(a: string, b: string)
    ensures StringLe(a, b) || StringLe(b, a)
  {
    if a != [] && b != [] && a[0] == b[0] {
      StringLeTotal(a[1..], b[1..]);
    }
  }

  lemma {:induction false} StringLeTransitive(a: string, b: string, c: string)
    requires StringLe(a, b) && StringLe(b, c)
    ensures StringLe(a, c)
  {
    if a != [] && b != [] && c != [] && a[0] == b[0] && b[0] == c[0] {
      StringLeTransitive(a[1..], b[1..], c[1..]);
    }
  }

  /** Order on an optional instant in which a missing value comes first, as SQLite sorts NULL
      before every value in ascending order. */
  predicate NullsFirstLe(a: Option<int>, b: Option<int>) {
    a.None? || (b.Some? && a.value <= b.value)
  }
}
