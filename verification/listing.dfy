/** Ordered listings: `getDocs(query(collection(db, c), orderBy(f, dir)))`
    mapped to `{ id, ...data }` rows. A listing is the collection's rows
    sorted by an abstract rank of the ordering field in the query's
    direction; rows of equal rank are put in id order, in the same
    direction. */
module Listing {
  import opened Store

  datatype Direction = Asc | Desc

  /** Row `(ra, a)` may come no later than row `(rb, b)`. */
  predicate Before(dir: Direction, ra: int, a: Id, rb: int, b: Id) {
    match dir
    case Asc => ra < rb || (ra == rb && a <= b)
    case Desc => ra > rb || (ra == rb && a >= b)
  }

  /** `k` heads the listing of `m`: it may come before every other row. */
  predicate IsFirst<D(==)>(m: map<Id, D>, rank: D -> int, dir: Direction, k: Id) {
    k in m && forall j :: j in m ==> Before(dir, rank(m[k]), k, rank(m[j]), j)
  }

  lemma BeforeIsTotalOrder(dir: Direction, ra: int, a: Id, rb: int, b: Id, rc: int, c: Id)
    ensures Before(dir, ra, a, ra, a)
    ensures Before(dir, ra, a, rb, b) || Before(dir, rb, b, ra, a)
    ensures Before(dir, ra, a, rb, b) && Before(dir, rb, b, ra, a) ==> a == b
    ensures Before(dir, ra, a, rb, b) && Before(dir, rb, b, rc, c) ==> Before(dir, ra, a, rc, c)
  {
  }

  lemma MapRemoveSize<D>(m: map<Id, D>, x: Id)
    requires x in m
    ensures |m - {x}| == |m| - 1
  {
    assert (m - {x}).Keys == m.Keys - {x};
  }

  lemma {:induction false} FirstExists<D>(m: map<Id, D>, rank: D -> int, dir: Direction)
    requires |m| > 0
    ensures exists k :: IsFirst(m, rank, dir, k)
    decreases |m|
  {
    var x :| x in m;
    var rest := m - {x};
    MapRemoveSize(m, x);
    if |rest| == 0 {
      forall j | j in m ensures Before(dir, rank(m[x]), x, rank(m[j]), j) {
        assert j !in rest;
        BeforeIsTotalOrder(dir, rank(m[x]), x, rank(m[x]), x, 0, 0);
      }
      assert IsFirst(m, rank, dir, x);
    } else {
      FirstExists(rest, rank, dir);
      var k :| IsFirst(rest, rank, dir, k);
      var rx, rk := rank(m[x]), rank(m[k]);
      if Before(dir, rx, x, rk, k) {
        forall j | j in m ensures Before(dir, rx, x, rank(m[j]), j) {
          if j == x {
            BeforeIsTotalOrder(dir, rx, x, rx, x, 0, 0);
          } else {
            assert j in rest && Before(dir, rk, k, rank(m[j]), j);
            BeforeIsTotalOrder(dir, rx, x, rk, k, rank(m[j]), j);
          }
        }
        assert IsFirst(m, rank, dir, x);
      } else {
        BeforeIsTotalOrder(dir, rx, x, rk, k, 0, 0);
        forall j | j in m ensures Before(dir, rk, k, rank(m[j]), j) {
          if j != x {
            assert j in rest;
          }
        }
        assert IsFirst(m, rank, dir, k);
      }
    }
  }

  /** The row a listing of `m` starts with. */
  function First<D(==)>(m: map<Id, D>, rank: D -> int, dir: Direction): (k: Id)
    requires |m| > 0
    ensures IsFirst(m, rank, dir, k)
  {
    FirstExists(m, rank, dir);
    var k :| IsFirst(m, rank, dir, k);
    k
  }

  function Ids<D>(s: seq<Listed<D>>): set<Id> {
    set i | 0 <= i < |s| :: s[i].id
  }

  /** Every row of `s` is a document of `m`, under its own id. */
  predicate RowsOf<D(==)>(s: seq<Listed<D>>, m: map<Id, D>) {
    forall i :: 0 <= i < |s| ==> s[i].id in m && m[s[i].id] == s[i].doc
  }

  predicate DistinctIds<D>(s: seq<Listed<D>>) {
    forall i, j :: 0 <= i < j < |s| ==> s[i].id != s[j].id
  }

  predicate Sorted<D>(s: seq<Listed<D>>, rank: D -> int, dir: Direction) {
    forall i, j :: 0 <= i < j < |s| ==> Before(dir, rank(s[i].doc), s[i].id, rank(s[j].doc), s[j].id)
  }

  /** `s` lists each document of `m` exactly once. */
  predicate Enumerates<D(==)>(s: seq<Listed<D>>, m: map<Id, D>) {
    RowsOf(s, m) && DistinctIds(s) && Ids(s) == m.Keys
  }

  /** Putting the head row in front of a listing of the other rows lists
      the whole collection, in order. */
  lemma PrependFirst<D>(m: map<Id, D>, rank: D -> int, dir: Direction, k: Id, tail: seq<Listed<D>>)
    requires IsFirst(m, rank, dir, k)
    requires Enumerates(tail, m - {k}) && Sorted(tail, rank, dir)
    ensures Enumerates([Listed(k, m[k])] + tail, m)
    ensures Sorted([Listed(k, m[k])] + tail, rank, dir)
  {
    var r := [Listed(k, m[k])] + tail;
    assert forall i :: 1 <= i < |r| ==> r[i] == tail[i - 1];
    forall j | 0 <= j < |tail| ensures tail[j].id in m && tail[j].id != k {
      assert tail[j].id in Ids(tail);
    }
    forall j | j in Ids(r) ensures j in m.Keys {
      var i :| 0 <= i < |r| && r[i].id == j;
      if i > 0 {
        assert r[i] == tail[i - 1];
      }
    }
    forall j | j in m.Keys ensures j in Ids(r) {
      if j == k {
        assert r[0].id == k;
      } else {
        assert j in Ids(tail);
        var i :| 0 <= i < |tail| && tail[i].id == j;
        assert r[i + 1].id == j;
      }
    }
    forall i, j | 0 <= i < j < |r|
      ensures Before(dir, rank(r[i].doc), r[i].id, rank(r[j].doc), r[j].id) && r[i].id != r[j].id
    {
      if i > 0 {
        assert r[i] == tail[i - 1] && r[j] == tail[j - 1];
      } else {
        assert r[j] == tail[j - 1];
      }
    }
  }

  /** The result of the ordered query over the collection `m`. */
  function Query<D(==)>(m: map<Id, D>, rank: D -> int, dir: Direction): (r: seq<Listed<D>>)
    ensures Enumerates(r, m) && |r| == |m|
    ensures Sorted(r, rank, dir)
    decreases |m|
  {
    if |m| == 0 then []
    else
      var k := First(m, rank, dir);
      MapRemoveSize(m, k);
      var tail := Query(m - {k}, rank, dir);
      PrependFirst(m, rank, dir, k, tail);
      [Listed(k, m[k])] + tail
  }

  /** The head of a sorted enumeration is the first row of the collection. */
  lemma HeadIsFirst<D>(m: map<Id, D>, rank: D -> int, dir: Direction, s: seq<Listed<D>>)
    requires Enumerates(s, m) && Sorted(s, rank, dir) && |s| > 0
    ensures IsFirst(m, rank, dir, s[0].id)
    ensures Enumerates(s[1..], m - {s[0].id}) && Sorted(s[1..], rank, dir)
  {
    var h := s[0].id;
    forall j | j in m ensures Before(dir, rank(m[h]), h, rank(m[j]), j) {
      assert j in Ids(s);
      var i :| 0 <= i < |s| && s[i].id == j;
      if i == 0 {
        BeforeIsTotalOrder(dir, rank(m[h]), h, rank(m[h]), h, 0, 0);
      } else {
        assert Before(dir, rank(s[0].doc), s[0].id, rank(s[i].doc), s[i].id);
      }
    }
    var tail := s[1..];
    var rest := m - {h};
    assert Ids(tail) == rest.Keys by {
      forall j | j in Ids(tail) ensures j in rest.Keys {
        var i :| 0 <= i < |tail| && tail[i].id == j;
        assert s[i + 1].id == j && s[0].id != j;
      }
      forall j | j in rest.Keys ensures j in Ids(tail) {
        assert j in Ids(s);
        var i :| 0 <= i < |s| && s[i].id == j;
        assert i != 0;
        assert tail[i - 1].id == j;
      }
    }
    forall i | 0 <= i < |tail| ensures tail[i].id in rest && rest[tail[i].id] == tail[i].doc {
      assert tail[i] == s[i + 1];
      assert s[0].id != s[i + 1].id;
    }
  }

  /** A sorted enumeration of a non-empty collection starts with the
      query's first row and continues with a sorted enumeration of the rest. */
  lemma SortedSplits<D>(m: map<Id, D>, rank: D -> int, dir: Direction, s: seq<Listed<D>>)
    requires Enumerates(s, m) && Sorted(s, rank, dir) && |m| > 0
    ensures |s| > 0 && s[0] == Listed(First(m, rank, dir), m[First(m, rank, dir)])
    ensures Enumerates(s[1..], m - {s[0].id}) && Sorted(s[1..], rank, dir)
  {
    var x :| x in m;
    assert x in Ids(s);
    HeadIsFirst(m, rank, dir, s);
    FirstIsUnique(m, rank, dir, First(m, rank, dir), s[0].id);
  }

  /** An empty collection has the empty listing as its only enumeration. */
  lemma NothingToEnumerate<D>(m: map<Id, D>, rank: D -> int, dir: Direction, s: seq<Listed<D>>)
    requires Enumerates(s, m) && |m| == 0
    ensures s == [] == Query(m, rank, dir)
  {
    HeadIdListed(s);
  }

  lemma HeadIdListed<D>(s: seq<Listed<D>>)
    ensures |s| > 0 ==> s[0].id in Ids(s)
  {
    if |s| > 0 {
      assert s[0].id in Ids(s);
    }
  }

  /** The query's head row followed by the query of the rest is the query. */
  lemma ConsIsQuery<D>(m: map<Id, D>, rank: D -> int, dir: Direction, s: seq<Listed<D>>)
    requires |m| > 0 && |s| > 0
    requires s[0] == Listed(First(m, rank, dir), m[First(m, rank, dir)])
    requires s[1..] == Query(m - {First(m, rank, dir)}, rank, dir)
    ensures s == Query(m, rank, dir)
  {
    QueryUnfolds(m, rank, dir);
    assert s == [s[0]] + s[1..];
  }

  /** Rank order with ties broken by id is a total order on distinct ids,
      so the query's answer is the only sorted enumeration of the collection. */
  lemma {:induction false} QueryIsUnique<D>(m: map<Id, D>, rank: D -> int, dir: Direction, s: seq<Listed<D>>)
    requires Enumerates(s, m) && Sorted(s, rank, dir)
    ensures s == Query(m, rank, dir)
    decreases |m|
  {
    if |m| == 0 {
      NothingToEnumerate(m, rank, dir, s);
    } else {
      SortedSplits(m, rank, dir, s);
      var k := s[0].id;
      MapRemoveSize(m, k);
      QueryIsUnique(m - {k}, rank, dir, s[1..]);
      ConsIsQuery(m, rank, dir, s);
    }
  }

  /** A sorted enumeration has one row per document. */
  lemma SortedListingSize<D>(m: map<Id, D>, rank: D -> int, dir: Direction, s: seq<Listed<D>>)
    requires Enumerates(s, m) && Sorted(s, rank, dir)
    ensures |s| == |m|
  {
    QueryIsUnique(m, rank, dir, s);
  }

  function Reverse<T>(s: seq<T>): (r: seq<T>)
    ensures |r| == |s| && forall i :: 0 <= i < |s| ==> r[i] == s[|s| - 1 - i]
  {
    seq(|s|, i requires 0 <= i < |s| => s[|s| - 1 - i])
  }

  lemma BeforeFlips(ra: int, a: Id, rb: int, b: Id)
    ensures Before(Asc, ra, a, rb, b) <==> Before(Desc, rb, b, ra, a)
  {
  }

  /** Reversal lists the same ids. */
  lemma ReverseKeepsIds<D>(a: seq<Listed<D>>)
    ensures Ids(Reverse(a)) == Ids(a)
  {
    var r := Reverse(a);
    var n := |a|;
    forall j | j in Ids(a) ensures j in Ids(r) {
      var i :| 0 <= i < n && a[i].id == j;
      assert r[n - 1 - i] == a[i];
    }
    forall j | j in Ids(r) ensures j in Ids(a) {
      var i :| 0 <= i < n && r[i].id == j;
      assert r[i] == a[n - 1 - i];
    }
  }

  lemma ReverseKeepsRows<D>(a: seq<Listed<D>>, m: map<Id, D>)
    requires Enumerates(a, m)
    ensures Enumerates(Reverse(a), m)
  {
    var r := Reverse(a);
    var n := |a|;
    ReverseKeepsIds(a);
    forall i, j | 0 <= i < j < n ensures r[i].id != r[j].id {
      assert r[i] == a[n - 1 - i] && r[j] == a[n - 1 - j];
    }
  }

  lemma ReverseFlipsOrder<D>(a: seq<Listed<D>>, rank: D -> int)
    requires Sorted(a, rank, Asc)
    ensures Sorted(Reverse(a), rank, Desc)
  {
    var r := Reverse(a);
    var n := |a|;
    forall i, j | 0 <= i < j < n
      ensures Before(Desc, rank(r[i].doc), r[i].id, rank(r[j].doc), r[j].id)
    {
      assert r[i] == a[n - 1 - i] && r[j] == a[n - 1 - j];
      BeforeFlips(rank(r[j].doc), r[j].id, rank(r[i].doc), r[i].id);
    }
  }

  /** A descending query returns the ascending query's rows in reverse. */
  lemma DescIsReversedAsc<D>(m: map<Id, D>, rank: D -> int)
    ensures Query(m, rank, Desc) == Reverse(Query(m, rank, Asc))
  {
    var a := Query(m, rank, Asc);
    ReverseKeepsRows(a, m);
    ReverseFlipsOrder(a, rank);
    QueryIsUnique(m, rank, Desc, Reverse(a));
  }

  /** `list.filter(row => row.id !== id)`. */
  function WithoutId<D>(s: seq<Listed<D>>, id: Id): (r: seq<Listed<D>>)
    ensures |r| <= |s|
    ensures id !in Ids(s) ==> r == s
    ensures id !in Ids(r)
  {
    if |s| == 0 then []
    else
      var t := WithoutId(s[1..], id);
      assert Ids(s) == {s[0].id} + Ids(s[1..]) by {
        forall j | j in Ids(s) ensures j in {s[0].id} + Ids(s[1..]) {
          var i :| 0 <= i < |s| && s[i].id == j;
          if i > 0 { assert s[1..][i - 1] == s[i]; }
        }
      }
      var r := (if s[0].id == id then [] else [s[0]]) + t;
      assert Ids(r) <= {s[0].id} + Ids(t) by {
        forall j | j in Ids(r) ensures j in {s[0].id} + Ids(t) {
          var i :| 0 <= i < |r| && r[i].id == j;
          if s[0].id != id && i > 0 { assert r[i] == t[i - 1]; }
          if s[0].id == id { assert r[i] == t[i]; }
        }
      }
      r
  }

  /** Filtering keeps the surviving rows in their original order. */
  lemma {:induction false} WithoutIdOfConcat<D>(a: seq<Listed<D>>, b: seq<Listed<D>>, id: Id)
    ensures WithoutId(a + b, id) == WithoutId(a, id) + WithoutId(b, id)
  {
    if |a| > 0 {
      assert (a + b)[1..] == a[1..] + b;
      WithoutIdOfConcat(a[1..], b, id);
    } else {
      assert a + b == b;
    }
  }

  /** The filter drops exactly the rows carrying `id` and keeps every
      other row. */
  lemma {:induction false} WithoutIdMembers<D>(s: seq<Listed<D>>, id: Id, x: Listed<D>)
    ensures x in WithoutId(s, id) <==> x in s && x.id != id
  {
    if |s| > 0 {
      WithoutIdMembers(s[1..], id, x);
      assert s == [s[0]] + s[1..];
    }
  }

  lemma FirstIsUnique<D>(m: map<Id, D>, rank: D -> int, dir: Direction, k: Id, k': Id)
    requires IsFirst(m, rank, dir, k) && IsFirst(m, rank, dir, k')
    ensures k == k'
  {
    BeforeIsTotalOrder(dir, rank(m[k]), k, rank(m[k']), k', 0, 0);
  }

  /** One step of the query: the head row, then the query over the rest. */
  lemma QueryUnfolds<D>(m: map<Id, D>, rank: D -> int, dir: Direction)
    requires |m| > 0
    ensures Query(m, rank, dir) == [Listed(First(m, rank, dir), m[First(m, rank, dir)])] + Query(m - {First(m, rank, dir)}, rank, dir)
  {
  }

  /** The filter looks at the head row, then filters the rest. */
  lemma WithoutIdOfCons<D>(x: Listed<D>, t: seq<Listed<D>>, id: Id)
    ensures WithoutId([x] + t, id) == (if x.id == id then [] else [x]) + WithoutId(t, id)
  {
    assert ([x] + t)[1..] == t;
  }

  /** Dropping a row locally gives what re-running the query after the
      document's deletion would give. */
  lemma {:induction false} WithoutIdOfQuery<D>(m: map<Id, D>, rank: D -> int, dir: Direction, id: Id)
    ensures WithoutId(Query(m, rank, dir), id) == Query(m - {id}, rank, dir)
    decreases |m|
  {
    if id !in m {
      assert m - {id} == m;
    } else {
      var k := First(m, rank, dir);
      MapRemoveSize(m, k);
      var rest := m - {k};
      var tail := Query(rest, rank, dir);
      QueryUnfolds(m, rank, dir);
      WithoutIdOfCons(Listed(k, m[k]), tail, id);
      if k == id {
        assert Ids(tail) == rest.Keys;
      } else {
        WithoutIdOfQuery(rest, rank, dir, id);
        MapRemoveSize(m, id);
        RemoveKeepsFirst(m, rank, dir, id);
      }
    }
  }

  /** Removing a document other than the head leaves the head in place. */
  lemma RemoveKeepsFirst<D>(m: map<Id, D>, rank: D -> int, dir: Direction, id: Id)
    requires id in m && |m| > 1 && First(m, rank, dir) != id
    ensures Query(m - {id}, rank, dir)
      == [Listed(First(m, rank, dir), m[First(m, rank, dir)])] + Query((m - {First(m, rank, dir)}) - {id}, rank, dir)
  {
    var k := First(m, rank, dir);
    var m' := m - {id};
    MapRemoveSize(m, id);
    assert IsFirst(m', rank, dir, k);
    FirstIsUnique(m', rank, dir, k, First(m', rank, dir));
    assert m' - {k} == (m - {k}) - {id};
    QueryUnfolds(m', rank, dir);
  }
}
