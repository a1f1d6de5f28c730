/** The paginated, newest-first listing that both `findAll` queries ask of
    the repository: `findAndCount({ where, skip, take, order: { createdAt:
    'DESC' } })`. Records are named by their keys; `stamp` gives each key's
    creation time. */
module Paging {
  import opened Common

  /** The body of a list response: one page of records, the number of all
      matching records, and the page number and size that were used. */
  datatype Page<T> = Page(data: seq<T>, total: nat, page: Positive, limit: Positive)

  const DefaultPage: Positive := 1
  const DefaultLimit: Positive := 10

  /** The number of matching records that come before the requested page. */
  function Skip(page: Positive, limit: Positive): nat {
    (page - 1) * limit
  }

  /** No two of the records share a creation time. */
  ghost predicate DistinctStamps(stamp: map<Id, nat>, keys: set<Id>) {
    forall x, y :: x in keys && y in keys && x in stamp && y in stamp && x != y ==> stamp[x] != stamp[y]
  }

  /** `s` lists records strictly from the newest to the oldest. */
  ghost predicate NewestFirst(stamp: map<Id, nat>, s: seq<Id>) {
    && (forall i :: 0 <= i < |s| ==> s[i] in stamp)
    && (forall i, j :: 0 <= i < j < |s| ==> stamp[s[i]] > stamp[s[j]])
  }

  /** The records of `keys` created after `k`. */
  ghost function Newer(stamp: map<Id, nat>, keys: set<Id>, k: Id): set<Id>
    requires k in stamp
  {
    set x | x in keys && x in stamp && stamp[x] > stamp[k]
  }

  lemma {:induction false} NewestExists(stamp: map<Id, nat>, keys: set<Id>)
    requires keys != {} && keys <= stamp.Keys
    ensures exists x :: x in keys && forall y :: y in keys ==> stamp[y] <= stamp[x]
    decreases keys
  {
    var z :| z in keys;
    if keys != {z} {
      NewestExists(stamp, keys - {z});
      var x :| x in keys - {z} && forall y :: y in keys - {z} ==> stamp[y] <= stamp[x];
      if stamp[z] <= stamp[x] {
        assert forall y :: y in keys ==> stamp[y] <= stamp[x];
      } else {
        assert forall y :: y in keys ==> stamp[y] <= stamp[z];
      }
    }
  }

  /** All of `keys`, each once, newest first: ORDER BY createdAt DESC. */
  ghost function SortNewestFirst(stamp: map<Id, nat>, keys: set<Id>): (s: seq<Id>)
    requires keys <= stamp.Keys
    requires DistinctStamps(stamp, keys)
    ensures |s| == |keys|
    ensures forall x :: x in s <==> x in keys
    ensures NewestFirst(stamp, s)
    decreases keys
  {
    if keys == {} then []
    else
      NewestExists(stamp, keys);
      var x :| x in keys && forall y :: y in keys ==> stamp[y] <= stamp[x];
      var rest := SortNewestFirst(stamp, keys - {x});
      PrependNewest(stamp, keys, x, rest);
      [x] + rest
  }

  /** Putting the newest record in front of a newest-first listing of the
      others lists all of them newest first. */
  lemma PrependNewest(stamp: map<Id, nat>, keys: set<Id>, x: Id, rest: seq<Id>)
    requires keys <= stamp.Keys && x in keys
    requires DistinctStamps(stamp, keys)
    requires forall y :: y in keys ==> stamp[y] <= stamp[x]
    requires |rest| == |keys - {x}|
    requires forall y :: y in rest <==> y in keys - {x}
    requires NewestFirst(stamp, rest)
    ensures |[x] + rest| == |keys|
    ensures forall y :: y in [x] + rest <==> y in keys
    ensures NewestFirst(stamp, [x] + rest)
  {
    var s := [x] + rest;
    forall j | 1 <= j < |s| ensures stamp[s[0]] > stamp[s[j]] {
      assert s[j] == rest[j - 1] && s[j] in keys - {x};
    }
    forall i, j | 0 <= i < j < |s| ensures stamp[s[i]] > stamp[s[j]] {
      if i > 0 {
        assert s[i] == rest[i - 1] && s[j] == rest[j - 1];
      }
    }
  }

  lemma {:induction false} DistinctCardinality(s: seq<Id>)
    requires forall i, j :: 0 <= i < j < |s| ==> s[i] != s[j]
    ensures |set x | x in s| == |s|
  {
    if s != [] {
      DistinctCardinality(s[1..]);
      assert (set x | x in s) == {s[0]} + (set x | x in s[1..]);
      assert s[0] !in s[1..];
    }
  }

  /** In a newest-first listing of `keys`, the record at position `j` has
      exactly `j` newer records. */
  lemma RankIsPosition(stamp: map<Id, nat>, keys: set<Id>, s: seq<Id>, j: int)
    requires forall x :: x in s <==> x in keys
    requires NewestFirst(stamp, s)
    requires 0 <= j < |s|
    ensures |Newer(stamp, keys, s[j])| == j
  {
    var before := s[..j];
    forall x | x in Newer(stamp, keys, s[j]) ensures x in before {
      var k :| 0 <= k < |s| && s[k] == x;
      assert k < j;
    }
    assert Newer(stamp, keys, s[j]) == set x | x in before;
    DistinctCardinality(before);
  }

  lemma RanksArePositions(stamp: map<Id, nat>, keys: set<Id>, s: seq<Id>)
    requires forall x :: x in s <==> x in keys
    requires NewestFirst(stamp, s)
    ensures forall j :: 0 <= j < |s| ==> |Newer(stamp, keys, s[j])| == j
  {
    forall j | 0 <= j < |s| ensures |Newer(stamp, keys, s[j])| == j {
      RankIsPosition(stamp, keys, s, j);
    }
  }

  /** The newest-first order of a set of records is unique: any listing
      that holds the same records newest first is the same sequence. */
  lemma NewestFirstUnique(stamp: map<Id, nat>, s: seq<Id>, t: seq<Id>)
    requires NewestFirst(stamp, s) && NewestFirst(stamp, t)
    requires forall x :: x in s <==> x in t
    ensures s == t
  {
    var keys := set x | x in s;
    assert (set x | x in t) == keys;
    DistinctCardinality(s);
    DistinctCardinality(t);
    forall i | 0 <= i < |s| ensures s[i] == t[i] {
      assert s[i] in t;
      var j :| 0 <= j < |t| && t[j] == s[i];
      RankIsPosition(stamp, keys, s, i);
      RankIsPosition(stamp, keys, t, j);
    }
  }

  /** `skip` then `take`: the elements of `s` from position `skip` on, at
      most `take` of them. */
  function Window<T>(s: seq<T>, skip: nat, take: nat): (w: seq<T>)
    ensures |w| == Min(take, Max(0, |s| - skip))
    ensures forall i :: 0 <= i < |w| ==> w[i] == s[skip + i]
  {
    if skip >= |s| then [] else s[skip..Min(skip + take, |s|)]
  }

  /** The keys of one page of the newest-first listing of `keys`. Entry `i`
      is the record with exactly `Skip(page, limit) + i` newer records, so
      the page is the run of ranks that starts after the skipped ones. */
  ghost function PageOf(stamp: map<Id, nat>, keys: set<Id>, page: Positive, limit: Positive): (ids: seq<Id>)
    requires keys <= stamp.Keys
    requires DistinctStamps(stamp, keys)
    ensures |ids| == Min(limit, Max(0, |keys| - Skip(page, limit)))
    ensures forall i :: 0 <= i < |ids| ==> ids[i] in keys
    ensures forall i :: 0 <= i < |ids| ==> |Newer(stamp, keys, ids[i])| == Skip(page, limit) + i
    ensures NewestFirst(stamp, ids)
  {
    var sorted := SortNewestFirst(stamp, keys);
    RanksArePositions(stamp, keys, sorted);
    Window(sorted, Skip(page, limit), limit)
  }
}
