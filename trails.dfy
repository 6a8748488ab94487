/** Orderings on trail-point sequences, and the stable descending sort by
    timestamp that both the fusion step (`sorted(..., reverse=True)`) and the
    store's merge (`list.sort(..., reverse=True)`) use. */
module Trails {
  import opened Values

  /** The number of points a trail window keeps. */
  const HistoryWindow: nat := 6

  /** The timestamps occurring in a sequence of points. */
  function TsSet(s: seq<TrailPoint>): set<int> {
    set p | p in s :: p.ts
  }

  predicate DistinctTs(s: seq<TrailPoint>) {
    forall i, j :: 0 <= i < j < |s| ==> s[i].ts != s[j].ts
  }

  /** Newest first, no two points with the same timestamp. */
  predicate StrictlyDescending(s: seq<TrailPoint>) {
    forall i, j :: 0 <= i < j < |s| ==> s[i].ts > s[j].ts
  }

  predicate NonIncreasing(s: seq<TrailPoint>) {
    forall i, j :: 0 <= i < j < |s| ==> s[i].ts >= s[j].ts
  }

  predicate AllAtMost(s: seq<TrailPoint>, bound: int) {
    forall i :: 0 <= i < |s| ==> s[i].ts <= bound
  }

  predicate AllBelow(s: seq<TrailPoint>, bound: int) {
    forall i :: 0 <= i < |s| ==> s[i].ts < bound
  }

  lemma StrictlyDescendingIsDistinct(s: seq<TrailPoint>)
    requires StrictlyDescending(s)
    ensures DistinctTs(s) && NonIncreasing(s)
  {
  }

  lemma TsSetMember(s: seq<TrailPoint>, i: int)
    requires 0 <= i < |s|
    ensures s[i].ts in TsSet(s)
  {
    assert s[i] in s;
  }

  lemma TsSetCons(x: TrailPoint, s: seq<TrailPoint>)
    ensures TsSet([x] + s) == {x.ts} + TsSet(s)
  {
    forall t | t in TsSet([x] + s) ensures t in {x.ts} + TsSet(s) {
      var p :| p in [x] + s && p.ts == t;
      if p != x { assert p in s; }
    }
    forall t | t in TsSet(s) ensures t in TsSet([x] + s) {
      var p :| p in s && p.ts == t;
      assert p in [x] + s;
    }
  }

  lemma DistinctHeadNotInTail(s: seq<TrailPoint>)
    requires s != [] && DistinctTs(s)
    ensures s[0].ts !in TsSet(s[1..])
  {
    forall p | p in s[1..] ensures p.ts != s[0].ts {
      var j :| 0 <= j < |s[1..]| && s[1..][j] == p;
      assert s[j + 1] == p;
    }
  }

  /** Inserts `x` in front of the first point that is not newer than it, so
      that among equal timestamps `x` keeps its place before the later input. */
  function InsertByTs(x: TrailPoint, s: seq<TrailPoint>): (r: seq<TrailPoint>)
    ensures |r| == |s| + 1
    ensures multiset(r) == multiset(s) + multiset{x}
    decreases |s|
  {
    if s == [] || s[0].ts <= x.ts then [x] + s
    else
      assert s == [s[0]] + s[1..];
      [s[0]] + InsertByTs(x, s[1..])
  }

  lemma {:induction false} InsertByTsKeeps(x: TrailPoint, s: seq<TrailPoint>)
    ensures TsSet(InsertByTs(x, s)) == TsSet(s) + {x.ts}
    decreases |s|
  {
    if s == [] || s[0].ts <= x.ts {
      TsSetCons(x, s);
    } else {
      InsertByTsKeeps(x, s[1..]);
      assert s == [s[0]] + s[1..];
      TsSetCons(s[0], s[1..]);
      TsSetCons(s[0], InsertByTs(x, s[1..]));
    }
  }

  /** Inserting a point that respects a bound into a trail that does keeps it. */
  lemma {:induction false} InsertByTsBounds(x: TrailPoint, s: seq<TrailPoint>, b: int)
    ensures AllAtMost(s, b) && x.ts <= b ==> AllAtMost(InsertByTs(x, s), b)
    ensures AllBelow(s, b) && x.ts < b ==> AllBelow(InsertByTs(x, s), b)
    decreases |s|
  {
    if s != [] && s[0].ts > x.ts {
      InsertByTsBounds(x, s[1..], b);
      var r := InsertByTs(x, s);
      assert r == [s[0]] + InsertByTs(x, s[1..]);
    }
  }

  lemma {:induction false} InsertByTsNonIncreasing(x: TrailPoint, s: seq<TrailPoint>)
    requires NonIncreasing(s)
    ensures NonIncreasing(InsertByTs(x, s))
    decreases |s|
  {
    if s == [] || s[0].ts <= x.ts {
      assert AllAtMost(s, x.ts) by {
        forall i | 0 <= i < |s| ensures s[i].ts <= x.ts { assert s[0].ts >= s[i].ts; }
      }
      ConsNonIncreasing(x, s);
    } else {
      InsertByTsNonIncreasing(x, s[1..]);
      InsertByTsBounds(x, s[1..], s[0].ts);
      assert AllAtMost(s[1..], s[0].ts);
      ConsNonIncreasing(s[0], InsertByTs(x, s[1..]));
    }
  }

  /** A point whose timestamp a trail does not hold can lead it without a repeat. */
  lemma ConsDistinct(y: TrailPoint, t: seq<TrailPoint>)
    requires DistinctTs(t) && y.ts !in TsSet(t)
    ensures DistinctTs([y] + t)
  {
    var r := [y] + t;
    forall i, j | 0 <= i < j < |r| ensures r[i].ts != r[j].ts {
      assert r[j] == t[j - 1];
      if i == 0 { TsSetMember(t, j - 1); } else { assert r[i] == t[i - 1]; }
    }
  }

  /** A point at least as new as every point of a newest-first trail can lead it. */
  lemma ConsNonIncreasing(y: TrailPoint, t: seq<TrailPoint>)
    requires NonIncreasing(t) && AllAtMost(t, y.ts)
    ensures NonIncreasing([y] + t)
  {
    var r := [y] + t;
    forall i, j | 0 <= i < j < |r| ensures r[i].ts >= r[j].ts {
      assert r[j] == t[j - 1];
      if i > 0 { assert r[i] == t[i - 1]; }
    }
  }

  /** A point newer than every point of a strictly descending trail can lead it. */
  lemma ConsStrict(y: TrailPoint, t: seq<TrailPoint>)
    requires StrictlyDescending(t) && AllBelow(t, y.ts)
    ensures StrictlyDescending([y] + t)
  {
    var r := [y] + t;
    forall i, j | 0 <= i < j < |r| ensures r[i].ts > r[j].ts {
      assert r[j] == t[j - 1];
      if i > 0 { assert r[i] == t[i - 1]; }
    }
  }

  lemma {:induction false} InsertByTsStrict(x: TrailPoint, s: seq<TrailPoint>)
    requires StrictlyDescending(s) && x.ts !in TsSet(s)
    ensures StrictlyDescending(InsertByTs(x, s))
    decreases |s|
  {
    if s == [] || s[0].ts <= x.ts {
      if s != [] { TsSetMember(s, 0); }
      assert AllBelow(s, x.ts);
      ConsStrict(x, s);
    } else {
      assert s == [s[0]] + s[1..];
      TsSetCons(s[0], s[1..]);
      InsertByTsStrict(x, s[1..]);
      InsertByTsBounds(x, s[1..], s[0].ts);
      assert AllBelow(s[1..], s[0].ts);
      ConsStrict(s[0], InsertByTs(x, s[1..]));
    }
  }

  /** A stable sort by timestamp, newest first. */
  function SortByTsDesc(s: seq<TrailPoint>): (r: seq<TrailPoint>)
    ensures multiset(r) == multiset(s)
    ensures |r| == |s|
    decreases |s|
  {
    if s == [] then []
    else
      assert s == [s[0]] + s[1..];
      InsertByTs(s[0], SortByTsDesc(s[1..]))
  }

  /** The sorted sequence holds the same timestamps, ordered newest first. */
  lemma {:induction false} SortByTsDescOrdered(s: seq<TrailPoint>)
    ensures TsSet(SortByTsDesc(s)) == TsSet(s)
    ensures NonIncreasing(SortByTsDesc(s))
    decreases |s|
  {
    SameTsSet(SortByTsDesc(s), s);
    if s != [] {
      SortByTsDescOrdered(s[1..]);
      InsertByTsNonIncreasing(s[0], SortByTsDesc(s[1..]));
    }
  }

  /** Two arrangements of the same points hold the same timestamps. */
  lemma SameTsSet(a: seq<TrailPoint>, b: seq<TrailPoint>)
    requires multiset(a) == multiset(b)
    ensures TsSet(a) == TsSet(b)
  {
    forall p | p in a ensures p in b {
      assert p in multiset(a);
    }
    forall p | p in b ensures p in a {
      assert p in multiset(b);
    }
  }

  /** With pairwise distinct timestamps the sorted sequence is strictly descending. */
  lemma {:induction false} SortByTsDescStrict(s: seq<TrailPoint>)
    requires DistinctTs(s)
    ensures StrictlyDescending(SortByTsDesc(s))
    decreases |s|
  {
    if s != [] {
      var t := SortByTsDesc(s[1..]);
      assert DistinctTs(s[1..]);
      SortByTsDescStrict(s[1..]);
      SortByTsDescOrdered(s[1..]);
      DistinctHeadNotInTail(s);
      InsertByTsStrict(s[0], t);
    }
  }

  /** The first `n` points, or all of them when there are fewer. */
  function Take(s: seq<TrailPoint>, n: nat): (r: seq<TrailPoint>)
    ensures |r| == Min(n, |s|)
    ensures forall i :: 0 <= i < |r| ==> r[i] == s[i]
  {
    s[..Min(n, |s|)]
  }
}
