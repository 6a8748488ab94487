/** Trail fusion (`Utils.prepare_flight_list`, main.py): the stored trail and
    the detail-fetch trail of one aircraft are concatenated, deduplicated by
    timestamp (first occurrence wins), stripped of points older than six
    minutes and sorted newest first; the newest point is the current fix and
    the six newest form the window the scorer sees. */
module TrailFusion {
  import opened Values
  import opened Trails

  /** Points older than this many seconds before "now" are dropped. */
  const StalenessSeconds: int := 6 * 60

  /** The current fix and the recent-history window of one aircraft. */
  datatype Fix = Fix(lastKnown: TrailPoint, relevant: seq<TrailPoint>)

  /** Keeps each point whose timestamp is neither in `seen` nor carried by an
      earlier point of `s`, in input order. */
  function UniqueFrom(s: seq<TrailPoint>, seen: set<int>): seq<TrailPoint>
    decreases |s|
  {
    if s == [] then []
    else if s[0].ts in seen then UniqueFrom(s[1..], seen)
    else [s[0]] + UniqueFrom(s[1..], seen + {s[0].ts})
  }

  /** Deduplication by timestamp, first occurrence wins. */
  function UniqueByTs(s: seq<TrailPoint>): seq<TrailPoint> {
    UniqueFrom(s, {})
  }

  /** The first point of `s` that carries timestamp `t`. */
  function FirstWithTs(s: seq<TrailPoint>, t: int): TrailPoint
    requires t in TsSet(s)
    decreases |s|
  {
    assert s == [s[0]] + s[1..];
    TsSetCons(s[0], s[1..]);
    if s[0].ts == t then s[0] else FirstWithTs(s[1..], t)
  }

  /** The points at or after `threshold`, in input order. */
  function RecentOnly(s: seq<TrailPoint>, threshold: int): seq<TrailPoint>
    decreases |s|
  {
    if s == [] then []
    else if s[0].ts >= threshold then [s[0]] + RecentOnly(s[1..], threshold)
    else RecentOnly(s[1..], threshold)
  }

  /** Deduplicated, recent, newest first: the list whose head is the fix. */
  function Ranked(all: seq<TrailPoint>, threshold: int): seq<TrailPoint> {
    SortByTsDesc(RecentOnly(UniqueByTs(all), threshold))
  }

  /** What trail fusion yields; None where the source indexes `[0]` of an
      empty list and raises. */
  function Fused(trail: seq<TrailPoint>, details: seq<TrailPoint>, now: int): Option<Fix> {
    var ranked := Ranked(trail + details, now - StalenessSeconds);
    if ranked == [] then None else Some(Fix(ranked[0], Take(ranked, HistoryWindow)))
  }

  // ---- deduplication ----

  lemma {:induction false} UniqueFromTimestamps(s: seq<TrailPoint>, seen: set<int>)
    ensures TsSet(UniqueFrom(s, seen)) == TsSet(s) - seen
    decreases |s|
  {
    if s != [] {
      assert s == [s[0]] + s[1..];
      TsSetCons(s[0], s[1..]);
      if s[0].ts in seen {
        UniqueFromTimestamps(s[1..], seen);
      } else {
        UniqueFromTimestamps(s[1..], seen + {s[0].ts});
        TsSetCons(s[0], UniqueFrom(s[1..], seen + {s[0].ts}));
      }
    }
  }

  lemma {:induction false} UniqueFromDistinct(s: seq<TrailPoint>, seen: set<int>)
    ensures DistinctTs(UniqueFrom(s, seen))
    decreases |s|
  {
    if s != [] {
      if s[0].ts in seen {
        UniqueFromDistinct(s[1..], seen);
      } else {
        var rest := UniqueFrom(s[1..], seen + {s[0].ts});
        UniqueFromDistinct(s[1..], seen + {s[0].ts});
        UniqueFromTimestamps(s[1..], seen + {s[0].ts});
        var r := [s[0]] + rest;
        forall i, j | 0 <= i < j < |r| ensures r[i].ts != r[j].ts {
          if i == 0 {
            assert r[j] == rest[j - 1];
            TsSetMember(rest, j - 1);
          } else {
            assert r[i] == rest[i - 1] && r[j] == rest[j - 1];
          }
        }
      }
    }
  }

  /** Every kept point is the first point of the input with its timestamp. */
  lemma {:induction false} UniqueFromKeepsFirst(s: seq<TrailPoint>, seen: set<int>, x: TrailPoint)
    requires x in UniqueFrom(s, seen)
    ensures x.ts in TsSet(s) && x.ts !in seen && x == FirstWithTs(s, x.ts)
    decreases |s|
  {
    assert s == [s[0]] + s[1..];
    TsSetCons(s[0], s[1..]);
    if s[0].ts in seen {
      UniqueFromKeepsFirst(s[1..], seen, x);
    } else if x != s[0] {
      assert x in UniqueFrom(s[1..], seen + {s[0].ts});
      UniqueFromKeepsFirst(s[1..], seen + {s[0].ts}, x);
    }
  }

  /** Deduplication keeps exactly one point per timestamp of the input, and that
      point is the first one carrying it. */
  lemma UniqueByTsSpec(s: seq<TrailPoint>)
    ensures DistinctTs(UniqueByTs(s))
    ensures TsSet(UniqueByTs(s)) == TsSet(s)
    ensures forall x :: x in UniqueByTs(s) ==> x.ts in TsSet(s) && x == FirstWithTs(s, x.ts)
  {
    UniqueFromDistinct(s, {});
    UniqueFromTimestamps(s, {});
    forall x | x in UniqueByTs(s) ensures x.ts in TsSet(s) && x == FirstWithTs(s, x.ts) {
      UniqueFromKeepsFirst(s, {}, x);
    }
  }

  // ---- the age filter ----

  lemma RecentOnlySpec(s: seq<TrailPoint>, threshold: int)
    ensures TsSet(RecentOnly(s, threshold)) == set t | t in TsSet(s) && t >= threshold
    ensures forall x :: x in RecentOnly(s, threshold) ==> x in s && x.ts >= threshold
    ensures DistinctTs(s) ==> DistinctTs(RecentOnly(s, threshold))
  {
    RecentOnlyTimestamps(s, threshold);
    RecentOnlyMembers(s, threshold);
    if DistinctTs(s) {
      RecentOnlyDistinct(s, threshold);
    }
  }

  lemma {:induction false} RecentOnlyTimestamps(s: seq<TrailPoint>, threshold: int)
    ensures TsSet(RecentOnly(s, threshold)) == set t | t in TsSet(s) && t >= threshold
    decreases |s|
  {
    if s != [] {
      assert s == [s[0]] + s[1..];
      TsSetCons(s[0], s[1..]);
      RecentOnlyTimestamps(s[1..], threshold);
      if s[0].ts >= threshold {
        TsSetCons(s[0], RecentOnly(s[1..], threshold));
      }
    }
  }

  lemma {:induction false} RecentOnlyMembers(s: seq<TrailPoint>, threshold: int)
    ensures forall x :: x in RecentOnly(s, threshold) ==> x in s && x.ts >= threshold
    decreases |s|
  {
    if s != [] {
      RecentOnlyMembers(s[1..], threshold);
    }
  }

  lemma {:induction false} RecentOnlyDistinct(s: seq<TrailPoint>, threshold: int)
    requires DistinctTs(s)
    ensures DistinctTs(RecentOnly(s, threshold))
    decreases |s|
  {
    if s != [] {
      assert DistinctTs(s[1..]);
      RecentOnlyDistinct(s[1..], threshold);
      if s[0].ts >= threshold {
        DistinctHeadNotInTail(s);
        RecentOnlyTimestamps(s[1..], threshold);
        ConsDistinct(s[0], RecentOnly(s[1..], threshold));
      }
    }
  }

  // ---- the fused list ----

  /** The ranked list: strictly newest first, holding exactly the recent
      timestamps of the input, each by its first point. */
  lemma RankedSpec(all: seq<TrailPoint>, threshold: int)
    ensures StrictlyDescending(Ranked(all, threshold))
    ensures TsSet(Ranked(all, threshold)) == set t | t in TsSet(all) && t >= threshold
    ensures forall x :: x in Ranked(all, threshold) ==>
              x.ts >= threshold && x.ts in TsSet(all) && x == FirstWithTs(all, x.ts)
  {
    var u := UniqueByTs(all);
    var rec := RecentOnly(u, threshold);
    UniqueByTsSpec(all);
    RecentOnlySpec(u, threshold);
    SortByTsDescOrdered(rec);
    SortByTsDescStrict(rec);
    forall x | x in Ranked(all, threshold)
      ensures x.ts >= threshold && x.ts in TsSet(all) && x == FirstWithTs(all, x.ts)
    {
      assert x in multiset(Ranked(all, threshold));
      assert x in rec;
    }
  }

  /** Fusion fails exactly when no input point lies within the staleness window. */
  lemma FusedFailsIffNothingRecent(trail: seq<TrailPoint>, details: seq<TrailPoint>, now: int)
    ensures Fused(trail, details, now).None? <==>
            forall i :: 0 <= i < |trail + details| ==> (trail + details)[i].ts < now - StalenessSeconds
  {
    var all := trail + details;
    var thr := now - StalenessSeconds;
    RankedSpec(all, thr);
    if Fused(trail, details, now).None? {
      var recentTs := set t | t in TsSet(all) && t >= thr;
      assert Ranked(all, thr) == [];
      assert TsSet(Ranked(all, thr)) == {} == recentTs;
      forall i | 0 <= i < |all| ensures all[i].ts < thr {
        TsSetMember(all, i);
        assert all[i].ts !in recentTs;
      }
    } else {
      var x := Ranked(all, thr)[0];
      TsSetMember(Ranked(all, thr), 0);
      var p :| p in all && p.ts == x.ts;
      var i :| 0 <= i < |all| && all[i] == p;
    }
  }

  /** The window is strictly newest first, holds one to six points whose
      timestamps are all recent, and starts with the current fix. */
  lemma FusedWindowOrdered(trail: seq<TrailPoint>, details: seq<TrailPoint>, now: int)
    requires Fused(trail, details, now).Some?
    ensures var fix := Fused(trail, details, now).value;
      && 1 <= |fix.relevant| <= HistoryWindow
      && fix.relevant[0] == fix.lastKnown
      && StrictlyDescending(fix.relevant)
      && forall k :: 0 <= k < |fix.relevant| ==> fix.relevant[k].ts >= now - StalenessSeconds
  {
    var all := trail + details;
    var thr := now - StalenessSeconds;
    var ranked := Ranked(all, thr);
    RankedSpec(all, thr);
    forall k | 0 <= k < |Take(ranked, HistoryWindow)|
      ensures Take(ranked, HistoryWindow)[k].ts >= thr
    {
      assert ranked[k] in ranked;
    }
  }

  /** For each timestamp, the point kept is the first one of
      `trail_data + trail_data_details` that carries it. */
  lemma FusedKeepsFirstOccurrence(trail: seq<TrailPoint>, details: seq<TrailPoint>, now: int)
    requires Fused(trail, details, now).Some?
    ensures var fix := Fused(trail, details, now).value;
      forall k :: 0 <= k < |fix.relevant| ==>
        fix.relevant[k].ts in TsSet(trail + details) &&
        fix.relevant[k] == FirstWithTs(trail + details, fix.relevant[k].ts)
  {
    var all := trail + details;
    var thr := now - StalenessSeconds;
    var ranked := Ranked(all, thr);
    RankedSpec(all, thr);
    forall k | 0 <= k < |Take(ranked, HistoryWindow)|
      ensures Take(ranked, HistoryWindow)[k].ts in TsSet(all)
      ensures Take(ranked, HistoryWindow)[k] == FirstWithTs(all, Take(ranked, HistoryWindow)[k].ts)
    {
      assert ranked[k] in ranked;
    }
  }

  /** The current fix is the newest recent point of the input, and the window
      holds the six newest recent timestamps: any recent input timestamp is
      in the window, or the window is full and everything in it is newer. */
  lemma FusedWindowIsNewest(trail: seq<TrailPoint>, details: seq<TrailPoint>, now: int)
    requires Fused(trail, details, now).Some?
    ensures var fix := Fused(trail, details, now).value;
      forall i :: 0 <= i < |trail + details| && (trail + details)[i].ts >= now - StalenessSeconds ==>
        && (trail + details)[i].ts <= fix.lastKnown.ts
        && ((trail + details)[i].ts in TsSet(fix.relevant) ||
            (|fix.relevant| == HistoryWindow && (trail + details)[i].ts < fix.relevant[HistoryWindow - 1].ts))
  {
    var all := trail + details;
    var thr := now - StalenessSeconds;
    var ranked := Ranked(all, thr);
    var window := Take(ranked, HistoryWindow);
    RankedSpec(all, thr);
    forall i | 0 <= i < |all| && all[i].ts >= thr
      ensures all[i].ts <= ranked[0].ts
      ensures all[i].ts in TsSet(window) || (|window| == HistoryWindow && all[i].ts < window[HistoryWindow - 1].ts)
    {
      TsSetMember(all, i);
      assert all[i].ts in TsSet(ranked);
      var p :| p in ranked && p.ts == all[i].ts;
      var k :| 0 <= k < |ranked| && ranked[k] == p;
      if k < HistoryWindow {
        TsSetMember(window, k);
      }
    }
  }

  // ---- the imperative steps, as the source performs them ----

  /** The list comprehension that threads a `seen_ts` set through the
      concatenated points. */
  method DedupByTs(points: seq<TrailPoint>) returns (unique: seq<TrailPoint>)
    ensures unique == UniqueByTs(points)
  {
    var seen: set<int> := {};
    unique := [];
    var i := 0;
    while i < |points|
      invariant 0 <= i <= |points|
      invariant unique + UniqueFrom(points[i..], seen) == UniqueByTs(points)
    {
      var p := points[i];
      assert points[i..] == [p] + points[i + 1..];
      if p.ts !in seen {
        unique := unique + [p];
        seen := seen + {p.ts};
      }
      i := i + 1;
    }
    assert points[i..] == [];
  }

  /** The per-flight trail fusion of `prepare_flight_list`: the window and
      current fix, or None where the source would raise on an empty list. */
  method FuseTrail(trail: seq<TrailPoint>, details: seq<TrailPoint>, now: int) returns (fix: Option<Fix>)
    ensures fix == Fused(trail, details, now)
    ensures fix.None? <==> forall i :: 0 <= i < |trail + details| ==> (trail + details)[i].ts < now - StalenessSeconds
    ensures fix.Some? ==> fix.value.relevant != [] && fix.value.relevant[0] == fix.value.lastKnown
    ensures fix.Some? ==> |fix.value.relevant| <= HistoryWindow && StrictlyDescending(fix.value.relevant)
  {
    var allPoints := trail + details;
    var unique := DedupByTs(allPoints);
    var threshold := now - StalenessSeconds;
    var recent := RecentOnly(unique, threshold);
    var ranked := SortByTsDesc(recent);
    if ranked == [] {
      fix := None;
    } else {
      fix := Some(Fix(ranked[0], Take(ranked, HistoryWindow)));
      FusedWindowOrdered(trail, details, now);
    }
    FusedFailsIffNothingRecent(trail, details, now);
  }
}
