/** The cluster-to-stripe merge of the timeline (mergeClustersToStripes): clusters are
    grouped by (event type, description), each group is walked in start order merging
    clusters that overlap or lie within a quarter period of each other, and the merged
    clusters of each key are folded into one stripe. Spans are integer milliseconds. */
module StripeMerge {
  import opened Wrappers
  import opened Timeline
  import opened Sorting

  /** A span [start, end] in epoch milliseconds. */
  datatype Span = Span(start: int, end: int)

  predicate ValidSpan(s: Span) {
    s.start <= s.end
  }

  function Min(a: int, b: int): int {
    if a <= b then a else b
  }

  function Max(a: int, b: int): int {
    if a >= b then a else b
  }

  /** The smallest span covering both spans. */
  function Hull(a: Span, b: Span): (r: Span)
    ensures r.start <= a.start && r.start <= b.start && a.end <= r.end && b.end <= r.end
    ensures r.start == a.start || r.start == b.start
    ensures r.end == a.end || r.end == b.end
  {
    Span(Min(a.start, b.start), Max(a.end, b.end))
  }

  /** Interval.gap: the span strictly between two spans that neither overlap nor abut;
      None when they overlap or abut. */
  function Gap(a: Span, b: Span): Option<Span> {
    if b.start > a.end then Some(Span(a.end, b.start))
    else if a.start > b.end then Some(Span(b.end, a.start))
    else None
  }

  /** There is no gap exactly when the spans overlap or abut; a gap is never empty and
      does not depend on the order of the two spans. */
  lemma GapCharacterised(a: Span, b: Span)
    requires ValidSpan(a) && ValidSpan(b)
    ensures Gap(a, b).None? <==> a.start <= b.end && b.start <= a.end
    ensures Gap(a, b).Some? ==> Gap(a, b).value.start < Gap(a, b).value.end
    ensures Gap(a, b) == Gap(b, a)
  {
  }

  /** EventCluster */
  datatype Cluster = Cluster(eventType: EventType, description: string, span: Span,
                             eventIDs: set<int>, hashHits: set<int>, tagged: set<int>)

  /** The (type, description) pair the merge groups by. */
  datatype Key = Key(eventType: EventType, description: string)

  function KeyOf(c: Cluster): Key {
    Key(c.eventType, c.description)
  }

  function ClusterStart(c: Cluster): int {
    c.span.start
  }

  /** EventCluster.merge: the hull of the spans and the unions of the id sets, under the
      key of the first cluster. */
  function MergeClusters(a: Cluster, b: Cluster): Cluster {
    Cluster(a.eventType, a.description, Hull(a.span, b.span),
            a.eventIDs + b.eventIDs, a.hashHits + b.hashHits, a.tagged + b.tagged)
  }

  /** EventStripe: the clusters of one key across the whole range. */
  datatype Stripe = Stripe(eventType: EventType, description: string, span: Span,
                           eventIDs: set<int>, hashHits: set<int>, tagged: set<int>,
                           clusters: set<Cluster>)

  function StripeKey(s: Stripe): Key {
    Key(s.eventType, s.description)
  }

  function StripeStart(s: Stripe): int {
    s.span.start
  }

  /** new EventStripe(cluster) */
  function NewStripe(c: Cluster): Stripe {
    Stripe(c.eventType, c.description, c.span, c.eventIDs, c.hashHits, c.tagged, {c})
  }

  /** EventStripe.merge: the hull of the spans and the unions of the id sets and of the
      clusters, under the key of the first stripe. */
  function MergeStripes(a: Stripe, b: Stripe): Stripe {
    Stripe(a.eventType, a.description, Hull(a.span, b.span),
           a.eventIDs + b.eventIDs, a.hashHits + b.hashHits, a.tagged + b.tagged,
           a.clusters + b.clusters)
  }

  /** Within one key the stripe merge is commutative and associative. */
  lemma MergeStripesCommutativeAssociative(a: Stripe, b: Stripe, c: Stripe)
    requires StripeKey(a) == StripeKey(b) == StripeKey(c)
    ensures MergeStripes(a, b) == MergeStripes(b, a)
    ensures MergeStripes(MergeStripes(a, b), c) == MergeStripes(a, MergeStripes(b, c))
  {
  }

  /** The tolerance of the walk: a quarter of the period, in milliseconds. */
  function Quarter(period: nat): nat {
    period / 4
  }

  /** The next cluster joins the current one when their spans overlap or abut, or when
      the gap between them is at most the quarter period. */
  predicate CloseEnough(current: Span, next: Span, quarter: int) {
    var gap := Gap(current, next);
    gap.None? || gap.value.end - gap.value.start <= quarter
  }

  /** The walk over start-sorted clusters with a running current cluster: each next
      cluster is merged into the current one when close enough, and otherwise the current
      cluster is emitted and the next one becomes current. */
  function WalkFrom(current: Cluster, rest: seq<Cluster>, quarter: int): (r: seq<Cluster>)
    ensures 1 <= |r| <= |rest| + 1
    decreases |rest|
  {
    if rest == [] then [current]
    else if CloseEnough(current.span, rest[0].span, quarter) then
      WalkFrom(MergeClusters(current, rest[0]), rest[1..], quarter)
    else [current] + WalkFrom(rest[0], rest[1..], quarter)
  }

  function Walk(sorted: seq<Cluster>, quarter: int): (r: seq<Cluster>)
    requires sorted != []
    ensures 1 <= |r| <= |sorted|
  {
    WalkFrom(sorted[0], sorted[1..], quarter)
  }

  /** The keys present in a list of clusters. */
  function KeysOf(cs: seq<Cluster>): set<Key> {
    set c | c in cs :: KeyOf(c)
  }

  /** The clusters of cs with key k, in their order. */
  function WithKey(cs: seq<Cluster>, k: Key): (r: seq<Cluster>)
    ensures |r| <= |cs|
    ensures forall i :: 0 <= i < |r| ==> KeyOf(r[i]) == k
  {
    if cs == [] then []
    else
      var last := cs[|cs| - 1];
      WithKey(cs[..|cs| - 1], k) + (if KeyOf(last) == k then [last] else [])
  }

  lemma WithKeySnoc(cs: seq<Cluster>, c: Cluster, k: Key)
    ensures WithKey(cs + [c], k) == WithKey(cs, k) + (if KeyOf(c) == k then [c] else [])
  {
    assert (cs + [c])[..|cs|] == cs;
  }

  lemma KeysOfSnoc(cs: seq<Cluster>, c: Cluster)
    ensures KeysOf(cs + [c]) == KeysOf(cs) + {KeyOf(c)}
  {
    forall x | x in cs + [c] ensures x in cs || x == c {
    }
  }

  /** WithKey keeps exactly the clusters of key k. */
  lemma {:induction false} WithKeyMembers(cs: seq<Cluster>, k: Key, c: Cluster)
    ensures c in WithKey(cs, k) <==> c in cs && KeyOf(c) == k
  {
    if cs != [] {
      var init := cs[..|cs| - 1];
      WithKeyMembers(init, k, c);
      assert cs == init + [cs[|cs| - 1]];
    }
  }

  lemma WithKeyPresent(cs: seq<Cluster>, k: Key)
    ensures WithKey(cs, k) != [] <==> k in KeysOf(cs)
  {
    if k in KeysOf(cs) {
      var c :| c in cs && KeyOf(c) == k;
      WithKeyMembers(cs, k, c);
    } else if WithKey(cs, k) != [] {
      var c := WithKey(cs, k)[0];
      WithKeyMembers(cs, k, c);
    }
  }

  /** The phase-1 filtering distributes over concatenation. */
  lemma {:induction false} WithKeyConcat(a: seq<Cluster>, b: seq<Cluster>, k: Key)
    ensures WithKey(a + b, k) == WithKey(a, k) + WithKey(b, k)
    decreases |b|
  {
    if b == [] {
      assert a + b == a;
    } else {
      var b' := b[..|b| - 1];
      assert (a + b)[..|a + b| - 1] == a + b';
      assert (a + b)[|a + b| - 1] == b[|b| - 1];
      WithKeyConcat(a, b', k);
    }
  }

  lemma {:induction false} WithKeyOfOneKey(cs: seq<Cluster>, k: Key)
    requires forall i :: 0 <= i < |cs| ==> KeyOf(cs[i]) == k
    ensures WithKey(cs, k) == cs
  {
    if cs != [] {
      WithKeyOfOneKey(cs[..|cs| - 1], k);
      assert cs == cs[..|cs| - 1] + [cs[|cs| - 1]];
    }
  }

  lemma {:induction false} WithKeyOfOtherKey(cs: seq<Cluster>, k: Key)
    requires forall i :: 0 <= i < |cs| ==> KeyOf(cs[i]) != k
    ensures WithKey(cs, k) == []
  {
    if cs != [] {
      WithKeyOfOtherKey(cs[..|cs| - 1], k);
    }
  }

  /** The merge's own fold of the clusters of one key into a stripe: the first cluster
      starts the stripe and each later one is merged into it. */
  function FoldStripes(cs: seq<Cluster>): Stripe
    requires cs != []
    decreases |cs|
  {
    if |cs| == 1 then NewStripe(cs[0])
    else MergeStripes(FoldStripes(cs[..|cs| - 1]), NewStripe(cs[|cs| - 1]))
  }

  /** The stripe the merge produces for key k of the input: the clusters of k, sorted by
      start, walked, and folded. */
  function KeyStripe(preMerged: seq<Cluster>, k: Key, quarter: int): Stripe
    requires k in KeysOf(preMerged)
  {
    WithKeyPresent(preMerged, k);
    FoldStripes(Walk(SortBy(WithKey(preMerged, k), ClusterStart), quarter))
  }

  // ---------------------------------------------------------------------------------
  // The imperative merge

  /** Phase 1: the map from key to the clusters of that key, in input order. */
  method GroupByKey(clusters: seq<Cluster>) returns (groups: map<Key, seq<Cluster>>)
    ensures groups.Keys == KeysOf(clusters)
    ensures forall k :: k in groups ==> groups[k] == WithKey(clusters, k)
  {
    groups := map[];
    for i := 0 to |clusters|
      invariant groups.Keys == KeysOf(clusters[..i])
      invariant forall k :: k in groups ==> groups[k] == WithKey(clusters[..i], k)
    {
      var c := clusters[i];
      var k := KeyOf(c);
      assert clusters[..i + 1] == clusters[..i] + [c];
      KeysOfSnoc(clusters[..i], c);
      forall k' ensures WithKey(clusters[..i + 1], k') == WithKey(clusters[..i], k') + (if k' == k then [c] else []) {
        WithKeySnoc(clusters[..i], c, k');
      }
      if k in groups {
        groups := groups[k := groups[k] + [c]];
      } else {
        WithKeyPresent(clusters[..i], k);
        groups := groups[k := [c]];
      }
    }
    assert clusters[..|clusters|] == clusters;
  }

  /** The walk of one key's sorted clusters, with a mutable current cluster. */
  method MergeAdjacent(sorted: seq<Cluster>, quarter: int) returns (merged: seq<Cluster>)
    requires sorted != []
    ensures merged == Walk(sorted, quarter)
  {
    merged := [];
    var current := sorted[0];
    var j := 1;
    while j < |sorted|
      invariant 1 <= j <= |sorted|
      invariant merged + WalkFrom(current, sorted[j..], quarter) == Walk(sorted, quarter)
    {
      var next := sorted[j];
      assert sorted[j..][1..] == sorted[j + 1..];
      if CloseEnough(current.span, next.span, quarter) {
        current := MergeClusters(current, next);
      } else {
        merged := merged + [current];
        current := next;
      }
      j := j + 1;
    }
    merged := merged + [current];
  }

  /** Phase 2: every key's walk appended to one list, the keys in an arbitrary order. */
  method MergeWithinKeys(groups: map<Key, seq<Cluster>>, quarter: int) returns (aggEvents: seq<Cluster>)
    requires forall k :: k in groups ==> groups[k] != []
    requires forall k, i :: k in groups && 0 <= i < |groups[k]| ==> KeyOf(groups[k][i]) == k
    ensures forall i :: 0 <= i < |aggEvents| ==> KeyOf(aggEvents[i]) in groups
    ensures forall k :: k in groups ==>
              WithKey(aggEvents, k) == Walk(SortBy(groups[k], ClusterStart), quarter)
  {
    aggEvents := [];
    var remaining := groups.Keys;
    ghost var done: set<Key> := {};
    while remaining != {}
      invariant remaining !! done && remaining + done == groups.Keys
      invariant WalksDone(groups, quarter, aggEvents, done)
      decreases |remaining|
    {
      var k :| k in remaining;
      var merged := MergeAdjacent(SortBy(groups[k], ClusterStart), quarter);
      AppendKeyWalk(groups, quarter, aggEvents, merged, k, done);
      aggEvents := aggEvents + merged;
      remaining := remaining - {k};
      done := done + {k};
    }
  }

  /** The phase-2 list so far holds just the keys done, each with its walk. */
  predicate WalksDone(groups: map<Key, seq<Cluster>>, quarter: int, agg: seq<Cluster>, done: set<Key>)
    requires forall k :: k in groups ==> groups[k] != []
  {
    && done <= groups.Keys
    && (forall i :: 0 <= i < |agg| ==> KeyOf(agg[i]) in done)
    && (forall k {:trigger WithKey(agg, k)} :: k in done ==>
          WithKey(agg, k) == Walk(SortBy(groups[k], ClusterStart), quarter))
  }

  /** One step of phase 2: appending the walk of a key not yet done keeps every key done
      so far and adds that key. */
  lemma AppendKeyWalk(groups: map<Key, seq<Cluster>>, quarter: int, before: seq<Cluster>,
                      merged: seq<Cluster>, k: Key, done: set<Key>)
    requires forall k :: k in groups ==> groups[k] != []
    requires forall k, i :: k in groups && 0 <= i < |groups[k]| ==> KeyOf(groups[k][i]) == k
    requires k in groups && k !in done
    requires WalksDone(groups, quarter, before, done)
    requires merged == Walk(SortBy(groups[k], ClusterStart), quarter)
    ensures WalksDone(groups, quarter, before + merged, done + {k})
  {
    var sorted := SortBy(groups[k], ClusterStart);
    SortByKeepsKey(groups[k], k);
    WalkKeepsKey(sorted[0], sorted[1..], quarter, k);
    AppendKeepsKeys(before, merged, k, done);
    forall k' | k' in done + {k}
      ensures WithKey(before + merged, k') == Walk(SortBy(groups[k'], ClusterStart), quarter)
    {
      AppendOneKey(before, merged, k, done, k');
    }
  }

  lemma AppendKeepsKeys(before: seq<Cluster>, merged: seq<Cluster>, k: Key, done: set<Key>)
    requires forall i :: 0 <= i < |before| ==> KeyOf(before[i]) in done
    requires forall i :: 0 <= i < |merged| ==> KeyOf(merged[i]) == k
    ensures forall i :: 0 <= i < |before + merged| ==> KeyOf((before + merged)[i]) in done + {k}
  {
    var after := before + merged;
    forall i | 0 <= i < |after| ensures KeyOf(after[i]) in done + {k} {
      if i < |before| {
        assert after[i] == before[i];
      } else {
        assert after[i] == merged[i - |before|];
      }
    }
  }

  /** Appending clusters of key k leaves the clusters of every other key as they were and
      makes them the clusters of k when k had none. */
  lemma AppendOneKey(before: seq<Cluster>, merged: seq<Cluster>, k: Key, done: set<Key>, k': Key)
    requires forall i :: 0 <= i < |before| ==> KeyOf(before[i]) in done
    requires forall i :: 0 <= i < |merged| ==> KeyOf(merged[i]) == k
    requires k !in done
    ensures k' == k ==> WithKey(before + merged, k') == merged
    ensures k' != k ==> WithKey(before + merged, k') == WithKey(before, k')
  {
    WithKeyConcat(before, merged, k');
    if k' == k {
      WithKeyOfOtherKey(before, k);
      WithKeyOfOneKey(merged, k);
    } else {
      WithKeyOfOtherKey(merged, k');
    }
  }

  /** Phase 3: stripeDescMap.merge(key, new EventStripe(cluster), EventStripe::merge) for
      every cluster in turn. */
  method FoldIntoStripes(clusters: seq<Cluster>) returns (stripes: map<Key, Stripe>)
    ensures FoldedByKey(clusters, stripes)
  {
    stripes := map[];
    for i := 0 to |clusters|
      invariant FoldedByKey(clusters[..i], stripes)
    {
      var c := clusters[i];
      var k := KeyOf(c);
      assert clusters[..i + 1] == clusters[..i] + [c];
      FoldOneMore(clusters[..i], c, stripes);
      if k in stripes {
        stripes := stripes[k := MergeStripes(stripes[k], NewStripe(c))];
      } else {
        stripes := stripes[k := NewStripe(c)];
      }
    }
    assert clusters[..|clusters|] == clusters;
  }

  /** m holds one stripe per key of cs, the fold of that key's clusters in order. */
  predicate FoldedByKey(cs: seq<Cluster>, m: map<Key, Stripe>) {
    && m.Keys == KeysOf(cs)
    && (forall k {:trigger WithKey(cs, k)} :: k in m ==>
          WithKey(cs, k) != [] && m[k] == FoldStripes(WithKey(cs, k)))
  }

  /** One step of phase 3: merging the stripe of one more cluster into the map. */
  lemma FoldOneMore(cs: seq<Cluster>, c: Cluster, m: map<Key, Stripe>)
    requires FoldedByKey(cs, m)
    ensures KeyOf(c) in m ==> FoldedByKey(cs + [c], m[KeyOf(c) := MergeStripes(m[KeyOf(c)], NewStripe(c))])
    ensures KeyOf(c) !in m ==> FoldedByKey(cs + [c], m[KeyOf(c) := NewStripe(c)])
  {
    var k := KeyOf(c);
    var after := if k in m then m[k := MergeStripes(m[k], NewStripe(c))] else m[k := NewStripe(c)];
    KeysOfSnoc(cs, c);
    forall k' ensures WithKey(cs + [c], k') == WithKey(cs, k') + (if k' == k then [c] else []) {
      WithKeySnoc(cs, c, k');
    }
    if k in m {
      assert WithKey(cs, k) != [];
      FoldStripesSnoc(WithKey(cs, k), c);
    } else {
      WithKeyPresent(cs, k);
      assert WithKey(cs + [c], k) == [c];
    }
    forall k' | k' in after
      ensures WithKey(cs + [c], k') != [] && after[k'] == FoldStripes(WithKey(cs + [c], k'))
    {
      if k' != k {
        assert after[k'] == m[k'];
        assert WithKey(cs + [c], k') == WithKey(cs, k');
        assert WithKey(cs, k') != [];
      }
    }
  }

  lemma FoldStripesSnoc(cs: seq<Cluster>, c: Cluster)
    requires cs != []
    ensures FoldStripes(cs + [c]) == MergeStripes(FoldStripes(cs), NewStripe(c))
  {
    assert (cs + [c])[..|cs|] == cs;
  }

  /** stripeDescMap.values(), in an arbitrary order. */
  method StripeList(m: map<Key, Stripe>) returns (values: seq<Stripe>)
    requires forall k :: k in m ==> StripeKey(m[k]) == k
    ensures DistinctBy(values, StripeKey)
    ensures forall i :: 0 <= i < |values| ==> StripeKey(values[i]) in m && values[i] == m[StripeKey(values[i])]
    ensures forall k :: k in m ==> m[k] in values
  {
    values := [];
    var remaining := m.Keys;
    while remaining != {}
      invariant remaining <= m.Keys
      invariant DistinctBy(values, StripeKey)
      invariant forall i :: 0 <= i < |values| ==>
                  StripeKey(values[i]) in m.Keys - remaining && values[i] == m[StripeKey(values[i])]
      invariant forall k :: k in m.Keys - remaining ==> m[k] in values
      decreases |remaining|
    {
      var k :| k in remaining;
      values := values + [m[k]];
      remaining := remaining - {k};
    }
  }

  /** mergeClustersToStripes: one stripe per key of the input, each the key's clusters
      walked and folded, the list sorted by start. */
  method MergeClustersToStripes(period: nat, preMerged: seq<Cluster>) returns (stripes: seq<Stripe>)
    ensures SortedBy(stripes, StripeStart)
    ensures DistinctBy(stripes, StripeKey)
    ensures forall k :: k in KeysOf(preMerged) <==> exists i :: 0 <= i < |stripes| && StripeKey(stripes[i]) == k
    ensures forall i :: 0 <= i < |stripes| ==>
              StripeKey(stripes[i]) in KeysOf(preMerged)
              && stripes[i] == KeyStripe(preMerged, StripeKey(stripes[i]), Quarter(period))
  {
    var quarter := Quarter(period);
    var groups := GroupByKey(preMerged);
    forall k | k in groups ensures groups[k] != [] {
      WithKeyPresent(preMerged, k);
    }
    var aggEvents := MergeWithinKeys(groups, quarter);
    var stripeMap := FoldIntoStripes(aggEvents);
    PhasesGiveKeyStripes(preMerged, quarter, groups, aggEvents, stripeMap);
    var values := StripeList(stripeMap);
    stripes := SortBy(values, StripeStart);
    SortedKeyStripes(preMerged, quarter, stripeMap, values);
  }

  /** The map holds, for every key of the input, that key's stripe. */
  predicate IsKeyStripeMap(preMerged: seq<Cluster>, quarter: int, m: map<Key, Stripe>) {
    && m.Keys == KeysOf(preMerged)
    && (forall k {:trigger m[k]} :: k in m ==>
          StripeKey(m[k]) == k && m[k] == KeyStripe(preMerged, k, quarter))
  }

  /** Phases 1 to 3 together build the map from each key to its stripe. */
  lemma PhasesGiveKeyStripes(preMerged: seq<Cluster>, quarter: int, groups: map<Key, seq<Cluster>>,
                             aggEvents: seq<Cluster>, stripeMap: map<Key, Stripe>)
    requires groups.Keys == KeysOf(preMerged)
    requires forall k :: k in groups ==> groups[k] == WithKey(preMerged, k) && groups[k] != []
    requires forall i :: 0 <= i < |aggEvents| ==> KeyOf(aggEvents[i]) in groups
    requires forall k :: k in groups ==>
               WithKey(aggEvents, k) == Walk(SortBy(groups[k], ClusterStart), quarter)
    requires FoldedByKey(aggEvents, stripeMap)
    ensures IsKeyStripeMap(preMerged, quarter, stripeMap)
  {
    forall k | k in groups ensures k in KeysOf(aggEvents) {
      assert |Walk(SortBy(groups[k], ClusterStart), quarter)| >= 1;
      WithKeyPresent(aggEvents, k);
    }
    KeysOfExactly(aggEvents, groups.Keys);
    forall k | k in stripeMap
      ensures StripeKey(stripeMap[k]) == k && stripeMap[k] == KeyStripe(preMerged, k, quarter)
    {
      assert WithKey(aggEvents, k) != [];
      FoldStripesKey(WithKey(aggEvents, k), k);
    }
  }

  /** A list whose every key is in ks and that has every key of ks has exactly the keys ks. */
  lemma KeysOfExactly(cs: seq<Cluster>, ks: set<Key>)
    requires forall i :: 0 <= i < |cs| ==> KeyOf(cs[i]) in ks
    requires forall k :: k in ks ==> k in KeysOf(cs)
    ensures KeysOf(cs) == ks
  {
    forall k | k in KeysOf(cs) ensures k in ks {
      var c :| c in cs && KeyOf(c) == k;
      var i :| 0 <= i < |cs| && cs[i] == c;
    }
  }

  /** The sorted list of the map's values: one stripe per key, each its key's stripe. */
  lemma SortedKeyStripes(preMerged: seq<Cluster>, quarter: int, m: map<Key, Stripe>, values: seq<Stripe>)
    requires IsKeyStripeMap(preMerged, quarter, m)
    requires DistinctBy(values, StripeKey)
    requires forall i :: 0 <= i < |values| ==> StripeKey(values[i]) in m && values[i] == m[StripeKey(values[i])]
    requires forall k :: k in m ==> m[k] in values
    ensures DistinctBy(SortBy(values, StripeStart), StripeKey)
    ensures forall k :: k in KeysOf(preMerged) <==>
              exists i :: 0 <= i < |SortBy(values, StripeStart)| && StripeKey(SortBy(values, StripeStart)[i]) == k
    ensures forall i :: 0 <= i < |SortBy(values, StripeStart)| ==>
              StripeKey(SortBy(values, StripeStart)[i]) in KeysOf(preMerged)
              && SortBy(values, StripeStart)[i] == KeyStripe(preMerged, StripeKey(SortBy(values, StripeStart)[i]), quarter)
  {
    var stripes := SortBy(values, StripeStart);
    SortByKeepsDistinct(values, StripeStart, StripeKey);
    forall i | 0 <= i < |stripes|
      ensures StripeKey(stripes[i]) in KeysOf(preMerged)
      ensures stripes[i] == KeyStripe(preMerged, StripeKey(stripes[i]), quarter)
    {
      SortByMembers(values, StripeStart, stripes[i]);
      var j :| 0 <= j < |values| && values[j] == stripes[i];
      assert stripes[i] == m[StripeKey(values[j])];
    }
    forall k | k in KeysOf(preMerged)
      ensures exists i :: 0 <= i < |stripes| && StripeKey(stripes[i]) == k
    {
      SortByMembers(values, StripeStart, m[k]);
      var i :| 0 <= i < |stripes| && stripes[i] == m[k];
      assert StripeKey(stripes[i]) == k;
    }
  }

  // ---------------------------------------------------------------------------------
  // Keys

  lemma SortByKeepsKey(cs: seq<Cluster>, k: Key)
    requires forall i :: 0 <= i < |cs| ==> KeyOf(cs[i]) == k
    ensures forall i :: 0 <= i < |SortBy(cs, ClusterStart)| ==> KeyOf(SortBy(cs, ClusterStart)[i]) == k
  {
    var s := SortBy(cs, ClusterStart);
    forall i | 0 <= i < |s| ensures KeyOf(s[i]) == k {
      SortByMembers(cs, ClusterStart, s[i]);
    }
  }

  /** The walk of clusters of one key emits clusters of that key only. */
  lemma {:induction false} WalkKeepsKey(current: Cluster, rest: seq<Cluster>, quarter: int, k: Key)
    requires KeyOf(current) == k
    requires forall i :: 0 <= i < |rest| ==> KeyOf(rest[i]) == k
    ensures forall i :: 0 <= i < |WalkFrom(current, rest, quarter)| ==> KeyOf(WalkFrom(current, rest, quarter)[i]) == k
    decreases |rest|
  {
    if rest != [] {
      WalkKeepsKey(MergeClusters(current, rest[0]), rest[1..], quarter, k);
      WalkKeepsKey(rest[0], rest[1..], quarter, k);
    }
  }

  /** A fold over clusters of one key is a stripe of that key. */
  lemma {:induction false} FoldStripesKey(cs: seq<Cluster>, k: Key)
    requires cs != []
    requires forall i :: 0 <= i < |cs| ==> KeyOf(cs[i]) == k
    ensures StripeKey(FoldStripes(cs)) == k
    decreases |cs|
  {
    if |cs| > 1 {
      FoldStripesKey(cs[..|cs| - 1], k);
    }
  }

  // ---------------------------------------------------------------------------------
  // Ids

  datatype IdKind = EventIds | HashHitIds | TaggedIds

  function ClusterIds(c: Cluster, kind: IdKind): set<int> {
    match kind
    case EventIds => c.eventIDs
    case HashHitIds => c.hashHits
    case TaggedIds => c.tagged
  }

  function StripeIds(s: Stripe, kind: IdKind): set<int> {
    match kind
    case EventIds => s.eventIDs
    case HashHitIds => s.hashHits
    case TaggedIds => s.tagged
  }

  /** The ids of one kind of all the clusters in cs. */
  function IdsOf(cs: seq<Cluster>, kind: IdKind): set<int> {
    set i, x | 0 <= i < |cs| && x in ClusterIds(cs[i], kind) :: x
  }

  lemma InIdsOf(cs: seq<Cluster>, kind: IdKind, i: int, x: int)
    requires 0 <= i < |cs| && x in ClusterIds(cs[i], kind)
    ensures x in IdsOf(cs, kind)
  {
  }

  lemma IdsOfCons(c: Cluster, cs: seq<Cluster>, kind: IdKind)
    ensures IdsOf([c] + cs, kind) == ClusterIds(c, kind) + IdsOf(cs, kind)
  {
    var s := [c] + cs;
    forall x | x in ClusterIds(c, kind) ensures x in IdsOf(s, kind) {
      InIdsOf(s, kind, 0, x);
    }
    forall x | x in IdsOf(cs, kind) ensures x in IdsOf(s, kind) {
      var i :| 0 <= i < |cs| && x in ClusterIds(cs[i], kind);
      assert s[i + 1] == cs[i];
      InIdsOf(s, kind, i + 1, x);
    }
    forall x | x in IdsOf(s, kind) ensures x in ClusterIds(c, kind) + IdsOf(cs, kind) {
      var i :| 0 <= i < |s| && x in ClusterIds(s[i], kind);
      if i > 0 {
        assert s[i] == cs[i - 1];
        InIdsOf(cs, kind, i - 1, x);
      }
    }
  }

  lemma IdsOfSnoc(cs: seq<Cluster>, c: Cluster, kind: IdKind)
    ensures IdsOf(cs + [c], kind) == IdsOf(cs, kind) + ClusterIds(c, kind)
  {
    var s := cs + [c];
    forall x | x in ClusterIds(c, kind) ensures x in IdsOf(s, kind) {
      InIdsOf(s, kind, |cs|, x);
    }
    forall x | x in IdsOf(cs, kind) ensures x in IdsOf(s, kind) {
      var i :| 0 <= i < |cs| && x in ClusterIds(cs[i], kind);
      assert s[i] == cs[i];
      InIdsOf(s, kind, i, x);
    }
    forall x | x in IdsOf(s, kind) ensures x in IdsOf(cs, kind) + ClusterIds(c, kind) {
      var i :| 0 <= i < |s| && x in ClusterIds(s[i], kind);
      if i < |cs| {
        assert s[i] == cs[i];
        InIdsOf(cs, kind, i, x);
      }
    }
  }

  /** The ids depend only on which clusters are present. */
  lemma IdsOfSameMembers(a: seq<Cluster>, b: seq<Cluster>, kind: IdKind)
    requires forall c :: c in a <==> c in b
    ensures IdsOf(a, kind) == IdsOf(b, kind)
  {
    forall x | x in IdsOf(a, kind) ensures x in IdsOf(b, kind) {
      var i :| 0 <= i < |a| && x in ClusterIds(a[i], kind);
      assert a[i] in b;
      var j :| 0 <= j < |b| && b[j] == a[i];
      InIdsOf(b, kind, j, x);
    }
    forall x | x in IdsOf(b, kind) ensures x in IdsOf(a, kind) {
      var j :| 0 <= j < |b| && x in ClusterIds(b[j], kind);
      assert b[j] in a;
      var i :| 0 <= i < |a| && a[i] == b[j];
      InIdsOf(a, kind, i, x);
    }
  }

  /** The walk loses and invents no id. */
  lemma {:induction false} WalkKeepsIds(current: Cluster, rest: seq<Cluster>, quarter: int, kind: IdKind)
    ensures IdsOf(WalkFrom(current, rest, quarter), kind) == IdsOf([current] + rest, kind)
    decreases |rest|
  {
    IdsOfCons(current, rest, kind);
    if rest == [] {
      assert [current] + rest == [current];
    } else {
      IdsOfCons(rest[0], rest[1..], kind);
      assert rest == [rest[0]] + rest[1..];
      if CloseEnough(current.span, rest[0].span, quarter) {
        var m := MergeClusters(current, rest[0]);
        WalkKeepsIds(m, rest[1..], quarter, kind);
        IdsOfCons(m, rest[1..], kind);
      } else {
        WalkKeepsIds(rest[0], rest[1..], quarter, kind);
        IdsOfCons(current, WalkFrom(rest[0], rest[1..], quarter), kind);
      }
    }
  }

  /** The fold of a key's clusters carries exactly their ids and is made of exactly them. */
  lemma {:induction false} FoldStripesContents(cs: seq<Cluster>, kind: IdKind)
    requires cs != []
    ensures StripeIds(FoldStripes(cs), kind) == IdsOf(cs, kind)
    ensures FoldStripes(cs).clusters == set c | c in cs
    decreases |cs|
  {
    if |cs| == 1 {
      IdsOfSnoc([], cs[0], kind);
      assert cs == [] + [cs[0]];
    } else {
      var init := cs[..|cs| - 1];
      FoldStripesContents(init, kind);
      assert cs == init + [cs[|cs| - 1]];
      IdsOfSnoc(init, cs[|cs| - 1], kind);
    }
  }

  // ---------------------------------------------------------------------------------
  // Spans

  /** The hull of the spans of a non-empty list of clusters. */
  function SpanHull(cs: seq<Cluster>): Span
    requires cs != []
    decreases |cs|
  {
    if |cs| == 1 then cs[0].span else Hull(cs[0].span, SpanHull(cs[1..]))
  }

  predicate Covers(s: Span, cs: seq<Cluster>) {
    forall i :: 0 <= i < |cs| ==> s.start <= cs[i].span.start && cs[i].span.end <= s.end
  }

  /** SpanHull is the smallest span covering every cluster of the list. */
  lemma {:induction false} SpanHullIsSmallestCover(cs: seq<Cluster>, s: Span)
    requires cs != []
    ensures Covers(SpanHull(cs), cs)
    ensures Covers(s, cs) ==> s.start <= SpanHull(cs).start && SpanHull(cs).end <= s.end
    decreases |cs|
  {
    if |cs| > 1 {
      SpanHullIsSmallestCover(cs[1..], s);
      assert forall i :: 1 <= i < |cs| ==> cs[i] == cs[1..][i - 1];
      if Covers(s, cs) {
        assert Covers(s, cs[1..]);
      }
    }
  }

  lemma {:induction false} SpanHullSnoc(cs: seq<Cluster>, c: Cluster)
    requires cs != []
    ensures SpanHull(cs + [c]) == Hull(SpanHull(cs), c.span)
    decreases |cs|
  {
    if |cs| == 1 {
      assert (cs + [c])[1..] == [c];
    } else {
      assert (cs + [c])[1..] == cs[1..] + [c];
      SpanHullSnoc(cs[1..], c);
    }
  }

  /** The walk's emitted clusters span exactly what its input spans. */
  lemma {:induction false} WalkKeepsSpanHull(current: Cluster, rest: seq<Cluster>, quarter: int)
    ensures SpanHull(WalkFrom(current, rest, quarter)) == SpanHull([current] + rest)
    decreases |rest|
  {
    if rest != [] {
      assert ([current] + rest)[1..] == rest;
      if CloseEnough(current.span, rest[0].span, quarter) {
        var m := MergeClusters(current, rest[0]);
        WalkKeepsSpanHull(m, rest[1..], quarter);
        if |rest| > 1 {
          assert ([m] + rest[1..])[1..] == rest[1..];
        }
      } else {
        WalkKeepsSpanHull(rest[0], rest[1..], quarter);
        var w := WalkFrom(rest[0], rest[1..], quarter);
        assert ([current] + w)[1..] == w;
        assert ([rest[0]] + rest[1..]) == rest;
      }
    }
  }

  lemma SpanHullCons(c: Cluster, s: seq<Cluster>)
    requires s != []
    ensures SpanHull([c] + s) == Hull(c.span, SpanHull(s))
  {
    assert ([c] + s)[1..] == s;
  }

  lemma HullSwap(a: Span, b: Span, c: Span)
    ensures Hull(a, Hull(b, c)) == Hull(b, Hull(a, c))
  {
  }

  /** Inserting into a sorted list keeps the hull. */
  lemma {:induction false} InsertKeepsSpanHull(x: Cluster, s: seq<Cluster>)
    requires SortedBy(s, ClusterStart)
    ensures SpanHull(Insert(x, s, ClusterStart)) == SpanHull([x] + s)
    decreases |s|
  {
    if s != [] && ClusterStart(x) > ClusterStart(s[0]) {
      var tail := s[1..];
      var rest := Insert(x, tail, ClusterStart);
      assert Insert(x, s, ClusterStart) == [s[0]] + rest;
      InsertKeepsSpanHull(x, tail);
      SpanHullCons(s[0], rest);
      assert s == [s[0]] + tail;
      if tail == [] {
        SpanHullCons(x, s);
        assert [x] + tail == [x];
      } else {
        SpanHullCons(x, tail);
        SpanHullCons(s[0], tail);
        SpanHullCons(x, s);
        HullSwap(s[0].span, x.span, SpanHull(tail));
      }
    }
  }

  /** Sorting does not change the hull. */
  lemma {:induction false} SortByKeepsSpanHull(s: seq<Cluster>)
    requires s != []
    ensures SpanHull(SortBy(s, ClusterStart)) == SpanHull(s)
    decreases |s|
  {
    var sorted := SortBy(s[1..], ClusterStart);
    InsertKeepsSpanHull(s[0], sorted);
    if |s| > 1 {
      SortByKeepsSpanHull(s[1..]);
      assert ([s[0]] + sorted)[1..] == sorted;
    } else {
      assert s[1..] == [];
    }
  }

  lemma {:induction false} FoldStripesSpan(cs: seq<Cluster>)
    requires cs != []
    ensures FoldStripes(cs).span == SpanHull(cs)
    decreases |cs|
  {
    if |cs| > 1 {
      var init := cs[..|cs| - 1];
      FoldStripesSpan(init);
      SpanHullSnoc(init, cs[|cs| - 1]);
      assert cs == init + [cs[|cs| - 1]];
    }
  }

  // ---------------------------------------------------------------------------------
  // Runs: which input clusters each emitted cluster is made of

  /** The clusters of a run merged into one, in order, as the running current cluster
      absorbs them. */
  function MergeRun(run: seq<Cluster>): Cluster
    requires run != []
    decreases |run|
  {
    if |run| == 1 then run[0] else MergeClusters(MergeRun(run[..|run| - 1]), run[|run| - 1])
  }

  /** Every cluster of the run after the first was close enough to the merge of the
      clusters before it. */
  predicate Chained(run: seq<Cluster>, quarter: int) {
    forall j :: 1 <= j < |run| ==> CloseEnough(MergeRun(run[..j]).span, run[j].span, quarter)
  }

  function Flatten(runs: seq<seq<Cluster>>): seq<Cluster> {
    if runs == [] then [] else runs[0] + Flatten(runs[1..])
  }

  /** A partition of the input into runs: each run is chained, each run's merge is not
      close enough to the first cluster of the next run, and the walk emits the runs'
      merges in order. */
  ghost predicate IsWalkPartition(runs: seq<seq<Cluster>>, walked: seq<Cluster>, quarter: int) {
    && (forall k :: 0 <= k < |runs| ==> runs[k] != [] && Chained(runs[k], quarter))
    && (forall k, l :: 0 <= k && l == k + 1 && l < |runs| ==>
          runs[l] != [] && !CloseEnough(MergeRun(runs[k]).span, runs[l][0].span, quarter))
    && |walked| == |runs|
    && (forall k :: 0 <= k < |runs| ==> runs[k] != [] && walked[k] == MergeRun(runs[k]))
  }

  lemma ChainedSnoc(pre: seq<Cluster>, c: Cluster, quarter: int)
    requires pre != [] && Chained(pre, quarter)
    requires CloseEnough(MergeRun(pre).span, c.span, quarter)
    ensures Chained(pre + [c], quarter)
    ensures MergeRun(pre + [c]) == MergeClusters(MergeRun(pre), c)
  {
    var run := pre + [c];
    assert run[..|pre|] == pre;
    forall j | 1 <= j < |run| ensures CloseEnough(MergeRun(run[..j]).span, run[j].span, quarter) {
      if j < |pre| {
        assert run[..j] == pre[..j] && run[j] == pre[j];
      }
    }
  }

  lemma ChainedOne(c: Cluster, quarter: int)
    ensures Chained([c], quarter) && MergeRun([c]) == c
  {
  }

  lemma PartitionCons(pre: seq<Cluster>, runs: seq<seq<Cluster>>, walked: seq<Cluster>, quarter: int)
    requires pre != [] && Chained(pre, quarter)
    requires IsWalkPartition(runs, walked, quarter) && runs != []
    requires !CloseEnough(MergeRun(pre).span, runs[0][0].span, quarter)
    ensures IsWalkPartition([pre] + runs, [MergeRun(pre)] + walked, quarter)
  {
    var rs := [pre] + runs;
    var ws := [MergeRun(pre)] + walked;
    forall k | 1 <= k < |rs| ensures rs[k] == runs[k - 1] && ws[k] == walked[k - 1] {
    }
  }

  /** The walk from the merge of a chained run splits the run plus the rest into runs. */
  lemma {:induction false} WalkFromRuns(pre: seq<Cluster>, rest: seq<Cluster>, quarter: int)
    returns (runs: seq<seq<Cluster>>)
    requires pre != [] && Chained(pre, quarter)
    ensures Flatten(runs) == pre + rest
    ensures runs != [] && |runs[0]| >= |pre| && runs[0][..|pre|] == pre
    ensures IsWalkPartition(runs, WalkFrom(MergeRun(pre), rest, quarter), quarter)
    decreases |rest|
  {
    if rest == [] {
      runs := [pre];
      assert Flatten(runs) == pre + Flatten([]);
    } else if CloseEnough(MergeRun(pre).span, rest[0].span, quarter) {
      ChainedSnoc(pre, rest[0], quarter);
      runs := WalkFromRuns(pre + [rest[0]], rest[1..], quarter);
      assert pre + [rest[0]] + rest[1..] == pre + rest;
      assert runs[0][..|pre|] == (runs[0][..|pre| + 1])[..|pre|];
    } else {
      ChainedOne(rest[0], quarter);
      var tail := WalkFromRuns([rest[0]], rest[1..], quarter);
      assert [rest[0]] + rest[1..] == rest;
      assert tail[0][0] == tail[0][..1][0];
      PartitionCons(pre, tail, WalkFrom(rest[0], rest[1..], quarter), quarter);
      runs := [pre] + tail;
      assert runs[1..] == tail;
      assert runs[0][..|pre|] == pre;
    }
  }

  /** The walk, characterised by its input: the input splits into consecutive runs, one per
      emitted cluster, each emitted cluster is its run merged, a cluster joins its run
      exactly when it is close enough to the run so far, and a run ends exactly when the
      next cluster is not. */
  lemma WalkRuns(s: seq<Cluster>, quarter: int) returns (runs: seq<seq<Cluster>>)
    requires s != []
    ensures Flatten(runs) == s
    ensures IsWalkPartition(runs, Walk(s, quarter), quarter)
  {
    ChainedOne(s[0], quarter);
    runs := WalkFromRuns([s[0]], s[1..], quarter);
    assert [s[0]] + s[1..] == s;
  }

  /** A merged run spans the hull of its clusters. */
  lemma {:induction false} MergeRunSpan(run: seq<Cluster>)
    requires run != []
    ensures MergeRun(run).span == SpanHull(run)
    decreases |run|
  {
    if |run| > 1 {
      var init := run[..|run| - 1];
      MergeRunSpan(init);
      assert run == init + [run[|run| - 1]];
      SpanHullSnoc(init, run[|run| - 1]);
    }
  }

  /** For spans in start order, "close enough" means the later span starts no more than the
      quarter period after the earlier one ends. */
  lemma CloseEnoughInOrder(a: Span, b: Span, quarter: nat)
    requires a.start <= b.start && ValidSpan(b)
    ensures CloseEnough(a, b, quarter) <==> b.start <= a.end + quarter
  {
  }

  /** The pieces of a sorted flattening are sorted, and every piece lies before the first
      cluster of the next one. */
  lemma {:induction false} FlattenSorted(runs: seq<seq<Cluster>>)
    requires forall k :: 0 <= k < |runs| ==> runs[k] != []
    requires SortedBy(Flatten(runs), ClusterStart)
    ensures forall k :: 0 <= k < |runs| ==> SortedBy(runs[k], ClusterStart)
    ensures forall k, l, i :: 0 <= k && l == k + 1 && l < |runs| && 0 <= i < |runs[k]| ==>
              ClusterStart(runs[k][i]) <= ClusterStart(runs[l][0])
    ensures forall k :: 0 <= k < |runs| ==> AllValid(Flatten(runs)) ==> AllValid(runs[k])
  {
    if runs != [] {
      var f := Flatten(runs);
      var rest := Flatten(runs[1..]);
      assert f == runs[0] + rest;
      assert forall i :: 0 <= i < |runs[0]| ==> f[i] == runs[0][i];
      assert forall i :: 0 <= i < |rest| ==> f[|runs[0]| + i] == rest[i];
      assert SortedBy(rest, ClusterStart);
      assert forall k :: 0 <= k < |runs[1..]| ==> runs[1..][k] == runs[k + 1];
      FlattenSorted(runs[1..]);
      if |runs| > 1 {
        assert rest == runs[1] + Flatten(runs[2..]);
        assert rest[0] == runs[1][0];
      }
      assert AllValid(f) ==> AllValid(rest);
    }
  }

  lemma SpanHullStartsFirst(run: seq<Cluster>)
    requires run != []
    ensures SpanHull(run).start <= run[0].span.start
  {
    SpanHullIsSmallestCover(run, run[0].span);
  }

  /** Over start-sorted valid clusters, every cluster joins the current cluster of its run
      only when it starts no more than the quarter period after the end of the run's hull
      so far, and the first cluster of a new run starts more than the quarter period after
      the hull of the run before it ends. */
  lemma WalkMergesOnlyClose(s: seq<Cluster>, quarter: nat) returns (runs: seq<seq<Cluster>>)
    requires s != [] && AllValid(s) && SortedBy(s, ClusterStart)
    ensures Flatten(runs) == s
    ensures IsWalkPartition(runs, Walk(s, quarter), quarter)
    ensures forall k, j :: 0 <= k < |runs| && 1 <= j < |runs[k]| ==>
              runs[k][j].span.start <= SpanHull(runs[k][..j]).end + quarter
    ensures forall k, l :: 0 <= k && l == k + 1 && l < |runs| ==>
              runs[l][0].span.start > SpanHull(runs[k]).end + quarter
  {
    runs := WalkRuns(s, quarter);
    FlattenSorted(runs);
    forall k, j | 0 <= k < |runs| && 1 <= j < |runs[k]|
      ensures runs[k][j].span.start <= SpanHull(runs[k][..j]).end + quarter
    {
      var run := runs[k];
      var init := run[..j];
      MergeRunSpan(init);
      SpanHullStartsFirst(init);
      assert init[0] == run[0];
      assert ValidSpan(run[j].span);
      CloseEnoughInOrder(SpanHull(init), run[j].span, quarter);
    }
    forall k, l | 0 <= k && l == k + 1 && l < |runs|
      ensures runs[l][0].span.start > SpanHull(runs[k]).end + quarter
    {
      MergeRunSpan(runs[k]);
      SpanHullStartsFirst(runs[k]);
      assert ValidSpan(runs[l][0].span);
      CloseEnoughInOrder(SpanHull(runs[k]), runs[l][0].span, quarter);
    }
  }

  // ---------------------------------------------------------------------------------
  // What the merge promises

  predicate AllValid(cs: seq<Cluster>) {
    forall i :: 0 <= i < |cs| ==> ValidSpan(cs[i].span)
  }

  /** The ids of a key's stripe are exactly the ids of the input clusters of that key, its
      span is the smallest span covering theirs, and its clusters are the walk's output. */
  lemma KeyStripeContents(preMerged: seq<Cluster>, k: Key, quarter: int, kind: IdKind)
    requires k in KeysOf(preMerged)
    ensures StripeKey(KeyStripe(preMerged, k, quarter)) == k
    ensures StripeIds(KeyStripe(preMerged, k, quarter), kind) == IdsOf(WithKey(preMerged, k), kind)
    ensures WithKey(preMerged, k) != [] && KeyStripe(preMerged, k, quarter).span == SpanHull(WithKey(preMerged, k))
    ensures KeyStripe(preMerged, k, quarter).clusters ==
            set c | c in Walk(SortBy(WithKey(preMerged, k), ClusterStart), quarter)
  {
    WithKeyPresent(preMerged, k);
    var group := WithKey(preMerged, k);
    var sorted := SortBy(group, ClusterStart);
    var walked := Walk(sorted, quarter);
    SortByKeepsKey(group, k);
    WalkKeepsKey(sorted[0], sorted[1..], quarter, k);
    FoldStripesKey(walked, k);
    FoldStripesContents(walked, kind);
    WalkKeepsIds(sorted[0], sorted[1..], quarter, kind);
    assert [sorted[0]] + sorted[1..] == sorted;
    forall c ensures c in sorted <==> c in group {
      SortByMembers(group, ClusterStart, c);
    }
    IdsOfSameMembers(sorted, group, kind);
    FoldStripesSpan(walked);
    WalkKeepsSpanHull(sorted[0], sorted[1..], quarter);
    SortByKeepsSpanHull(group);
  }

  /** Every input cluster ends up in the stripe of its key: all its ids are there and
      its span lies within the stripe's span. */
  lemma EveryClusterInItsStripe(preMerged: seq<Cluster>, i: nat, quarter: int, kind: IdKind)
    requires i < |preMerged|
    ensures KeyOf(preMerged[i]) in KeysOf(preMerged)
    ensures ClusterIds(preMerged[i], kind) <= StripeIds(KeyStripe(preMerged, KeyOf(preMerged[i]), quarter), kind)
    ensures KeyStripe(preMerged, KeyOf(preMerged[i]), quarter).span.start <= preMerged[i].span.start
    ensures preMerged[i].span.end <= KeyStripe(preMerged, KeyOf(preMerged[i]), quarter).span.end
  {
    var c := preMerged[i];
    var k := KeyOf(c);
    assert k in KeysOf(preMerged);
    KeyStripeContents(preMerged, k, quarter, kind);
    var group := WithKey(preMerged, k);
    WithKeyMembers(preMerged, k, c);
    var j :| 0 <= j < |group| && group[j] == c;
    forall x | x in ClusterIds(c, kind) ensures x in IdsOf(group, kind) {
      InIdsOf(group, kind, j, x);
    }
    SpanHullIsSmallestCover(group, c.span);
  }

  /** The walk over start-sorted valid clusters keeps the current cluster's start. */
  lemma {:induction false} WalkStartsAtCurrent(current: Cluster, rest: seq<Cluster>, quarter: int)
    requires ValidSpan(current.span) && AllValid(rest) && SortedBy(rest, ClusterStart)
    requires rest != [] ==> current.span.start <= rest[0].span.start
    ensures WalkFrom(current, rest, quarter)[0].span.start == current.span.start
    decreases |rest|
  {
    if rest != [] && CloseEnough(current.span, rest[0].span, quarter) {
      WalkStartsAtCurrent(MergeClusters(current, rest[0]), rest[1..], quarter);
    }
  }

  /** Consecutive emitted clusters are more than the quarter period apart, in order. */
  predicate Separated(ws: seq<Cluster>, quarter: int) {
    forall i :: 0 <= i < |ws| - 1 ==> ws[i].span.end + quarter < ws[i + 1].span.start
  }

  /** Two emitted neighbours were not merged because the later one starts more than the
      quarter period after the earlier one ends; the emitted spans are valid. */
  lemma {:induction false} WalkSeparates(current: Cluster, rest: seq<Cluster>, quarter: int)
    requires ValidSpan(current.span) && AllValid(rest) && SortedBy(rest, ClusterStart)
    requires rest != [] ==> current.span.start <= rest[0].span.start
    ensures Separated(WalkFrom(current, rest, quarter), quarter)
    ensures AllValid(WalkFrom(current, rest, quarter))
    decreases |rest|
  {
    if rest != [] {
      var next := rest[0];
      var tail := rest[1..];
      assert AllValid(tail) && SortedBy(tail, ClusterStart);
      if |tail| > 0 {
        assert SortedBy(rest, ClusterStart) && rest[1] == tail[0];
        assert ClusterStart(rest[0]) <= ClusterStart(rest[1]);
      }
      if CloseEnough(current.span, next.span, quarter) {
        WalkSeparates(MergeClusters(current, next), tail, quarter);
      } else {
        WalkSeparates(next, tail, quarter);
        WalkStartsAtCurrent(next, tail, quarter);
        var w := WalkFrom(next, tail, quarter);
        assert WalkFrom(current, rest, quarter) == [current] + w;
      }
    }
  }

  /** A separated list of valid clusters walks to itself. */
  lemma {:induction false} WalkOfSeparated(ws: seq<Cluster>, quarter: nat)
    requires ws != [] && AllValid(ws) && Separated(ws, quarter)
    ensures Walk(ws, quarter) == ws
    decreases |ws|
  {
    if |ws| > 1 {
      var tail := ws[1..];
      assert Separated(tail, quarter) && AllValid(tail) by {
        assert forall i :: 0 <= i < |tail| ==> tail[i] == ws[i + 1];
      }
      WalkOfSeparated(tail, quarter);
      assert !CloseEnough(ws[0].span, ws[1].span, quarter);
      assert tail[0] == ws[1] && tail[1..] == ws[2..];
      assert ws == [ws[0]] + tail;
    }
  }

  /** The walk is idempotent: walking its output again merges nothing more. */
  lemma WalkIdempotent(sorted: seq<Cluster>, quarter: nat)
    requires sorted != [] && AllValid(sorted) && SortedBy(sorted, ClusterStart)
    ensures Walk(Walk(sorted, quarter), quarter) == Walk(sorted, quarter)
  {
    assert AllValid(sorted[1..]) && SortedBy(sorted[1..], ClusterStart);
    if |sorted| > 1 {
      assert sorted[1..][0] == sorted[1];
    }
    WalkSeparates(sorted[0], sorted[1..], quarter);
    WalkOfSeparated(Walk(sorted, quarter), quarter);
  }

  /** Within a key, the clusters of its stripe are pairwise more than the quarter period
      apart: the walk left no mergeable neighbours. */
  lemma KeyStripeClustersSeparated(preMerged: seq<Cluster>, k: Key, quarter: nat)
    requires k in KeysOf(preMerged) && AllValid(preMerged)
    ensures WithKey(preMerged, k) != []
    ensures Separated(Walk(SortBy(WithKey(preMerged, k), ClusterStart), quarter), quarter)
  {
    WithKeyPresent(preMerged, k);
    var group := WithKey(preMerged, k);
    var sorted := SortBy(group, ClusterStart);
    forall i | 0 <= i < |sorted| ensures ValidSpan(sorted[i].span) {
      SortByMembers(group, ClusterStart, sorted[i]);
      WithKeyMembers(preMerged, k, sorted[i]);
      var j :| 0 <= j < |preMerged| && preMerged[j] == sorted[i];
    }
    assert AllValid(sorted[1..]) && SortedBy(sorted[1..], ClusterStart);
    if |sorted| > 1 {
      assert sorted[1..][0] == sorted[1];
    }
    WalkSeparates(sorted[0], sorted[1..], quarter);
  }

  /** The walk of two clusters merges them exactly when they are close enough. */
  lemma WalkOfTwo(a: Cluster, b: Cluster, quarter: int)
    ensures CloseEnough(a.span, b.span, quarter) ==> Walk([a, b], quarter) == [MergeClusters(a, b)]
    ensures !CloseEnough(a.span, b.span, quarter) ==> Walk([a, b], quarter) == [a, b]
  {
    assert [a, b][1..] == [b];
    assert [b][1..] == [];
    assert Walk([a, b], quarter) == WalkFrom(a, [b], quarter);
    assert WalkFrom(MergeClusters(a, b), [], quarter) == [MergeClusters(a, b)];
    assert WalkFrom(b, [], quarter) == [b];
  }

  lemma IdsOfTwo(a: Cluster, b: Cluster, kind: IdKind)
    ensures IdsOf([a, b], kind) == ClusterIds(a, kind) + ClusterIds(b, kind)
  {
    assert [a, b] == [a] + [b];
    IdsOfCons(a, [b], kind);
    assert [b] == [b] + [];
    IdsOfCons(b, [], kind);
    assert IdsOf([], kind) == {};
  }

  /** On an input of one key already sorted by start, the key's stripe carries the
      input's ids and spans the input's hull. */
  lemma KeyStripeOfSortedKey(cs: seq<Cluster>, k: Key, quarter: int, kind: IdKind)
    requires cs != [] && SortedBy(cs, ClusterStart)
    requires forall i :: 0 <= i < |cs| ==> KeyOf(cs[i]) == k
    ensures KeysOf(cs) == {k}
    ensures StripeIds(KeyStripe(cs, k, quarter), kind) == IdsOf(cs, kind)
    ensures KeyStripe(cs, k, quarter).span == SpanHull(cs)
  {
    assert cs[0] in cs;
    assert KeysOf(cs) == {k};
    WithKeyOfOneKey(cs, k);
    SortBySorted(cs, ClusterStart);
    KeyStripeContents(cs, k, quarter, kind);
  }

  /** Two clusters of one key, [100 s, 102 s] and [500 s, 501 s], the spans from min(time)
      to max(time) of events at 100 s and 102 s and at 500 s and 501 s: the walk merges them
      exactly when the quarter period is at least the 398 s gap, and either way the key
      yields a single stripe, holding one merged cluster or the two clusters. */
  lemma TwoClustersOneStripe(t: EventType, d: string, quarter: nat)
    ensures var c1 := Cluster(t, d, Span(100000, 102000), {1, 2}, {}, {});
            var c2 := Cluster(t, d, Span(500000, 501000), {3}, {}, {});
            && KeysOf([c1, c2]) == {Key(t, d)}
            && (398000 <= quarter ==> Walk([c1, c2], quarter) == [MergeClusters(c1, c2)])
            && (quarter < 398000 ==> Walk([c1, c2], quarter) == [c1, c2])
            && KeyStripe([c1, c2], Key(t, d), quarter).eventIDs == {1, 2, 3}
            && KeyStripe([c1, c2], Key(t, d), quarter).span == Span(100000, 501000)
  {
    var c1 := Cluster(t, d, Span(100000, 102000), {1, 2}, {}, {});
    var c2 := Cluster(t, d, Span(500000, 501000), {3}, {}, {});
    var cs := [c1, c2];
    assert Gap(c1.span, c2.span) == Some(Span(102000, 500000));
    WalkOfTwo(c1, c2, quarter);
    KeyStripeOfSortedKey(cs, Key(t, d), quarter, EventIds);
    IdsOfTwo(c1, c2, EventIds);
    assert cs[1..] == [c2];
  }
}
