/**
 The index of which peers provide which subnets, fed by gossiped records: the latest record of a
 peer replaces what was known of it, and when there are too many subnets the smallest unpinned go.
 */
module ProviderCache {
  import opened Wrappers
  import Sorting

  type SubnetId = nat
  type PeerId = nat
  type Providers = map<SubnetId, set<PeerId>>

  datatype Record = Record(peer: PeerId, subnets: seq<SubnetId>, timestamp: nat)
  datatype Delta = Delta(isNew: bool, added: seq<SubnetId>, removed: seq<SubnetId>)

  datatype Cache = Cache(
    maxSubnets: nat,
    pinned: set<SubnetId>,
    routable: set<PeerId>,
    providers: Providers,
    timestamps: map<PeerId, nat>)

  /** Listed peers are routable and timestamped, and timestamped peers are routable. */
  ghost predicate Consistent(c: Cache) {
    && (forall s, p | s in c.providers && p in c.providers[s] :: p in c.timestamps)
    && c.timestamps.Keys <= c.routable
  }

  function ProvidersOf(providers: Providers, s: SubnetId): set<PeerId> {
    if s in providers then providers[s] else {}
  }

  function Stamp(c: Cache, p: PeerId): nat {
    if p in c.timestamps then c.timestamps[p] else 0
  }

  // ----- What one record does ------------------------------------------------------------------

  /** The peer leaves the subnets the record does not list and joins those it lists. */
  function Relisted(providers: Providers, r: Record): Providers {
    map s | s in providers.Keys + Listed(r.subnets) ::
      if s in r.subnets then ProvidersOf(providers, s) + {r.peer} else ProvidersOf(providers, s) - {r.peer}
  }

  function Listed(subnets: seq<SubnetId>): set<SubnetId> { set s | s in subnets }

  predicate Newer(c: Cache, r: Record) { Stamp(c, r.peer) < r.timestamp }

  /** The effect of a record before anything is pruned. */
  function Noted(c: Cache, r: Record): Cache {
    if r.peer !in c.routable then c
    else if Newer(c, r) then
      c.(providers := Relisted(c.providers, r), timestamps := c.timestamps[r.peer := r.timestamp])
    else
      c.(timestamps := c.timestamps[r.peer := Stamp(c, r.peer)])
  }

  /** Forgetting peers altogether. */
  function Forgotten(c: Cache, gone: set<PeerId>): Cache {
    c.(routable := c.routable - gone,
       timestamps := c.timestamps - gone,
       providers := map s | s in c.providers :: c.providers[s] - gone)
  }

  /** How many subnets there are too many. */
  function Excess(c: Cache): nat {
    if |c.providers| > c.maxSubnets then |c.providers| - c.maxSubnets else 0
  }

  ghost predicate Unpinned(c: Cache, s: SubnetId) { s in c.providers && s !in c.pinned }

  /**
   A pruning of `c` drops only unpinned subnets, never more than the excess, and the smallest first;
   it stops short of the excess only when nothing unpinned is left.
   */
  ghost predicate PruningOf(c: Cache, dropped: set<SubnetId>) {
    && (forall s | s in dropped :: Unpinned(c, s))
    && |dropped| <= Excess(c)
    && (|dropped| == Excess(c) || forall s | s in c.providers && s !in dropped :: s in c.pinned)
    && (forall s, kept | s in dropped && Unpinned(c, kept) && kept !in dropped ::
          |c.providers[s]| <= |c.providers[kept]|)
  }

  /** Exactly these peers are gone: from the routable, from the timestamped and from every subnet; all else stays. */
  ghost predicate Forgets(c: Cache, after: Cache, gone: set<PeerId>) {
    && after.maxSubnets == c.maxSubnets && after.pinned == c.pinned && after.providers.Keys == c.providers.Keys
    && (forall p :: p in after.routable <==> p in c.routable && p !in gone)
    && (forall p :: p in after.timestamps <==> p in c.timestamps && p !in gone)
    && (forall p | p in after.timestamps :: after.timestamps[p] == c.timestamps[p])
    && (forall p, s :: p in ProvidersOf(after.providers, s) <==> p in ProvidersOf(c.providers, s) && p !in gone)
  }

  lemma ForgottenForgets(c: Cache, gone: set<PeerId>)
    ensures Forgets(c, Forgotten(c, gone), gone)
  {
    var after := Forgotten(c, gone);
    forall p, s ensures p in ProvidersOf(after.providers, s) <==> p in ProvidersOf(c.providers, s) && p !in gone {
      assert s in after.providers <==> s in c.providers;
    }
  }

  /**
   What a record that is taken note of changes, told from the listings before and after: its peer provides what it lists,
   others what they did, as far as subnets were not dropped; and the reported change is the peer's, apart from kept
   subnets that were dropped.
   */
  ghost predicate Reports(before: Providers, after: Providers, r: Record, dropped: set<SubnetId>, delta: Delta) {
    && (forall s :: r.peer in ProvidersOf(after, s) <==> s in r.subnets && s !in dropped)
    && (forall p, s | p != r.peer :: p in ProvidersOf(after, s) <==> p in ProvidersOf(before, s) && s !in dropped)
    && Sorting.Distinct(delta.added) && Sorting.Distinct(delta.removed)
    && (forall s :: s in delta.added <==> r.peer in ProvidersOf(after, s) && r.peer !in ProvidersOf(before, s))
    && (forall s :: s in delta.removed <==> r.peer in ProvidersOf(before, s) && s !in r.subnets)
  }

  lemma ChangeIsReported(c: Cache, r: Record, dropped: set<SubnetId>, delta: Delta)
    requires r.peer in c.routable && Newer(c, r)
    requires Enumerates(delta.removed, Leaving(c.providers, r))
    requires Enumerates(delta.added, Joining(c.providers, r) - dropped)
    ensures Reports(c.providers, Noted(c, r).providers - dropped, r, dropped, delta)
  {
    var after := Noted(c, r).providers - dropped;
    forall s ensures s in delta.added <==> r.peer in ProvidersOf(after, s) && r.peer !in ProvidersOf(c.providers, s) {
      assert s in delta.added <==> s in Listed(delta.added);
    }
    forall s ensures s in delta.removed <==> r.peer in ProvidersOf(c.providers, s) && s !in r.subnets {
      assert s in delta.removed <==> s in Listed(delta.removed);
    }
  }

  /** Takes a peer out of every subnet. */
  method WithoutPeer(providers: Providers, p: PeerId) returns (now: Providers)
    ensures now == map s | s in providers :: providers[s] - {p}
  {
    now := providers;
    var todo := providers.Keys;
    while todo != {}
      invariant todo <= now.Keys == providers.Keys
      invariant forall s | s in todo :: now[s] == providers[s]
      invariant forall s | s in now && s !in todo :: now[s] == providers[s] - {p}
      decreases |todo|
    {
      var s :| s in todo;
      now := now[s := now[s] - {p}];
      todo := todo - {s};
    }
  }

  /** The subnets a record makes its peer leave, and those it makes it join. */
  function Leaving(providers: Providers, r: Record): set<SubnetId> {
    set s | s in providers && s !in r.subnets && r.peer in providers[s]
  }

  function Joining(providers: Providers, r: Record): set<SubnetId> {
    set s | s in r.subnets && r.peer !in ProvidersOf(providers, s)
  }

  /** `s` lists the members of a set, each once. */
  ghost predicate Enumerates(s: seq<SubnetId>, members: set<SubnetId>) {
    Sorting.Distinct(s) && Listed(s) == members
  }

  lemma EnumeratesSnoc(s: seq<SubnetId>, members: set<SubnetId>, x: SubnetId)
    requires Enumerates(s, members) && x !in members
    ensures Enumerates(s + [x], members + {x})
  {
  }

  /** The providers with only the subnets in `todo` still untouched by the departure of the record's peer. */
  function LeftSoFar(providers: Providers, r: Record, todo: set<SubnetId>): Providers {
    map s | s in providers :: if s in todo || s in r.subnets then providers[s] else providers[s] - {r.peer}
  }

  lemma LeaveStep(providers: Providers, r: Record, todo: set<SubnetId>, s: SubnetId)
    requires s in todo && s in providers
    ensures s in LeftSoFar(providers, r, todo) && LeftSoFar(providers, r, todo)[s] == providers[s]
    ensures LeftSoFar(providers, r, todo - {s})
         == if s in Leaving(providers, r) then LeftSoFar(providers, r, todo)[s := providers[s] - {r.peer}]
            else LeftSoFar(providers, r, todo)
  {
    assert r.peer !in providers[s] ==> providers[s] - {r.peer} == providers[s];
  }

  lemma LeavingStep(leaving: set<SubnetId>, todo: set<SubnetId>, s: SubnetId, removed: seq<SubnetId>)
    requires s in todo && Enumerates(removed, leaving - todo)
    ensures Enumerates(if s in leaving then removed + [s] else removed, leaving - (todo - {s}))
  {
    if s in leaving {
      EnumeratesSnoc(removed, leaving - todo, s);
      assert leaving - (todo - {s}) == leaving - todo + {s};
    } else {
      assert leaving - (todo - {s}) == leaving - todo;
    }
  }

  /** Takes the peer out of the subnets its record does not list. */
  method LeaveUnlisted(providers: Providers, r: Record) returns (now: Providers, removed: seq<SubnetId>)
    ensures now == LeftSoFar(providers, r, {})
    ensures Enumerates(removed, Leaving(providers, r))
  {
    now, removed := providers, [];
    ghost var leaving := Leaving(providers, r);
    var todo := providers.Keys;
    assert now == LeftSoFar(providers, r, todo) && leaving - todo == {};
    while todo != {}
      invariant todo <= providers.Keys
      invariant now == LeftSoFar(providers, r, todo)
      invariant Enumerates(removed, leaving - todo)
      decreases |todo|
    {
      var s :| s in todo;
      LeaveStep(providers, r, todo, s);
      LeavingStep(leaving, todo, s, removed);
      if s !in r.subnets && r.peer in now[s] {
        now := now[s := now[s] - {r.peer}];
        removed := removed + [s];
      }
      todo := todo - {s};
    }
    assert leaving - {} == leaving;
  }

  /** The providers with the record's peer in the first `i` subnets the record lists. */
  function JoinedSoFar(providers: Providers, r: Record, i: nat): Providers
    requires i <= |r.subnets|
  {
    map s | s in providers.Keys + Listed(r.subnets[..i]) ::
      if s in r.subnets[..i] then ProvidersOf(providers, s) + {r.peer} else ProvidersOf(providers, s)
  }

  function JoiningSoFar(providers: Providers, r: Record, i: nat): set<SubnetId>
    requires i <= |r.subnets|
  {
    set s | s in r.subnets[..i] && r.peer !in ProvidersOf(providers, s)
  }

  lemma JoinStep(providers: Providers, r: Record, i: nat)
    requires i < |r.subnets|
    ensures var s, now := r.subnets[i], JoinedSoFar(providers, r, i);
      && JoinedSoFar(providers, r, i + 1) == now[s := ProvidersOf(now, s) + {r.peer}]
      && (r.peer in ProvidersOf(now, s) <==> r.peer in ProvidersOf(providers, s) || s in r.subnets[..i])
  {
    assert r.subnets[..i + 1] == r.subnets[..i] + [r.subnets[i]];
  }

  lemma JoiningStep(providers: Providers, r: Record, i: nat, added: seq<SubnetId>)
    requires i < |r.subnets| && Enumerates(added, JoiningSoFar(providers, r, i))
    ensures var s := r.subnets[i];
      Enumerates(if s in JoiningSoFar(providers, r, i) || r.peer in ProvidersOf(providers, s) then added else added + [s],
                 JoiningSoFar(providers, r, i + 1))
  {
    var s, before := r.subnets[i], JoiningSoFar(providers, r, i);
    assert r.subnets[..i + 1] == r.subnets[..i] + [s];
    if s in before || r.peer in ProvidersOf(providers, s) {
      assert JoiningSoFar(providers, r, i + 1) == before;
    } else {
      assert JoiningSoFar(providers, r, i + 1) == before + {s};
      EnumeratesSnoc(added, before, s);
    }
  }

  lemma JoinEnds(providers: Providers, r: Record)
    ensures JoinedSoFar(providers, r, 0) == providers && JoiningSoFar(providers, r, 0) == {}
    ensures JoiningSoFar(providers, r, |r.subnets|) == Joining(providers, r)
  {
    assert r.subnets[..|r.subnets|] == r.subnets;
  }

  /** Puts the peer into every subnet its record lists, in the order of the record. */
  method JoinListed(providers: Providers, r: Record) returns (now: Providers, added: seq<SubnetId>)
    ensures now == JoinedSoFar(providers, r, |r.subnets|)
    ensures Enumerates(added, Joining(providers, r))
  {
    now, added := providers, [];
    JoinEnds(providers, r);
    for i := 0 to |r.subnets|
      invariant now == JoinedSoFar(providers, r, i)
      invariant Enumerates(added, JoiningSoFar(providers, r, i))
    {
      var s := r.subnets[i];
      JoinStep(providers, r, i);
      JoiningStep(providers, r, i, added);
      var peers := ProvidersOf(now, s);
      if r.peer !in peers {
        added := added + [s];
      }
      now := now[s := peers + {r.peer}];
    }
  }

  /** Leaving and joining together relist the peer. */
  lemma LeaveThenJoin(providers: Providers, r: Record)
    ensures JoinedSoFar(LeftSoFar(providers, r, {}), r, |r.subnets|) == Relisted(providers, r)
    ensures Joining(LeftSoFar(providers, r, {}), r) == Joining(providers, r)
  {
  }

  /** Subnets paired with their number of providers, in no particular order. */
  method Counted(providers: Providers) returns (counts: seq<(SubnetId, nat)>)
    ensures CountsOf(providers, counts)
  {
    counts := [];
    var todo := providers.Keys;
    while todo != {}
      invariant todo <= providers.Keys
      invariant forall i | 0 <= i < |counts| :: counts[i].0 in providers && counts[i].1 == |providers[counts[i].0]|
      invariant forall s | s in providers && s !in todo :: HasCount(counts, s)
      decreases |todo|
    {
      var s :| s in todo;
      forall t ensures HasCount(counts + [(s, |providers[s]|)], t) <==> HasCount(counts, t) || t == s {
        HasCountSnoc(counts, (s, |providers[s]|), t);
      }
      counts := counts + [(s, |providers[s]|)];
      todo := todo - {s};
    }
  }

  lemma HasCountSnoc(counts: seq<(SubnetId, nat)>, c: (SubnetId, nat), s: SubnetId)
    ensures HasCount(counts + [c], s) <==> HasCount(counts, s) || s == c.0
  {
    if HasCount(counts, s) {
      var i :| 0 <= i < |counts| && counts[i].0 == s;
      assert (counts + [c])[i].0 == s;
    }
    assert (counts + [c])[|counts|] == c;
  }

  ghost predicate HasCount(counts: seq<(SubnetId, nat)>, s: SubnetId) {
    exists i :: 0 <= i < |counts| && counts[i].0 == s
  }

  /** Each subnet counted once, and rightly. */
  ghost predicate CountsOf(providers: Providers, counts: seq<(SubnetId, nat)>) {
    && (forall i | 0 <= i < |counts| :: counts[i].0 in providers && counts[i].1 == |providers[counts[i].0]|)
    && (forall s | s in providers :: HasCount(counts, s))
  }

  function CountOf(c: (SubnetId, nat)): int { c.1 }

  lemma SortedCounts(providers: Providers, counts: seq<(SubnetId, nat)>)
    requires CountsOf(providers, counts)
    ensures CountsOf(providers, Sorting.SortBy(counts, CountOf))
  {
    var sorted := Sorting.SortBy(counts, CountOf);
    Sorting.SameMembers(sorted, counts);
    forall i | 0 <= i < |sorted| ensures sorted[i].0 in providers && sorted[i].1 == |providers[sorted[i].0]| {
      assert sorted[i] in counts;
    }
    forall s | s in providers ensures HasCount(sorted, s) {
      assert HasCount(counts, s);
      var i :| 0 <= i < |counts| && counts[i].0 == s;
      assert counts[i] in sorted;
    }
  }

  /** Dropping is done in the order of the counts: everything unpinned before position `i`, and nothing else. */
  ghost predicate DroppedBefore(c: Cache, counts: seq<(SubnetId, nat)>, i: nat, dropped: set<SubnetId>)
    requires i <= |counts|
  {
    && (forall j | 0 <= j < i :: counts[j].0 in dropped || counts[j].0 in c.pinned)
    && (forall s | s in dropped :: s !in c.pinned && HasCount(counts[..i], s))
  }

  lemma DroppedAreSmallest(c: Cache, counts: seq<(SubnetId, nat)>, i: nat, dropped: set<SubnetId>)
    requires CountsOf(c.providers, counts) && Sorting.Ascending(counts, CountOf) && i <= |counts|
    requires DroppedBefore(c, counts, i, dropped)
    requires |dropped| <= Excess(c) && (|dropped| == Excess(c) || i == |counts|)
    ensures PruningOf(c, dropped)
  {
    forall s | s in dropped ensures Unpinned(c, s) {
      assert HasCount(counts[..i], s);
    }
    forall s, kept | s in dropped && Unpinned(c, kept) && kept !in dropped
      ensures |c.providers[s]| <= |c.providers[kept]|
    {
      assert HasCount(counts[..i], s) && HasCount(counts, kept);
      var a :| 0 <= a < i && counts[a].0 == s;
      var b :| 0 <= b < |counts| && counts[b].0 == kept;
      Sorting.AscendingAt(counts, CountOf, a, b);
    }
    forall s | s in c.providers && s !in dropped && |dropped| != Excess(c) ensures s in c.pinned {
      assert HasCount(counts, s);
    }
  }

  lemma DropNext(c: Cache, counts: seq<(SubnetId, nat)>, i: nat, dropped: set<SubnetId>)
    requires i < |counts| && DroppedBefore(c, counts, i, dropped)
    ensures DroppedBefore(c, counts, i + 1, if counts[i].0 in c.pinned then dropped else dropped + {counts[i].0})
  {
  }

  lemma RemoveNone(m: Providers)
    ensures m - {} == m
  {
  }

  lemma RemoveOne(m: Providers, dropped: set<SubnetId>, s: SubnetId)
    ensures m - dropped - {s} == m - (dropped + {s})
  {
  }

  /** Drops unpinned subnets in the order of the counts until enough are gone. */
  method DropSmallest(c: Cache, counts: seq<(SubnetId, nat)>) returns (now: Providers, dropped: set<SubnetId>)
    requires CountsOf(c.providers, counts) && Sorting.Ascending(counts, CountOf)
    ensures PruningOf(c, dropped) && now == c.providers - dropped
  {
    now, dropped := c.providers, {};
    RemoveNone(c.providers);
    var i := 0;
    while i < |counts| && |dropped| < Excess(c)
      invariant 0 <= i <= |counts|
      invariant DroppedBefore(c, counts, i, dropped)
      invariant now == c.providers - dropped && |dropped| <= Excess(c)
    {
      DropNext(c, counts, i, dropped);
      var s := counts[i].0;
      if s !in c.pinned {
        RemoveOne(c.providers, dropped, s);
        now, dropped := now - {s}, dropped + {s};
      }
      i := i + 1;
    }
    DroppedAreSmallest(c, counts, i, dropped);
  }

  function Retained(s: seq<SubnetId>, dropped: set<SubnetId>): seq<SubnetId> {
    if s == [] then [] else (if s[0] in dropped then [] else [s[0]]) + Retained(s[1..], dropped)
  }

  lemma {:induction false} RetainedMembers(s: seq<SubnetId>, dropped: set<SubnetId>, x: SubnetId)
    ensures x in Retained(s, dropped) <==> x in s && x !in dropped
  {
    if s != [] {
      RetainedMembers(s[1..], dropped, x);
    }
  }

  lemma {:induction false} RetainedDistinct(s: seq<SubnetId>, dropped: set<SubnetId>)
    requires Sorting.Distinct(s)
    ensures Sorting.Distinct(Retained(s, dropped))
  {
    if s != [] {
      RetainedDistinct(s[1..], dropped);
      RetainedMembers(s[1..], dropped, s[0]);
    }
  }

  lemma RetainedEnumerates(s: seq<SubnetId>, members: set<SubnetId>, dropped: set<SubnetId>)
    requires Enumerates(s, members)
    ensures Enumerates(Retained(s, dropped), members - dropped)
  {
    RetainedDistinct(s, dropped);
    forall x ensures x in Listed(Retained(s, dropped)) <==> x in members - dropped {
      RetainedMembers(s, dropped, x);
      assert x in Listed(s) <==> x in s;
    }
  }

  function Stale(timestamps: map<PeerId, nat>, cutoff: nat): set<PeerId> {
    set p | p in timestamps && timestamps[p] < cutoff
  }

  /** The peers whose last record is older than the cutoff, in no particular order. */
  method StalePeers(timestamps: map<PeerId, nat>, cutoff: nat) returns (stale: seq<PeerId>)
    ensures Enumerates(stale, Stale(timestamps, cutoff))
  {
    stale := [];
    ghost var all := Stale(timestamps, cutoff);
    var todo := timestamps.Keys;
    assert all - todo == {};
    while todo != {}
      invariant todo <= timestamps.Keys
      invariant Enumerates(stale, all - todo)
      decreases |todo|
    {
      var p :| p in todo;
      LeavingStep(all, todo, p, stale);
      if timestamps[p] < cutoff {
        stale := stale + [p];
      }
      todo := todo - {p};
    }
    assert all - {} == all;
  }

  lemma ForgetOneMore(c: Cache, gone: set<PeerId>, p: PeerId)
    ensures Forgotten(Forgotten(c, gone), {p}) == Forgotten(c, gone + {p})
  {
    var a, b := Forgotten(Forgotten(c, gone), {p}), Forgotten(c, gone + {p});
    assert a.routable == b.routable;
    assert a.timestamps == b.timestamps;
    assert a.providers.Keys == b.providers.Keys;
    forall s | s in a.providers ensures a.providers[s] == b.providers[s] {
      assert c.providers[s] - gone - {p} == c.providers[s] - (gone + {p});
    }
  }

  lemma ForgetNobody(c: Cache)
    ensures Forgotten(c, {}) == c
  {
    assert forall s | s in c.providers :: c.providers[s] - {} == c.providers[s];
    assert c.timestamps - {} == c.timestamps;
    assert c.routable - {} == c.routable;
    assert Forgotten(c, {}).providers == c.providers;
  }

  /** What a change of the listing does to who is listed. */
  lemma NotedConsistent(c: Cache, r: Record)
    requires Consistent(c)
    ensures Consistent(Noted(c, r))
  {
  }

  class SubnetProviderCache {
    var maxSubnets: nat
    var pinned: set<SubnetId>
    var routable: set<PeerId>
    var providers: Providers
    var timestamps: map<PeerId, nat>

    ghost function Value(): Cache
      reads this
    {
      Cache(maxSubnets, pinned, routable, providers, timestamps)
    }

    ghost predicate Valid()
      reads this
    {
      Consistent(Value())
    }

    constructor (max: nat, preset: seq<SubnetId>)
      ensures Valid() && Value() == Cache(max, Listed(preset), {}, map[], map[])
    {
      maxSubnets, pinned, routable, providers, timestamps := max, Listed(preset), {}, map[], map[];
    }

    method PinSubnet(s: SubnetId)
      requires Valid()
      modifies this
      ensures Valid() && Value() == old(Value()).(pinned := old(pinned) + {s})
    {
      pinned := pinned + {s};
    }

    method UnpinSubnet(s: SubnetId)
      requires Valid()
      modifies this
      ensures Valid() && Value() == old(Value()).(pinned := old(pinned) - {s})
    {
      pinned := pinned - {s};
    }

    method SetRoutable(p: PeerId)
      requires Valid()
      modifies this
      ensures Valid() && Value() == old(Value()).(routable := old(routable) + {p})
    {
      routable := routable + {p};
    }

    method SetUnroutable(p: PeerId)
      requires Valid()
      modifies this
      ensures Valid() && Value() == Forgotten(old(Value()), {p})
      ensures Forgets(old(Value()), Value(), {p})
    {
      ForgottenForgets(Value(), {p});
      routable, timestamps := routable - {p}, timestamps - {p};
      providers := WithoutPeer(providers, p);
    }

    method PruneSubnets() returns (dropped: set<SubnetId>)
      requires Valid()
      modifies this`providers
      ensures Valid() && PruningOf(old(Value()), dropped)
      ensures providers == old(providers) - dropped
    {
      var c := Cache(maxSubnets, pinned, routable, providers, timestamps);
      if Excess(c) == 0 { return {}; }
      var counts := Counted(providers);
      SortedCounts(providers, counts);
      providers, dropped := DropSmallest(c, Sorting.SortBy(counts, CountOf));
    }

    /**
     Takes note of a record. `dropped` are the subnets pruned on the way: an association of the peer
     is reported as added only if its subnet was not dropped again.
     */
    method AddProvider(r: Record) returns (delta: Option<Delta>, ghost dropped: set<SubnetId>)
      requires Valid()
      modifies this
      ensures Valid()
      ensures delta.None? <==> r.peer !in old(routable)
      ensures delta.Some? ==> (delta.value.isNew <==> r.peer !in old(timestamps))
      ensures r.peer !in old(routable) ==> dropped == {}
      ensures Value() == Noted(old(Value()), r).(providers := Noted(old(Value()), r).providers - dropped)
      ensures r.peer in old(routable) && Newer(old(Value()), r) ==>
        && PruningOf(Noted(old(Value()), r), dropped)
        && Enumerates(delta.value.removed, Leaving(old(providers), r))
        && Enumerates(delta.value.added, Joining(old(providers), r) - dropped)
        && Reports(old(providers), providers, r, dropped, delta.value)
        && timestamps == old(timestamps)[r.peer := r.timestamp]
      ensures r.peer in old(routable) && !Newer(old(Value()), r) ==>
        && dropped == {} && delta.value.added == [] && delta.value.removed == [] && providers == old(providers)
        && forall p | p in timestamps :: timestamps[p] == if p in old(timestamps) then old(timestamps)[p] else 0
      ensures unchanged(`maxSubnets, `pinned, `routable)
    {
      NotedConsistent(Value(), r);
      dropped := {};
      if r.peer !in routable {
        assert providers - {} == providers;
        return None, {};
      }
      var isNew := r.peer !in timestamps;
      var stamp := if r.peer in timestamps then timestamps[r.peer] else 0;
      if stamp >= r.timestamp {
        timestamps := timestamps[r.peer := stamp];
        assert providers - {} == providers;
        return Some(Delta(isNew, [], [])), {};
      }
      timestamps := timestamps[r.peer := r.timestamp];
      LeaveThenJoin(providers, r);
      var left, removed := LeaveUnlisted(providers, r);
      var joined, added := JoinListed(left, r);
      providers := joined;
      assert Value() == Noted(old(Value()), r);
      var pruned := PruneSubnets();
      dropped := pruned;
      RetainedEnumerates(added, Joining(old(providers), r), pruned);
      delta := Some(Delta(isNew, Retained(added, pruned), removed));
      ChangeIsReported(old(Value()), r, pruned, delta.value);
    }

    /** Forgets exactly the peers whose last record is older than the cutoff. */
    method PruneProviders(cutoff: nat) returns (pruned: seq<PeerId>)
      requires Valid()
      modifies this
      ensures Valid() && Value() == Forgotten(old(Value()), Stale(old(timestamps), cutoff))
      ensures Enumerates(pruned, Stale(old(timestamps), cutoff))
      ensures Forgets(old(Value()), Value(), set p | p in old(timestamps) && old(timestamps)[p] < cutoff)
    {
      ForgottenForgets(Value(), Stale(timestamps, cutoff));
      pruned := StalePeers(timestamps, cutoff);
      ForgetNobody(Value());
      assert Listed(pruned[..0]) == {};
      for i := 0 to |pruned|
        invariant Valid()
        invariant Value() == Forgotten(old(Value()), Listed(pruned[..i]))
      {
        SetUnroutable(pruned[i]);
        ForgetOneMore(old(Value()), Listed(pruned[..i]), pruned[i]);
        assert Listed(pruned[..i + 1]) == Listed(pruned[..i]) + {pruned[i]};
      }
      assert pruned[..|pruned|] == pruned;
    }

    method ProvidersOfSubnet(s: SubnetId) returns (peers: seq<PeerId>)
      ensures Enumerates(peers, ProvidersOf(providers, s))
    {
      peers := [];
      var all := ProvidersOf(providers, s);
      var todo := all;
      assert all - todo == {};
      while todo != {}
        invariant todo <= all
        invariant Enumerates(peers, all - todo)
        decreases |todo|
      {
        var p :| p in todo;
        LeavingStep(all, todo, p, peers);
        peers := peers + [p];
        todo := todo - {p};
      }
      assert all - {} == all;
    }
  }

  // ----- Pruning and the reported change -------------------------------------------------------

  /** After a pruning there are as many subnets as allowed, or more but only pinned ones; no pinned subnet is gone. */
  lemma PruningBounds(c: Cache, dropped: set<SubnetId>)
    requires PruningOf(c, dropped)
    ensures var left := c.providers - dropped;
      && (|left| <= c.maxSubnets || forall s | s in left :: s in c.pinned)
      && (dropped != {} ==> |left| >= c.maxSubnets)
      && (forall s | s in c.providers && s in c.pinned :: s in left)
  {
    var left := c.providers - dropped;
    assert dropped <= c.providers.Keys && left.Keys == c.providers.Keys - dropped;
    assert |left.Keys| == |c.providers.Keys| - |dropped|;
  }

  /** A peer's subnets. */
  function SubnetsOf(providers: Providers, p: PeerId): set<SubnetId> {
    set s | s in providers && p in providers[s]
  }

  /** With these subnets dropped, the reported change turns the peer's old subnets into its new ones. */
  ghost predicate Accounts(c: Cache, r: Record, dropped: set<SubnetId>) {
    SubnetsOf(Noted(c, r).providers - dropped, r.peer)
    == SubnetsOf(c.providers, r.peer) - Leaving(c.providers, r) + (Joining(c.providers, r) - dropped)
  }

  /** What goes unreported is a subnet the peer already had, keeps listing, and loses to the pruning. */
  lemma AccountsUnlessDropped(c: Cache, r: Record, dropped: set<SubnetId>)
    requires r.peer in c.routable && Newer(c, r)
    ensures Accounts(c, r, dropped)
      <==> forall s | s in dropped && s in r.subnets :: r.peer !in ProvidersOf(c.providers, s)
  {
    var added, removed := Joining(c.providers, r) - dropped, Leaving(c.providers, r);
    assert SubnetsOf(Noted(c, r).providers - dropped, r.peer) == Listed(r.subnets) - dropped;
    if s :| s in dropped && s in r.subnets && r.peer in ProvidersOf(c.providers, s) {
      assert s in SubnetsOf(c.providers, r.peer) - removed + added;
    }
  }

  /** The unpinned subnets with fewer providers than `s`. */
  function Smaller(c: Cache, s: SubnetId): set<SubnetId> {
    set t | t in c.providers && t !in c.pinned && |c.providers[t]| < |ProvidersOf(c.providers, s)|
  }

  /** No pruning can reach `s`: it is pinned, or the smaller subnets make up for the excess. */
  predicate Spared(c: Cache, s: SubnetId) {
    s in c.pinned || |Smaller(c, s)| >= Excess(c)
  }

  /** Unpinned subnets, none larger than any other unpinned one. */
  ghost predicate AreLowest(c: Cache, low: set<SubnetId>) {
    && (forall s | s in low :: Unpinned(c, s))
    && (forall s, t | s in low && Unpinned(c, t) && t !in low :: |c.providers[s]| <= |c.providers[t]|)
  }

  lemma DroppedIsNotSpared(c: Cache, dropped: set<SubnetId>, s: SubnetId)
    requires PruningOf(c, dropped) && s in dropped
    ensures !Spared(c, s)
  {
    assert Unpinned(c, s);
    forall t | t in Smaller(c, s) ensures t in dropped { assert Unpinned(c, t); }
    Sorting.SubsetSize(Smaller(c, s) + {s}, dropped);
  }

  lemma {:induction false} LeastOf(c: Cache, among: set<SubnetId>) returns (least: SubnetId)
    requires among != {} && among <= c.providers.Keys
    ensures least in among && forall t | t in among :: |c.providers[least]| <= |c.providers[t]|
    decreases |among|
  {
    least :| least in among;
    if among != {least} {
      var other := LeastOf(c, among - {least});
      if |c.providers[other]| < |c.providers[least]| { least := other; }
    }
  }

  /** Any lowest subnets within the excess are part of some pruning. */
  lemma {:induction false} ExtendsToPruning(c: Cache, low: set<SubnetId>) returns (dropped: set<SubnetId>)
    requires AreLowest(c, low) && |low| <= Excess(c)
    ensures PruningOf(c, dropped) && low <= dropped
    decreases Excess(c) - |low|
  {
    var rest := set s | s in c.providers && s !in c.pinned && s !in low;
    if |low| == Excess(c) || rest == {} {
      dropped := low;
      forall s | s in c.providers && s !in low && rest == {} ensures s in c.pinned { assert s !in rest; }
    } else {
      var least := LeastOf(c, rest);
      forall s, t | s in low + {least} && Unpinned(c, t) && t !in low + {least}
        ensures |c.providers[s]| <= |c.providers[t]| { assert t in rest; }
      dropped := ExtendsToPruning(c, low + {least});
    }
  }

  lemma {:induction false} SomePruningDrops(c: Cache, s: SubnetId) returns (dropped: set<SubnetId>)
    requires s in c.providers && !Spared(c, s)
    ensures PruningOf(c, dropped) && s in dropped
  {
    dropped := ExtendsToPruning(c, Smaller(c, s) + {s});
  }

  /**
   The reported change accounts for the peer's new subnets, whichever of equally small subnets the pruning picks,
   exactly when each subnet the peer already has and keeps listing is pinned or has enough smaller unpinned ones.
   */
  lemma DeltaAccountsExactly(c: Cache, r: Record)
    requires r.peer in c.routable && Newer(c, r)
    ensures (forall dropped | PruningOf(Noted(c, r), dropped) :: Accounts(c, r, dropped))
      <==> forall s | s in r.subnets && r.peer in ProvidersOf(c.providers, s) :: Spared(Noted(c, r), s)
  {
    var noted := Noted(c, r);
    forall dropped | PruningOf(noted, dropped)
      ensures Accounts(c, r, dropped)
        || exists s :: s in r.subnets && r.peer in ProvidersOf(c.providers, s) && !Spared(noted, s)
    {
      AccountsUnlessDropped(c, r, dropped);
      if s :| s in dropped && s in r.subnets && r.peer in ProvidersOf(c.providers, s) {
        DroppedIsNotSpared(noted, dropped, s);
      }
    }
    if s :| s in r.subnets && r.peer in ProvidersOf(c.providers, s) && !Spared(noted, s) {
      var dropped := SomePruningDrops(noted, s);
      AccountsUnlessDropped(c, r, dropped);
    }
  }

  /** With one subnet too many and one unpinned, that one goes. */
  lemma OnlyChoice(c: Cache, s: SubnetId, dropped: set<SubnetId>)
    requires PruningOf(c, dropped) && c.providers.Keys - c.pinned == {s} && Excess(c) == 1
    ensures dropped == {s}
  {
    forall t | t in dropped ensures t == s { assert Unpinned(c, t) && t in c.providers.Keys - c.pinned; }
    assert Unpinned(c, s) by { assert s in c.providers.Keys - c.pinned; }
  }

  lemma NotedKeys(c: Cache, r: Record)
    requires r.peer in c.routable && Newer(c, r)
    ensures Noted(c, r).providers.Keys == c.providers.Keys + Listed(r.subnets)
  {
  }

  /** One subnet too many, and the only unpinned one is a subnet the peer keeps listing: it goes without a report. */
  lemma PrunedAssociationGoesUnreported(c: Cache, r: Record, s: SubnetId, dropped: set<SubnetId>)
    requires r.peer in c.routable && Newer(c, r) && s in r.subnets && r.peer in ProvidersOf(c.providers, s)
    requires c.providers.Keys + Listed(r.subnets) - c.pinned == {s}
    requires |c.providers.Keys + Listed(r.subnets)| == c.maxSubnets + 1
    requires PruningOf(Noted(c, r), dropped)
    ensures dropped == {s} && !Accounts(c, r, dropped)
  {
    NotedKeys(c, r);
    OnlyChoice(Noted(c, r), s, dropped);
    AccountsUnlessDropped(c, r, dropped);
  }

  const Full := Cache(2, {2, 3}, {7, 8}, map[1 := {7}, 2 := {8}], map[7 := 1, 8 := 1])
  const Relisting := Record(7, [1, 3], 2)

  lemma FullIsFull(subnets: set<SubnetId>)
    requires subnets == {1, 2} + Listed([1, 3])
    ensures subnets - {2, 3} == {1} && |subnets| == 3
  {
    assert [1, 3][0] == 1 && [1, 3][1] == 3;
    assert subnets == {1, 2, 3};
  }

  /** For example here, with room for two subnets and the others pinned. */
  lemma FullCacheLosesSubnetOne(dropped: set<SubnetId>)
    requires PruningOf(Noted(Full, Relisting), dropped)
    ensures dropped == {1} && !Accounts(Full, Relisting, dropped)
  {
    assert Full.providers.Keys == {1, 2};
    FullIsFull(Full.providers.Keys + Listed(Relisting.subnets));
    assert Relisting.subnets[0] == 1;
    PrunedAssociationGoesUnreported(Full, Relisting, 1, dropped);
  }

  // ----- Last writer wins ----------------------------------------------------------------------

  /** Records noted one after the other, with nothing pruned. */
  function NotedAll(c: Cache, records: seq<Record>): Cache {
    if records == [] then c else Noted(NotedAll(c, records[..|records| - 1]), records[|records| - 1])
  }

  function ListedIn(records: seq<Record>): set<SubnetId> {
    if records == [] then {} else ListedIn(records[..|records| - 1]) + Listed(records[|records| - 1].subnets)
  }

  lemma {:induction false} OnlyListedSubnets(c: Cache, records: seq<Record>)
    requires c.providers == map[]
    ensures NotedAll(c, records).providers.Keys <= ListedIn(records)
    ensures NotedAll(c, records).maxSubnets == c.maxSubnets
  {
    if records != [] {
      OnlyListedSubnets(c, records[..|records| - 1]);
    }
  }

  /** While the records list no more subnets than allowed, adding them prunes nothing. */
  lemma {:induction false} NothingIsPruned(c: Cache, records: seq<Record>, dropped: set<SubnetId>)
    requires c.providers == map[] && |ListedIn(records)| <= c.maxSubnets
    requires PruningOf(NotedAll(c, records), dropped)
    ensures dropped == {}
  {
    OnlyListedSubnets(c, records);
    Sorting.SubsetSize(NotedAll(c, records).providers.Keys, ListedIn(records));
  }

  /** Record `i` is the peer's latest: no earlier record of the peer is as new, no later one newer. */
  ghost predicate IsLatest(records: seq<Record>, p: PeerId, i: int) {
    && 0 <= i < |records| && records[i].peer == p
    && (forall j | 0 <= j < i && records[j].peer == p :: records[j].timestamp < records[i].timestamp)
    && (forall j | i < j < |records| && records[j].peer == p :: records[j].timestamp <= records[i].timestamp)
  }

  /** Found by going through the records once; a record stamped zero never counts. */
  function Latest(records: seq<Record>, p: PeerId): Option<Record> {
    if records == [] then None
    else
      var before, r := Latest(records[..|records| - 1], p), records[|records| - 1];
      if r.peer == p && r.timestamp > StampOf(before) then Some(r) else before
  }

  function StampOf(r: Option<Record>): nat { if r.Some? then r.value.timestamp else 0 }

  lemma {:induction false} LatestBounds(records: seq<Record>, p: PeerId, i: int)
    requires 0 <= i < |records| && records[i].peer == p
    ensures records[i].timestamp <= StampOf(Latest(records, p))
  {
    if i < |records| - 1 {
      LatestBounds(records[..|records| - 1], p, i);
    }
  }

  lemma {:induction false} LatestAt(records: seq<Record>, p: PeerId) returns (i: int)
    requires Latest(records, p).Some?
    ensures IsLatest(records, p, i) && records[i] == Latest(records, p).value && records[i].timestamp > 0
  {
    var n := |records| - 1;
    var init := records[..n];
    if Latest(records, p) == Latest(init, p) {
      i := LatestAt(init, p);
      if records[n].peer == p { LatestBounds(records, p, n); }
      assert forall j | i < j < n :: init[j] == records[j];
      assert forall j | 0 <= j < i :: init[j] == records[j];
    } else {
      i := n;
      forall j | 0 <= j < n && records[j].peer == p ensures records[j].timestamp < records[n].timestamp {
        LatestBounds(init, p, j);
      }
    }
  }

  lemma LatestIsUnique(records: seq<Record>, p: PeerId, i: int, j: int)
    requires IsLatest(records, p, i) && IsLatest(records, p, j)
    ensures i == j
  {
  }

  /** The single pass finds the peer's latest record, unless it is stamped zero. */
  lemma {:induction false} LatestFound(records: seq<Record>, p: PeerId, i: int)
    requires IsLatest(records, p, i) && records[i].timestamp > 0
    ensures Latest(records, p) == Some(records[i])
  {
    LatestBounds(records, p, i);
    var j := LatestAt(records, p);
    LatestIsUnique(records, p, i, j);
  }

  ghost predicate AllRoutable(c: Cache, records: seq<Record>) {
    forall i | 0 <= i < |records| :: records[i].peer in c.routable
  }

  ghost function Empty(max: nat, pinned: set<SubnetId>, routable: set<PeerId>): Cache {
    Cache(max, pinned, routable, map[], map[])
  }

  /** The cache knows each peer by its latest record alone. */
  lemma {:induction false} KnowsTheLatest(c: Cache, records: seq<Record>, p: PeerId, s: SubnetId)
    requires c == Empty(c.maxSubnets, c.pinned, c.routable) && AllRoutable(c, records)
    ensures var now, l := NotedAll(c, records), Latest(records, p);
      && now.routable == c.routable
      && Stamp(now, p) == StampOf(l)
      && (p in ProvidersOf(now.providers, s) <==> l.Some? && s in l.value.subnets)
  {
    if records != [] {
      KnowsTheLatest(c, records[..|records| - 1], p, s);
    }
  }

  ghost predicate ListedByLatest(records: seq<Record>, p: PeerId, s: SubnetId) {
    exists i :: IsLatest(records, p, i) && records[i].timestamp > 0 && s in records[i].subnets
  }

  /**
   Last writer wins: a peer is listed for a subnet exactly when its latest record, if stamped above zero, lists
   that subnet.
   */
  lemma {:induction false} LastWriterWins(c: Cache, records: seq<Record>, p: PeerId, s: SubnetId)
    requires c == Empty(c.maxSubnets, c.pinned, c.routable) && AllRoutable(c, records)
    ensures p in ProvidersOf(NotedAll(c, records).providers, s) <==> ListedByLatest(records, p, s)
  {
    KnowsTheLatest(c, records, p, s);
    if ListedByLatest(records, p, s) {
      var i :| IsLatest(records, p, i) && records[i].timestamp > 0 && s in records[i].subnets;
      LatestFound(records, p, i);
    }
    if Latest(records, p).Some? {
      var i := LatestAt(records, p);
    }
  }

  /** No two records of one peer share a stamp. */
  ghost predicate DistinctStamps(records: seq<Record>) {
    forall r, r' | r in records && r' in records && r.peer == r'.peer && r.timestamp == r'.timestamp :: r == r'
  }

  /** With distinct stamps per peer the order of arrival does not matter. */
  lemma {:induction false} ArrivalOrderIsIrrelevant(c: Cache, records: seq<Record>, records': seq<Record>, p: PeerId, s: SubnetId)
    requires c == Empty(c.maxSubnets, c.pinned, c.routable) && AllRoutable(c, records)
    requires multiset(records) == multiset(records') && DistinctStamps(records)
    ensures p in ProvidersOf(NotedAll(c, records).providers, s)
      <==> p in ProvidersOf(NotedAll(c, records').providers, s)
  {
    Sorting.SameMembers(records, records');
    assert AllRoutable(c, records') by {
      forall i | 0 <= i < |records'| ensures records'[i].peer in c.routable {
        assert records'[i] in records;
      }
    }
    KnowsTheLatest(c, records, p, s);
    KnowsTheLatest(c, records', p, s);
    SameLatest(records, records', p);
  }

  lemma {:induction false} SameLatest(records: seq<Record>, records': seq<Record>, p: PeerId)
    requires forall r | r in records :: r in records'
    requires forall r | r in records' :: r in records
    requires DistinctStamps(records)
    ensures Latest(records, p) == Latest(records', p)
  {
    NewestStamp(records, records', p);
    NewestStamp(records', records, p);
    if Latest(records, p).Some? {
      var i := LatestAt(records, p);
      var j := LatestAt(records', p);
      assert records[i] in records && records'[j] in records';
    }
  }

  lemma {:induction false} NewestStamp(records: seq<Record>, records': seq<Record>, p: PeerId)
    requires forall r | r in records :: r in records'
    ensures StampOf(Latest(records, p)) <= StampOf(Latest(records', p))
    ensures Latest(records, p).Some? ==> Latest(records', p).Some?
  {
    if Latest(records, p).Some? {
      var i := LatestAt(records, p);
      assert records[i] in records && records[i] in records';
      var j :| 0 <= j < |records'| && records'[j] == records[i];
      LatestBounds(records', p, j);
    }
  }

  function NotBefore(records: seq<Record>, cutoff: nat): seq<Record> {
    if records == [] then []
    else
      var rest, r := NotBefore(records[..|records| - 1], cutoff), records[|records| - 1];
      if r.timestamp >= cutoff then rest + [r] else rest
  }

  lemma LatestSnoc(records: seq<Record>, r: Record, p: PeerId)
    ensures Latest(records + [r], p)
      == if r.peer == p && r.timestamp > StampOf(Latest(records, p)) then Some(r) else Latest(records, p)
  {
    assert (records + [r])[..|records|] == records;
  }

  lemma {:induction false} LatestNotBefore(records: seq<Record>, cutoff: nat, p: PeerId)
    ensures var l := Latest(records, p);
      Latest(NotBefore(records, cutoff), p) == if StampOf(l) >= cutoff then l else None
  {
    if records != [] {
      var init, r := records[..|records| - 1], records[|records| - 1];
      LatestNotBefore(init, cutoff, p);
      assert init + [r] == records;
      LatestSnoc(init, r, p);
      LatestSnoc(NotBefore(init, cutoff), r, p);
    }
  }

  /** Pruning old providers leaves what the cache would know had it never seen the old records. */
  lemma PruningForgetsOldRecords(c: Cache, records: seq<Record>, cutoff: nat, p: PeerId, s: SubnetId)
    requires c == Empty(c.maxSubnets, c.pinned, c.routable) && AllRoutable(c, records)
    ensures var now := NotedAll(c, records);
      p in ProvidersOf(Forgotten(now, Stale(now.timestamps, cutoff)).providers, s)
      <==> p in ProvidersOf(NotedAll(c, NotBefore(records, cutoff)).providers, s)
  {
    NotBeforeRoutable(c, records, cutoff);
    KnowsTheLatest(c, records, p, s);
    KnowsTheLatest(c, NotBefore(records, cutoff), p, s);
    LatestNotBefore(records, cutoff, p);
    NotedAllConsistent(c, records);
  }

  lemma {:induction false} NotBeforeRoutable(c: Cache, records: seq<Record>, cutoff: nat)
    requires AllRoutable(c, records)
    ensures AllRoutable(c, NotBefore(records, cutoff))
  {
    if records != [] {
      NotBeforeRoutable(c, records[..|records| - 1], cutoff);
    }
  }

  lemma {:induction false} NotedAllConsistent(c: Cache, records: seq<Record>)
    requires Consistent(c)
    ensures Consistent(NotedAll(c, records))
  {
    if records != [] {
      NotedAllConsistent(c, records[..|records| - 1]);
      NotedConsistent(NotedAll(c, records[..|records| - 1]), records[|records| - 1]);
    }
  }

  /** The reference kept by the cache's own tests takes the latest record whatever its stamp. */
  ghost predicate ListedByReference(records: seq<Record>, p: PeerId, s: SubnetId) {
    exists i :: IsLatest(records, p, i) && s in records[i].subnets
  }

  ghost predicate AgreesOn(providers: Providers, records: seq<Record>, p: PeerId) {
    forall s :: p in ProvidersOf(providers, s) <==> ListedByReference(records, p, s)
  }

  /** Cache and reference agree on a peer exactly when its latest record is stamped above zero or lists nothing. */
  lemma {:induction false} AgreesWithReferenceExactly(c: Cache, records: seq<Record>, p: PeerId)
    requires c == Empty(c.maxSubnets, c.pinned, c.routable) && AllRoutable(c, records)
    ensures AgreesOn(NotedAll(c, records).providers, records, p)
      <==> forall i | IsLatest(records, p, i) :: records[i].timestamp > 0 || records[i].subnets == []
  {
    var providers := NotedAll(c, records).providers;
    forall s ensures p in ProvidersOf(providers, s) <==> ListedByLatest(records, p, s) {
      LastWriterWins(c, records, p, s);
    }
    if i :| IsLatest(records, p, i) && records[i].timestamp == 0 && records[i].subnets != [] {
      var s := records[i].subnets[0];
      assert ListedByReference(records, p, s);
      if ListedByLatest(records, p, s) {
        var j :| IsLatest(records, p, j) && records[j].timestamp > 0;
        LatestIsUnique(records, p, i, j);
      }
      assert !(p in ProvidersOf(providers, s) <==> ListedByReference(records, p, s));
    }
  }

  /** A record stamped zero: the reference lists the peer, the cache does not. */
  lemma ZeroStampIsIgnored(c: Cache)
    requires c == Empty(c.maxSubnets, c.pinned, c.routable) && 7 in c.routable
    ensures var records := [Record(7, [1], 0)];
      ListedByReference(records, 7, 1) && 7 !in ProvidersOf(NotedAll(c, records).providers, 1)
  {
    var records := [Record(7, [1], 0)];
    assert IsLatest(records, 7, 0) && 1 in records[0].subnets;
    LastWriterWins(c, records, 7, 1);
  }
}
