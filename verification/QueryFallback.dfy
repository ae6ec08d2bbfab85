/**
 Resolving content from the providers of a subnet: a request is tried with a first batch of peers
 and, while attempts fail, with further batches, until one succeeds or no peers are left.

 `k` is the largest number of peers per attempt. Attempts get a fresh identifier from the network
 layer; a request is known by its response channel.
 */
module QueryFallback {
  import opened Wrappers
  import Sorting

  type PeerId = nat
  type QueryId = nat
  type Channel = nat

  datatype Query = Query(channel: Channel, fallback: seq<PeerId>)

  /** The record of a request: its providers in the order of preference, the batches asked, the replies sent. */
  datatype Request = Request(order: seq<PeerId>, batches: seq<seq<PeerId>>, replies: seq<bool>)

  datatype Service = Service(queries: map<QueryId, Query>, requests: map<Channel, Request>)

  function Those(peers: seq<PeerId>, connected: set<PeerId>, wanted: bool): seq<PeerId> {
    if peers == [] then []
    else (if (peers[0] in connected) == wanted then [peers[0]] else []) + Those(peers[1..], connected, wanted)
  }

  /** Peers with a connection come before the others. */
  function Prioritized(peers: seq<PeerId>, connected: set<PeerId>): seq<PeerId> {
    Those(peers, connected, true) + Those(peers, connected, false)
  }

  function Min(a: nat, b: nat): nat { if a < b then a else b }

  function Batch(k: nat, peers: seq<PeerId>): seq<PeerId> { peers[..Min(k, |peers|)] }

  function Later(k: nat, peers: seq<PeerId>): seq<PeerId> { peers[Min(k, |peers|)..] }

  // ----- Steps ---------------------------------------------------------------------------------

  function Started(k: nat, s: Service, ch: Channel, order: seq<PeerId>, id: QueryId): Service {
    if order == [] then
      s.(requests := s.requests[ch := Request([], [], [false])])
    else
      Service(s.queries[id := Query(ch, Later(k, order))], s.requests[ch := Request(order, [Batch(k, order)], [])])
  }

  function Completed(k: nat, s: Service, id: QueryId, ok: bool, next: QueryId): Service
    requires id in s.queries ==> s.queries[id].channel in s.requests
  {
    if id !in s.queries then s
    else
      var q := s.queries[id];
      var r := s.requests[q.channel];
      if ok || q.fallback == [] then
        Service(s.queries - {id}, s.requests[q.channel := r.(replies := r.replies + [ok])])
      else
        Service((s.queries - {id})[next := Query(q.channel, Later(k, q.fallback))],
                s.requests[q.channel := r.(batches := r.batches + [Batch(k, q.fallback)])])
  }

  class ResolverService {
    var queries: map<QueryId, Query>
    var requests: map<Channel, Request>
    const maxPeersPerQuery: nat

    ghost function Value(): Service
      reads this
    {
      Service(queries, requests)
    }

    constructor (k: nat)
      ensures maxPeersPerQuery == k && Value() == Service(map[], map[])
    {
      maxPeersPerQuery, queries, requests := k, map[], map[];
    }

    method SplitPeersForQuery(peers: seq<PeerId>) returns (now: seq<PeerId>, later: seq<PeerId>)
      ensures now == Batch(maxPeersPerQuery, peers) && later == Later(maxPeersPerQuery, peers)
      ensures now + later == peers
    {
      var size := Min(maxPeersPerQuery, |peers|);
      now, later := peers[..size], peers[size..];
    }

    /** `peers` are the subnet's providers after shuffling; `id` is what the network layer names the attempt. */
    method StartQuery(ch: Channel, peers: seq<PeerId>, connected: set<PeerId>, id: QueryId)
      modifies this
      ensures Value() == Started(maxPeersPerQuery, old(Value()), ch, Prioritized(peers, connected), id)
    {
      PrioritizedKeeps(peers, connected);
      if peers == [] {
        requests := requests[ch := Request([], [], [false])];
      } else {
        var order := Prioritized(peers, connected);
        var now, later := SplitPeersForQuery(order);
        requests := requests[ch := Request(order, [now], [])];
        queries := queries[id := Query(ch, later)];
      }
    }

    /** The network layer reports the end of an attempt; an unknown attempt is ignored. */
    method HandleComplete(id: QueryId, ok: bool, next: QueryId)
      requires id in queries ==> queries[id].channel in requests
      modifies this
      ensures Value() == Completed(maxPeersPerQuery, old(Value()), id, ok, next)
      ensures id !in old(queries) ==> unchanged(this)
      ensures id in old(queries) ==> var q := old(queries)[id];
        && q.channel in requests
        && requests[q.channel].replies == old(requests)[q.channel].replies
             + (if ok then [true] else if q.fallback == [] then [false] else [])
        && forall ch | ch in old(requests) && ch != q.channel :: ch in requests && requests[ch] == old(requests)[ch]
    {
      if id in queries {
        var query := queries[id];
        queries := queries - {id};
        ResolveQuery(query, ok, next);
      }
    }

    method ResolveQuery(query: Query, ok: bool, next: QueryId)
      requires query.channel in requests
      modifies this
      ensures var r := old(requests)[query.channel];
        Value() == if ok || query.fallback == [] then
          Service(old(queries), old(requests)[query.channel := r.(replies := r.replies + [ok])])
        else
          Service(old(queries)[next := Query(query.channel, Later(maxPeersPerQuery, query.fallback))],
                  old(requests)[query.channel := r.(batches := r.batches + [Batch(maxPeersPerQuery, query.fallback)])])
    {
      var r := requests[query.channel];
      if ok || query.fallback == [] {
        requests := requests[query.channel := r.(replies := r.replies + [ok])];
      } else {
        var now, later := SplitPeersForQuery(query.fallback);
        requests := requests[query.channel := r.(batches := r.batches + [now])];
        queries := queries[next := Query(query.channel, later)];
      }
    }
  }

  lemma {:induction false} ThoseMembers(peers: seq<PeerId>, connected: set<PeerId>)
    ensures multiset(Those(peers, connected, true)) + multiset(Those(peers, connected, false)) == multiset(peers)
  {
    if peers != [] {
      ThoseMembers(peers[1..], connected);
      assert peers == [peers[0]] + peers[1..];
    }
  }

  lemma {:induction false} ThoseAll(peers: seq<PeerId>, connected: set<PeerId>, wanted: bool, p: PeerId)
    ensures p in Those(peers, connected, wanted) ==> (p in connected) == wanted
  {
    if peers != [] {
      ThoseAll(peers[1..], connected, wanted, p);
    }
  }

  /** Prioritizing rearranges the peers. */
  lemma PrioritizedKeeps(peers: seq<PeerId>, connected: set<PeerId>)
    ensures multiset(Prioritized(peers, connected)) == multiset(peers)
    ensures Prioritized(peers, connected) == [] <==> peers == []
  {
    ThoseMembers(peers, connected);
    assert |multiset(Prioritized(peers, connected))| == |multiset(peers)|;
  }

  /** No unconnected peer precedes a connected one. */
  lemma ConnectedComeFirst(peers: seq<PeerId>, connected: set<PeerId>, i: nat, j: nat)
    requires i < j < |Prioritized(peers, connected)|
    ensures Prioritized(peers, connected)[j] in connected ==> Prioritized(peers, connected)[i] in connected
  {
    var order, first := Prioritized(peers, connected), Those(peers, connected, true);
    ThoseAll(peers, connected, true, order[i]);
    ThoseAll(peers, connected, false, order[j]);
    if j >= |first| { assert order[j] in Those(peers, connected, false); }
  }

  function Alone(p: PeerId, connected: set<PeerId>, wanted: bool): seq<PeerId> {
    if (p in connected) == wanted then [p] else []
  }

  lemma {:induction false} ThoseStep(p: PeerId, peers: seq<PeerId>, connected: set<PeerId>, wanted: bool)
    ensures Those([p] + peers, connected, wanted) == Alone(p, connected, wanted) + Those(peers, connected, wanted)
  {
    assert ([p] + peers)[1..] == peers;
  }

  lemma {:induction false} ThoseConcat(a: seq<PeerId>, b: seq<PeerId>, connected: set<PeerId>, wanted: bool)
    ensures Those(a + b, connected, wanted) == Those(a, connected, wanted) + Those(b, connected, wanted)
  {
    if a == [] {
      assert a + b == b;
    } else {
      var p, rest := a[0], a[1..];
      Sorting.HeadAndTail(a);
      Sorting.Regroup([p], rest, b);
      ThoseStep(p, rest, connected, wanted);
      ThoseStep(p, rest + b, connected, wanted);
      ThoseConcat(rest, b, connected, wanted);
      Sorting.Regroup(Alone(p, connected, wanted), Those(rest, connected, wanted), Those(b, connected, wanted));
    }
  }

  /** Within the connected peers, and within the others, the order stays as given. */
  lemma {:induction false} PriorityKeepsOrder(a: seq<PeerId>, p: PeerId, b: seq<PeerId>, connected: set<PeerId>, wanted: bool)
    ensures Those(a + ([p] + b), connected, wanted)
      == Those(a, connected, wanted) + ((if (p in connected) == wanted then [p] else []) + Those(b, connected, wanted))
  {
    ThoseConcat(a, [p] + b, connected, wanted);
    ThoseStep(p, b, connected, wanted);
  }

  // ----- What every run keeps ------------------------------------------------------------------

  function Flat(batches: seq<seq<PeerId>>): seq<PeerId> {
    if batches == [] then [] else Flat(batches[..|batches| - 1]) + batches[|batches| - 1]
  }

  /** How many peers fit in so many attempts. */
  function Capacity(k: nat, attempts: nat): nat {
    if attempts == 0 then 0 else Capacity(k, attempts - 1) + k
  }

  lemma {:induction false} CapacityIs(k: nat, attempts: nat)
    ensures Capacity(k, attempts) == k * attempts
  {
    if attempts > 0 {
      CapacityIs(k, attempts - 1);
      assert k * attempts == k * (attempts - 1) + k;
    }
  }

  /**
   At most one reply; the batches concatenate to a prefix of the order, full but for the last; failure is only
   reported with all providers asked.
   */
  ghost predicate Sound(k: nat, r: Request) {
    && |r.replies| <= 1
    && Flat(r.batches) <= r.order
    && |Flat(r.batches)| == Min(|r.order|, Capacity(k, |r.batches|))
    && (r.batches != [] ==> Capacity(k, |r.batches| - 1) < |r.order|)
    && (r.replies == [false] ==> Flat(r.batches) == r.order)
  }

  /** The query carries on the request: no reply yet, and what was not asked is its fallback. */
  ghost predicate Serves(s: Service, q: Query) {
    && q.channel in s.requests
    && var r := s.requests[q.channel];
       r.replies == [] && Flat(r.batches) + q.fallback == r.order
  }

  /** Some open query works for the request. */
  ghost predicate Served(s: Service, ch: Channel) {
    exists id :: id in s.queries && s.queries[id].channel == ch
  }

  ghost predicate Inv(k: nat, s: Service) {
    && (forall ch | ch in s.requests :: Sound(k, s.requests[ch]))
    && (forall id | id in s.queries :: Serves(s, s.queries[id]))
    && (forall id, id' | id in s.queries && id' in s.queries && s.queries[id].channel == s.queries[id'].channel :: id == id')
    && (forall ch | ch in s.requests && s.requests[ch].replies == [] :: Served(s, ch))
  }

  const Idle := Service(map[], map[])

  datatype Event =
    | Start(ch: Channel, peers: seq<PeerId>, connected: set<PeerId>, id: QueryId)
    | Complete(id: QueryId, ok: bool, next: QueryId)

  /** Channels are used once; attempt identifiers are fresh. Reports about unknown attempts may come at any time. */
  ghost predicate Enabled(s: Service, e: Event) {
    match e
    case Start(ch, _, _, id) => ch !in s.requests && id !in s.queries
    case Complete(id, _, next) => next !in s.queries && (id in s.queries ==> s.queries[id].channel in s.requests)
  }

  ghost function Next(k: nat, s: Service, e: Event): Service
    requires Enabled(s, e)
  {
    match e
    case Start(ch, peers, connected, id) => Started(k, s, ch, Prioritized(peers, connected), id)
    case Complete(id, ok, next) => Completed(k, s, id, ok, next)
  }

  ghost predicate Runnable(k: nat, s: Service, es: seq<Event>)
    decreases |es|
  {
    es == [] || (Enabled(s, es[0]) && Runnable(k, Next(k, s, es[0]), es[1..]))
  }

  ghost function Run(k: nat, s: Service, es: seq<Event>): Service
    requires Runnable(k, s, es)
    decreases |es|
  {
    if es == [] then s else Run(k, Next(k, s, es[0]), es[1..])
  }

  lemma StartedRequest(k: nat, order: seq<PeerId>)
    requires k > 0
    ensures order != [] ==> Sound(k, Request(order, [Batch(k, order)], [])) && Flat([Batch(k, order)]) + Later(k, order) == order
    ensures Sound(k, Request([], [], [false]))
  {
  }

  /** The next batch of a request whose earlier ones did not exhaust the order. */
  lemma {:induction false} NextBatch(k: nat, r: Request, fallback: seq<PeerId>)
    requires k > 0 && Sound(k, r) && Flat(r.batches) + fallback == r.order && fallback != [] && r.replies == []
    ensures var next := r.(batches := r.batches + [Batch(k, fallback)]);
      Sound(k, next) && Flat(next.batches) + Later(k, fallback) == r.order
  {
  }

  lemma {:induction false} StaysServed(s: Service, next: Service, ch: Channel)
    requires Served(s, ch)
    requires forall id | id in s.queries && s.queries[id].channel == ch :: id in next.queries && next.queries[id] == s.queries[id]
    ensures Served(next, ch)
  {
  }

  /** Changing one request, and the queries on its channel only, keeps the others as they were. */
  lemma {:induction false} ChangeKeepsInv(k: nat, s: Service, ch: Channel, r: Request, next: Service)
    requires Inv(k, s) && next.requests == s.requests[ch := r] && Sound(k, r)
    requires forall id | id in next.queries && next.queries[id].channel != ch :: id in s.queries && s.queries[id] == next.queries[id]
    requires forall id | id in s.queries && s.queries[id].channel != ch :: id in next.queries && s.queries[id] == next.queries[id]
    requires forall id | id in next.queries && next.queries[id].channel == ch :: Serves(next, next.queries[id])
    requires forall id, id' | id in next.queries && id' in next.queries && next.queries[id].channel == ch == next.queries[id'].channel :: id == id'
    requires r.replies == [] ==> Served(next, ch)
    ensures Inv(k, next)
  {
    forall id | id in next.queries ensures Serves(next, next.queries[id]) {
      if next.queries[id].channel != ch { assert Serves(s, s.queries[id]); }
    }
    forall c | c in next.requests && next.requests[c].replies == [] ensures Served(next, c) {
      if c != ch { StaysServed(s, next, c); }
    }
  }

  lemma {:induction false} StartKeepsInv(k: nat, s: Service, ch: Channel, order: seq<PeerId>, id: QueryId)
    requires k > 0 && Inv(k, s) && ch !in s.requests && id !in s.queries
    ensures Inv(k, Started(k, s, ch, order, id))
  {
    var next := Started(k, s, ch, order, id);
    StartedRequest(k, order);
    forall i | i in s.queries ensures s.queries[i].channel != ch { assert Serves(s, s.queries[i]); }
    if order != [] { assert id in next.queries && next.queries[id].channel == ch; }
    ChangeKeepsInv(k, s, ch, next.requests[ch], next);
  }

  lemma {:induction false} OthersElsewhere(k: nat, s: Service, id: QueryId, other: QueryId)
    requires Inv(k, s) && id in s.queries && other in s.queries && other != id
    ensures s.queries[other].channel != s.queries[id].channel
  {
  }

  lemma {:induction false} AnswerKeepsInv(k: nat, s: Service, id: QueryId, ok: bool)
    requires Inv(k, s) && id in s.queries && s.queries[id].channel in s.requests && (ok || s.queries[id].fallback == [])
    ensures Inv(k, Completed(k, s, id, ok, id))
  {
    var q := s.queries[id];
    var next := Completed(k, s, id, ok, id);
    assert Serves(s, q);
    var r := s.requests[q.channel];
    assert Sound(k, r);
    assert q.fallback == [] ==> Flat(r.batches) == r.order;
    assert (r.replies + [ok])[0] == ok;
    forall i | i in next.queries ensures next.queries[i].channel != q.channel { OthersElsewhere(k, s, id, i); }
    ChangeKeepsInv(k, s, q.channel, r.(replies := r.replies + [ok]), next);
  }

  lemma {:induction false} RetryKeepsInv(k: nat, s: Service, id: QueryId, renewed: QueryId)
    requires k > 0 && Inv(k, s) && id in s.queries && s.queries[id].channel in s.requests && renewed !in s.queries
    requires s.queries[id].fallback != []
    ensures Inv(k, Completed(k, s, id, false, renewed))
  {
    var q := s.queries[id];
    var next := Completed(k, s, id, false, renewed);
    assert Serves(s, q);
    var r := s.requests[q.channel];
    NextBatch(k, r, q.fallback);
    forall i | i in next.queries && i != renewed ensures next.queries[i].channel != q.channel {
      OthersElsewhere(k, s, id, i);
    }
    assert renewed in next.queries && next.queries[renewed].channel == q.channel;
    ChangeKeepsInv(k, s, q.channel, next.requests[q.channel], next);
  }

  lemma {:induction false} RunKeepsInv(k: nat, s: Service, es: seq<Event>)
    requires k > 0 && Inv(k, s) && Runnable(k, s, es)
    ensures Inv(k, Run(k, s, es))
    decreases |es|
  {
    if es != [] {
      var e := es[0];
      if e.Start? {
        StartKeepsInv(k, s, e.ch, Prioritized(e.peers, e.connected), e.id);
      } else if e.id in s.queries {
        assert Serves(s, s.queries[e.id]);
        if e.ok || s.queries[e.id].fallback == [] {
          AnswerKeepsInv(k, s, e.id, e.ok);
        } else {
          RetryKeepsInv(k, s, e.id, e.next);
        }
      }
      RunKeepsInv(k, Next(k, s, e), es[1..]);
    }
  }

  /** At most one reply and one open attempt, a reply exactly when none is open; batches and failure as above. */
  ghost predicate AnsweredOnce(k: nat, s: Service, ch: Channel)
    requires ch in s.requests
  {
    var r := s.requests[ch];
    && |r.replies| <= 1
    && (|r.replies| == 1 <==> !Served(s, ch))
    && (forall id, id' | id in s.queries && id' in s.queries && s.queries[id].channel == ch == s.queries[id'].channel :: id == id')
    && Flat(r.batches) <= r.order
    && (Sorting.Distinct(r.order) ==> Sorting.Distinct(Flat(r.batches)))
    && (r.replies == [false] ==> Flat(r.batches) == r.order)
    && (r.batches != [] ==> k * (|r.batches| - 1) < |r.order|)
  }

  lemma {:induction false} InvAnswersOnce(k: nat, s: Service, ch: Channel)
    requires Inv(k, s) && ch in s.requests
    ensures AnsweredOnce(k, s, ch)
  {
    var r := s.requests[ch];
    assert Sound(k, r);
    if r.batches != [] { CapacityIs(k, |r.batches| - 1); }
    if Served(s, ch) {
      var id :| id in s.queries && s.queries[id].channel == ch;
      assert Serves(s, s.queries[id]);
    }
  }

  /**
   Over every run a request gets at most one reply, and has got exactly one as soon as no attempt for it is open;
   at most one attempt is open at a time. Its batches concatenate to a prefix of the order, so with distinct
   providers no peer is asked twice; failure means all providers were asked; and fewer than |order| / k + 1 attempts
   are made.
   */
  lemma EveryRequestIsAnsweredOnce(k: nat, es: seq<Event>, ch: Channel)
    requires k > 0 && Runnable(k, Idle, es) && ch in Run(k, Idle, es).requests
    ensures AnsweredOnce(k, Run(k, Idle, es), ch)
  {
    RunKeepsInv(k, Idle, es);
    InvAnswersOnce(k, Run(k, Idle, es), ch);
  }

  // ----- When an attempt succeeds --------------------------------------------------------------

  /** A request has at most one reply, and none while an attempt for it is open, of which there is at most one. */
  ghost predicate Unanswered(s: Service) {
    && (forall ch | ch in s.requests :: |s.requests[ch].replies| <= 1)
    && (forall id | id in s.queries ::
          s.queries[id].channel in s.requests && s.requests[s.queries[id].channel].replies == [])
    && (forall id, id' | id in s.queries && id' in s.queries && s.queries[id].channel == s.queries[id'].channel :: id == id')
  }

  lemma {:induction false} StartStaysUnanswered(k: nat, s: Service, ch: Channel, order: seq<PeerId>, id: QueryId)
    requires Unanswered(s) && ch !in s.requests && id !in s.queries
    ensures Unanswered(Started(k, s, ch, order, id))
  {
  }

  lemma {:induction false} CompleteStaysUnanswered(k: nat, s: Service, id: QueryId, ok: bool, next: QueryId)
    requires Unanswered(s) && next !in s.queries
    ensures Unanswered(Completed(k, s, id, ok, next))
  {
  }

  lemma {:induction false} StepStaysUnanswered(k: nat, s: Service, e: Event)
    requires Unanswered(s) && Enabled(s, e)
    ensures Unanswered(Next(k, s, e))
  {
    match e
    case Start(ch, peers, connected, id) => StartStaysUnanswered(k, s, ch, Prioritized(peers, connected), id);
    case Complete(id, ok, next) => CompleteStaysUnanswered(k, s, id, ok, next);
  }

  /** The step is the success of an open attempt for the request. */
  ghost predicate Succeeds(s: Service, e: Event, ch: Channel) {
    e.Complete? && e.ok && e.id in s.queries && s.queries[e.id].channel == ch
  }

  ghost predicate SucceedsIn(k: nat, s: Service, es: seq<Event>, ch: Channel)
    requires Runnable(k, s, es)
    decreases |es|
  {
    es != [] && (Succeeds(s, es[0], ch) || SucceedsIn(k, Next(k, s, es[0]), es[1..], ch))
  }

  ghost predicate ToldOfSuccess(s: Service, ch: Channel) {
    ch in s.requests && s.requests[ch].replies == [true]
  }

  /** Completing an open attempt with success, and nothing else, makes the reply a success; no reply is taken back. */
  lemma {:induction false} SuccessIsReplied(k: nat, s: Service, e: Event, ch: Channel)
    requires Unanswered(s) && Enabled(s, e)
    ensures ToldOfSuccess(Next(k, s, e), ch) <==> ToldOfSuccess(s, ch) || Succeeds(s, e, ch)
  {
    if e.Complete? && e.id in s.queries {
      var r := s.requests[s.queries[e.id].channel];
      assert r.replies + [e.ok] == [e.ok];
    }
  }

  lemma {:induction false} RunRepliesSuccess(k: nat, s: Service, es: seq<Event>, ch: Channel)
    requires Unanswered(s) && Runnable(k, s, es)
    ensures ToldOfSuccess(Run(k, s, es), ch) <==> ToldOfSuccess(s, ch) || SucceedsIn(k, s, es, ch)
    decreases |es|
  {
    if es != [] {
      SuccessIsReplied(k, s, es[0], ch);
      StepStaysUnanswered(k, s, es[0]);
      RunRepliesSuccess(k, Next(k, s, es[0]), es[1..], ch);
    }
  }

  /** Over every run, for any number of peers per attempt, a request is told of success exactly if one of its attempts succeeded. */
  lemma SuccessIsReportedExactly(k: nat, es: seq<Event>, ch: Channel)
    requires Runnable(k, Idle, es)
    ensures ToldOfSuccess(Run(k, Idle, es), ch) <==> SucceedsIn(k, Idle, es, ch)
  {
    RunRepliesSuccess(k, Idle, es, ch);
  }

  // ----- When every attempt fails --------------------------------------------------------------

  /** The peers left after `j` failed attempts, or none once failure has been reported. */
  function LeftAfter(k: nat, order: seq<PeerId>, j: nat): Option<seq<PeerId>> {
    if j == 0 then Some(order)
    else match LeftAfter(k, order, j - 1)
      case None => None
      case Some(left) => if left == [] then None else Some(Later(k, left))
  }

  lemma {:induction false} LeftAfterExactly(k: nat, order: seq<PeerId>, j: nat)
    ensures LeftAfter(k, order, j) ==
      if j > 0 && (j - 1) * k >= |order| then None else Some(order[Min(j * k, |order|)..])
  {
    if j > 0 {
      LeftAfterExactly(k, order, j - 1);
      assert j * k == (j - 1) * k + k;
      if j > 1 { assert (j - 1) * k == (j - 2) * k + k; }
    }
  }

  /**
   What the number of attempts says of a request, for any `k`: an open query holds the peers left after that many
   failures, and failure was reported only when there were none left.
   */
  ghost predicate Tracks(k: nat, s: Service) {
    && (forall id | id in s.queries ::
          && s.queries[id].channel in s.requests
          && var r := s.requests[s.queries[id].channel];
             LeftAfter(k, r.order, |r.batches|) == Some(s.queries[id].fallback))
    && (forall ch | ch in s.requests && false in s.requests[ch].replies ::
          LeftAfter(k, s.requests[ch].order, |s.requests[ch].batches|) == Some([]))
    && (forall id, id' | id in s.queries && id' in s.queries && s.queries[id].channel == s.queries[id'].channel :: id == id')
  }

  lemma {:induction false} StartTracks(k: nat, s: Service, ch: Channel, order: seq<PeerId>, id: QueryId)
    requires Tracks(k, s) && ch !in s.requests && id !in s.queries
    ensures Tracks(k, Started(k, s, ch, order, id))
  {
    assert LeftAfter(k, order, 0) == Some(order);
  }

  lemma {:induction false} CompleteTracks(k: nat, s: Service, id: QueryId, ok: bool, next: QueryId)
    requires Tracks(k, s) && next !in s.queries
    ensures Tracks(k, Completed(k, s, id, ok, next))
  {
    if id in s.queries {
      var q := s.queries[id];
      var r := s.requests[q.channel];
      assert q.fallback != [] ==> LeftAfter(k, r.order, |r.batches| + 1) == Some(Later(k, q.fallback));
    }
  }

  lemma {:induction false} RunTracks(k: nat, s: Service, es: seq<Event>)
    requires Tracks(k, s) && Runnable(k, s, es)
    ensures Tracks(k, Run(k, s, es))
    decreases |es|
  {
    if es != [] {
      match es[0] {
        case Start(ch, peers, connected, id) => StartTracks(k, s, ch, Prioritized(peers, connected), id);
        case Complete(id, ok, next) => CompleteTracks(k, s, id, ok, next);
      }
      RunTracks(k, Next(k, s, es[0]), es[1..]);
    }
  }

  /** Without peers per attempt, in no run is a request with providers ever told that it failed. */
  lemma NeverFailsWithoutPeers(es: seq<Event>, ch: Channel)
    requires Runnable(0, Idle, es)
    requires ch in Run(0, Idle, es).requests
    ensures var r := Run(0, Idle, es).requests[ch];
      r.order != [] ==> false !in r.replies
  {
    RunTracks(0, Idle, es);
    var r := Run(0, Idle, es).requests[ch];
    LeftAfterExactly(0, r.order, |r.batches|);
  }

  /** Attempts that fail one after the other, the next under each of `ids` in turn. */
  function Failures(id: QueryId, ids: seq<QueryId>): seq<Event>
    decreases |ids|
  {
    if ids == [] then [] else [Complete(id, false, ids[0])] + Failures(ids[0], ids[1..])
  }

  ghost predicate FreshIds(s: Service, ids: seq<QueryId>) {
    Sorting.Distinct(ids) && forall i | 0 <= i < |ids| :: ids[i] !in s.queries
  }

  lemma {:induction false} RestIsFresh(s: Service, ids: seq<QueryId>, next: Service)
    requires FreshIds(s, ids) && ids != [] && next.queries.Keys <= s.queries.Keys + {ids[0]}
    ensures FreshIds(next, ids[1..])
  {
    forall i | 0 <= i < |ids| - 1 ensures ids[1..][i] !in next.queries {
      assert ids[0] != ids[i + 1] && ids[1..][i] == ids[i + 1];
    }
  }

  /** Reports about attempts that are not open change nothing. */
  lemma {:induction false} UnknownFailures(k: nat, s: Service, id: QueryId, ids: seq<QueryId>)
    requires id !in s.queries && FreshIds(s, ids)
    ensures Runnable(k, s, Failures(id, ids)) && Run(k, s, Failures(id, ids)) == s
    decreases |ids|
  {
    if ids != [] {
      RestIsFresh(s, ids, s);
      UnknownFailures(k, s, ids[0], ids[1..]);
      assert Failures(id, ids)[1..] == Failures(ids[0], ids[1..]);
    }
  }

  /** From any state, once its attempts have failed more often than it has peers left, an open request is told so. */
  lemma {:induction false} FailuresEndInAReply(k: nat, s: Service, id: QueryId, ids: seq<QueryId>)
    requires k > 0 && id in s.queries && Serves(s, s.queries[id])
    requires FreshIds(s, ids) && |ids| > |s.queries[id].fallback|
    ensures Runnable(k, s, Failures(id, ids))
    ensures var ch := s.queries[id].channel;
      var after := Run(k, s, Failures(id, ids));
      ch in after.requests && after.requests[ch].order == s.requests[ch].order && after.requests[ch].replies == [false]
    decreases |ids|
  {
    var q, next := s.queries[id], Completed(k, s, id, false, ids[0]);
    var tail := Failures(ids[0], ids[1..]);
    assert Failures(id, ids)[0] == Complete(id, false, ids[0]) && Failures(id, ids)[1..] == tail;
    assert Enabled(s, Complete(id, false, ids[0])) by { assert ids[0] !in s.queries; }
    RestIsFresh(s, ids, next);
    if q.fallback == [] {
      UnknownFailures(k, next, ids[0], ids[1..]);
    } else {
      FallbackServes(k, s.requests[q.channel], q.fallback);
      FailuresEndInAReply(k, next, ids[0], ids[1..]);
    }
  }

  lemma {:induction false} FallbackServes(k: nat, r: Request, fallback: seq<PeerId>)
    requires Flat(r.batches) + fallback == r.order
    ensures Flat(r.batches + [Batch(k, fallback)]) + Later(k, fallback) == r.order
  {
    assert (r.batches + [Batch(k, fallback)])[..|r.batches|] == r.batches;
    assert Batch(k, fallback) + Later(k, fallback) == fallback;
    assert Flat(r.batches) + Batch(k, fallback) + Later(k, fallback)
        == Flat(r.batches) + (Batch(k, fallback) + Later(k, fallback));
  }

  /** Some run tells a request over these providers that it failed. */
  ghost predicate CanFail(k: nat, ch: Channel, order: seq<PeerId>) {
    exists es :: FailsIn(k, es, ch, order)
  }

  ghost predicate FailsIn(k: nat, es: seq<Event>, ch: Channel, order: seq<PeerId>) {
    && Runnable(k, Idle, es)
    && var after := Run(k, Idle, es);
       ch in after.requests && after.requests[ch].order == order && false in after.requests[ch].replies
  }

  lemma Prepended(k: nat, s: Service, e: Event, es: seq<Event>)
    requires Enabled(s, e) && Runnable(k, Next(k, s, e), es)
    ensures Runnable(k, s, [e] + es) && Run(k, s, [e] + es) == Run(k, Next(k, s, e), es)
  {
    assert ([e] + es)[1..] == es;
  }

  lemma {:induction false} StartThenFail(k: nat, ch: Channel, order: seq<PeerId>, id: QueryId, s: Service) returns (es: seq<Event>)
    requires (k > 0 || order == []) && s == Started(k, Idle, ch, order, id)
    ensures Runnable(k, s, es)
    ensures var after := Run(k, s, es);
      ch in after.requests && after.requests[ch].order == order && after.requests[ch].replies == [false]
  {
    es := [];
    if order != [] {
      var ids := seq(|order| + 1, i => id + i + 1);
      StartedRequest(k, order);
      assert Serves(s, s.queries[id]);
      FailuresEndInAReply(k, s, id, ids);
      es := Failures(id, ids);
    }
  }

  lemma {:induction false} FailsSomehow(k: nat, ch: Channel, peers: seq<PeerId>, connected: set<PeerId>)
    requires k > 0 || Prioritized(peers, connected) == []
    ensures CanFail(k, ch, Prioritized(peers, connected))
  {
    var start := Start(ch, peers, connected, 0);
    var es := StartThenFail(k, ch, Prioritized(peers, connected), 0, Next(k, Idle, start));
    Prepended(k, Idle, start, es);
    assert FailsIn(k, [start] + es, ch, Prioritized(peers, connected));
  }

  lemma {:induction false} CannotFailWithoutPeers(ch: Channel, order: seq<PeerId>)
    requires order != []
    ensures !CanFail(0, ch, order)
  {
    forall es ensures !FailsIn(0, es, ch, order) {
      if FailsIn(0, es, ch, order) { NeverFailsWithoutPeers(es, ch); }
    }
  }

  /** Failure can be reported if and only if attempts ask at least one peer, or there are none to ask. */
  lemma {:induction false} FailureIsReportedExactly(k: nat, ch: Channel, peers: seq<PeerId>, connected: set<PeerId>)
    ensures CanFail(k, ch, Prioritized(peers, connected)) <==> k > 0 || peers == []
  {
    var order := Prioritized(peers, connected);
    assert order == [] <==> peers == [] by { PrioritizedKeeps(peers, connected); }
    if k > 0 || order == [] {
      FailsSomehow(k, ch, peers, connected);
    } else {
      CannotFailWithoutPeers(ch, order);
    }
  }
}
