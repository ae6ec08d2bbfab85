/**
 The in-memory key-value store: transactions work on a snapshot, a committing transaction
 overwrites the shared data, and a token lets one write transaction in at a time.

 Keys and values are their encoded representations; keys compare as their encodings do.
 */
module KvStore {
  import opened Wrappers
  import Sorting

  type Namespace = nat
  type Key = nat
  type Val = nat
  type Data = map<Namespace, map<Key, Val>>

  function Lookup(d: Data, ns: Namespace, k: Key): Option<Val> {
    if ns in d && k in d[ns] then Some(d[ns][k]) else None
  }

  function Stored(d: Data, ns: Namespace, k: Key, v: Val): Data {
    d[ns := (if ns in d then d[ns] else map[])[k := v]]
  }

  /** Deleting keeps the namespace, and does nothing in a namespace never written. */
  function Deleted(d: Data, ns: Namespace, k: Key): Data {
    if ns in d then d[ns := d[ns] - {k}] else d
  }

  /** Reading after a write or a delete: the key has what was written, or nothing; every other key what it had. */
  lemma ReadAfterWrite(d: Data, ns: Namespace, k: Key, v: Val, ns': Namespace, k': Key)
    ensures Lookup(Stored(d, ns, k, v), ns', k') == if ns' == ns && k' == k then Some(v) else Lookup(d, ns', k')
    ensures Lookup(Deleted(d, ns, k), ns', k') == if ns' == ns && k' == k then None else Lookup(d, ns', k')
  {
  }

  // ----- The steps on what transactions share --------------------------------------------------

  /** The data and the token; `lock` below is whether writers take the token. */
  datatype Shared = Shared(data: Data, held: bool)

  /** A transaction may begin: a writer that finds the token taken has to wait. */
  predicate MayBegin(lock: bool, sh: Shared, writes: bool) { !(lock && writes && sh.held) }

  function Begun(lock: bool, sh: Shared, writes: bool): Shared { sh.(held := sh.held || (lock && writes)) }

  function Committed(lock: bool, sh: Shared, data: Data): Shared { Closed(lock, sh, true).(data := data) }

  function Closed(lock: bool, sh: Shared, writes: bool): Shared { sh.(held := sh.held && !(lock && writes)) }

  // ----- The backend and its transactions ------------------------------------------------------

  class Backend {
    var data: Data
    var held: bool
    const lockWrites: bool

    ghost function Value(): Shared
      reads this
    {
      Shared(data, held)
    }

    constructor (lock: bool)
      ensures Value() == Initial.shared && lockWrites == lock
    {
      data, held, lockWrites := map[], false, lock;
    }

    /** A read transaction starts on the data as it is. */
    method Read() returns (tx: Transaction)
      ensures fresh(tx) && tx.backend == this && !tx.token && !tx.writes
      ensures MayBegin(lockWrites, Value(), false) && Value() == Begun(lockWrites, old(Value()), false)
      ensures tx.data == data
    {
      tx := new Transaction(this, data, false, false);
    }

    /** A write transaction first takes the token; it waits while another holds it. */
    method Write() returns (tx: Transaction)
      requires MayBegin(lockWrites, Value(), true)
      modifies this`held
      ensures fresh(tx) && tx.backend == this && tx.writes && tx.token == lockWrites
      ensures Value() == Begun(lockWrites, old(Value()), true)
      ensures tx.data == data
    {
      if lockWrites { held := true; }
      tx := new Transaction(this, data, lockWrites, true);
    }
  }

  class Transaction {
    const backend: Backend
    const writes: bool
    var data: Data
    var token: bool

    constructor (backend: Backend, data: Data, token: bool, writes: bool)
      ensures this.backend == backend && this.data == data && this.token == token && this.writes == writes
    {
      this.backend, this.data, this.token, this.writes := backend, data, token, writes;
    }

    method Get(ns: Namespace, k: Key) returns (r: Option<Val>)
      ensures r == Lookup(data, ns, k)
    {
      if ns in data {
        var m := data[ns];
        return if k in m then Some(m[k]) else None;
      }
      return None;
    }

    method Put(ns: Namespace, k: Key, v: Val)
      requires writes
      modifies this`data
      ensures data == Stored(old(data), ns, k, v)
      ensures forall ns', k' :: Lookup(data, ns', k') == if ns' == ns && k' == k then Some(v) else Lookup(old(data), ns', k')
    {
      var m := if ns in data then data[ns] else map[];
      m := m[k := v];
      data := data[ns := m];
    }

    method Delete(ns: Namespace, k: Key)
      requires writes
      modifies this`data
      ensures data == Deleted(old(data), ns, k)
      ensures forall ns', k' :: Lookup(data, ns', k') == if ns' == ns && k' == k then None else Lookup(old(data), ns', k')
    {
      if ns in data {
        data := data[ns := data[ns] - {k}];
      }
    }

    /** The items of a namespace, each once, in the order of their keys. */
    method Iterate(ns: Namespace) returns (items: seq<(Key, Val)>)
      ensures forall i, j | 0 <= i < j < |items| :: items[i].0 < items[j].0
      ensures forall k: Key, v: Val :: (k, v) in items <==> Lookup(data, ns, k) == Some(v)
    {
      if ns !in data { return []; }
      var m := data[ns];
      var found := Collected(m);
      items := Sorting.SortBy(found, KeyOf);
      SortedItems(m, found);
    }

    /** Publishes the transaction's data and gives the token back. */
    method Commit()
      requires writes && token == backend.lockWrites
      modifies this, backend
      ensures backend.Value() == Committed(backend.lockWrites, old(backend.Value()), old(data))
      ensures !token
    {
      backend.data := data;
      data := map[];
      if token { backend.held := false; }
      token := false;
    }

    method Rollback()
      requires writes && token == backend.lockWrites
      modifies this`token, backend`held
      ensures backend.Value() == Closed(backend.lockWrites, old(backend.Value()), true)
      ensures !token
    {
      if token { backend.held := false; }
      token := false;
    }
  }

  function KeyOf(item: (Key, Val)): int { item.0 }

  ghost predicate ItemsOf(m: map<Key, Val>, items: seq<(Key, Val)>) {
    && (forall i, j | 0 <= i < j < |items| :: items[i].0 != items[j].0)
    && (forall k, v :: (k, v) in items <==> k in m && m[k] == v)
  }

  /** The items of a map, in no particular order. */
  method Collected(m: map<Key, Val>) returns (items: seq<(Key, Val)>)
    ensures ItemsOf(m, items)
  {
    items := [];
    var todo := m.Keys;
    while todo != {}
      invariant todo <= m.Keys
      invariant forall i, j | 0 <= i < j < |items| :: items[i].0 != items[j].0
      invariant forall k, v :: (k, v) in items <==> k in m && k !in todo && m[k] == v
      decreases |todo|
    {
      var k :| k in todo;
      assert forall i | 0 <= i < |items| :: items[i].0 != k by {
        forall i | 0 <= i < |items| ensures items[i].0 != k { assert (items[i].0, items[i].1) in items; }
      }
      items := items + [(k, m[k])];
      todo := todo - {k};
    }
  }

  lemma SortedItems(m: map<Key, Val>, items: seq<(Key, Val)>)
    requires ItemsOf(m, items)
    ensures var sorted := Sorting.SortBy(items, KeyOf);
      && (forall i, j | 0 <= i < j < |sorted| :: sorted[i].0 < sorted[j].0)
      && (forall k, v :: (k, v) in sorted <==> k in m && m[k] == v)
  {
    var sorted := Sorting.SortBy(items, KeyOf);
    Sorting.SameMembers(sorted, items);
    Sorting.DistinctStays(items, sorted);
    forall i, j | 0 <= i < j < |sorted| ensures sorted[i].0 < sorted[j].0 {
      Sorting.AscendingAt(sorted, KeyOf, i, j);
      if sorted[i].0 == sorted[j].0 {
        SameKeySameItem(m, items, sorted[i], sorted[j]);
      }
    }
  }

  lemma SameKeySameItem(m: map<Key, Val>, items: seq<(Key, Val)>, a: (Key, Val), b: (Key, Val))
    requires ItemsOf(m, items) && a in items && b in items && a.0 == b.0
    ensures a == b
  {
  }

  // ----- Interleaved transactions --------------------------------------------------------------

  type TxId = nat

  /** What a transaction did; a read remembers what it returned. */
  datatype Op = Got(ns: Namespace, k: Key, result: Option<Val>) | Put(ns: Namespace, k: Key, v: Val) | Deleting(ns: Namespace, k: Key)
  type Log = seq<Op>

  function AppliedOp(d: Data, op: Op): Data {
    match op
    case Got(_, _, _) => d
    case Put(ns, k, v) => Stored(d, ns, k, v)
    case Deleting(ns, k) => Deleted(d, ns, k)
  }

  function AppliedLog(d: Data, log: Log): Data {
    if log == [] then d else AppliedOp(AppliedLog(d, log[..|log| - 1]), log[|log| - 1])
  }

  /** The data after whole transactions, one after the other. */
  function Serial(commits: seq<Log>): Data {
    if commits == [] then map[] else AppliedLog(Serial(commits[..|commits| - 1]), commits[|commits| - 1])
  }

  /** Run alone from `d`, the transaction would have read just what it read. */
  ghost predicate ReadsAgree(d: Data, log: Log) {
    forall i | 0 <= i < |log| && log[i].Got? :: log[i].result == Lookup(AppliedLog(d, log[..i]), log[i].ns, log[i].k)
  }

  ghost predicate OnlyReads(log: Log) {
    forall i | 0 <= i < |log| :: log[i].Got?
  }

  /** An open transaction: its own data, and for the record its log and how many commits preceded its begin. */
  datatype Tx = Tx(data: Data, writes: bool, log: Log, begun: nat)

  datatype Store = Store(shared: Shared, txs: map<TxId, Tx>, commits: seq<Log>)

  datatype Event =
    | BeginRead(id: TxId)
    | BeginWrite(id: TxId)
    | Get(id: TxId, ns: Namespace, k: Key)
    | DoPut(id: TxId, ns: Namespace, k: Key, v: Val)
    | DoDelete(id: TxId, ns: Namespace, k: Key)
    | Commit(id: TxId)
    | Close(id: TxId)

  const Initial := Store(Shared(map[], false), map[], [])

  predicate Enabled(lock: bool, s: Store, e: Event) {
    match e
    case BeginRead(id) => id !in s.txs && MayBegin(lock, s.shared, false)
    case BeginWrite(id) => id !in s.txs && MayBegin(lock, s.shared, true)
    case Get(id, _, _) => id in s.txs
    case Close(id) => id in s.txs
    case DoPut(id, _, _, _) => id in s.txs && s.txs[id].writes
    case DoDelete(id, _, _) => id in s.txs && s.txs[id].writes
    case Commit(id) => id in s.txs && s.txs[id].writes
  }

  function Logged(tx: Tx, op: Op): Tx {
    tx.(data := AppliedOp(tx.data, op), log := tx.log + [op])
  }

  /** A new transaction on a snapshot of the data. */
  function Opening(lock: bool, s: Store, id: TxId, writes: bool): Store {
    s.(shared := Begun(lock, s.shared, writes), txs := s.txs[id := Tx(s.shared.data, writes, [], |s.commits|)])
  }

  function Next(lock: bool, s: Store, e: Event): Store
    requires Enabled(lock, s, e)
  {
    match e
    case BeginRead(id) => Opening(lock, s, id, false)
    case BeginWrite(id) => Opening(lock, s, id, true)
    case Get(id, ns, k) => s.(txs := s.txs[id := Logged(s.txs[id], Got(ns, k, Lookup(s.txs[id].data, ns, k)))])
    case DoPut(id, ns, k, v) => s.(txs := s.txs[id := Logged(s.txs[id], Put(ns, k, v))])
    case DoDelete(id, ns, k) => s.(txs := s.txs[id := Logged(s.txs[id], Deleting(ns, k))])
    case Commit(id) =>
      Store(Committed(lock, s.shared, s.txs[id].data), s.txs - {id}, s.commits + [s.txs[id].log])
    case Close(id) =>
      s.(shared := Closed(lock, s.shared, s.txs[id].writes), txs := s.txs - {id})
  }

  predicate Runnable(lock: bool, s: Store, es: seq<Event>)
    decreases |es|
  {
    es == [] || (Enabled(lock, s, es[0]) && Runnable(lock, Next(lock, s, es[0]), es[1..]))
  }

  function Run(lock: bool, s: Store, es: seq<Event>): Store
    requires Runnable(lock, s, es)
    decreases |es|
  {
    if es == [] then s else Run(lock, Next(lock, s, es[0]), es[1..])
  }

  /** An open transaction is where running its log alone from its snapshot would be; a reader only reads. */
  ghost predicate FollowsSnapshot(commits: seq<Log>, tx: Tx) {
    && tx.begun <= |commits|
    && tx.data == AppliedLog(Serial(commits[..tx.begun]), tx.log)
    && ReadsAgree(Serial(commits[..tx.begun]), tx.log)
    && (!tx.writes ==> OnlyReads(tx.log))
  }

  /** The committed transactions form a serial history that explains the data and every read in it. */
  ghost predicate SerialHistory(s: Store) {
    && s.shared.data == Serial(s.commits)
    && forall i | 0 <= i < |s.commits| :: ReadsAgree(Serial(s.commits[..i]), s.commits[i])
  }

  ghost predicate OneWriter(s: Store) {
    && (forall a, b | a in s.txs && b in s.txs && s.txs[a].writes && s.txs[b].writes :: a == b)
    && (forall a | a in s.txs && s.txs[a].writes :: s.shared.held && s.txs[a].begun == |s.commits|)
  }

  ghost predicate WriterOpen(s: Store) {
    exists a :: a in s.txs && s.txs[a].writes
  }

  ghost predicate Inv(s: Store) {
    && SerialHistory(s)
    && OneWriter(s)
    && (forall a | a in s.txs :: FollowsSnapshot(s.commits, s.txs[a]))
  }

  lemma BeginFollows(s: Store, tx: Tx)
    requires SerialHistory(s) && tx.data == s.shared.data && tx.log == [] && tx.begun == |s.commits|
    ensures FollowsSnapshot(s.commits, tx)
  {
    assert s.commits[..|s.commits|] == s.commits;
  }

  lemma {:induction false} ReadsAgreeSnoc(d: Data, log: Log, op: Op)
    requires ReadsAgree(d, log) && (op.Got? ==> op.result == Lookup(AppliedLog(d, log), op.ns, op.k))
    ensures ReadsAgree(d, log + [op])
  {
    var all := log + [op];
    forall i | 0 <= i < |all| && all[i].Got?
      ensures all[i].result == Lookup(AppliedLog(d, all[..i]), all[i].ns, all[i].k)
    {
      assert all[..i] == log[..i];
      assert i == |log| ==> log[..i] == log;
    }
  }

  lemma AppliedLogSnoc(d: Data, log: Log, op: Op)
    ensures AppliedLog(d, log + [op]) == AppliedOp(AppliedLog(d, log), op)
  {
    assert (log + [op])[..|log|] == log;
  }

  lemma {:induction false} LoggedFollows(commits: seq<Log>, tx: Tx, op: Op)
    requires FollowsSnapshot(commits, tx)
    requires op.Got? ==> op.result == Lookup(tx.data, op.ns, op.k)
    requires !tx.writes ==> op.Got?
    ensures FollowsSnapshot(commits, Logged(tx, op))
  {
    var d := Serial(commits[..tx.begun]);
    ReadsAgreeSnoc(d, tx.log, op);
    AppliedLogSnoc(d, tx.log, op);
  }

  lemma CommitFollows(commits: seq<Log>, log: Log, tx: Tx)
    requires FollowsSnapshot(commits, tx)
    ensures FollowsSnapshot(commits + [log], tx)
  {
    assert (commits + [log])[..tx.begun] == commits[..tx.begun];
  }

  lemma {:induction false} CommitExtendsHistory(s: Store, tx: Tx)
    requires SerialHistory(s) && FollowsSnapshot(s.commits, tx) && tx.begun == |s.commits|
    ensures SerialHistory(s.(shared := s.shared.(data := tx.data), commits := s.commits + [tx.log]))
  {
    var commits := s.commits + [tx.log];
    assert s.commits[..tx.begun] == s.commits;
    assert commits[..|commits| - 1] == s.commits;
    forall i | 0 <= i < |commits| ensures ReadsAgree(Serial(commits[..i]), commits[i]) {
      assert i < |s.commits| ==> commits[..i] == s.commits[..i];
    }
  }

  lemma {:induction false} BeginKeepsInv(s: Store, e: Event)
    requires Inv(s) && Enabled(true, s, e) && (e.BeginRead? || e.BeginWrite?)
    ensures Inv(Next(true, s, e))
  {
    BeginFollows(s, Next(true, s, e).txs[e.id]);
  }

  lemma {:induction false} LoggedKeepsInv(s: Store, id: TxId, op: Op)
    requires Inv(s) && id in s.txs
    requires op.Got? ==> op.result == Lookup(s.txs[id].data, op.ns, op.k)
    requires !s.txs[id].writes ==> op.Got?
    ensures Inv(s.(txs := s.txs[id := Logged(s.txs[id], op)]))
  {
    LoggedFollows(s.commits, s.txs[id], op);
    ReplacedKeepsInv(s, id, Logged(s.txs[id], op));
  }

  lemma {:induction false} ReplacedKeepsInv(s: Store, id: TxId, tx: Tx)
    requires Inv(s) && id in s.txs && FollowsSnapshot(s.commits, tx)
    requires tx.writes == s.txs[id].writes && tx.begun == s.txs[id].begun
    ensures Inv(s.(txs := s.txs[id := tx]))
  {
    var next := s.(txs := s.txs[id := tx]);
    forall a | a in next.txs ensures FollowsSnapshot(next.commits, next.txs[a]) {
      assert FollowsSnapshot(s.commits, if a == id then tx else s.txs[a]);
    }
    assert OneWriter(next);
    assert SerialHistory(next);
  }

  lemma {:induction false} CommitKeepsInv(s: Store, id: TxId)
    requires Inv(s) && Enabled(true, s, Commit(id))
    ensures Inv(Next(true, s, Commit(id)))
  {
    var next := Next(true, s, Commit(id));
    CommitExtendsHistory(s, s.txs[id]);
    forall a | a in next.txs ensures FollowsSnapshot(next.commits, next.txs[a]) {
      CommitFollows(s.commits, s.txs[id].log, s.txs[a]);
    }
  }

  lemma {:induction false} StepKeepsInv(s: Store, e: Event)
    requires Inv(s) && Enabled(true, s, e)
    ensures Inv(Next(true, s, e))
  {
    match e
    case BeginRead(_) => BeginKeepsInv(s, e);
    case BeginWrite(_) => BeginKeepsInv(s, e);
    case Get(id, ns, k) => LoggedKeepsInv(s, id, Got(ns, k, Lookup(s.txs[id].data, ns, k)));
    case DoPut(id, ns, k, v) => LoggedKeepsInv(s, id, Put(ns, k, v));
    case DoDelete(id, ns, k) => LoggedKeepsInv(s, id, Deleting(ns, k));
    case Commit(id) => CommitKeepsInv(s, id);
    case Close(id) =>
  }

  lemma {:induction false} RunKeepsInv(s: Store, es: seq<Event>)
    requires Inv(s) && Runnable(true, s, es)
    ensures Inv(Run(true, s, es))
    decreases |es|
  {
    if es != [] {
      StepKeepsInv(s, es[0]);
      RunKeepsInv(Next(true, s, es[0]), es[1..]);
    }
  }

  /** An open writer stays one as long as it is left alone, or the transaction changed writes as well. */
  lemma WriterStays(s: Store, next: Store, id: TxId)
    requires forall a | a in s.txs && a != id :: a in next.txs && next.txs[a].writes == s.txs[a].writes
    requires id in s.txs && s.txs[id].writes ==> id in next.txs && next.txs[id].writes
    ensures WriterOpen(s) ==> WriterOpen(next)
    ensures id in next.txs && next.txs[id].writes ==> WriterOpen(next)
  {
    if WriterOpen(s) {
      var a :| a in s.txs && s.txs[a].writes;
      assert a in next.txs && next.txs[a].writes;
    }
  }

  lemma {:induction false} StepKeepsToken(s: Store, e: Event)
    requires Enabled(true, s, e) && (s.shared.held ==> WriterOpen(s))
    ensures var next := Next(true, s, e); next.shared.held ==> WriterOpen(next)
  {
    if !(e.Commit? || (e.Close? && s.txs[e.id].writes)) {
      WriterStays(s, Next(true, s, e), e.id);
    }
  }

  lemma {:induction false} RunKeepsToken(s: Store, es: seq<Event>)
    requires Runnable(true, s, es) && (s.shared.held ==> WriterOpen(s))
    ensures var end := Run(true, s, es); end.shared.held ==> WriterOpen(end)
    decreases |es|
  {
    if es != [] {
      StepKeepsToken(s, es[0]);
      RunKeepsToken(Next(true, s, es[0]), es[1..]);
    }
  }

  lemma {:induction false} OnlyReadsChangeNothing(d: Data, log: Log)
    requires OnlyReads(log)
    ensures AppliedLog(d, log) == d
  {
    if log != [] {
      OnlyReadsChangeNothing(d, log[..|log| - 1]);
    }
  }

  /**
   Serializability: with the token, in every interleaving the data is what the committed transactions give when
   run one after the other in the order of their commits, and each of them read what it reads in that run. At most
   one writer is open, over the data as it is, and the token is taken exactly while one is; an open reader keeps the
   data its begin found.
   */
  lemma EveryInterleavingIsSerial(es: seq<Event>)
    requires Runnable(true, Initial, es)
    ensures var s := Run(true, Initial, es);
      && SerialHistory(s)
      && (forall a, b | a in s.txs && b in s.txs && s.txs[a].writes && s.txs[b].writes :: a == b)
      && (s.shared.held <==> WriterOpen(s))
      && (forall a | a in s.txs && s.txs[a].writes :: s.txs[a].data == AppliedLog(s.shared.data, s.txs[a].log))
      && (forall a | a in s.txs && !s.txs[a].writes ::
            s.txs[a].begun <= |s.commits| && s.txs[a].data == Serial(s.commits[..s.txs[a].begun]))
      && (forall a | a in s.txs ::
            s.txs[a].begun <= |s.commits| && ReadsAgree(Serial(s.commits[..s.txs[a].begun]), s.txs[a].log))
  {
    RunKeepsInv(Initial, es);
    RunKeepsToken(Initial, es);
    var s := Run(true, Initial, es);
    assert s.commits[..|s.commits|] == s.commits;
    forall a | a in s.txs && !s.txs[a].writes ensures s.txs[a].data == Serial(s.commits[..s.txs[a].begun]) {
      OnlyReadsChangeNothing(Serial(s.commits[..s.txs[a].begun]), s.txs[a].log);
    }
  }

  lemma {:induction false} Prepended(lock: bool, s: Store, e: Event, es: seq<Event>)
    requires Enabled(lock, s, e) && Runnable(lock, Next(lock, s, e), es)
    ensures Runnable(lock, s, [e] + es) && Run(lock, s, [e] + es) == Run(lock, Next(lock, s, e), es)
  {
    assert ([e] + es)[0] == e && ([e] + es)[1..] == es;
  }

  /** Two writers that overlap, as they may without the token: the first one's write is lost. */
  function Overlap(): seq<Event> {
    [BeginWrite(1)] + ([BeginWrite(2)] + ([DoPut(1, 0, 1, 5)] + ([DoPut(2, 0, 2, 6)] + ([Commit(1)] + ([Commit(2)] + [])))))
  }

  lemma {:induction false} RunOverlap() returns (s: Store)
    ensures Runnable(false, Initial, Overlap()) && s == Run(false, Initial, Overlap())
    ensures s.commits == [[Put(0, 1, 5)], [Put(0, 2, 6)]] && Lookup(s.shared.data, 0, 1) == None
  {
    var s1 := Next(false, Initial, BeginWrite(1));
    var s2 := Next(false, s1, BeginWrite(2));
    var s3 := Next(false, s2, DoPut(1, 0, 1, 5));
    var s4 := Next(false, s3, DoPut(2, 0, 2, 6));
    assert s2.txs[1] == s2.txs[2] == Tx(map[], true, [], 0);
    assert s4.txs[1] == Logged(s2.txs[1], Put(0, 1, 5)) && s4.txs[2] == Logged(s2.txs[2], Put(0, 2, 6));
    assert s4.txs[1].log == [Put(0, 1, 5)] && s4.txs[2].log == [Put(0, 2, 6)];
    ReadAfterWrite(map[], 0, 2, 6, 0, 1);
    var s5 := Next(false, s4, Commit(1));
    s := Next(false, s5, Commit(2));
    Prepended(false, s5, Commit(2), []);
    Prepended(false, s4, Commit(1), [Commit(2)] + []);
    Prepended(false, s3, DoPut(2, 0, 2, 6), [Commit(1)] + ([Commit(2)] + []));
    Prepended(false, s2, DoPut(1, 0, 1, 5), [DoPut(2, 0, 2, 6)] + ([Commit(1)] + ([Commit(2)] + [])));
    Prepended(false, s1, BeginWrite(2), [DoPut(1, 0, 1, 5)] + ([DoPut(2, 0, 2, 6)] + ([Commit(1)] + ([Commit(2)] + []))));
    Prepended(false, Initial, BeginWrite(1),
              [BeginWrite(2)] + ([DoPut(1, 0, 1, 5)] + ([DoPut(2, 0, 2, 6)] + ([Commit(1)] + ([Commit(2)] + [])))));
  }

  lemma {:induction false} OverlapLosesAWrite()
    ensures Runnable(false, Initial, Overlap())
    ensures !SerialHistory(Run(false, Initial, Overlap()))
  {
    var s := RunOverlap();
    FirstWriteSurvives([Put(0, 1, 5)], [Put(0, 2, 6)]);
  }

  lemma FirstWriteSurvives(first: Log, second: Log)
    requires first == [Put(0, 1, 5)] && second == [Put(0, 2, 6)]
    ensures Lookup(Serial([first, second]), 0, 1) == Some(5)
  {
    var both: seq<Log>, one: seq<Log> := [first, second], [first];
    assert both[..1] == one && one[..0] == [];
    assert Serial(one) == AppliedLog(map[], first);
    assert first[..0] == [] && second[..0] == [];
    assert AppliedLog(Serial(one), second) == Stored(Serial(one), 0, 2, 6);
  }

  /** The token is exactly what makes every interleaving serial. */
  lemma SerialExactlyWhenLocked(lock: bool)
    ensures (forall es | Runnable(lock, Initial, es) :: SerialHistory(Run(lock, Initial, es))) <==> lock
  {
    if lock {
      forall es | Runnable(lock, Initial, es) ensures SerialHistory(Run(lock, Initial, es)) {
        EveryInterleavingIsSerial(es);
      }
    } else {
      OverlapLosesAWrite();
    }
  }
}
