/**
 When what is stored under a tag are signatures over exactly that tag: the exact condition for any run, and the runs
 that meet it because nobody but proposers brings in tag transactions.
 */
module CetfSafety {
  import opened Wrappers
  import opened CetfActor
  import opened CetfVotes
  import opened CetfProtocol

  /** A tag transaction finds its slot empty, or carries signatures over the tag in it. */
  ghost predicate Authentic(actor: ActorState, tx: Tx) {
    tx.CetfTag? && tx.height in actor.tagMap ==> SignedOver(tx.aggregate, actor.tagMap[tx.height])
  }

  lemma StoringIsSafeExactly(before: ActorState, tag: Tag, aggregate: Aggregate, after: ActorState)
    requires Safe(before) && after.signedTags == before.signedTags[tag := aggregate]
    ensures Safe(after) <==> SignedOver(aggregate, tag)
  {
    assert tag in after.signedTags;
  }

  /** The check the actor does not make: executing a transaction stays safe exactly when it is authentic. */
  lemma DeliveryIsSafeExactly(cfg: Config, actor: ActorState, epoch: nat, tx: Tx)
    requires Safe(actor) && (tx.User? ==> tx.caller.Account?)
    ensures Safe(DeliverTx(cfg, actor, epoch, tx)) <==> Authentic(actor, tx)
  {
    DeliverStores(cfg, actor, epoch, tx);
    if tx.CetfTag? && tx.height in actor.tagMap {
      StoringIsSafeExactly(actor, actor.tagMap[tx.height], tx.aggregate, DeliverTx(cfg, actor, epoch, tx));
    }
  }

  /** Each transaction is authentic when its turn comes. */
  ghost predicate AllAuthentic(cfg: Config, actor: ActorState, epoch: nat, txs: seq<Tx>)
    decreases |txs|
  {
    txs == [] || (Authentic(actor, txs[0]) && AllAuthentic(cfg, DeliverTx(cfg, actor, epoch, txs[0]), epoch, txs[1..]))
  }

  ghost predicate SafeThroughout(cfg: Config, actor: ActorState, epoch: nat, txs: seq<Tx>)
    decreases |txs|
  {
    Safe(actor) && (txs == [] || SafeThroughout(cfg, DeliverTx(cfg, actor, epoch, txs[0]), epoch, txs[1..]))
  }

  /** A block is safe after each of its transactions exactly when all are authentic. */
  lemma {:induction false} BlockIsSafeExactly(cfg: Config, actor: ActorState, epoch: nat, txs: seq<Tx>)
    requires Safe(actor) && FromAccounts(txs)
    ensures SafeThroughout(cfg, actor, epoch, txs) <==> AllAuthentic(cfg, actor, epoch, txs)
    decreases |txs|
  {
    if txs != [] {
      assert txs[0] in txs;
      DeliveryIsSafeExactly(cfg, actor, epoch, txs[0]);
      if Authentic(actor, txs[0]) {
        BlockIsSafeExactly(cfg, DeliverTx(cfg, actor, epoch, txs[0]), epoch, txs[1..]);
      }
    }
  }

  ghost predicate SafeMachine(m: Machine) {
    Safe(m.actor) && (m.execution.Some? ==> Safe(m.execution.value.actor))
  }

  /** The step executes no transaction, or an authentic one. */
  ghost predicate AuthenticStep(cfg: Config, m: Machine, e: Event)
    requires Enabled(cfg, m, e)
  {
    e.Deliver? ==> Authentic(m.execution.value.actor, m.execution.value.todo[0])
  }

  ghost predicate AuthenticRun(cfg: Config, m: Machine, es: seq<Event>)
    requires Runnable(cfg, m, es)
    decreases |es|
  {
    es == [] || (AuthenticStep(cfg, m, es[0]) && AuthenticRun(cfg, Next(cfg, m, es[0]), es[1..]))
  }

  ghost predicate SafeRun(cfg: Config, m: Machine, es: seq<Event>)
    requires Runnable(cfg, m, es)
    decreases |es|
  {
    SafeMachine(m) && (es == [] || SafeRun(cfg, Next(cfg, m, es[0]), es[1..]))
  }

  lemma {:induction false} StepIsSafeExactly(cfg: Config, m: Machine, e: Event)
    requires Inv(false, m) && SafeMachine(m) && Enabled(cfg, m, e)
    ensures SafeMachine(Next(cfg, m, e)) <==> AuthenticStep(cfg, m, e)
  {
    if e.Deliver? {
      var x := m.execution.value;
      assert x.todo[0] in x.todo;
      DeliveryIsSafeExactly(cfg, x.actor, m.height + 1, x.todo[0]);
    }
  }

  lemma {:induction false} RunIsSafeExactly(cfg: Config, m: Machine, es: seq<Event>)
    requires Inv(false, m) && SafeMachine(m) && Runnable(cfg, m, es)
    ensures SafeRun(cfg, m, es) <==> AuthenticRun(cfg, m, es)
    decreases |es|
  {
    if es != [] {
      StepIsSafeExactly(cfg, m, es[0]);
      if AuthenticStep(cfg, m, es[0]) {
        StepKeepsInv(false, cfg, m, es[0]);
        RunIsSafeExactly(cfg, Next(cfg, m, es[0]), es[1..]);
      }
    }
  }

  /** Whoever submits what, a run is safe in all its states exactly when each tag transaction was authentic on execution. */
  lemma EveryRunIsSafeExactly(cfg: Config, es: seq<Event>)
    requires Runnable(cfg, Genesis, es)
    ensures SafeRun(cfg, Genesis, es) <==> AuthenticRun(cfg, Genesis, es)
  {
    RunIsSafeExactly(cfg, Genesis, es);
  }

  lemma {:induction false} OrdinaryRunIsSafe(cfg: Config, m: Machine, es: seq<Event>)
    requires Inv(true, m) && Runnable(cfg, m, es) && AllOrdinary(es)
    ensures SafeRun(cfg, m, es)
    decreases |es|
  {
    if es != [] {
      StepKeepsInv(true, cfg, m, es[0]);
      OrdinaryRunIsSafe(cfg, Next(cfg, m, es[0]), es[1..]);
    }
  }

  /**
   Safety over whole runs: if nobody but proposers brings in tag transactions, then in every state, also within a block,
   each stored aggregate is made of signatures over exactly its tag, and every tag transaction executed was authentic.
   */
  lemma EveryRunIsSafe(cfg: Config, es: seq<Event>)
    requires Runnable(cfg, Genesis, es) && AllOrdinary(es)
    ensures SafeRun(cfg, Genesis, es) && AuthenticRun(cfg, Genesis, es)
    ensures Safe(Run(cfg, Genesis, es).actor)
  {
    OrdinaryRunIsSafe(cfg, Genesis, es);
    EveryRunIsSafeExactly(cfg, es);
    RunKeepsInv(true, cfg, Genesis, es);
  }

  /** A machine between blocks, without tag signatures among the last votes. */
  ghost predicate AtRest(m: Machine) {
    m.execution.None? && m.lastCommit == [] && m.accepted == []
  }

  ghost predicate Fits(cfg: Config, tx: Tx, max: nat) {
    cfg.maxMsgs > 0 && cfg.size(tx) <= max && !tx.Rubbish? && (tx.User? ==> tx.caller.Account?)
  }

  lemma {:induction false} LoneProposal(cfg: Config, height: nat, tx: Tx, max: nat)
    requires Fits(cfg, tx, max)
    ensures Proposal(cfg, height, [], [tx], [], max) == [tx]
  {
    var txs := Aggregated(height, []) + [tx];
    assert txs == [tx];
    assert [tx][1..] == [] && Decodable([tx]) == [tx];
    assert Arranged(cfg, txs, []) == [tx];
    assert Truncated([tx], cfg.maxMsgs) == [tx];
    assert Fitting(cfg.size, [tx], max) == [tx];
  }

  /** A block of one transaction, up to its execution, and then whatever follows. */
  function BlockOf(tx: Tx, max: nat, rest: seq<Event>): seq<Event> {
    [Propose([tx], [], max)] + ([Begin({})] + ([Deliver] + rest))
  }

  function Executed(cfg: Config, m: Machine, tx: Tx): Machine {
    m.(proposal := Some([tx]),
       execution := Some(Execution(DeliverTx(cfg, BeginBlock(cfg, m.actor, m.height + 1, {}), m.height + 1, tx), [])))
  }

  lemma {:induction false} RunBlockOf(cfg: Config, m: Machine, tx: Tx, max: nat, rest: seq<Event>)
    requires AtRest(m) && Fits(cfg, tx, max) && Runnable(cfg, Executed(cfg, m, tx), rest)
    ensures Runnable(cfg, m, BlockOf(tx, max, rest))
    ensures Run(cfg, m, BlockOf(tx, max, rest)) == Run(cfg, Executed(cfg, m, tx), rest)
  {
    LoneProposal(cfg, m.height + 1, tx, max);
    var m1 := Next(cfg, m, Propose([tx], [], max));
    assert m1 == m.(proposal := Some([tx]));
    var m2 := Next(cfg, m1, Begin({}));
    assert m2.execution.value.todo[1..] == [];
    assert Next(cfg, m2, Deliver) == Executed(cfg, m, tx);
    Prepended(cfg, m2, Deliver, rest);
    Prepended(cfg, m1, Begin({}), [Deliver] + rest);
    Prepended(cfg, m, Propose([tx], [], max), [Begin({})] + ([Deliver] + rest));
  }

  /**
   An input that breaks safety: one account files a tag, and then a tag transaction for its slot, with an aggregate
   that is not over the tag, is submitted like any other transaction. In the second block it is stored.
   */
  lemma {:induction false} ForeignTagBreaksSafety(cfg: Config, filing: Tx, aggregate: Aggregate, max: nat) returns (es: seq<Event>)
    requires Fits(cfg, filing, max) && Fits(cfg, CetfTag(3, aggregate), max) && FiledBy(cfg, filing).Some?
    requires !SignedOver(aggregate, FiledBy(cfg, filing).value)
    ensures Runnable(cfg, Genesis, es)
    ensures var x := Run(cfg, Genesis, es).execution; x.Some? && !Safe(x.value.actor)
  {
    var tag, foreign := FiledBy(cfg, filing).value, CetfTag(3, aggregate);
    var m1 := Executed(cfg, Genesis, filing);
    var m2 := Next(cfg, m1, Commit);
    assert m2.actor.tagMap == map[3 := tag];
    var before := BeginBlock(cfg, m2.actor, 2, {});
    assert before.tagMap == map[3 := tag] && Safe(before);
    DeliveryIsSafeExactly(cfg, before, 2, foreign);
    RunBlockOf(cfg, m2, foreign, max, []);
    var second := BlockOf(foreign, max, []);
    Prepended(cfg, m1, Commit, second);
    RunBlockOf(cfg, Genesis, filing, max, [Commit] + second);
    es := BlockOf(filing, max, [Commit] + second);
  }
}
