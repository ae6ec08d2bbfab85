/** When the actor is enabled, and whose keys are registered: over every run, ordinary or not. */
module CetfEnabling {
  import opened CetfActor
  import opened CetfVotes
  import opened CetfProtocol

  ghost predicate AllRegistered(actor: ActorState, keys: set<Address>) {
    forall a | a in keys :: a in actor.validators
  }

  /** A block executes with the actor enabled exactly if it was, or every validator's key is registered. */
  lemma BeginEnablesExactly(cfg: Config, m: Machine, keys: set<Address>)
    requires Enabled(cfg, m, Begin(keys))
    ensures Next(cfg, m, Begin(keys)).execution.value.actor
      == m.actor.(enabled := m.actor.enabled || AllRegistered(m.actor, keys))
  {
    assert keys <= m.actor.validators.Keys <==> AllRegistered(m.actor, keys);
  }

  /** The step begins a block with every validator's key registered. */
  ghost predicate BeginsRegistered(m: Machine, e: Event) {
    e.Begin? && AllRegistered(m.actor, e.bftKeys)
  }

  ghost predicate AllRegisteredIn(cfg: Config, m: Machine, es: seq<Event>)
    requires Runnable(cfg, m, es)
    decreases |es|
  {
    es != [] && (BeginsRegistered(m, es[0]) || AllRegisteredIn(cfg, Next(cfg, m, es[0]), es[1..]))
  }

  ghost predicate AnyEnabled(m: Machine) {
    m.actor.enabled || (m.execution.Some? && m.execution.value.actor.enabled)
  }

  lemma {:induction false} StepEnablesExactly(cfg: Config, m: Machine, e: Event)
    requires Inv(false, m) && Enabled(cfg, m, e)
    ensures AnyEnabled(Next(cfg, m, e)) <==> AnyEnabled(m) || BeginsRegistered(m, e)
  {
    match e
    case Begin(keys) => BeginEnablesExactly(cfg, m, keys);
    case Deliver =>
      var x := m.execution.value;
      assert x.todo[0] in x.todo && SoundTx(false, x.todo[0], m.actor, m.height + 1);
      DeliverStores(cfg, x.actor, m.height + 1, x.todo[0]);
    case _ =>
  }

  lemma {:induction false} RunEnablesExactly(cfg: Config, m: Machine, es: seq<Event>)
    requires Inv(false, m) && Runnable(cfg, m, es)
    ensures AnyEnabled(Run(cfg, m, es)) <==> AnyEnabled(m) || AllRegisteredIn(cfg, m, es)
    decreases |es|
  {
    if es != [] {
      StepEnablesExactly(cfg, m, es[0]);
      StepKeepsInv(false, cfg, m, es[0]);
      RunEnablesExactly(cfg, Next(cfg, m, es[0]), es[1..]);
    }
  }

  /** Over every run the actor is enabled exactly from the first block begun with every validator's key registered. */
  lemma ActorIsEnabledExactly(cfg: Config, es: seq<Event>)
    requires Runnable(cfg, Genesis, es)
    ensures AnyEnabled(Run(cfg, Genesis, es)) <==> AllRegisteredIn(cfg, Genesis, es)
  {
    RunEnablesExactly(cfg, Genesis, es);
  }

  /** Whose keys are registered: a key stands until its address gets another, whoever sends the message. */
  lemma DeliverRegisters(cfg: Config, actor: ActorState, epoch: nat, tx: Tx)
    ensures DeliverTx(cfg, actor, epoch, tx).validators
      == if tx.User? && tx.call.AddValidator? then actor.validators[tx.call.address := tx.call.key] else actor.validators
  {
  }
}
