/** What becomes of a slot: once up for signing it never changes, and only tags that stand in one are released. */
module CetfSlots {
  import opened CetfActor
  import opened CetfVotes
  import opened CetfProtocol

  /** From commit to commit the slots that have been up for signing stay, and so do the flag and every stored tag. */
  lemma {:induction false} SlotsAreFrozen(cfg: Config, m: Machine, es: seq<Event>)
    requires Inv(false, m) && Runnable(cfg, m, es)
    ensures m.height <= Run(cfg, m, es).height
    ensures Extends(m.actor, Run(cfg, m, es).actor, m.height + 2)
    decreases |es|
  {
    if es != [] {
      var next := Next(cfg, m, es[0]);
      StepKeepsInv(false, cfg, m, es[0]);
      SlotsAreFrozen(cfg, next, es[1..]);
      assert m.height <= next.height && Extends(m.actor, next.actor, m.height + 2);
    }
  }

  lemma InvIsGeneral(m: Machine)
    requires Inv(true, m)
    ensures Inv(false, m)
  {
  }

  /** Every stored tag stands in a slot no higher than `top`. */
  ghost predicate Slotted(actor: ActorState, top: nat) {
    forall t | t in actor.signedTags :: StandsIn(actor, t, top)
  }

  ghost predicate StandsIn(actor: ActorState, t: Tag, top: nat) {
    exists h :: h <= top && h in actor.tagMap && actor.tagMap[h] == t
  }

  lemma StaysSlotted(before: ActorState, after: ActorState, low: nat, top: nat)
    requires Slotted(before, low) && low <= top && Extends(before, after, low)
    requires forall t | t in after.signedTags :: t in before.signedTags || StandsIn(after, t, top)
    ensures Slotted(after, top)
  {
  }

  ghost predicate SlottedMachine(m: Machine) {
    Slotted(m.actor, m.height) && (m.execution.Some? ==> Slotted(m.execution.value.actor, m.height + 1))
  }

  lemma DeliverKeepsSlotted(cfg: Config, m: Machine, x: Execution, tx: Tx)
    requires SoundExecution(true, m, x) && SoundTx(true, tx, m.actor, m.height + 1) && Slotted(x.actor, m.height + 1)
    ensures Slotted(DeliverTx(cfg, x.actor, m.height + 1, tx), m.height + 1)
  {
    var after := DeliverTx(cfg, x.actor, m.height + 1, tx);
    if tx.CetfTag? {
      assert StandsIn(after, m.actor.tagMap[m.height + 1], m.height + 1);
    }
    StaysSlotted(x.actor, after, m.height + 1, m.height + 1);
  }

  lemma StepKeepsSlotted(cfg: Config, m: Machine, e: Event)
    requires Inv(true, m) && SlottedMachine(m) && Enabled(cfg, m, e)
    ensures SlottedMachine(Next(cfg, m, e))
  {
    match e
    case Begin(keys) => StaysSlotted(m.actor, BeginBlock(cfg, m.actor, m.height + 1, keys), m.height, m.height + 1);
    case Deliver =>
      var x := m.execution.value;
      assert x.todo[0] in x.todo;
      DeliverKeepsSlotted(cfg, m, x, x.todo[0]);
    case _ =>
  }

  lemma {:induction false} RunKeepsSlotted(cfg: Config, m: Machine, es: seq<Event>)
    requires Inv(true, m) && SlottedMachine(m) && Runnable(cfg, m, es) && AllOrdinary(es)
    ensures SlottedMachine(Run(cfg, m, es))
    decreases |es|
  {
    if es != [] {
      StepKeepsInv(true, cfg, m, es[0]);
      StepKeepsSlotted(cfg, m, es[0]);
      RunKeepsSlotted(cfg, Next(cfg, m, es[0]), es[1..]);
    }
  }

  /** No key is released without being called for: in every ordinary run a stored tag stands in a slot of a committed block. */
  lemma OnlySlottedTagsAreReleased(cfg: Config, es: seq<Event>)
    requires Runnable(cfg, Genesis, es) && AllOrdinary(es)
    ensures Slotted(Run(cfg, Genesis, es).actor, Run(cfg, Genesis, es).height)
  {
    RunKeepsSlotted(cfg, Genesis, es);
  }
}
