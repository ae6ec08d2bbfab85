/**
 The key-release protocol as a machine over the steps of consensus.

 A tag filed while block E executes sits in slot E+2. Votes on block E+1 are extended and checked
 against the state committed by block E, whose slot E+2 is the one they sign. The proposer of block
 E+2 submits the aggregate under its own height, and executing it stores the aggregate under the tag
 found in slot E+2.

 Heights are consecutive from 1. A vote joins the next commit only after a validator accepted its
 extension. Proposers are honest: they run the proposal step over what was submitted.

 A tag transaction is executed in the name of the system actor whoever submitted it, and its aggregate is
 stored unchecked. Runs in which nobody but proposers submits one are called ordinary below.
 */
module CetfProtocol {
  import opened Wrappers
  import opened CetfActor
  import opened CetfVotes

  /** A block under execution: the state so far and the transactions still to be delivered. */
  datatype Execution = Execution(actor: ActorState, todo: seq<Tx>)

  datatype Machine = Machine(
    height: nat,                        // of the last committed block
    actor: ActorState,                  // as that block committed it
    lastCommit: seq<VoteExtension>,     // extensions of the votes on that block
    accepted: seq<VoteExtension>,       // extensions accepted so far for the votes on the next block
    proposal: Option<seq<Tx>>,          // the next block, once proposed
    execution: Option<Execution>)       // the next block, once it executes

  datatype Event =
    | Vote(ctx: PublicKey, power: map<AccountId, Address>, validator: AccountId, ext: VoteExtension)
    | Propose(mempool: seq<Tx>, ipc: seq<Tx>, max: nat)
    | Begin(bftKeys: set<Address>)
    | Deliver
    | Commit

  const Genesis := Machine(0, Fresh, [], [], None, None)

  /** What anyone may submit: only accounts sign messages. */
  ghost predicate FromAccounts(txs: seq<Tx>) {
    forall tx | tx in txs :: tx.User? ==> tx.caller.Account?
  }

  /** The interpreter adds no tag transactions of its own. */
  ghost predicate Enabled(cfg: Config, m: Machine, e: Event) {
    match e
    case Vote(ctx, power, validator, ext) => Verified(Some(ctx), m.actor, m.height, power, validator, ext) == Accept
    case Propose(mempool, ipc, _) => m.execution.None? && FromAccounts(mempool) && FromAccounts(ipc) && NoCetfTag(ipc)
    case Begin(_) => m.proposal.Some? && m.execution.None?
    case Deliver => m.execution.Some? && m.execution.value.todo != []
    case Commit => m.execution.Some? && m.execution.value.todo == []
  }

  /** Nobody but the proposer brings in a tag transaction. */
  ghost predicate Ordinary(e: Event) { e.Propose? ==> NoCetfTag(e.mempool) }

  ghost predicate AllOrdinary(es: seq<Event>) { forall i | 0 <= i < |es| :: Ordinary(es[i]) }

  /** Before a block's transactions the actor is enabled once every validator has registered a key. */
  function BeginBlock(cfg: Config, actor: ActorState, epoch: nat, bftKeys: set<Address>): ActorState {
    if !actor.enabled && bftKeys <= actor.validators.Keys
    then Applied(cfg.keccak, actor, epoch, System, Enable) else actor
  }

  function DeliverTx(cfg: Config, actor: ActorState, epoch: nat, tx: Tx): ActorState {
    match tx
    case CetfTag(height, aggregate) => Applied(cfg.keccak, actor, epoch, System, AddSignedTag(height, aggregate))
    case User(caller, call) => Applied(cfg.keccak, actor, epoch, caller, call)
    case Rubbish(_) => actor
  }

  /** The tag a transaction files while the actor is enabled. */
  function FiledBy(cfg: Config, tx: Tx): Option<Tag> {
    if tx.User? then Filed(cfg.keccak, Fresh.(enabled := true), tx.caller, tx.call) else None
  }

  function Proposed(cfg: Config, m: Machine, mempool: seq<Tx>, ipc: seq<Tx>, max: nat): Machine {
    m.(proposal := Some(Proposal(cfg, m.height + 1, m.lastCommit, mempool, ipc, max)))
  }

  ghost function Next(cfg: Config, m: Machine, e: Event): Machine
    requires Enabled(cfg, m, e)
  {
    match e
    case Vote(_, _, _, ext) => m.(accepted := m.accepted + [ext])
    case Propose(mempool, ipc, max) => Proposed(cfg, m, mempool, ipc, max)
    case Begin(keys) => m.(execution := Some(Execution(BeginBlock(cfg, m.actor, m.height + 1, keys), m.proposal.value)))
    case Deliver =>
      var x := m.execution.value;
      m.(execution := Some(Execution(DeliverTx(cfg, x.actor, m.height + 1, x.todo[0]), x.todo[1..])))
    case Commit => Machine(m.height + 1, m.execution.value.actor, m.accepted, [], None, None)
  }

  function DeliverAll(cfg: Config, actor: ActorState, epoch: nat, txs: seq<Tx>): ActorState
    decreases |txs|
  {
    if txs == [] then actor else DeliverAll(cfg, DeliverTx(cfg, actor, epoch, txs[0]), epoch, txs[1..])
  }

  ghost predicate Runnable(cfg: Config, m: Machine, es: seq<Event>)
    decreases |es|
  {
    es == [] || (Enabled(cfg, m, es[0]) && Runnable(cfg, Next(cfg, m, es[0]), es[1..]))
  }

  ghost function Run(cfg: Config, m: Machine, es: seq<Event>): Machine
    requires Runnable(cfg, m, es)
    decreases |es|
  {
    if es == [] then m else Run(cfg, Next(cfg, m, es[0]), es[1..])
  }

  lemma {:induction false} Prepended(cfg: Config, m: Machine, e: Event, es: seq<Event>)
    requires Enabled(cfg, m, e) && Runnable(cfg, Next(cfg, m, e), es)
    ensures Runnable(cfg, m, [e] + es) && Run(cfg, m, [e] + es) == Run(cfg, Next(cfg, m, e), es)
  {
    assert ([e] + es)[0] == e && ([e] + es)[1..] == es;
  }

  // ----- What every step keeps -----------------------------------------------------------------

  ghost predicate SignedOver(aggregate: Aggregate, tag: Tag) {
    aggregate != multiset{} && forall s | s in aggregate :: s.Signature? && s.message == Cetf(tag)
  }

  /** The promise of the protocol: what is stored under a tag are signatures over exactly that tag. */
  ghost predicate Safe(actor: ActorState) {
    forall t | t in actor.signedTags :: SignedOver(actor.signedTags[t], t)
  }

  /** No slot above `top` is filled yet, and tags are only filed while the actor is enabled. */
  ghost predicate FilledUpTo(actor: ActorState, top: nat) {
    forall h | h in actor.tagMap :: h <= top && actor.enabled
  }

  ghost predicate OverSlot(sigs: seq<BlsSignature>, actor: ActorState, slot: nat) {
    forall s | s in sigs :: slot in actor.tagMap && s.Signature? && s.message == Cetf(actor.tagMap[slot])
  }

  /** The extension unpacks, and its tag signatures are over the tag in the slot. */
  ghost predicate VoteOver(ext: VoteExtension, actor: ActorState, slot: nat) {
    && !ext.Undecodable?
    && (ext.Signed? ==> forall sig | sig in ext.sigs ::
          && sig.sig.Signature?
          && (sig.CetfSig? ==> slot in actor.tagMap && sig.sig.message == Cetf(actor.tagMap[slot])))
  }

  ghost predicate VotesOver(votes: seq<VoteExtension>, actor: ActorState, slot: nat) {
    forall ext | ext in votes :: VoteOver(ext, actor, slot)
  }

  /** The parts below that hold of ordinary runs only are asked for when `ordinary` is set. */
  ghost predicate SoundTx(ordinary: bool, tx: Tx, actor: ActorState, slot: nat) {
    && (ordinary && tx.CetfTag? ==>
          tx.height == slot && slot in actor.tagMap && SignedOver(tx.aggregate, actor.tagMap[slot]))
    && (tx.User? ==> tx.caller.Account?)
  }

  /** A block's tag transactions belong to its own slot; its other transactions come from accounts. */
  ghost predicate SoundTxs(ordinary: bool, txs: seq<Tx>, actor: ActorState, slot: nat) {
    forall tx | tx in txs :: SoundTx(ordinary, tx, actor, slot)
  }

  /** `later` leaves the slots up to `top`, the flag and the stored tags as `earlier` had them, or adds to them. */
  ghost predicate Extends(earlier: ActorState, later: ActorState, top: nat) {
    && (forall h | h <= top :: h in earlier.tagMap <==> h in later.tagMap)
    && (forall h | h <= top && h in earlier.tagMap :: later.tagMap[h] == earlier.tagMap[h])
    && (earlier.enabled ==> later.enabled)
    && earlier.signedTags.Keys <= later.signedTags.Keys
  }

  ghost predicate SoundExecution(ordinary: bool, m: Machine, x: Execution) {
    && (ordinary ==> Safe(x.actor))
    && FilledUpTo(x.actor, m.height + 3)
    && Extends(m.actor, x.actor, m.height + 2)
    && SoundTxs(ordinary, x.todo, m.actor, m.height + 1)
  }

  ghost predicate Inv(ordinary: bool, m: Machine) {
    && (ordinary ==> Safe(m.actor))
    && FilledUpTo(m.actor, m.height + 2)
    && VotesOver(m.lastCommit, m.actor, m.height + 1)
    && VotesOver(m.accepted, m.actor, m.height + 2)
    && (m.proposal.Some? ==> SoundTxs(ordinary, m.proposal.value, m.actor, m.height + 1))
    && (m.execution.Some? ==> SoundExecution(ordinary, m, m.execution.value))
  }

  lemma {:induction false} CetfSigsAt(sigs: seq<SignatureKind>, s: BlsSignature)
    ensures s in CetfSigsOf(sigs) <==> CetfSig(s) in sigs
  {
    if sigs != [] {
      CetfSigsAt(sigs[1..], s);
    }
  }

  lemma {:induction false} VotesGiveTheSlot(votes: seq<VoteExtension>, actor: ActorState, slot: nat)
    requires VotesOver(votes, actor, slot)
    ensures OverSlot(CetfSigs(votes), actor, slot)
  {
    if votes != [] {
      VotesGiveTheSlot(votes[1..], actor, slot);
      assert VoteOver(votes[0], actor, slot);
      if votes[0].Signed? {
        forall s | s in CetfSigsOf(votes[0].sigs)
          ensures slot in actor.tagMap && s.Signature? && s.message == Cetf(actor.tagMap[slot])
        {
          CetfSigsAt(votes[0].sigs, s);
        }
      }
    }
  }

  /** An extension a validator accepts unpacks, and its tag signatures are over the slot two above the committed block. */
  lemma AcceptedExtension(ctx: PublicKey, actor: ActorState, height: nat, power: map<AccountId, Address>, validator: AccountId, ext: VoteExtension)
    requires Verified(Some(ctx), actor, height, power, validator, ext) == Accept
    ensures VoteOver(ext, actor, height + 2)
  {
  }

  lemma {:induction false} VoteKeepsInv(ordinary: bool, cfg: Config, m: Machine, e: Event)
    requires Inv(ordinary, m) && e.Vote? && Enabled(cfg, m, e)
    ensures Inv(ordinary, Next(cfg, m, e))
  {
    AcceptedExtension(e.ctx, m.actor, m.height, e.power, e.validator, e.ext);
  }

  /** What may go into a proposal, besides the aggregate. */
  ghost predicate Submitted(ordinary: bool, mempool: seq<Tx>, ipc: seq<Tx>) {
    FromAccounts(mempool) && FromAccounts(ipc) && NoCetfTag(ipc) && (ordinary ==> NoCetfTag(mempool))
  }

  lemma {:induction false} ProposedTxIsSound(ordinary: bool, cfg: Config, actor: ActorState, slot: nat, votes: seq<VoteExtension>,
                                             mempool: seq<Tx>, ipc: seq<Tx>, max: nat, tx: Tx)
    requires OverSlot(CetfSigs(votes), actor, slot) && Submitted(ordinary, mempool, ipc)
    requires tx in Proposal(cfg, slot, votes, mempool, ipc, max)
    ensures SoundTx(ordinary, tx, actor, slot)
  {
    if tx.CetfTag? {
      if ordinary {
        ProposalOnlyAggregates(cfg, slot, votes, mempool, ipc, max, tx);
        AggregateOverSlot(CetfSigs(votes), actor, slot);
      }
    } else {
      ProposedIsGiven(cfg, slot, votes, mempool, ipc, max, tx);
    }
  }

  lemma {:induction false} ProposalIsSound(ordinary: bool, cfg: Config, actor: ActorState, slot: nat, votes: seq<VoteExtension>,
                                           mempool: seq<Tx>, ipc: seq<Tx>, max: nat, txs: seq<Tx>)
    requires VotesOver(votes, actor, slot) && Submitted(ordinary, mempool, ipc)
    requires txs == Proposal(cfg, slot, votes, mempool, ipc, max)
    ensures SoundTxs(ordinary, txs, actor, slot)
  {
    VotesGiveTheSlot(votes, actor, slot);
    forall tx | tx in txs ensures SoundTx(ordinary, tx, actor, slot) {
      ProposedTxIsSound(ordinary, cfg, actor, slot, votes, mempool, ipc, max, tx);
    }
  }

  lemma AggregateOverSlot(sigs: seq<BlsSignature>, actor: ActorState, slot: nat)
    requires sigs != [] && OverSlot(sigs, actor, slot)
    ensures slot in actor.tagMap && SignedOver(multiset(sigs), actor.tagMap[slot])
  {
    assert sigs[0] in sigs && sigs[0] in multiset(sigs);
    forall s | s in multiset(sigs) ensures s in sigs { }
  }

  lemma {:induction false} ProposeKeepsInv(ordinary: bool, cfg: Config, m: Machine, mempool: seq<Tx>, ipc: seq<Tx>, max: nat)
    requires Inv(ordinary, m) && Submitted(ordinary, mempool, ipc)
    ensures Inv(ordinary, Proposed(cfg, m, mempool, ipc, max))
  {
    var next := Proposed(cfg, m, mempool, ipc, max);
    ProposalIsSound(ordinary, cfg, m.actor, m.height + 1, m.lastCommit, mempool, ipc, max, next.proposal.value);
  }

  lemma {:induction false} ProposedIsGiven(cfg: Config, height: nat, votes: seq<VoteExtension>, mempool: seq<Tx>, ipc: seq<Tx>, max: nat, tx: Tx)
    requires tx in Proposal(cfg, height, votes, mempool, ipc, max) && !tx.CetfTag?
    ensures tx in mempool || tx in ipc
  {
    var own := Aggregated(height, votes) + mempool;
    FittingIsLongest(cfg.size, Truncated(Arranged(cfg, own, ipc), cfg.maxMsgs), max);
    DecodableKeeps(tx, own);
    assert tx in Arranged(cfg, own, ipc);
  }

  lemma BeginKeepsInv(ordinary: bool, cfg: Config, m: Machine, e: Event)
    requires Inv(ordinary, m) && e.Begin? && Enabled(cfg, m, e)
    ensures Inv(ordinary, Next(cfg, m, e))
  {
  }

  /** What a transaction that an account or the proposer may bring in does to the stored tags and the flag. */
  lemma DeliverStores(cfg: Config, actor: ActorState, epoch: nat, tx: Tx)
    requires tx.User? ==> tx.caller.Account?
    ensures var after := DeliverTx(cfg, actor, epoch, tx);
      && after.enabled == actor.enabled
      && after.signedTags == if tx.CetfTag? && tx.height in actor.tagMap
                             then actor.signedTags[actor.tagMap[tx.height] := tx.aggregate] else actor.signedTags
  {
  }

  /** And to the slots. */
  lemma DeliverFiles(cfg: Config, actor: ActorState, epoch: nat, tx: Tx)
    requires tx.User? ==> tx.caller.Account?
    ensures DeliverTx(cfg, actor, epoch, tx).tagMap
      == if actor.enabled && FiledBy(cfg, tx).Some? then actor.tagMap[epoch + 2 := FiledBy(cfg, tx).value] else actor.tagMap
  {
  }

  /** Storing the aggregate of the block's own slot. */
  lemma StoringIsSound(cfg: Config, m: Machine, x: Execution, tx: Tx)
    requires SoundExecution(true, m, x) && SoundTx(true, tx, m.actor, m.height + 1) && tx.CetfTag?
    ensures var after := DeliverTx(cfg, x.actor, m.height + 1, tx);
      && SoundExecution(true, m, x.(actor := after))
      && after.signedTags == x.actor.signedTags[m.actor.tagMap[m.height + 1] := tx.aggregate]
  {
  }

  /** Executing one transaction of a sound block is safe, confined to the newest slot, and forgets nothing. */
  lemma DeliveredTxIsSound(ordinary: bool, cfg: Config, m: Machine, x: Execution, tx: Tx)
    requires SoundExecution(ordinary, m, x) && SoundTx(ordinary, tx, m.actor, m.height + 1)
    ensures SoundExecution(ordinary, m, x.(actor := DeliverTx(cfg, x.actor, m.height + 1, tx)))
  {
    DeliverStores(cfg, x.actor, m.height + 1, tx);
    DeliverFiles(cfg, x.actor, m.height + 1, tx);
    if ordinary && tx.CetfTag? {
      StoringIsSound(cfg, m, x, tx);
    }
  }

  lemma DeliverKeepsInv(ordinary: bool, cfg: Config, m: Machine, e: Event)
    requires Inv(ordinary, m) && e.Deliver? && Enabled(cfg, m, e)
    ensures Inv(ordinary, Next(cfg, m, e))
  {
    var x := m.execution.value;
    assert x.todo[0] in x.todo;
    DeliveredTxIsSound(ordinary, cfg, m, x, x.todo[0]);
  }

  lemma CommitKeepsInv(ordinary: bool, cfg: Config, m: Machine, e: Event)
    requires Inv(ordinary, m) && e.Commit? && Enabled(cfg, m, e)
    ensures Inv(ordinary, Next(cfg, m, e))
  {
  }

  lemma StepKeepsInv(ordinary: bool, cfg: Config, m: Machine, e: Event)
    requires Inv(ordinary, m) && Enabled(cfg, m, e) && (ordinary ==> Ordinary(e))
    ensures Inv(ordinary, Next(cfg, m, e))
  {
    match e
    case Vote(_, _, _, _) => VoteKeepsInv(ordinary, cfg, m, e);
    case Propose(mempool, ipc, max) => ProposeKeepsInv(ordinary, cfg, m, mempool, ipc, max);
    case Begin(_) => BeginKeepsInv(ordinary, cfg, m, e);
    case Deliver => DeliverKeepsInv(ordinary, cfg, m, e);
    case Commit => CommitKeepsInv(ordinary, cfg, m, e);
  }

  lemma {:induction false} RunKeepsInv(ordinary: bool, cfg: Config, m: Machine, es: seq<Event>)
    requires Inv(ordinary, m) && Runnable(cfg, m, es) && (ordinary ==> AllOrdinary(es))
    ensures Inv(ordinary, Run(cfg, m, es))
    decreases |es|
  {
    if es != [] {
      StepKeepsInv(ordinary, cfg, m, es[0]);
      RunKeepsInv(ordinary, cfg, Next(cfg, m, es[0]), es[1..]);
    }
  }

  lemma {:induction false} ReachableInv(ordinary: bool, cfg: Config, es: seq<Event>)
    requires Runnable(cfg, Genesis, es) && (ordinary ==> AllOrdinary(es))
    ensures Inv(ordinary, Run(cfg, Genesis, es))
  {
    RunKeepsInv(ordinary, cfg, Genesis, es);
  }

  lemma VotesUnpack(votes: seq<VoteExtension>, actor: ActorState, slot: nat)
    requires VotesOver(votes, actor, slot)
    ensures Unpackable(votes)
  {
    assert forall i | 0 <= i < |votes| :: VoteOver(votes[i], actor, slot);
  }

  /** In every run, ordinary or not, the proposer's unpacking of the votes it holds cannot panic. */
  lemma {:induction false} EveryRunUnpacks(cfg: Config, es: seq<Event>)
    requires Runnable(cfg, Genesis, es)
    ensures Unpackable(Run(cfg, Genesis, es).lastCommit)
  {
    ReachableInv(false, cfg, es);
    var m := Run(cfg, Genesis, es);
    VotesUnpack(m.lastCommit, m.actor, m.height + 1);
  }
}
