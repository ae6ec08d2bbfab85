/**
 When a filed tag gets its signature: the way of a tag from the block it is filed in, through the votes on the
 next block, to the proposal and the commit of the one after. The runs here are ordinary.
 */
module CetfRelease {
  import opened Wrappers
  import opened CetfActor
  import opened CetfVotes
  import opened CetfProtocol
  import opened CetfSlots

  // ----- Honest votes --------------------------------------------------------------------------

  /**
   With a tag in the slot, an honest validator's vote on the next block signs that tag, and any validator
   with the same committed state accepts the vote exactly when the signer's key is the registered one.
   */
  lemma {:induction false} HonestVoteSignsTheTag(m: Machine, key: PublicKey, peer: PublicKey, power: map<AccountId, Address>, validator: AccountId)
    requires Inv(false, m) && m.height + 2 in m.actor.tagMap && key.PublicKey?
    ensures var ext := ExtendVote(Some(key), m.actor, m.height, m.height + 1);
      && CetfSigs([ext]) == [Signature(key, Cetf(m.actor.tagMap[m.height + 2]))]
      && (Verified(Some(peer), m.actor, m.height, power, validator, ext) == Accept
          <==> RegisteredKey(m.actor, power, validator) == Some(key))
  {
    var tag := Cetf(m.actor.tagMap[m.height + 2]);
    var ext := ExtendVote(Some(key), m.actor, m.height, m.height + 1);
    assert ext.sigs == [CetfSig(Signature(key, tag)), HeightSig(Signature(key, BlockHeight(m.height + 2)))];
    assert ext.sigs[1..][1..] == [];
    assert CetfSigsOf(ext.sigs[1..]) == [];
    if RegisteredKey(m.actor, power, validator) == Some(key) {
      assert Genuine(m.actor, m.height, power, validator, ext);
    }
  }

  // ----- Bounded release -----------------------------------------------------------------------

  ghost predicate CarriesTag(txs: seq<Tx>) {
    exists tx :: tx in txs && tx.CetfTag?
  }

  ghost predicate SignsTag(ext: VoteExtension) { CetfSigs([ext]) != [] }

  /** Room in a proposal for the aggregate of the last votes. */
  ghost predicate HasRoom(cfg: Config, m: Machine, e: Event)
    requires e.Propose?
  {
    Room(cfg, CetfTag(m.height + 1, multiset(CetfSigs(m.lastCommit))), e.ipc, e.max)
  }

  /**
   Whether the run releases the tag of block `filed`: a vote on the next block carries a tag signature, and the proposal
   that becomes the block after that has room. `signed` and `room` say how this stands so far.
   */
  ghost predicate Releases(cfg: Config, m: Machine, es: seq<Event>, filed: nat, signed: bool, room: bool)
    requires Runnable(cfg, m, es)
    decreases |es|
  {
    es != [] &&
    var e := es[0];
    if e.Begin? && m.height == filed + 1 then signed && room
    else Releases(cfg, Next(cfg, m, e), es[1..], filed,
                  signed || (e.Vote? && m.height == filed && SignsTag(e.ext)),
                  if e.Propose? && m.height == filed + 1 then HasRoom(cfg, m, e) else room)
  }

  /** The tag stands in no other slot. */
  ghost predicate OnlyIn(actor: ActorState, slot: nat, tag: Tag) {
    forall h | h in actor.tagMap && h != slot :: actor.tagMap[h] != tag
  }

  ghost predicate Unreleased(m: Machine, tag: Tag) {
    tag !in m.actor.signedTags && (m.execution.Some? ==> tag !in m.execution.value.actor.signedTags)
  }

  lemma {:induction false} DeliverKeepsUnreleased(cfg: Config, m: Machine, x: Execution, tx: Tx, tag: Tag)
    requires Extends(m.actor, x.actor, m.height + 2) && SoundTx(true, tx, m.actor, m.height + 1)
    requires tag !in x.actor.signedTags && (m.height + 1 in m.actor.tagMap ==> m.actor.tagMap[m.height + 1] != tag)
    ensures tag !in DeliverTx(cfg, x.actor, m.height + 1, tx).signedTags
  {
    DeliverStores(cfg, x.actor, m.height + 1, tx);
    assert tx.CetfTag? ==> x.actor.tagMap[tx.height] == m.actor.tagMap[m.height + 1];
  }

  lemma {:induction false} StepKeepsUnreleased(cfg: Config, m: Machine, e: Event, tag: Tag)
    requires Inv(true, m) && Enabled(cfg, m, e) && Unreleased(m, tag)
    requires m.height + 1 in m.actor.tagMap ==> m.actor.tagMap[m.height + 1] != tag
    ensures Unreleased(Next(cfg, m, e), tag)
  {
    if e.Deliver? {
      var x := m.execution.value;
      assert x.todo[0] in x.todo;
      DeliverKeepsUnreleased(cfg, m, x, x.todo[0], tag);
    }
  }

  /**
   One chance only: a tag still without a signature once block E+2 is committed never gets one, unless it is
   filed again in a later block.
   */
  lemma {:induction false} MissedTagStaysUnreleased(cfg: Config, m: Machine, es: seq<Event>, filed: nat, tag: Tag)
    requires Inv(true, m) && Runnable(cfg, m, es) && AllOrdinary(es) && filed + 2 <= m.height && Unreleased(m, tag)
    requires forall h | h in Run(cfg, m, es).actor.tagMap && h > filed + 2 :: Run(cfg, m, es).actor.tagMap[h] != tag
    ensures Unreleased(Run(cfg, m, es), tag)
    decreases |es|
  {
    if es != [] {
      InvIsGeneral(m);
      SlotsAreFrozen(cfg, m, es);
      StepKeepsInv(true, cfg, m, es[0]);
      StepKeepsUnreleased(cfg, m, es[0], tag);
      MissedTagStaysUnreleased(cfg, Next(cfg, m, es[0]), es[1..], filed, tag);
    }
  }

  /** What every stage of a tag's way assumes; `sole` is set when the tag is new and stands in no other slot. */
  ghost predicate OnTheWay(cfg: Config, m: Machine, es: seq<Event>, filed: nat, tag: Tag, sole: bool) {
    && Inv(true, m) && Runnable(cfg, m, es) && AllOrdinary(es)
    && filed <= m.height && filed + 2 in m.actor.tagMap && m.actor.tagMap[filed + 2] == tag
    && Run(cfg, m, es).height >= filed + 2
    && (sole ==> OnlyIn(Run(cfg, m, es).actor, filed + 2, tag))
  }

  lemma {:induction false} OneStepOn(cfg: Config, m: Machine, es: seq<Event>, filed: nat, tag: Tag, sole: bool)
    requires OnTheWay(cfg, m, es, filed, tag, sole) && es != []
    ensures OnTheWay(cfg, Next(cfg, m, es[0]), es[1..], filed, tag, sole)
  {
    StepKeepsInv(true, cfg, m, es[0]);
    assert AllOrdinary(es[1..]);
  }

  lemma {:induction false} OtherSlotsDiffer(cfg: Config, m: Machine, es: seq<Event>, filed: nat, tag: Tag)
    requires OnTheWay(cfg, m, es, filed, tag, true) && m.height == filed
    ensures m.height + 1 in m.actor.tagMap ==> m.actor.tagMap[m.height + 1] != tag
  {
    InvIsGeneral(m);
    SlotsAreFrozen(cfg, m, es);
  }

  /** Block E+2 is committed, with the tag stored if `rel`, and unstored if not and `sole`. */
  lemma {:induction false} ReleaseSettled(cfg: Config, m: Machine, es: seq<Event>, filed: nat, tag: Tag, sole: bool, rel: bool)
    requires OnTheWay(cfg, m, es, filed, tag, sole) && m.height == filed + 2 && m.execution.None?
    requires (rel ==> tag in m.actor.signedTags) && (sole && !rel ==> tag !in m.actor.signedTags)
    ensures rel ==> tag in Run(cfg, m, es).actor.signedTags
    ensures sole && !rel ==> tag !in Run(cfg, m, es).actor.signedTags
  {
    if rel {
      InvIsGeneral(m);
      SlotsAreFrozen(cfg, m, es);
    } else if sole {
      MissedTagStaysUnreleased(cfg, m, es, filed, tag);
    }
  }

  /** Block E+2 executes, and has stored the tag or still carries it: if `rel`, and only then if `sole`. */
  ghost predicate Executing(m: Machine, tag: Tag, sole: bool, rel: bool) {
    && m.execution.Some?
    && (rel ==> CarriesTag(m.execution.value.todo) || tag in m.execution.value.actor.signedTags)
    && (sole && !rel ==> !CarriesTag(m.execution.value.todo) && tag !in m.execution.value.actor.signedTags)
  }

  lemma {:induction false} DeliverKeepsExecuting(cfg: Config, m: Machine, tag: Tag, sole: bool, rel: bool)
    requires Inv(true, m) && Enabled(cfg, m, Deliver) && Executing(m, tag, sole, rel)
    requires m.height + 1 in m.actor.tagMap && m.actor.tagMap[m.height + 1] == tag
    ensures Executing(Next(cfg, m, Deliver), tag, sole, rel)
  {
    var x := m.execution.value;
    var tx := x.todo[0];
    assert tx in x.todo;
    assert SoundTx(true, tx, m.actor, m.height + 1);
    DeliverStores(cfg, x.actor, m.height + 1, tx);
    if tx.CetfTag? {
      assert x.actor.tagMap[tx.height] == tag;
    } else {
      CarriesRest(x.todo);
    }
  }

  lemma CarriesRest(txs: seq<Tx>)
    requires txs != [] && !txs[0].CetfTag?
    ensures CarriesTag(txs) <==> CarriesTag(txs[1..])
  {
    if CarriesTag(txs) {
      var t :| t in txs && t.CetfTag?;
      assert t in txs[1..];
    }
    if CarriesTag(txs[1..]) {
      var t :| t in txs[1..] && t.CetfTag?;
      assert t in txs;
    }
  }

  lemma {:induction false} ReleaseFromExecution(cfg: Config, m: Machine, es: seq<Event>, filed: nat, tag: Tag, sole: bool, rel: bool)
    requires OnTheWay(cfg, m, es, filed, tag, sole) && m.height == filed + 1 && Executing(m, tag, sole, rel)
    ensures rel ==> tag in Run(cfg, m, es).actor.signedTags
    ensures sole && !rel ==> tag !in Run(cfg, m, es).actor.signedTags
    decreases |es|
  {
    OneStepOn(cfg, m, es, filed, tag, sole);
    var next := Next(cfg, m, es[0]);
    match es[0]
    case Commit => ReleaseSettled(cfg, next, es[1..], filed, tag, sole, rel);
    case Deliver =>
      DeliverKeepsExecuting(cfg, m, tag, sole, rel);
      ReleaseFromExecution(cfg, next, es[1..], filed, tag, sole, rel);
    case Vote(_, _, _, _) => ReleaseFromExecution(cfg, next, es[1..], filed, tag, sole, rel);
  }

  /** Block E+1 is committed: its votes are signed or not, and the proposal for E+2, once there, carries the tag or not. */
  ghost predicate Waiting(m: Machine, tag: Tag, sole: bool, signed: bool, room: bool) {
    && m.execution.None?
    && (signed <==> CetfSigs(m.lastCommit) != [])
    && (sole ==> tag !in m.actor.signedTags)
    && (m.proposal.Some? ==> (CarriesTag(m.proposal.value) <==> signed && room))
  }

  lemma {:induction false} ProposalCarriesExactly(cfg: Config, m: Machine, e: Event, txs: seq<Tx>)
    requires e.Propose? && NoCetfTag(e.mempool) && NoCetfTag(e.ipc)
    requires txs == Proposal(cfg, m.height + 1, m.lastCommit, e.mempool, e.ipc, e.max)
    ensures CarriesTag(txs) <==> CetfSigs(m.lastCommit) != [] && HasRoom(cfg, m, e)
  {
    if CetfSigs(m.lastCommit) == [] {
      if tx :| tx in txs && tx.CetfTag? {
        ProposalOnlyAggregates(cfg, m.height + 1, m.lastCommit, e.mempool, e.ipc, e.max, tx);
      }
    } else {
      AggregateIsProposedExactly(cfg, m.height + 1, m.lastCommit, e.mempool, e.ipc, e.max);
      if tx :| tx in txs && tx.CetfTag? {
        ProposalOnlyAggregates(cfg, m.height + 1, m.lastCommit, e.mempool, e.ipc, e.max, tx);
      }
    }
  }

  lemma {:induction false} ProposeKeepsWaiting(cfg: Config, m: Machine, e: Event, tag: Tag, sole: bool, signed: bool, room: bool)
    requires Enabled(cfg, m, e) && e.Propose? && Ordinary(e) && Waiting(m, tag, sole, signed, room)
    ensures Waiting(Next(cfg, m, e), tag, sole, signed, HasRoom(cfg, m, e))
  {
    var txs := Next(cfg, m, e).proposal.value;
    ProposalCarriesExactly(cfg, m, e, txs);
  }

  lemma {:induction false} ReleaseFromProposal(cfg: Config, m: Machine, es: seq<Event>, filed: nat, tag: Tag, sole: bool, signed: bool, room: bool)
    requires OnTheWay(cfg, m, es, filed, tag, sole) && m.height == filed + 1 && Waiting(m, tag, sole, signed, room)
    ensures var rel := Releases(cfg, m, es, filed, signed, room);
      && (rel ==> tag in Run(cfg, m, es).actor.signedTags)
      && (sole && !rel ==> tag !in Run(cfg, m, es).actor.signedTags)
    decreases |es|
  {
    OneStepOn(cfg, m, es, filed, tag, sole);
    var e, next := es[0], Next(cfg, m, es[0]);
    match e
    case Begin(_) => ReleaseFromExecution(cfg, next, es[1..], filed, tag, sole, signed && room);
    case Propose(_, _, _) =>
      assert Ordinary(es[0]);
      ProposeKeepsWaiting(cfg, m, e, tag, sole, signed, room);
      ReleaseFromProposal(cfg, next, es[1..], filed, tag, sole, signed, HasRoom(cfg, m, e));
    case Vote(_, _, _, _) => ReleaseFromProposal(cfg, next, es[1..], filed, tag, sole, signed, room);
  }

  /** Block E is committed and the votes on E+1 come in. */
  lemma {:induction false} ReleaseFromVotes(cfg: Config, m: Machine, es: seq<Event>, filed: nat, tag: Tag, sole: bool, signed: bool, room: bool)
    requires OnTheWay(cfg, m, es, filed, tag, sole) && m.height == filed
    requires (signed <==> CetfSigs(m.accepted) != []) && (sole ==> Unreleased(m, tag))
    ensures var rel := Releases(cfg, m, es, filed, signed, room);
      && (rel ==> tag in Run(cfg, m, es).actor.signedTags)
      && (sole && !rel ==> tag !in Run(cfg, m, es).actor.signedTags)
    decreases |es|
  {
    OneStepOn(cfg, m, es, filed, tag, sole);
    var e, next := es[0], Next(cfg, m, es[0]);
    if sole {
      OtherSlotsDiffer(cfg, m, es, filed, tag);
      StepKeepsUnreleased(cfg, m, e, tag);
    }
    if e.Commit? {
      ReleaseFromProposal(cfg, next, es[1..], filed, tag, sole, signed, room);
    } else {
      if e.Vote? { CetfSigsConcat(m.accepted, [e.ext]); }
      ReleaseFromVotes(cfg, next, es[1..], filed, tag, sole, signed || (e.Vote? && SignsTag(e.ext)), room);
    }
  }

  /**
   Bounded release: a tag left in its slot by block E has a signature, over exactly that tag, from the commit of block
   E+2 on if a signature was among the votes on E+1 and the proposal executed as E+2 had room; and, if it was unsigned
   before and is filed for no other block, only if.
   */
  lemma {:induction false} TagIsReleasedExactly(cfg: Config, before: seq<Event>, es: seq<Event>, tag: Tag)
    requires Runnable(cfg, Genesis, before) && AllOrdinary(before) && AllOrdinary(es)
    requires var m := Run(cfg, Genesis, before);
      && Runnable(cfg, m, es) && Run(cfg, m, es).height >= m.height + 2
      && m.height + 2 in m.actor.tagMap && m.actor.tagMap[m.height + 2] == tag
    ensures var m := Run(cfg, Genesis, before);
      var final := Run(cfg, m, es).actor;
      var rel := Releases(cfg, m, es, m.height, CetfSigs(m.accepted) != [], false);
      && (rel ==> tag in final.signedTags && SignedOver(final.signedTags[tag], tag))
      && (Unreleased(m, tag) && OnlyIn(final, m.height + 2, tag) ==> (tag in final.signedTags <==> rel))
  {
    var m := Run(cfg, Genesis, before);
    RunKeepsInv(true, cfg, Genesis, before);
    RunKeepsInv(true, cfg, m, es);
    var sole := Unreleased(m, tag) && OnlyIn(Run(cfg, m, es).actor, m.height + 2, tag);
    ReleaseFromVotes(cfg, m, es, m.height, tag, sole, CetfSigs(m.accepted) != [], false);
  }

  lemma {:induction false} CommittedStateStays(cfg: Config, m: Machine, es: seq<Event>)
    requires Runnable(cfg, m, es)
    ensures m.height <= Run(cfg, m, es).height
    ensures Run(cfg, m, es).height == m.height ==> Run(cfg, m, es).actor == m.actor
    decreases |es|
  {
    if es != [] {
      CommittedStateStays(cfg, Next(cfg, m, es[0]), es[1..]);
    }
  }

  /** The event at `i` is an honest validator's vote, on the block after `m`'s. */
  ghost predicate HonestVoteAt(cfg: Config, m: Machine, es: seq<Event>, i: nat, key: PublicKey)
    requires Runnable(cfg, m, es)
  {
    && i < |es| && es[i].Vote? && key.PublicKey?
    && es[i].ext == ExtendVote(Some(key), m.actor, m.height, m.height + 1)
    && Runnable(cfg, m, es[..i]) && Run(cfg, m, es[..i]).height == m.height
  }

  lemma {:induction false} SignedOnceSigned(cfg: Config, m: Machine, es: seq<Event>, filed: nat, i: nat, signed: bool, room: bool)
    requires Runnable(cfg, m, es) && m.height == filed && i < |es| && es[i].Vote? && SignsTag(es[i].ext)
    requires Runnable(cfg, m, es[..i]) && Run(cfg, m, es[..i]).height == filed
    ensures Releases(cfg, m, es, filed, signed, room) <==> Releases(cfg, m, es, filed, true, room)
    decreases i
  {
    if i > 0 {
      var next := Next(cfg, m, es[0]);
      assert es[..i][1..] == es[1..][..i - 1];
      CommittedStateStays(cfg, next, es[1..][..i - 1]);
      SignedOnceSigned(cfg, next, es[1..], filed, i - 1, signed || (es[0].Vote? && SignsTag(es[0].ext)), room);
    }
  }

  /** One honest vote accepted in time settles the question of signatures: release then depends on room alone. */
  lemma {:induction false} HonestVoteSuffices(cfg: Config, m: Machine, es: seq<Event>, i: nat, key: PublicKey, signed: bool)
    requires Inv(false, m) && m.height + 2 in m.actor.tagMap && Runnable(cfg, m, es) && HonestVoteAt(cfg, m, es, i, key)
    ensures Releases(cfg, m, es, m.height, signed, false) <==> Releases(cfg, m, es, m.height, true, false)
  {
    HonestVoteSignsTheTag(m, key, key, map[], 0);
    SignedOnceSigned(cfg, m, es, m.height, i, signed, false);
  }

  // ----- One slot per block --------------------------------------------------------------------

  function LastFiled(cfg: Config, txs: seq<Tx>): Option<Tag> {
    if txs == [] then None
    else if FiledBy(cfg, txs[|txs| - 1]).Some? then FiledBy(cfg, txs[|txs| - 1])
    else LastFiled(cfg, txs[..|txs| - 1])
  }

  lemma {:induction false} DeliverAllSnoc(cfg: Config, actor: ActorState, epoch: nat, txs: seq<Tx>)
    requires txs != []
    ensures DeliverAll(cfg, actor, epoch, txs)
         == DeliverTx(cfg, DeliverAll(cfg, actor, epoch, txs[..|txs| - 1]), epoch, txs[|txs| - 1])
    decreases |txs|
  {
    if |txs| > 1 {
      DeliverAllSnoc(cfg, DeliverTx(cfg, actor, epoch, txs[0]), epoch, txs[1..]);
      assert txs[1..][..|txs| - 2] == txs[..|txs| - 1][1..];
    }
  }

  /**
   A block files at most one tag. Executed with the actor enabled it leaves the last tag filed in its slot,
   so a tag filed in it comes up for signing exactly when no other tag is filed after it in the block.
   */
  lemma {:induction false} LastFiledTagWins(cfg: Config, actor: ActorState, epoch: nat, txs: seq<Tx>)
    requires actor.enabled && FromAccounts(txs) && epoch + 2 !in actor.tagMap
    ensures var after := DeliverAll(cfg, actor, epoch, txs);
      && after.enabled
      && (epoch + 2 in after.tagMap <==> LastFiled(cfg, txs).Some?)
      && (epoch + 2 in after.tagMap ==> Some(after.tagMap[epoch + 2]) == LastFiled(cfg, txs))
    decreases |txs|
  {
    if txs != [] {
      var init, last := txs[..|txs| - 1], txs[|txs| - 1];
      assert last in txs && forall tx | tx in init :: tx in txs;
      DeliverAllSnoc(cfg, actor, epoch, txs);
      LastFiledTagWins(cfg, actor, epoch, init);
      DeliverFiles(cfg, DeliverAll(cfg, actor, epoch, init), epoch, last);
      DeliverStores(cfg, DeliverAll(cfg, actor, epoch, init), epoch, last);
    }
  }

  // ----- From filing to release ----------------------------------------------------------------

  /** However votes are interleaved with a block's execution, what it commits is its transactions executed in order. */
  lemma {:induction false} BlockCommitsItsTxs(cfg: Config, m: Machine, es: seq<Event>)
    requires Runnable(cfg, m, es) && m.execution.Some? && Run(cfg, m, es).height == m.height + 1
    ensures Run(cfg, m, es).actor == DeliverAll(cfg, m.execution.value.actor, m.height + 1, m.execution.value.todo)
    decreases |es|
  {
    if es != [] {
      var next := Next(cfg, m, es[0]);
      if es[0].Commit? {
        CommittedStateStays(cfg, next, es[1..]);
      } else {
        BlockCommitsItsTxs(cfg, next, es[1..]);
      }
    }
  }

  /** The run `block` executes the proposal of `m` from its beginning to its commit, with the actor enabled. */
  ghost predicate ExecutesBlock(cfg: Config, m: Machine, keys: set<Address>, block: seq<Event>) {
    && Enabled(cfg, m, Begin(keys))
    && var begun := Next(cfg, m, Begin(keys));
       begun.execution.value.actor.enabled && Runnable(cfg, begun, block) && Run(cfg, begun, block).height == m.height + 1
  }

  ghost function AfterBlock(cfg: Config, m: Machine, keys: set<Address>, block: seq<Event>): Machine
    requires ExecutesBlock(cfg, m, keys, block)
  {
    Run(cfg, Next(cfg, m, Begin(keys)), block)
  }

  /** The block begun in `m` has the last of its filed tags in its slot once it is committed. */
  lemma {:induction false} BlockFilesItsLastTag(cfg: Config, m: Machine, keys: set<Address>, block: seq<Event>)
    requires Inv(false, m) && ExecutesBlock(cfg, m, keys, block) && LastFiled(cfg, m.proposal.value).Some?
    ensures var after := AfterBlock(cfg, m, keys, block);
      && after.height == m.height + 1 && after.height + 2 in after.actor.tagMap
      && Some(after.actor.tagMap[after.height + 2]) == LastFiled(cfg, m.proposal.value)
  {
    var begun := Next(cfg, m, Begin(keys));
    BlockCommitsItsTxs(cfg, begun, block);
    var x := begun.execution.value;
    assert forall tx | tx in x.todo :: SoundTx(false, tx, m.actor, m.height + 1);
    LastFiledTagWins(cfg, x.actor, m.height + 1, x.todo);
  }

  lemma {:induction false} InvAfterBlock(ordinary: bool, cfg: Config, m: Machine, keys: set<Address>, block: seq<Event>)
    requires Inv(ordinary, m) && ExecutesBlock(cfg, m, keys, block) && (ordinary ==> AllOrdinary(block))
    ensures Inv(ordinary, AfterBlock(cfg, m, keys, block))
  {
    StepKeepsInv(ordinary, cfg, m, Begin(keys));
    RunKeepsInv(ordinary, cfg, Next(cfg, m, Begin(keys)), block);
  }

  lemma {:induction false} SomethingFiled(cfg: Config, txs: seq<Tx>, i: nat)
    requires i < |txs| && FiledBy(cfg, txs[i]).Some?
    ensures LastFiled(cfg, txs).Some?
  {
    if i < |txs| - 1 && FiledBy(cfg, txs[|txs| - 1]).None? {
      SomethingFiled(cfg, txs[..|txs| - 1], i);
    }
  }

  /**
   A tag filed by some transaction of a block, but not the last: in no later state of any run is it in the slot the
   filing was for, so that filing never comes up for signing.
   */
  lemma {:induction false} EarlierTagIsLost(cfg: Config, m: Machine, keys: set<Address>, block: seq<Event>, es: seq<Event>, i: nat)
    requires Inv(false, m) && ExecutesBlock(cfg, m, keys, block) && Runnable(cfg, AfterBlock(cfg, m, keys, block), es)
    requires i < |m.proposal.value| && FiledBy(cfg, m.proposal.value[i]).Some?
    requires FiledBy(cfg, m.proposal.value[i]) != LastFiled(cfg, m.proposal.value)
    ensures var later := Run(cfg, AfterBlock(cfg, m, keys, block), es).actor;
      m.height + 3 in later.tagMap && later.tagMap[m.height + 3] != FiledBy(cfg, m.proposal.value[i]).value
  {
    SomethingFiled(cfg, m.proposal.value, i);
    BlockFilesItsLastTag(cfg, m, keys, block);
    InvAfterBlock(false, cfg, m, keys, block);
    SlotsAreFrozen(cfg, AfterBlock(cfg, m, keys, block), es);
  }

  lemma {:induction false} HonestVoteReleases(cfg: Config, m: Machine, es: seq<Event>, i: nat, key: PublicKey, tag: Tag)
    requires Inv(true, m) && m.height + 2 in m.actor.tagMap && m.actor.tagMap[m.height + 2] == tag
    requires Runnable(cfg, m, es) && AllOrdinary(es) && Run(cfg, m, es).height >= m.height + 2
    requires HonestVoteAt(cfg, m, es, i, key) && Releases(cfg, m, es, m.height, true, false)
    ensures var final := Run(cfg, m, es).actor; tag in final.signedTags && SignedOver(final.signedTags[tag], tag)
  {
    InvIsGeneral(m);
    var signed := CetfSigs(m.accepted) != [];
    HonestVoteSuffices(cfg, m, es, i, key, signed);
    ReleaseFromVotes(cfg, m, es, m.height, tag, false, signed, false);
    RunKeepsInv(true, cfg, m, es);
  }

  lemma {:induction false} FiledTagIsReleased(
      cfg: Config, m: Machine, keys: set<Address>, block: seq<Event>, es: seq<Event>, i: nat, key: PublicKey)
    requires Inv(true, m) && AllOrdinary(block) && AllOrdinary(es)
    requires ExecutesBlock(cfg, m, keys, block) && LastFiled(cfg, m.proposal.value).Some?
    requires var filed := AfterBlock(cfg, m, keys, block);
      && Runnable(cfg, filed, es) && Run(cfg, filed, es).height >= filed.height + 2
      && HonestVoteAt(cfg, filed, es, i, key)
      && Releases(cfg, filed, es, filed.height, true, false)
    ensures var tag := LastFiled(cfg, m.proposal.value).value;
      var final := Run(cfg, AfterBlock(cfg, m, keys, block), es).actor;
      tag in final.signedTags && SignedOver(final.signedTags[tag], tag)
  {
    var filed, tag := AfterBlock(cfg, m, keys, block), LastFiled(cfg, m.proposal.value).value;
    assert filed.height + 2 in filed.actor.tagMap && filed.actor.tagMap[filed.height + 2] == tag by {
      InvIsGeneral(m);
      BlockFilesItsLastTag(cfg, m, keys, block);
    }
    assert Inv(true, filed) by { InvAfterBlock(true, cfg, m, keys, block); }
    HonestVoteReleases(cfg, filed, es, i, key, tag);
  }

  /**
   From filing to release: the last tag filed in a block E that executes with the actor enabled has a signature, over
   exactly that tag, from the commit of block E+2 on, if one honest vote on E+1 was accepted and the proposal executed
   as E+2 had room.
   */
  lemma {:induction false} LastFiledTagIsReleased(
      cfg: Config, before: seq<Event>, keys: set<Address>, block: seq<Event>, es: seq<Event>, i: nat, key: PublicKey)
    requires Runnable(cfg, Genesis, before) && AllOrdinary(before) && AllOrdinary(block) && AllOrdinary(es)
    requires var m := Run(cfg, Genesis, before);
      && ExecutesBlock(cfg, m, keys, block) && LastFiled(cfg, m.proposal.value).Some?
      && var filed := AfterBlock(cfg, m, keys, block);
      && Runnable(cfg, filed, es) && Run(cfg, filed, es).height >= filed.height + 2
      && HonestVoteAt(cfg, filed, es, i, key)
      && Releases(cfg, filed, es, filed.height, true, false)
    ensures var m := Run(cfg, Genesis, before);
      var tag := LastFiled(cfg, m.proposal.value).value;
      var final := Run(cfg, AfterBlock(cfg, m, keys, block), es).actor;
      tag in final.signedTags && SignedOver(final.signedTags[tag], tag)
  {
    ReachableInv(true, cfg, before);
    FiledTagIsReleased(cfg, Run(cfg, Genesis, before), keys, block, es, i, key);
  }
}
