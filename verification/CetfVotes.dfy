/**
 Votes and proposals: what a validator adds to its vote, how a peer checks it, and how the next
 proposer turns the collected extensions into a transaction.

 `actor` and `height` are the committed actor state and the height of the block that committed it.
 */
module CetfVotes {
  import opened Wrappers
  import opened CetfActor
  import Sorting

  type AccountId = nat

  datatype SignatureKind = CetfSig(sig: BlsSignature) | HeightSig(sig: BlsSignature)
  datatype VoteExtension = Empty | Undecodable | Signed(sigs: seq<SignatureKind>)
  datatype Verdict = Accept | Reject | Fault

  // ----- Extending a vote ----------------------------------------------------------------------

  function TagsToSign(actor: ActorState, height: nat): seq<TagKind> {
    (if height + 2 in actor.tagMap then [Cetf(actor.tagMap[height + 2])] else []) + [BlockHeight(height + 2)]
  }

  function Sign(key: PublicKey, tag: TagKind): SignatureKind {
    if tag.Cetf? then CetfSig(Signature(key, tag)) else HeightSig(Signature(key, tag))
  }

  /** `ctx` is the node's signing key, if it is a validator. */
  function ExtendVote(ctx: Option<PublicKey>, actor: ActorState, height: nat, voteHeight: nat): VoteExtension {
    if voteHeight == 0 || !actor.enabled || ctx.None? then
      Empty
    else
      var tags := TagsToSign(actor, height);
      Signed(seq(|tags|, i requires 0 <= i < |tags| => Sign(ctx.value, tags[i])))
  }

  // ----- Verifying an extension ----------------------------------------------------------------

  /** The message a signature of this kind has to be over; there is none for a tag nobody filed. */
  function Expected(actor: ActorState, height: nat, sig: SignatureKind): Option<TagKind> {
    match sig
    case CetfSig(_) => if height + 2 in actor.tagMap then Some(Cetf(actor.tagMap[height + 2])) else None
    case HeightSig(_) => Some(BlockHeight(height + 2))
  }

  predicate Matches(actor: ActorState, height: nat, key: PublicKey, sig: SignatureKind) {
    Expected(actor, height, sig).Some? && sig.sig == Signature(key, Expected(actor, height, sig).value)
  }

  function RegisteredKey(actor: ActorState, power: map<AccountId, Address>, validator: AccountId): Option<PublicKey> {
    if validator in power && power[validator] in actor.validators
    then Some(actor.validators[power[validator]]) else None
  }

  /** Why checking cannot reach a verdict: an error is returned or a lookup panics. */
  predicate Faulty(ctx: Option<PublicKey>, actor: ActorState, height: nat, power: map<AccountId, Address>,
                   validator: AccountId, ext: VoteExtension)
  {
    || ext.Undecodable?
    || (ext.Signed? &&
        ( || (exists i | 0 <= i < |ext.sigs| :: Expected(actor, height, ext.sigs[i]).None?)
          || (ctx.Some? && !actor.enabled && ext.sigs != [])
          || (ctx.Some? && actor.enabled &&
              ( || RegisteredKey(actor, power, validator).None?
                || RegisteredKey(actor, power, validator).value.MalformedKey?
                || (exists i | 0 <= i < |ext.sigs| :: ext.sigs[i].sig.Malformed?)))))
  }

  /** The extension is the registered signer's, over what the committed state calls for. */
  predicate Genuine(actor: ActorState, height: nat, power: map<AccountId, Address>, validator: AccountId, ext: VoteExtension)
  {
    ext.Signed? && RegisteredKey(actor, power, validator).Some? &&
    forall i | 0 <= i < |ext.sigs| ::
      Matches(actor, height, RegisteredKey(actor, power, validator).value, ext.sigs[i])
  }

  function Verified(ctx: Option<PublicKey>, actor: ActorState, height: nat, power: map<AccountId, Address>,
                    validator: AccountId, ext: VoteExtension): Verdict
  {
    if ext.Empty? then Accept
    else if Faulty(ctx, actor, height, power, validator, ext) then Fault
    else if ctx.None? || !actor.enabled then Accept
    else if Genuine(actor, height, power, validator, ext) then Accept
    else Reject
  }

  /** The signature loop: `None` is the error of a signature that does not parse. */
  method CheckSignatures(sigs: seq<SignatureKind>, tags: seq<TagKind>, key: PublicKey) returns (r: Option<bool>)
    requires |sigs| == |tags|
    ensures r.None? <==> exists i | 0 <= i < |sigs| :: sigs[i].sig.Malformed?
    ensures r.Some? ==> (r.value <==> forall i | 0 <= i < |sigs| :: sigs[i].sig == Signature(key, tags[i]))
  {
    var res := true;
    for i := 0 to |sigs|
      invariant forall j | 0 <= j < i :: !sigs[j].sig.Malformed?
      invariant res <==> forall j | 0 <= j < i :: sigs[j].sig == Signature(key, tags[j])
    {
      if sigs[i].sig.Malformed? { return None; }
      res := res && sigs[i].sig == Signature(key, tags[i]);
    }
    return Some(res);
  }

  method VerifyVoteExtension(ctx: Option<PublicKey>, actor: ActorState, height: nat, power: map<AccountId, Address>,
                             validator: AccountId, ext: VoteExtension) returns (verdict: Verdict)
    ensures verdict == Verified(ctx, actor, height, power, validator, ext)
  {
    if ext.Empty? { return Accept; }
    if ext.Undecodable? { return Fault; }
    var sigs, tags := ext.sigs, [];
    for i := 0 to |sigs|
      invariant |tags| == i
      invariant forall j | 0 <= j < i :: Expected(actor, height, sigs[j]) == Some(tags[j])
    {
      var tag := Expected(actor, height, sigs[i]);
      if tag.None? { return Fault; }
      tags := tags + [tag.value];
    }
    if ctx.None? { return Accept; }
    if !actor.enabled {
      return if sigs != [] then Fault else Accept;
    }
    var key := RegisteredKey(actor, power, validator);
    if key.None? || key.value.MalformedKey? { return Fault; }
    var valid := CheckSignatures(sigs, tags, key.value);
    if valid.None? { return Fault; }
    return if valid.value then Accept else Reject;
  }

  // ----- Honest votes --------------------------------------------------------------------------

  /** A vote carries signatures exactly from a validator, above height 0 and with the actor enabled. */
  lemma HonestVoteIsEmptyExactly(ctx: Option<PublicKey>, actor: ActorState, height: nat, voteHeight: nat)
    ensures var ext := ExtendVote(ctx, actor, height, voteHeight);
      && !ext.Undecodable?
      && (ext.Empty? <==> ctx.None? || voteHeight == 0 || !actor.enabled)
      && (ext.Signed? ==>
            && (forall sig | sig in ext.sigs :: Matches(actor, height, ctx.value, sig))
            && (exists i :: 0 <= i < |ext.sigs| && ext.sigs[i].HeightSig?)
            && ((exists i :: 0 <= i < |ext.sigs| && ext.sigs[i].CetfSig?) <==> height + 2 in actor.tagMap)
            && (forall i, j | 0 <= i < j < |ext.sigs| :: ext.sigs[i].CetfSig? && ext.sigs[j].HeightSig?))
  {
    var ext := ExtendVote(ctx, actor, height, voteHeight);
    if ext.Signed? {
      var tags := TagsToSign(actor, height);
      assert ext.sigs[|tags| - 1].HeightSig?;
      if height + 2 in actor.tagMap { assert ext.sigs[0].CetfSig?; }
    }
  }

  /**
   In every state, with or without a tag in the slot, a validator with a key of its own finds its honest vote accepted by
   any validator that has the same state, exactly if the vote is empty or the key is the registered one.
   */
  lemma HonestVoteIsAcceptedExactly(
      actor: ActorState, height: nat, voteHeight: nat, key: PublicKey, peer: PublicKey,
      power: map<AccountId, Address>, validator: AccountId)
    requires key.PublicKey?
    ensures var ext := ExtendVote(Some(key), actor, height, voteHeight);
      Verified(Some(peer), actor, height, power, validator, ext) == Accept
      <==> voteHeight == 0 || !actor.enabled || RegisteredKey(actor, power, validator) == Some(key)
  {
    HonestVoteIsEmptyExactly(Some(key), actor, height, voteHeight);
    var ext := ExtendVote(Some(key), actor, height, voteHeight);
    if ext.Signed? {
      assert forall i | 0 <= i < |ext.sigs| :: Matches(actor, height, key, ext.sigs[i]);
      if RegisteredKey(actor, power, validator) == Some(key) {
        assert Genuine(actor, height, power, validator, ext);
      }
    }
  }

  /** What a validator accepts from a registered signer while the actor is enabled: honest signatures of that signer and no others. */
  lemma AcceptedIsHonest(
      actor: ActorState, height: nat, key: PublicKey, peer: PublicKey,
      power: map<AccountId, Address>, validator: AccountId, ext: VoteExtension)
    requires actor.enabled && key.PublicKey? && RegisteredKey(actor, power, validator) == Some(key)
    ensures var honest := ExtendVote(Some(key), actor, height, height + 1);
      Verified(Some(peer), actor, height, power, validator, ext) == Accept
      <==> ext.Empty? || (ext.Signed? && forall i | 0 <= i < |ext.sigs| :: ext.sigs[i] in honest.sigs)
  {
    var honest := ExtendVote(Some(key), actor, height, height + 1);
    if ext.Signed? {
      forall i | 0 <= i < |ext.sigs|
        ensures ext.sigs[i] in honest.sigs <==> Matches(actor, height, key, ext.sigs[i])
      {
        HonestSignature(actor, height, key, ext.sigs[i]);
      }
    }
  }

  /** A node without a key of its own accepts what decodes and asks for no missing tag; while the actor is disabled, others accept only extensions without signatures. */
  lemma OtherVerdicts(ctx: Option<PublicKey>, actor: ActorState, height: nat, power: map<AccountId, Address>, validator: AccountId, ext: VoteExtension)
    requires ctx.None? || !actor.enabled
    ensures var v := Verified(ctx, actor, height, power, validator, ext);
      && v != Reject
      && (ext.Empty? ==> v == Accept) && (ext.Undecodable? ==> v == Fault)
      && (ext.Signed? && ctx.Some? ==> (v == Accept <==> ext.sigs == []))
      && (ext.Signed? && ctx.None? ==>
            (v == Accept <==> forall i | 0 <= i < |ext.sigs| :: ext.sigs[i].CetfSig? ==> height + 2 in actor.tagMap))
  {
  }

  /** While the actor is enabled, a signer without a usable registered key gets no verdict on any signatures. */
  lemma UnregisteredSignerFaults(ctx: PublicKey, actor: ActorState, height: nat, power: map<AccountId, Address>, validator: AccountId, ext: VoteExtension)
    requires actor.enabled && ext.Signed?
    requires RegisteredKey(actor, power, validator).None? || RegisteredKey(actor, power, validator).value.MalformedKey?
    ensures Verified(Some(ctx), actor, height, power, validator, ext) == Fault
  {
  }

  lemma HonestSignature(actor: ActorState, height: nat, key: PublicKey, sig: SignatureKind)
    requires actor.enabled && key.PublicKey?
    ensures sig in ExtendVote(Some(key), actor, height, height + 1).sigs <==> Matches(actor, height, key, sig)
  {
    var honest, tags := ExtendVote(Some(key), actor, height, height + 1), TagsToSign(actor, height);
    assert honest.sigs[|tags| - 1] == HeightSig(Signature(key, BlockHeight(height + 2)));
    if height + 2 in actor.tagMap { assert honest.sigs[0] == CetfSig(Signature(key, tags[0])); }
  }

  /** Registering a key is seen by whoever checks votes, for the validators with that address and no others. */
  lemma RegisteredKeyIsFound(keccak: Keccak, s: ActorState, epoch: nat, caller: Caller, address: Address, key: PublicKey,
                             power: map<AccountId, Address>, validator: AccountId)
    ensures var after := Applied(keccak, s, epoch, caller, AddValidator(address, key));
      RegisteredKey(after, power, validator)
        == if validator in power && power[validator] == address then Some(key) else RegisteredKey(s, power, validator)
  {
  }

  // ----- Preparing a proposal ------------------------------------------------------------------

  datatype Tx =
    | CetfTag(height: nat, aggregate: Aggregate)
    | User(caller: Caller, call: Call)
    | Rubbish(bytes: Bytes)

  datatype PrepareMode = PassThrough | AppendOnly | PrependOnly

  datatype Config = Config(keccak: Keccak, size: Tx -> nat, mode: PrepareMode, maxMsgs: nat)

  function CetfSigsOf(sigs: seq<SignatureKind>): seq<BlsSignature> {
    if sigs == [] then []
    else (if sigs[0].CetfSig? then [sigs[0].sig] else []) + CetfSigsOf(sigs[1..])
  }

  /** The tag signatures of all extensions, in the order of the votes. */
  function CetfSigs(votes: seq<VoteExtension>): seq<BlsSignature> {
    if votes == [] then []
    else (if votes[0].Signed? then CetfSigsOf(votes[0].sigs) else []) + CetfSigs(votes[1..])
  }

  function Total(size: Tx -> nat, txs: seq<Tx>): nat {
    if txs == [] then 0 else size(txs[0]) + Total(size, txs[1..])
  }

  lemma {:induction false} TotalSnoc(size: Tx -> nat, txs: seq<Tx>, n: nat)
    requires n < |txs|
    ensures Total(size, txs[..n + 1]) == Total(size, txs[..n]) + size(txs[n])
  {
    if n == 0 {
      assert txs[..1] == [txs[0]];
    } else {
      TotalSnoc(size, txs[1..], n - 1);
      assert txs[..n + 1][1..] == txs[1..][..n];
      assert txs[..n][1..] == txs[1..][..n - 1];
    }
  }

  lemma {:induction false} TotalMonotone(size: Tx -> nat, txs: seq<Tx>, m: nat, n: nat)
    requires m <= n <= |txs|
    ensures Total(size, txs[..m]) <= Total(size, txs[..n])
  {
    if m < n {
      TotalMonotone(size, txs, m, n - 1);
      TotalSnoc(size, txs, n - 1);
    }
  }

  const USIZE_MAX: nat := 0xFFFF_FFFF_FFFF_FFFF
  const I64_MAX: nat := 0x7FFF_FFFF_FFFF_FFFF

  function SaturatingAdd(a: nat, b: nat): nat {
    if a + b > USIZE_MAX then USIZE_MAX else a + b
  }

  /** How many transactions fit, counted from the front. */
  ghost predicate LongestFit(size: Tx -> nat, txs: seq<Tx>, max: nat, n: nat) {
    && n <= |txs| && Total(size, txs[..n]) <= max
    && (n < |txs| ==> Total(size, txs[..n + 1]) > max)
  }

  /** Keeps the longest prefix within the limit; the limit comes from a 64-bit signed field. */
  method TakeUntilMaxSize(size: Tx -> nat, txs: seq<Tx>, max: nat) returns (out: seq<Tx>)
    requires max <= I64_MAX
    ensures out == Fitting(size, txs, max)
  {
    var used := 0;
    out := [];
    for i := 0 to |txs|
      invariant out == txs[..i] && used == Total(size, out) <= max
    {
      TotalSnoc(size, txs, i);
      if SaturatingAdd(used, size(txs[i])) > max {
        FittingUnique(size, txs, max, i);
        return;
      }
      used := used + size(txs[i]);
      out := out + [txs[i]];
    }
    FittingUnique(size, txs, max, |txs|);
  }

  function Fitting(size: Tx -> nat, txs: seq<Tx>, max: nat): seq<Tx> {
    if txs == [] || size(txs[0]) > max then [] else [txs[0]] + Fitting(size, txs[1..], max - size(txs[0]))
  }

  lemma {:induction false} FittingIsLongest(size: Tx -> nat, txs: seq<Tx>, max: nat)
    ensures var n := |Fitting(size, txs, max)|;
      n <= |txs| && Fitting(size, txs, max) == txs[..n] && LongestFit(size, txs, max, n)
  {
    if txs == [] || size(txs[0]) > max {
      assert txs != [] ==> txs[..1] == [txs[0]];
    } else {
      FittingIsLongest(size, txs[1..], max - size(txs[0]));
      var n := |Fitting(size, txs[1..], max - size(txs[0]))|;
      assert txs[..n + 1][1..] == txs[1..][..n];
      assert n + 1 < |txs| ==> txs[..n + 2][1..] == txs[1..][..n + 1];
    }
  }

  lemma FittingUnique(size: Tx -> nat, txs: seq<Tx>, max: nat, n: nat)
    requires LongestFit(size, txs, max, n)
    ensures Fitting(size, txs, max) == txs[..n]
  {
    FittingIsLongest(size, txs, max);
    var m := |Fitting(size, txs, max)|;
    if m < n {
      TotalMonotone(size, txs, m + 1, n);
    } else if n < m {
      TotalMonotone(size, txs, n + 1, m);
    }
  }

  function Aggregated(height: nat, votes: seq<VoteExtension>): seq<Tx> {
    var sigs := CetfSigs(votes);
    if sigs == [] then [] else [CetfTag(height, multiset(sigs))]
  }

  function Decodable(txs: seq<Tx>): seq<Tx> {
    if txs == [] then [] else (if txs[0].Rubbish? then [] else [txs[0]]) + Decodable(txs[1..])
  }

  /** The transactions the interpreter hands back; `ipc` are the ones it adds by itself. */
  function Arranged(cfg: Config, txs: seq<Tx>, ipc: seq<Tx>): seq<Tx> {
    match cfg.mode
    case PassThrough => Decodable(txs) + ipc
    case AppendOnly => txs + ipc
    case PrependOnly => ipc + txs
  }

  function Truncated(txs: seq<Tx>, maxMsgs: nat): seq<Tx> {
    if |txs| > maxMsgs then txs[..maxMsgs] else txs
  }

  function Proposal(cfg: Config, height: nat, votes: seq<VoteExtension>, mempool: seq<Tx>, ipc: seq<Tx>, max: nat): seq<Tx> {
    Fitting(cfg.size, Truncated(Arranged(cfg, Aggregated(height, votes) + mempool, ipc), cfg.maxMsgs), max)
  }

  /** Votes the proposer can unpack: everything decodes and every signature parses. */
  ghost predicate Unpackable(votes: seq<VoteExtension>) {
    forall i | 0 <= i < |votes| :: !votes[i].Undecodable? &&
      (votes[i].Signed? ==> forall j | 0 <= j < |votes[i].sigs| :: !votes[i].sigs[j].sig.Malformed?)
  }

  ghost predicate NoCetfTag(txs: seq<Tx>) {
    forall tx | tx in txs :: !tx.CetfTag?
  }

  /** Whether a proposal has room for the aggregate behind whatever is put in front of it. */
  predicate Room(cfg: Config, aggregate: Tx, ipc: seq<Tx>, max: nat) {
    var before := InFront(cfg, ipc);
    |before| < cfg.maxMsgs && Total(cfg.size, before) + cfg.size(aggregate) <= max
  }

  function InFront(cfg: Config, ipc: seq<Tx>): seq<Tx> {
    if cfg.mode.PrependOnly? then ipc else []
  }

  lemma FittingKeeps(size: Tx -> nat, txs: seq<Tx>, max: nat, n: nat)
    requires n < |txs|
    ensures n < |Fitting(size, txs, max)| <==> Total(size, txs[..n + 1]) <= max
  {
    FittingIsLongest(size, txs, max);
    var m := |Fitting(size, txs, max)|;
    if n < m {
      TotalMonotone(size, txs, n + 1, m);
    } else {
      TotalMonotone(size, txs, m + 1, n + 1);
    }
  }

  lemma {:induction false} DecodableKeeps(tx: Tx, txs: seq<Tx>)
    ensures tx in Decodable(txs) <==> tx in txs && !tx.Rubbish?
  {
    if txs != [] {
      DecodableKeeps(tx, txs[1..]);
    }
  }

  /** At one place among transactions of other kinds, a transaction survives exactly when it fits there. */
  lemma CetfTagSurvives(cfg: Config, before: seq<Tx>, tx: Tx, after: seq<Tx>, max: nat)
    requires tx.CetfTag? && NoCetfTag(before) && NoCetfTag(after)
    ensures tx in Fitting(cfg.size, Truncated(before + [tx] + after, cfg.maxMsgs), max)
      <==> |before| < cfg.maxMsgs && Total(cfg.size, before) + cfg.size(tx) <= max
  {
    var all := before + [tx] + after;
    var cut := Truncated(all, cfg.maxMsgs);
    var n, kept := |before|, Fitting(cfg.size, cut, max);
    FittingIsLongest(cfg.size, cut, max);
    assert forall i | 0 <= i < |all| && all[i] == tx :: i == n;
    if n < cfg.maxMsgs {
      FittingKeeps(cfg.size, cut, max, n);
      TotalSnoc(cfg.size, cut, n);
      assert cut[..n] == before && cut[n] == tx;
      if n < |kept| { assert kept[n] == tx; }
    }
    if tx in kept {
      var i :| 0 <= i < |kept| && kept[i] == tx;
      assert all[i] == tx;
    }
  }

  /** Every tag transaction of a proposal is the aggregate of the votes, at the proposal's own height. */
  lemma ProposalOnlyAggregates(cfg: Config, height: nat, votes: seq<VoteExtension>, mempool: seq<Tx>, ipc: seq<Tx>, max: nat, tx: Tx)
    requires NoCetfTag(mempool) && NoCetfTag(ipc)
    requires tx.CetfTag? && tx in Proposal(cfg, height, votes, mempool, ipc, max)
    ensures Aggregated(height, votes) == [tx]
  {
    var own := Aggregated(height, votes) + mempool;
    FittingIsLongest(cfg.size, Truncated(Arranged(cfg, own, ipc), cfg.maxMsgs), max);
    DecodableKeeps(tx, own);
    assert tx in Arranged(cfg, own, ipc);
    assert tx in own;
  }

  lemma {:induction false} ArrangedAround(cfg: Config, tx: Tx, mempool: seq<Tx>, ipc: seq<Tx>) returns (after: seq<Tx>)
    requires tx.CetfTag? && NoCetfTag(mempool) && NoCetfTag(ipc)
    ensures NoCetfTag(after)
    ensures Arranged(cfg, [tx] + mempool, ipc) == InFront(cfg, ipc) + [tx] + after
  {
    match cfg.mode
    case PassThrough =>
      after := Decodable(mempool) + ipc;
      assert ([tx] + mempool)[1..] == mempool;
      forall m | m in Decodable(mempool) ensures !m.CetfTag? { DecodableKeeps(m, mempool); }
    case AppendOnly =>
      after := mempool + ipc;
    case PrependOnly =>
      after := mempool;
  }

  /** The aggregate is proposed exactly when there is one and the proposal has room for it. */
  lemma {:induction false} AggregateIsProposedExactly(
      cfg: Config, height: nat, votes: seq<VoteExtension>, mempool: seq<Tx>, ipc: seq<Tx>, max: nat)
    requires NoCetfTag(mempool) && NoCetfTag(ipc)
    requires CetfSigs(votes) != []
    ensures var tx := CetfTag(height, multiset(CetfSigs(votes)));
      tx in Proposal(cfg, height, votes, mempool, ipc, max) <==> Room(cfg, tx, ipc, max)
  {
    var tx := CetfTag(height, multiset(CetfSigs(votes)));
    var after := ArrangedAround(cfg, tx, mempool, ipc);
    CetfTagSurvives(cfg, InFront(cfg, ipc), tx, after, max);
  }

  /** Unpacks the votes of the last commit, aggregates, arranges and cuts to size; `None` is a panic while unpacking. */
  method PrepareProposal(cfg: Config, height: nat, votes: seq<VoteExtension>, mempool: seq<Tx>, ipc: seq<Tx>, max: nat)
    returns (r: Option<seq<Tx>>)
    requires max <= I64_MAX
    ensures r.Some? <==> Unpackable(votes)
    ensures r.Some? ==> r.value == Proposal(cfg, height, votes, mempool, ipc, max)
  {
    for i := 0 to |votes|
      invariant Unpackable(votes[..i])
    {
      if votes[i].Undecodable? { return None; }
      if votes[i].Signed? && exists sig | sig in votes[i].sigs :: sig.sig.Malformed? { return None; }
    }
    assert votes[..|votes|] == votes;
    var own := Aggregated(height, votes) + mempool;
    var txs := TakeUntilMaxSize(cfg.size, Truncated(Arranged(cfg, own, ipc), cfg.maxMsgs), max);
    return Some(txs);
  }

  // ----- What a proposal is made of ------------------------------------------------------------

  function OwnSig(sig: SignatureKind): seq<BlsSignature> { if sig.CetfSig? then [sig.sig] else [] }

  function OwnSigs(ext: VoteExtension): seq<BlsSignature> { if ext.Signed? then CetfSigsOf(ext.sigs) else [] }

  lemma {:induction false} CetfSigsOfStep(sig: SignatureKind, sigs: seq<SignatureKind>)
    ensures CetfSigsOf([sig] + sigs) == OwnSig(sig) + CetfSigsOf(sigs)
  {
    assert ([sig] + sigs)[1..] == sigs;
  }

  lemma {:induction false} CetfSigsOfConcat(a: seq<SignatureKind>, b: seq<SignatureKind>)
    ensures CetfSigsOf(a + b) == CetfSigsOf(a) + CetfSigsOf(b)
  {
    if a == [] {
      assert a + b == b;
    } else {
      var x, rest := a[0], a[1..];
      Sorting.HeadAndTail(a);
      Sorting.Regroup([x], rest, b);
      CetfSigsOfStep(x, rest);
      CetfSigsOfStep(x, rest + b);
      CetfSigsOfConcat(rest, b);
      Sorting.Regroup(OwnSig(x), CetfSigsOf(rest), CetfSigsOf(b));
    }
  }

  lemma {:induction false} CetfSigsStep(ext: VoteExtension, votes: seq<VoteExtension>)
    ensures CetfSigs([ext] + votes) == OwnSigs(ext) + CetfSigs(votes)
  {
    assert ([ext] + votes)[1..] == votes;
  }

  lemma {:induction false} CetfSigsConcat(a: seq<VoteExtension>, b: seq<VoteExtension>)
    ensures CetfSigs(a + b) == CetfSigs(a) + CetfSigs(b)
  {
    if a == [] {
      assert a + b == b;
    } else {
      var x, rest := a[0], a[1..];
      Sorting.HeadAndTail(a);
      Sorting.Regroup([x], rest, b);
      CetfSigsStep(x, rest);
      CetfSigsStep(x, rest + b);
      CetfSigsConcat(rest, b);
      Sorting.Regroup(OwnSigs(x), CetfSigs(rest), CetfSigs(b));
    }
  }

  /** Each tag signature of each vote is aggregated once for each time it occurs, and nothing else is. */
  lemma {:induction false} SignaturesAddUp(a: seq<SignatureKind>, b: seq<SignatureKind>, votes: seq<VoteExtension>, votes': seq<VoteExtension>, s: BlsSignature)
    ensures CetfSigs(votes + [Signed(a + b)] + votes')
      == CetfSigs(votes) + CetfSigs([Signed(a)]) + CetfSigs([Signed(b)]) + CetfSigs(votes')
    ensures CetfSigs([Signed([CetfSig(s)])]) == [s]
    ensures CetfSigs([Signed([HeightSig(s)])]) == CetfSigs([Empty]) == CetfSigs([]) == []
  {
    CetfSigsConcat(votes + [Signed(a + b)], votes');
    CetfSigsConcat(votes, [Signed(a + b)]);
    CetfSigsOfConcat(a, b);
    LoneVote(a + b);
    LoneVote(a);
    LoneVote(b);
    LoneVote([CetfSig(s)]);
    LoneVote([HeightSig(s)]);
    assert [CetfSig(s)][1..] == [] && [HeightSig(s)][1..] == [] && [Empty][1..] == [];
    assert CetfSigs(votes) + (CetfSigsOf(a) + CetfSigsOf(b)) == CetfSigs(votes) + CetfSigsOf(a) + CetfSigsOf(b);
  }

  lemma LoneVote(sigs: seq<SignatureKind>)
    ensures CetfSigs([Signed(sigs)]) == CetfSigsOf(sigs)
  {
    assert [Signed(sigs)][1..] == [];
    assert CetfSigsOf(sigs) + [] == CetfSigsOf(sigs);
  }

  /** Everything there is to propose, in the order of proposing. */
  function Offered(cfg: Config, height: nat, votes: seq<VoteExtension>, mempool: seq<Tx>, ipc: seq<Tx>): seq<Tx> {
    Arranged(cfg, Aggregated(height, votes) + mempool, ipc)
  }

  /** The proposal is the longest beginning of what there is that keeps to both limits. */
  lemma ProposalIsLongest(cfg: Config, height: nat, votes: seq<VoteExtension>, mempool: seq<Tx>, ipc: seq<Tx>, max: nat)
    ensures var all, p := Offered(cfg, height, votes, mempool, ipc), Proposal(cfg, height, votes, mempool, ipc, max);
      && p <= all && |p| <= cfg.maxMsgs && Total(cfg.size, p) <= max
      && (|p| < |all| ==> |p| == cfg.maxMsgs || Total(cfg.size, all[..|p| + 1]) > max)
  {
    var all := Offered(cfg, height, votes, mempool, ipc);
    var cut := Truncated(all, cfg.maxMsgs);
    FittingIsLongest(cfg.size, cut, max);
    var n := |Fitting(cfg.size, cut, max)|;
    assert cut[..n] == all[..n];
    if n < |cut| { assert cut[..n + 1] == all[..n + 1]; }
  }

  function Kept(tx: Tx): seq<Tx> { if tx.Rubbish? then [] else [tx] }

  lemma {:induction false} DecodableStep(tx: Tx, txs: seq<Tx>)
    ensures Decodable([tx] + txs) == Kept(tx) + Decodable(txs)
  {
    assert ([tx] + txs)[1..] == txs;
  }

  lemma {:induction false} DecodableConcat(a: seq<Tx>, b: seq<Tx>)
    ensures Decodable(a + b) == Decodable(a) + Decodable(b)
  {
    if a == [] {
      assert a + b == b;
    } else {
      var x, rest := a[0], a[1..];
      Sorting.HeadAndTail(a);
      Sorting.Regroup([x], rest, b);
      DecodableStep(x, rest);
      DecodableStep(x, rest + b);
      DecodableConcat(rest, b);
      Sorting.Regroup(Kept(x), Decodable(rest), Decodable(b));
    }
  }

  lemma {:induction false} NothingUndecodable(txs: seq<Tx>)
    requires forall tx | tx in txs :: !tx.Rubbish?
    ensures Decodable(txs) == txs
  {
    if txs != [] {
      NothingUndecodable(txs[1..]);
      assert txs == [txs[0]] + txs[1..];
    }
  }

  /** What there is to propose are the aggregate, the mempool's transactions in their order, and the interpreter's, which come first or last. */
  lemma {:induction false} OfferedKeepsTheMempool(cfg: Config, height: nat, votes: seq<VoteExtension>, mempool: seq<Tx>, ipc: seq<Tx>)
    returns (front: seq<Tx>, back: seq<Tx>)
    requires cfg.mode.PassThrough? ==> forall tx | tx in mempool :: !tx.Rubbish?
    ensures Offered(cfg, height, votes, mempool, ipc) == front + Aggregated(height, votes) + mempool + back
    ensures (front == ipc && back == []) || (front == [] && back == ipc)
    ensures front == InFront(cfg, ipc)
  {
    var tags := Aggregated(height, votes);
    front, back := InFront(cfg, ipc), if cfg.mode.PrependOnly? then [] else ipc;
    if cfg.mode.PassThrough? { NothingUndecodable(tags + mempool); }
    assert Offered(cfg, height, votes, mempool, ipc) == front + tags + mempool + back;
  }

  /** Bytes that do not decode are dropped where the interpreter passes messages through; the rest keep their order. */
  lemma {:induction false} UndecodableIsDropped(a: seq<Tx>, b: seq<Tx>, tx: Tx)
    ensures Decodable(a + [tx] + b) == Decodable(a) + Kept(tx) + Decodable(b)
  {
    DecodableConcat(a + [tx], b);
    DecodableConcat(a, [tx]);
    assert [tx][1..] == [];
  }
}
