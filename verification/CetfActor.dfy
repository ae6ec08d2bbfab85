/**
 The key-release actor: contracts enqueue tags, validators register their keys, and the
 aggregate signature over a tag is stored under that tag.

 A BLS signature is the pair of key and message it was made with; an aggregate is the multiset
 of the signatures in it. Keccak is the parameter `keccak`. The runtime's current epoch is the
 block height and is passed in.
 */
module CetfActor {
  import opened Wrappers

  type Byte = b: int | 0 <= b < 256
  type Bytes = seq<Byte>
  type Address = nat
  type Keccak = Bytes -> Bytes

  datatype Tag = Tag(digest: Bytes)
  datatype PublicKey = PublicKey(id: nat) | MalformedKey
  datatype TagKind = Cetf(tag: Tag) | BlockHeight(height: nat)
  datatype BlsSignature = Signature(key: PublicKey, message: TagKind) | Malformed
  type Aggregate = multiset<BlsSignature>

  /** Who sends a message to the actor; an account may have a delegated address, whose payload is given. */
  datatype Caller = System | Account(delegated: Option<Bytes>)

  datatype Call =
    | EnqueueTag(tag: Bytes)
    | AddValidator(address: Address, key: PublicKey)
    | Enable
    | Disable
    | AddSignedTag(height: nat, signature: Aggregate)

  datatype ActorError = Forbidden | NoDelegatedAddress | BadEthAddress | TagNotFound

  datatype ActorState = ActorState(
    tagMap: map<nat, Tag>,
    validators: map<Address, PublicKey>,
    enabled: bool,
    signedTags: map<Tag, Aggregate>)

  const Fresh := ActorState(map[], map[], false, map[])

  /** The Ethereum address of a calling contract: its delegated payload without the leading namespace byte. */
  function EthAddress(caller: Caller): Result<Bytes, ActorError> {
    if caller.System? || caller.delegated.None? then Err(NoDelegatedAddress)
    else if |caller.delegated.value| != 21 then Err(BadEthAddress)
    else Ok(caller.delegated.value[1..])
  }

  function SigningTag(keccak: Keccak, eth: Bytes, tag: Bytes): Tag {
    Tag(keccak(eth + tag))
  }

  /** The tag a call files, if it files one. */
  function Filed(keccak: Keccak, s: ActorState, caller: Caller, call: Call): Option<Tag> {
    if call.EnqueueTag? && EthAddress(caller).Ok? && s.enabled
    then Some(SigningTag(keccak, EthAddress(caller).value, call.tag))
    else None
  }

  /** One message to the actor in block `epoch`; a failing message leaves the state as it was. */
  function Apply(keccak: Keccak, s: ActorState, epoch: nat, caller: Caller, call: Call): Result<ActorState, ActorError> {
    match call
    case EnqueueTag(tag) =>
      var eth := EthAddress(caller);
      if eth.Err? then Err(eth.error)
      else if s.enabled then Ok(s.(tagMap := s.tagMap[epoch + 2 := SigningTag(keccak, eth.value, tag)]))
      else Ok(s)
    case AddValidator(address, key) => Ok(s.(validators := s.validators[address := key]))
    case Enable => if caller.System? then Ok(s.(enabled := true)) else Err(Forbidden)
    case Disable => if caller.System? then Ok(s.(enabled := false)) else Err(Forbidden)
    case AddSignedTag(height, signature) =>
      if !caller.System? then Err(Forbidden)
      else if height !in s.tagMap then Err(TagNotFound)
      else Ok(s.(signedTags := s.signedTags[s.tagMap[height] := signature]))
  }

  function Applied(keccak: Keccak, s: ActorState, epoch: nat, caller: Caller, call: Call): ActorState {
    var r := Apply(keccak, s, epoch, caller, call);
    if r.Ok? then r.value else s
  }

  /** Contracts cannot file each other's tags: without digest collisions a signing tag names contract and tag. */
  lemma SigningTagsKeepContractsApart(keccak: Keccak, eth: Bytes, tag: Bytes, eth': Bytes, tag': Bytes)
    requires forall a, b | keccak(a) == keccak(b) :: a == b
    requires |eth| == |eth'| == 20
    requires SigningTag(keccak, eth, tag) == SigningTag(keccak, eth', tag')
    ensures eth == eth' && tag == tag'
  {
    var a, b := eth + tag, eth' + tag';
    assert a == b;
    assert eth == a[..20] == eth' && tag == a[20..] == tag';
  }

  /** So whatever files a tag is known by it, up to the namespace of its address: callers that file the same are the same. */
  lemma FilersAreKnownByTheirTags(keccak: Keccak, s: ActorState, caller: Caller, call: Call, s': ActorState, caller': Caller, call': Call)
    requires forall a, b | keccak(a) == keccak(b) :: a == b
    requires Filed(keccak, s, caller, call).Some? && Filed(keccak, s, caller, call) == Filed(keccak, s', caller', call')
    ensures call == call' && caller.delegated.Some? && caller'.delegated.Some?
    ensures var p, p' := caller.delegated.value, caller'.delegated.value;
      |p| == |p'| == 21 && (p[0] == p'[0] ==> p == p')
  {
    var p, p' := caller.delegated.value, caller'.delegated.value;
    SigningTagsKeepContractsApart(keccak, p[1..], call.tag, p'[1..], call'.tag);
    assert p == [p[0]] + p[1..] && p' == [p'[0]] + p'[1..];
  }

  /** The actor's root object: its maps are reloaded, changed at one key and replaced. */
  class State {
    var tagMap: map<nat, Tag>
    var validators: map<Address, PublicKey>
    var enabled: bool
    var signedTags: map<Tag, Aggregate>

    ghost function Value(): ActorState
      reads this
    {
      ActorState(tagMap, validators, enabled, signedTags)
    }

    constructor ()
      ensures Value() == Fresh
    {
      tagMap, validators, enabled, signedTags := map[], map[], false, map[];
    }

    method AddTagAtHeight(height: nat, tag: Tag)
      modifies this`tagMap
      ensures tagMap == old(tagMap)[height := tag]
    {
      tagMap := tagMap[height := tag];
    }

    method GetTagAtHeight(height: nat) returns (r: Option<Tag>)
      ensures r.Some? <==> height in tagMap
      ensures r.Some? ==> r.value == tagMap[height]
    {
      return if height in tagMap then Some(tagMap[height]) else None;
    }

    method AddSignedAndHashedTag(tag: Tag, signature: Aggregate)
      modifies this`signedTags
      ensures signedTags == old(signedTags)[tag := signature]
    {
      signedTags := signedTags[tag := signature];
    }

    method AddSignedTagAtHeight(height: nat, signature: Aggregate) returns (r: Result<(), ActorError>)
      modifies this`signedTags
      ensures r.Ok? <==> height in tagMap
      ensures r.Err? ==> r.error == TagNotFound && signedTags == old(signedTags)
      ensures r.Ok? ==> signedTags == old(signedTags)[tagMap[height] := signature]
    {
      var tag := GetTagAtHeight(height);
      if tag.None? { return Err(TagNotFound); }
      AddSignedAndHashedTag(tag.value, signature);
      return Ok(());
    }

    /** Files a tag two blocks ahead and tells the caller for which height. */
    method EnqueueTag(keccak: Keccak, epoch: nat, caller: Caller, tag: Bytes) returns (r: Result<nat, ActorError>)
      modifies this
      ensures r.Ok? <==> Apply(keccak, old(Value()), epoch, caller, Call.EnqueueTag(tag)).Ok?
      ensures r.Ok? <==> caller.Account? && caller.delegated.Some? && |caller.delegated.value| == 21
      ensures r.Ok? ==> r.value == epoch + 2
      ensures r.Ok? && old(enabled) ==> tagMap == old(tagMap)[epoch + 2 := Tag(keccak(caller.delegated.value[1..] + tag))]
      ensures r.Err? || !old(enabled) ==> tagMap == old(tagMap)
      ensures unchanged(`validators, `enabled, `signedTags)
      ensures Value() == Applied(keccak, old(Value()), epoch, caller, Call.EnqueueTag(tag))
    {
      var eth := EthAddress(caller);
      if eth.Err? { return Err(eth.error); }
      var scheduled := epoch + 2;
      if enabled {
        AddTagAtHeight(scheduled, SigningTag(keccak, eth.value, tag));
      }
      return Ok(scheduled);
    }

    method AddValidator(ghost keccak: Keccak, ghost epoch: nat, caller: Caller, address: Address, key: PublicKey)
      modifies this
      ensures validators == old(validators)[address := key] && unchanged(`tagMap, `enabled, `signedTags)
      ensures Value() == Applied(keccak, old(Value()), epoch, caller, Call.AddValidator(address, key))
    {
      validators := validators[address := key];
    }

    /** Enabling and disabling differ only in the flag they write. */
    method SetEnabled(ghost keccak: Keccak, ghost epoch: nat, caller: Caller, on: bool) returns (r: Result<(), ActorError>)
      modifies this
      ensures r.Ok? <==> caller.System?
      ensures enabled == (if caller.System? then on else old(enabled)) && unchanged(`tagMap, `validators, `signedTags)
      ensures Value() == Applied(keccak, old(Value()), epoch, caller, if on then Enable else Disable)
    {
      if !caller.System? { return Err(Forbidden); }
      enabled := on;
      return Ok(());
    }

    method AddSignedTag(ghost keccak: Keccak, ghost epoch: nat, caller: Caller, height: nat, signature: Aggregate)
      returns (r: Result<(), ActorError>)
      modifies this
      ensures r.Ok? <==> Apply(keccak, old(Value()), epoch, caller, Call.AddSignedTag(height, signature)).Ok?
      ensures unchanged(`tagMap, `validators, `enabled)
      ensures r.Ok? <==> caller.System? && height in tagMap
      ensures signedTags == if r.Ok? then old(signedTags)[tagMap[height] := signature] else old(signedTags)
      ensures Value() == Applied(keccak, old(Value()), epoch, caller, Call.AddSignedTag(height, signature))
    {
      if !caller.System? { return Err(Forbidden); }
      r := AddSignedTagAtHeight(height, signature);
    }
  }
}
