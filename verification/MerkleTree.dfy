/**
 The array-heap Merkle tree: node `i` has children `2i+1` and `2i+2`, the leaves sit at the
 end in reverse order, and every internal node is the order-insensitive digest of its children.

 A 32-byte hash is read as a big-endian number, so that comparing the bytes compares the numbers.
 The digest of two concatenated hashes is the parameter `k`.
 */
module MerkleTree {
  import opened Wrappers
  import opened Sorting

  type Hash = nat
  type Keccak = (Hash, Hash) -> Hash

  /** `OutOfBounds` and `RanDry` stand for panics. */
  datatype Error =
    | NoLeaves | NotLeaf | DuplicateIndex | TooLarge | OutOfBounds
    | TooFewSiblings | Incompatible | RanDry

  function HashPair(k: Keccak, a: Hash, b: Hash): Hash {
    if a <= b then k(a, b) else k(b, a)
  }

  /** The digest of the two hashes in ascending order, whichever is given first. */
  lemma HashPairSorts(k: Keccak, a: Hash, b: Hash)
    requires a <= b
    ensures HashPair(k, a, b) == HashPair(k, b, a) == k(a, b)
  {
  }

  function LeftChild(i: nat): nat { 2 * i + 1 }

  function RightChild(i: nat): nat { 2 * i + 2 }

  function Parent(i: nat): nat
    requires i > 0
  {
    (i - 1) / 2
  }

  function Sibling(i: nat): nat
    requires i > 0
  {
    if i % 2 == 0 then i - 1 else i + 1
  }

  predicate IsLeaf(tree: seq<Hash>, i: nat) {
    i < |tree| && LeftChild(i) >= |tree|
  }

  /** The node and its sibling exist; only the last node of an even-sized array lacks one. */
  predicate Climbable(tree: seq<Hash>, i: nat) {
    i < |tree| && (i > 0 ==> Sibling(i) < |tree|)
  }

  const I32_MAX: nat := 0x7FFF_FFFF

  /** The sibling can be computed in 32-bit signed arithmetic, and exists. */
  predicate InReach(tree: seq<Hash>, i: nat) {
    i < I32_MAX && Climbable(tree, i)
  }

  // ----- Building and validating ---------------------------------------------------------------

  predicate ConsistentAt(k: Keccak, tree: seq<Hash>, i: nat) {
    RightChild(i) < |tree| ==> tree[i] == HashPair(k, tree[LeftChild(i)], tree[RightChild(i)])
  }

  ghost predicate ValidTree(k: Keccak, tree: seq<Hash>) {
    |tree| % 2 == 1 && forall i: nat :: ConsistentAt(k, tree, i)
  }

  /** The hash of node `i` over `leaves`, defined from the leaves upwards. */
  function NodeHash(k: Keccak, leaves: seq<Hash>, i: nat): Hash
    requires i < 2 * |leaves| - 1
    decreases 2 * |leaves| - i
  {
    if RightChild(i) < 2 * |leaves| - 1 then
      HashPair(k, NodeHash(k, leaves, LeftChild(i)), NodeHash(k, leaves, RightChild(i)))
    else
      leaves[2 * |leaves| - 2 - i]
  }

  function Built(k: Keccak, leaves: seq<Hash>): seq<Hash>
    requires leaves != []
  {
    seq(2 * |leaves| - 1, i requires 0 <= i < 2 * |leaves| - 1 => NodeHash(k, leaves, i))
  }

  /** The leaves of a tree in the order they were given: its suffix, reversed. */
  function Leaves(tree: seq<Hash>): seq<Hash> {
    seq((|tree| + 1) / 2, i requires 0 <= i < (|tree| + 1) / 2 => tree[|tree| - 1 - i])
  }

  /** The leaves reversed at the end, and every other node the digest of its children. */
  ghost predicate StandsOn(k: Keccak, tree: seq<Hash>, leaves: seq<Hash>) {
    && |tree| == 2 * |leaves| - 1
    && (forall i | 0 <= i < |leaves| :: tree[|tree| - 1 - i] == leaves[i])
    && (forall i: nat | i < |leaves| - 1 :: tree[i] == HashPair(k, tree[LeftChild(i)], tree[RightChild(i)]))
  }

  lemma {:induction false} BuiltStandsOn(k: Keccak, leaves: seq<Hash>)
    requires leaves != []
    ensures StandsOn(k, Built(k, leaves), leaves)
  {
    var tree := Built(k, leaves);
    forall i: nat | i < |leaves| - 1 ensures tree[i] == HashPair(k, tree[LeftChild(i)], tree[RightChild(i)]) {
      assert tree[i] == NodeHash(k, leaves, i);
    }
    forall i | 0 <= i < |leaves| ensures tree[|tree| - 1 - i] == leaves[i] {
      assert tree[|tree| - 1 - i] == NodeHash(k, leaves, |tree| - 1 - i);
    }
  }

  /** Fills in the leaves, then the other nodes from the last to the root. */
  method FillTree(k: Keccak, leaves: seq<Hash>, ghost built: seq<Hash>) returns (nodes: seq<Hash>)
    requires leaves != [] && StandsOn(k, built, leaves)
    ensures nodes == built
  {
    var length := 2 * |leaves| - 1;
    var tree := new Hash[length](_ => 0);
    for i := 0 to |leaves|
      invariant forall j | length - i <= j < length :: tree[j] == built[j]
    {
      tree[length - 1 - i] := leaves[i];
    }
    for i := length - |leaves| downto 0
      invariant forall j | i <= j < length :: tree[j] == built[j]
    {
      tree[i] := HashPair(k, tree[LeftChild(i)], tree[RightChild(i)]);
    }
    return tree[..];
  }

  method MakeMerkleTree(k: Keccak, leaves: seq<Hash>) returns (r: Result<seq<Hash>, Error>)
    ensures r.Err? <==> leaves == []
    ensures r.Err? ==> r.error == NoLeaves
    ensures r.Ok? ==> r.value == Built(k, leaves)
  {
    if leaves == [] {
      return Err(NoLeaves);
    }
    BuiltStandsOn(k, leaves);
    var tree := FillTree(k, leaves, Built(k, leaves));
    return Ok(tree);
  }

  method IsValidMerkleTree(k: Keccak, tree: seq<Hash>) returns (valid: bool)
    ensures valid <==> ValidTree(k, tree)
  {
    assert |tree| % 2 == 0 && |tree| > 0 ==> RightChild(|tree| / 2 - 1) == |tree|;
    for i := 0 to |tree|
      invariant forall j: nat | j < i :: ConsistentAt(k, tree, j) && RightChild(j) != |tree|
    {
      var l, r := LeftChild(i), RightChild(i);
      if r >= |tree| {
        if l < |tree| {
          return false;
        }
      } else if tree[i] != HashPair(k, tree[l], tree[r]) {
        assert !ConsistentAt(k, tree, i);
        return false;
      }
    }
    return |tree| != 0;
  }

  lemma {:induction false} ValidNodeHash(k: Keccak, tree: seq<Hash>, i: nat)
    requires ValidTree(k, tree) && i < |tree|
    ensures tree[i] == NodeHash(k, Leaves(tree), i)
    decreases |tree| - i
  {
    if RightChild(i) < |tree| {
      assert ConsistentAt(k, tree, i);
      ValidNodeHash(k, tree, LeftChild(i));
      ValidNodeHash(k, tree, RightChild(i));
    }
  }

  /** The valid trees are exactly the built ones: each is the tree built from its own leaves. */
  lemma ValidExactlyBuilt(k: Keccak, tree: seq<Hash>)
    ensures ValidTree(k, tree) <==> |tree| % 2 == 1 && tree == Built(k, Leaves(tree))
  {
    if ValidTree(k, tree) {
      forall i | 0 <= i < |tree|
        ensures tree[i] == Built(k, Leaves(tree))[i]
      {
        ValidNodeHash(k, tree, i);
      }
    }
    if |tree| % 2 == 1 && tree == Built(k, Leaves(tree)) {
      forall i: nat
        ensures ConsistentAt(k, tree, i)
      {
        if RightChild(i) < |tree| {
          assert tree[i] == Built(k, Leaves(tree))[i];
        }
      }
    }
  }

  /** Building loses nothing: the tree is valid and gives its leaves back. */
  lemma BuiltIsValid(k: Keccak, leaves: seq<Hash>)
    requires leaves != []
    ensures ValidTree(k, Built(k, leaves))
    ensures Leaves(Built(k, leaves)) == leaves
  {
  }

  /** Where a leaf lands in the built tree. */
  lemma BuiltLeaf(k: Keccak, leaves: seq<Hash>, j: nat)
    requires j < |leaves|
    ensures var tree := Built(k, leaves);
      |tree| == 2 * |leaves| - 1 && IsLeaf(tree, |tree| - 1 - j) && tree[|tree| - 1 - j] == leaves[j]
  {
  }

  // ----- Single proofs -------------------------------------------------------------------------

  /** The siblings met on the way from node `i` to the root. */
  function ProofOf(tree: seq<Hash>, i: nat): seq<Hash>
    requires Climbable(tree, i)
  {
    if i == 0 then [] else [tree[Sibling(i)]] + ProofOf(tree, Parent(i))
  }

  function ProcessProof(k: Keccak, leaf: Hash, proof: seq<Hash>): Hash
    decreases |proof|
  {
    if proof == [] then leaf else ProcessProof(k, HashPair(k, leaf, proof[0]), proof[1..])
  }

  function Depth(i: nat): nat {
    if i == 0 then 0 else 1 + Depth(Parent(i))
  }

  method GetProof(tree: seq<Hash>, index: nat) returns (r: Result<seq<Hash>, Error>)
    ensures r.Ok? <==> IsLeaf(tree, index) && InReach(tree, index)
    ensures r.Ok? ==> r.value == ProofOf(tree, index)
    ensures r.Err? ==> r.error == if !IsLeaf(tree, index) then NotLeaf else if index > I32_MAX then TooLarge else OutOfBounds
  {
    if !IsLeaf(tree, index) {
      return Err(NotLeaf);
    }
    var i, proof := index, [];
    while i > 0
      invariant 0 <= i <= index && (i == index || InReach(tree, i))
      invariant InReach(tree, index) ==> InReach(tree, i) && proof + ProofOf(tree, i) == ProofOf(tree, index)
      invariant i < index ==> InReach(tree, index)
    {
      if i > I32_MAX { return Err(TooLarge); }
      if i == I32_MAX || Sibling(i) >= |tree| { return Err(OutOfBounds); }
      proof := proof + [tree[Sibling(i)]];
      i := Parent(i);
    }
    return Ok(proof);
  }

  lemma SiblingHash(k: Keccak, tree: seq<Hash>, i: nat)
    requires ValidTree(k, tree) && 0 < i < |tree|
    ensures Sibling(i) < |tree|
    ensures HashPair(k, tree[i], tree[Sibling(i)]) == tree[Parent(i)]
  {
    assert ConsistentAt(k, tree, Parent(i));
  }

  /** Completeness: the proof of any node leads from its hash to the root, one step per level. */
  lemma {:induction false} ProofLeadsToRoot(k: Keccak, tree: seq<Hash>, i: nat)
    requires ValidTree(k, tree) && i < |tree|
    ensures ProcessProof(k, tree[i], ProofOf(tree, i)) == tree[0]
    ensures |ProofOf(tree, i)| == Depth(i)
  {
    if i > 0 {
      SiblingHash(k, tree, i);
      ProofLeadsToRoot(k, tree, Parent(i));
      assert ProofOf(tree, i)[1..] == ProofOf(tree, Parent(i));
    }
  }

  /** No two different unordered pairs share a digest. */
  ghost predicate CollisionFree(k: Keccak) {
    forall a, b, c, d | HashPair(k, a, b) == HashPair(k, c, d) :: (a == c && b == d) || (a == d && b == c)
  }

  /** Leaf hashes are never pair digests (leaves are hashed twice, pairs once). */
  ghost predicate LeavesApart(k: Keccak, tree: seq<Hash>) {
    forall i: nat, a, b | IsLeaf(tree, i) :: tree[i] != HashPair(k, a, b)
  }

  /** A digest found at a node names that node's children, in one order or the other. */
  lemma PairNamesChildren(k: Keccak, tree: seq<Hash>, i: nat, a: Hash, b: Hash) returns (j: nat)
    requires ValidTree(k, tree) && CollisionFree(k) && LeavesApart(k, tree)
    requires i < |tree| && tree[i] == HashPair(k, a, b)
    ensures 0 < j < |tree| && Parent(j) == i && Sibling(j) < |tree|
    ensures tree[j] == a && tree[Sibling(j)] == b
  {
    assert !IsLeaf(tree, i);
    assert ConsistentAt(k, tree, i);
    j := if tree[LeftChild(i)] == a && tree[RightChild(i)] == b then LeftChild(i) else RightChild(i);
  }

  lemma {:induction false} ProcessProofSnoc(k: Keccak, leaf: Hash, proof: seq<Hash>)
    requires proof != []
    ensures ProcessProof(k, leaf, proof)
         == HashPair(k, ProcessProof(k, leaf, proof[..|proof| - 1]), proof[|proof| - 1])
    decreases |proof|
  {
    if |proof| > 1 {
      ProcessProofSnoc(k, HashPair(k, leaf, proof[0]), proof[1..]);
      assert proof[1..][..|proof| - 2] == proof[..|proof| - 1][1..];
    }
  }

  lemma {:induction false} ProofBelow(k: Keccak, tree: seq<Hash>, leaf: Hash, proof: seq<Hash>, i: nat) returns (j: nat)
    requires ValidTree(k, tree) && CollisionFree(k) && LeavesApart(k, tree)
    requires i < |tree| && ProcessProof(k, leaf, proof) == tree[i]
    ensures j < |tree| && Depth(j) == Depth(i) + |proof|
    ensures tree[j] == leaf && ProofOf(tree, j) == proof + ProofOf(tree, i)
    decreases |proof|
  {
    if proof == [] {
      j := i;
    } else {
      ProcessProofSnoc(k, leaf, proof);
      var init, last := proof[..|proof| - 1], proof[|proof| - 1];
      var c := PairNamesChildren(k, tree, i, ProcessProof(k, leaf, init), last);
      j := ProofBelow(k, tree, leaf, init, c);
      assert init + ([last] + ProofOf(tree, i)) == proof + ProofOf(tree, i);
    }
  }

  /**
   Soundness: whatever folds to the root is the hash of a node at the depth given by the
   length of the proof, and the proof is that node's own proof.
   */
  lemma ProofIsSound(k: Keccak, tree: seq<Hash>, leaf: Hash, proof: seq<Hash>) returns (j: nat)
    requires ValidTree(k, tree) && CollisionFree(k) && LeavesApart(k, tree)
    requires ProcessProof(k, leaf, proof) == tree[0]
    ensures j < |tree| && Depth(j) == |proof|
    ensures tree[j] == leaf && ProofOf(tree, j) == proof
    ensures (forall a, b :: leaf != HashPair(k, a, b)) ==> IsLeaf(tree, j)
  {
    j := ProofBelow(k, tree, leaf, proof, 0);
    assert proof + [] == proof;
    assert ConsistentAt(k, tree, j);
  }

  // ----- Multi proofs --------------------------------------------------------------------------

  datatype MultiProof = MultiProof(leaves: seq<Hash>, proof: seq<Hash>, flags: seq<bool>)

  function Sum(queue: seq<nat>): nat {
    if queue == [] then 0 else queue[0] + Sum(queue[1..])
  }

  lemma {:induction false} SumSnoc(queue: seq<nat>, x: nat)
    ensures Sum(queue + [x]) == Sum(queue) + x
  {
    if queue == [] {
      assert queue + [x] == [x];
    } else {
      SumSnoc(queue[1..], x);
      assert (queue + [x])[1..] == queue[1..] + [x];
    }
  }

  /** Whether the head of the queue is followed by its own sibling. */
  predicate Paired(queue: seq<nat>)
    requires queue != [] && queue[0] > 0
  {
    |queue| > 1 && queue[1] == Sibling(queue[0])
  }

  /** The queue after its head, and a sibling right behind it, gave way to their parent at the back. */
  function Advance(queue: seq<nat>): (next: seq<nat>)
    requires queue != [] && queue[0] > 0
    ensures Sum(next) < Sum(queue)
  {
    var rest := if Paired(queue) then queue[2..] else queue[1..];
    assert Sum(rest) + queue[0] <= Sum(queue) by {
      if Paired(queue) { assert queue[1..][1..] == queue[2..]; }
    }
    SumSnoc(rest, Parent(queue[0]));
    rest + [Parent(queue[0])]
  }

  predicate Within(tree: seq<Hash>, queue: seq<nat>) {
    forall i | 0 <= i < |queue| :: Climbable(tree, queue[i])
  }

  /** The sibling hashes and flags emitted while the queue is worked off. */
  function Emitted(tree: seq<Hash>, queue: seq<nat>): (r: (seq<Hash>, seq<bool>))
    requires Within(tree, queue)
    decreases Sum(queue)
  {
    if queue == [] || queue[0] == 0 then
      ([], [])
    else
      var paired := Paired(queue);
      var (proof, flags) := Emitted(tree, Advance(queue));
      (if paired then proof else [tree[Sibling(queue[0])]] + proof, [paired] + flags)
  }

  function Images(tree: seq<Hash>, queue: seq<nat>): (r: seq<Hash>)
    requires Within(tree, queue)
    ensures |r| == |queue|
  {
    seq(|queue|, i requires 0 <= i < |queue| => tree[queue[i]])
  }

  ghost predicate AllLeaves(tree: seq<Hash>, indices: seq<nat>) {
    forall i | 0 <= i < |indices| :: IsLeaf(tree, indices[i])
  }

  function Negated(i: nat): int { 0 - i }

  function Descending(indices: seq<nat>): seq<nat> {
    SortBy(indices, Negated)
  }

  function MultiProofOf(tree: seq<Hash>, queue: seq<nat>): MultiProof
    requires tree != [] && Within(tree, queue)
  {
    var (proof, flags) := Emitted(tree, queue);
    MultiProof(Images(tree, queue), if queue == [] then [tree[0]] else proof, flags)
  }

  ghost predicate StrictlyDescending(queue: seq<nat>) {
    forall i, j | 0 <= i < j < |queue| :: queue[i] > queue[j]
  }

  lemma {:induction false} DescendingOrder(indices: seq<nat>)
    ensures forall i, j | 0 <= i < j < |indices| :: Descending(indices)[i] >= Descending(indices)[j]
  {
    var d := Descending(indices);
    forall i, j | 0 <= i < j < |d| ensures d[i] >= d[j] {
      AscendingAt(d, Negated, i, j);
    }
  }

  /** Sorting the indices keeps them; sorted, they are strictly descending exactly when they were distinct. */
  lemma {:induction false} DescendingSorts(indices: seq<nat>)
    ensures var d := Descending(indices);
      && |d| == |indices| && Members(d) == Members(indices)
      && (forall i, j | 0 <= i < j < |d| :: d[i] >= d[j])
      && (Distinct(indices) <==> StrictlyDescending(d))
  {
    var d := Descending(indices);
    SameMembers(d, indices);
    DistinctStays(d, indices);
    DescendingOrder(indices);
  }

  ghost predicate AllInReach(tree: seq<Hash>, queue: seq<nat>) {
    forall i | 0 <= i < |queue| :: InReach(tree, queue[i])
  }

  /** The first step fails: the sibling of the head overflows, or is looked up and does not exist. */
  predicate HeadFails(tree: seq<Hash>, queue: seq<nat>) {
    queue != [] && queue[0] > 0 && (queue[0] >= I32_MAX || (!Paired(queue) && Sibling(queue[0]) >= |tree|))
  }

  lemma AdvanceStaysInReach(tree: seq<Hash>, queue: seq<nat>)
    requires AllInReach(tree, queue) && queue != [] && queue[0] > 0
    ensures AllInReach(tree, Advance(queue))
  {
    var next := Advance(queue);
    assert Parent(queue[0]) < queue[0] && Climbable(tree, Parent(queue[0]));
    forall i | 0 <= i < |next| ensures InReach(tree, next[i]) {
      assert i < |next| - 1 ==> next[i] == queue[i + |queue| - (|next| - 1)];
    }
  }

  /** What was emitted so far and what the queue still emits make up the whole. */
  ghost predicate Working(tree: seq<Hash>, indices: seq<nat>, queue: seq<nat>, proof: seq<Hash>, flags: seq<bool>) {
    && AllInReach(tree, indices) && AllInReach(tree, queue)
    && proof + Emitted(tree, queue).0 == Emitted(tree, indices).0
    && flags + Emitted(tree, queue).1 == Emitted(tree, indices).1
  }

  lemma WorkingHead(tree: seq<Hash>, indices: seq<nat>, queue: seq<nat>, proof: seq<Hash>, flags: seq<bool>)
    requires Working(tree, indices, queue, proof, flags)
    ensures !HeadFails(tree, queue)
  {
  }

  lemma {:induction false} WorkStep(tree: seq<Hash>, indices: seq<nat>, queue: seq<nat>, proof: seq<Hash>, flags: seq<bool>)
    requires Working(tree, indices, queue, proof, flags) && queue != [] && queue[0] > 0
    ensures Sibling(queue[0]) < |tree|
    ensures Working(tree, indices, Advance(queue),
                    if Paired(queue) then proof else proof + [tree[Sibling(queue[0])]], flags + [Paired(queue)])
  {
    AdvanceStaysInReach(tree, queue);
  }

  lemma {:induction false} WorkEnds(tree: seq<Hash>, indices: seq<nat>, queue: seq<nat>, proof: seq<Hash>, flags: seq<bool>)
    requires Working(tree, indices, queue, proof, flags) && (queue == [] || queue[0] == 0) && tree != []
    ensures Within(tree, indices)
    ensures MultiProofOf(tree, indices) == MultiProof(Images(tree, indices), if indices == [] then [tree[0]] else proof, flags)
  {
    assert proof + [] == proof && flags + [] == flags;
  }

  /** The generator's loop over its index queue, which is descending, so that only the first index can fail. */
  method WorkOff(tree: seq<Hash>, indices: seq<nat>) returns (r: Result<MultiProof, Error>)
    requires HeadFails(tree, indices) <==> !AllInReach(tree, indices)
    ensures r.Ok? <==> tree != [] && AllInReach(tree, indices)
    ensures r.Ok? ==> r.value == MultiProofOf(tree, indices)
    ensures r.Err? ==> r.error == if indices != [] && indices[0] > I32_MAX then TooLarge else OutOfBounds
  {
    var queue: seq<nat>, proof: seq<Hash>, flags: seq<bool> := indices, [], [];
    while queue != [] && queue[0] > 0
      invariant HeadFails(tree, indices) ==> queue == indices
      invariant !HeadFails(tree, indices) ==> Working(tree, indices, queue, proof, flags)
      decreases Sum(queue)
    {
      if !HeadFails(tree, indices) { WorkingHead(tree, indices, queue, proof, flags); }
      if queue[0] > I32_MAX {
        return Err(TooLarge);
      }
      if queue[0] == I32_MAX || (!Paired(queue) && Sibling(queue[0]) >= |tree|) {
        return Err(OutOfBounds);
      }
      WorkStep(tree, indices, queue, proof, flags);
      if !Paired(queue) { proof := proof + [tree[Sibling(queue[0])]]; }
      flags := flags + [Paired(queue)];
      queue := Advance(queue);
    }
    if tree == [] { return Err(OutOfBounds); }
    WorkEnds(tree, indices, queue, proof, flags);
    if indices == [] { proof := [tree[0]]; }
    return Ok(MultiProof(Images(tree, indices), proof, flags));
  }

  method AllAreLeaves(tree: seq<Hash>, indices: seq<nat>) returns (all: bool)
    ensures all <==> AllLeaves(tree, indices)
  {
    for i := 0 to |indices|
      invariant forall j | 0 <= j < i :: IsLeaf(tree, indices[j])
    {
      if !IsLeaf(tree, indices[i]) { return false; }
    }
    return true;
  }

  /** Refuses neighbours that are equal, then generates the proof. */
  method ProveSorted(tree: seq<Hash>, sorted: seq<nat>, ghost given: seq<nat>) returns (r: Result<MultiProof, Error>)
    requires AllLeaves(tree, given) && sorted == Descending(given)
    ensures r.Ok? <==> tree != [] && Distinct(given) && AllInReach(tree, given)
    ensures r.Err? ==> r.error == Refusal(tree, given)
    ensures r.Ok? ==> Within(tree, sorted) && r.value == MultiProofOf(tree, sorted)
  {
    SortedLeaves(tree, given, sorted);
    if exists i | 1 <= i < |sorted| :: sorted[i] == sorted[i - 1] {
      return Err(DuplicateIndex);
    }
    NoRepeatDescends(sorted);
    r := WorkOff(tree, sorted);
  }

  /** Refuses inner nodes, sorts the caller's indices in place, refuses duplicates, and generates the proof. */
  method GetMultiProof(tree: seq<Hash>, indices: array<nat>) returns (r: Result<MultiProof, Error>)
    modifies indices
    ensures r.Ok? <==> tree != [] && old(AllLeaves(tree, indices[..]) && Distinct(indices[..]) && AllInReach(tree, indices[..]))
    ensures r.Err? ==> r.error == Refusal(tree, old(indices[..]))
    ensures indices[..] == old(if AllLeaves(tree, indices[..]) then Descending(indices[..]) else indices[..])
    ensures r.Ok? ==> Within(tree, indices[..]) && r.value == MultiProofOf(tree, indices[..])
  {
    var given := indices[..];
    var all := AllAreLeaves(tree, given);
    if !all { return Err(NotLeaf); }
    var sorted := Descending(given);
    forall i | 0 <= i < indices.Length { indices[i] := sorted[i]; }
    assert indices[..] == sorted;
    r := ProveSorted(tree, sorted, given);
  }

  ghost predicate Beyond(indices: seq<nat>) {
    exists i :: 0 <= i < |indices| && indices[i] > I32_MAX
  }

  /** Why no multi proof is given for these indices. */
  ghost function Refusal(tree: seq<Hash>, indices: seq<nat>): Error {
    if !AllLeaves(tree, indices) then NotLeaf
    else if !Distinct(indices) then DuplicateIndex
    else if Beyond(indices) then TooLarge
    else OutOfBounds
  }

  /** What sorting keeps of leaves: that they are leaves, distinct and in reach; the greatest comes first. */
  lemma {:induction false} SortedLeaves(tree: seq<Hash>, indices: seq<nat>, sorted: seq<nat>)
    requires AllLeaves(tree, indices) && sorted == Descending(indices)
    ensures |sorted| == |indices| && AllLeaves(tree, sorted)
    ensures forall i, j | 0 <= i < j < |sorted| :: sorted[i] >= sorted[j]
    ensures Distinct(indices) <==> StrictlyDescending(sorted)
    ensures AllInReach(tree, indices) <==> AllInReach(tree, sorted)
    ensures Beyond(indices) <==> sorted != [] && sorted[0] > I32_MAX
  {
    DescendingSorts(indices);
    LeavesStay(tree, indices, sorted);
    SameReach(tree, indices, sorted);
    GreatestBeyond(indices, sorted);
  }

  lemma GreatestBeyond(indices: seq<nat>, sorted: seq<nat>)
    requires Members(sorted) == Members(indices) && forall i, j | 0 <= i < j < |sorted| :: sorted[i] >= sorted[j]
    ensures Beyond(indices) <==> sorted != [] && sorted[0] > I32_MAX
  {
    if i :| 0 <= i < |indices| && indices[i] > I32_MAX {
      assert indices[i] in Members(sorted);
    }
    if sorted != [] {
      assert sorted[0] in Members(indices);
    }
  }

  lemma SameReach(tree: seq<Hash>, a: seq<nat>, b: seq<nat>)
    requires Members(a) == Members(b)
    ensures AllInReach(tree, a) <==> AllInReach(tree, b)
  {
    forall i | 0 <= i < |a| && AllInReach(tree, b) ensures InReach(tree, a[i]) { assert a[i] in Members(b); }
    forall i | 0 <= i < |b| && AllInReach(tree, a) ensures InReach(tree, b[i]) { assert b[i] in Members(a); }
  }

  lemma LeavesStay(tree: seq<Hash>, indices: seq<nat>, sorted: seq<nat>)
    requires AllLeaves(tree, indices) && Members(sorted) == Members(indices)
    ensures AllLeaves(tree, sorted)
  {
    forall i | 0 <= i < |sorted| ensures IsLeaf(tree, sorted[i]) {
      assert sorted[i] in Members(indices);
    }
  }

  /** Weakly descending without equal neighbours is strictly descending. */
  lemma NoRepeatDescends(d: seq<nat>)
    requires forall i, j | 0 <= i < j < |d| :: d[i] >= d[j]
    requires forall i | 1 <= i < |d| :: d[i] != d[i - 1]
    ensures StrictlyDescending(d)
  {
    forall i, j | 0 <= i < j < |d| ensures d[i] > d[j] {
      assert d[i] >= d[j - 1] && d[j] != d[j - 1];
    }
  }

  datatype Replayed = Dry | Done(stack: seq<Hash>, proof: seq<Hash>)

  /** The verifier's queue over hashes alone; taking from an empty vector is the `Dry` outcome. */
  function Replay(k: Keccak, stack: seq<Hash>, proof: seq<Hash>, flags: seq<bool>): Replayed
    decreases |flags|
  {
    if flags == [] then
      Done(stack, proof)
    else if flags[0] then
      if |stack| < 2 then Dry
      else Replay(k, stack[2..] + [HashPair(k, stack[0], stack[1])], proof, flags[1..])
    else
      if stack == [] || proof == [] then Dry
      else Replay(k, stack[1..] + [HashPair(k, stack[0], proof[0])], proof[1..], flags[1..])
  }

  function Falses(flags: seq<bool>): nat {
    if flags == [] then 0 else (if flags[0] then 0 else 1) + Falses(flags[1..])
  }

  /** Both format checks of the verifier. */
  predicate WellFormed(mp: MultiProof) {
    |mp.proof| >= Falses(mp.flags) && |mp.leaves| + |mp.proof| == |mp.flags| + 1
  }

  function Processed(k: Keccak, mp: MultiProof): Result<Hash, Error> {
    if |mp.proof| < Falses(mp.flags) then Err(TooFewSiblings)
    else if !WellFormed(mp) then Err(Incompatible)
    else match Replay(k, mp.leaves, mp.proof, mp.flags)
      case Dry => Err(RanDry)
      case Done(stack, proof) =>
        if stack != [] then Ok(stack[|stack| - 1]) else if proof != [] then Ok(proof[0]) else Err(RanDry)
  }

  /** The verifier itself; `RanDry` stands for its panic on removing from an empty vector. */
  method ProcessMultiProof(k: Keccak, mp: MultiProof) returns (r: Result<Hash, Error>)
    ensures r == Processed(k, mp)
  {
    var falses := 0;
    for i := 0 to |mp.flags|
      invariant falses + Falses(mp.flags[i..]) == Falses(mp.flags)
    {
      assert mp.flags[i..][1..] == mp.flags[i + 1..];
      if !mp.flags[i] { falses := falses + 1; }
    }
    if |mp.proof| < falses { return Err(TooFewSiblings); }
    if |mp.leaves| + |mp.proof| != |mp.flags| + 1 { return Err(Incompatible); }
    var stack, proof := mp.leaves, mp.proof;
    for i := 0 to |mp.flags|
      invariant Replay(k, stack, proof, mp.flags[i..]) == Replay(k, mp.leaves, mp.proof, mp.flags)
    {
      assert mp.flags[i..][1..] == mp.flags[i + 1..];
      if stack == [] { return Err(RanDry); }
      var a, b := stack[0], 0;
      stack := stack[1..];
      if mp.flags[i] {
        if stack == [] { return Err(RanDry); }
        b, stack := stack[0], stack[1..];
      } else {
        if proof == [] { return Err(RanDry); }
        b, proof := proof[0], proof[1..];
      }
      stack := stack + [HashPair(k, a, b)];
    }
    if stack != [] { return Ok(stack[|stack| - 1]); }
    if proof == [] { return Err(RanDry); }
    return Ok(proof[0]);
  }

  /** What the generator's queue keeps: strictly descending, and the head's parent comes after everything queued. */
  ghost predicate Ordered(queue: seq<nat>) {
    && StrictlyDescending(queue)
    && (queue != [] && queue[0] > 0 ==> forall i | 0 <= i < |queue| :: queue[i] > Parent(queue[0]))
  }

  lemma AdvanceKeepsOrder(queue: seq<nat>)
    requires Ordered(queue) && queue != [] && queue[0] > 0
    ensures Ordered(Advance(queue))
  {
  }

  /** One step of the verifier on the images of the queue is the image of one step of the queue. */
  lemma {:induction false} ReplayStep(k: Keccak, tree: seq<Hash>, queue: seq<nat>, proof: seq<Hash>, flags: seq<bool>)
    requires ValidTree(k, tree) && Within(tree, queue) && queue != [] && queue[0] > 0
    ensures Within(tree, Advance(queue)) && Sibling(queue[0]) < |tree|
    ensures Replay(k, Images(tree, queue),
                   if Paired(queue) then proof else [tree[Sibling(queue[0])]] + proof,
                   [Paired(queue)] + flags)
         == Replay(k, Images(tree, Advance(queue)), proof, flags)
  {
    var stack, next := Images(tree, queue), Advance(queue);
    SiblingHash(k, tree, queue[0]);
    assert ([Paired(queue)] + flags)[1..] == flags;
    if Paired(queue) {
      assert stack[2..] + [tree[Parent(queue[0])]] == Images(tree, next);
    } else {
      assert stack[1..] + [tree[Parent(queue[0])]] == Images(tree, next);
      assert ([tree[Sibling(queue[0])]] + proof)[1..] == proof;
    }
  }

  /** The verifier's stack is the image of the generator's queue at every step, so it ends with the root alone. */
  lemma {:induction false} ReplayFollowsQueue(k: Keccak, tree: seq<Hash>, queue: seq<nat>)
    requires ValidTree(k, tree) && Within(tree, queue) && Ordered(queue) && queue != []
    ensures var (proof, flags) := Emitted(tree, queue);
      && Replay(k, Images(tree, queue), proof, flags) == Done([tree[0]], [])
      && |queue| + |proof| == |flags| + 1
      && |proof| == Falses(flags)
    decreases Sum(queue)
  {
    assert |queue| > 1 ==> queue[1] < queue[0];
    if queue[0] == 0 {
      assert queue == [0];
      assert Images(tree, queue) == [tree[0]];
    } else {
      var next := Advance(queue);
      AdvanceKeepsOrder(queue);
      var (proof, flags) := Emitted(tree, next);
      ReplayStep(k, tree, queue, proof, flags);
      ReplayFollowsQueue(k, tree, next);
      assert Falses([Paired(queue)] + flags) == (if Paired(queue) then 0 else 1) + Falses(flags) by {
        assert ([Paired(queue)] + flags)[1..] == flags;
      }
    }
  }

  lemma ImagesCons(tree: seq<Hash>, x: nat, s: seq<nat>)
    requires Climbable(tree, x) && Within(tree, s)
    ensures Within(tree, [x] + s) && Images(tree, [x] + s) == [tree[x]] + Images(tree, s)
    ensures multiset(Images(tree, [x] + s)) == multiset{tree[x]} + multiset(Images(tree, s))
  {
  }

  lemma Swapped(a: multiset<Hash>, b: multiset<Hash>, c: multiset<Hash>)
    ensures a + (b + c) == b + (a + c)
  {
  }

  lemma {:induction false} InsertedImages(tree: seq<Hash>, x: nat, s: seq<nat>)
    requires Climbable(tree, x) && Within(tree, s)
    ensures Within(tree, Insert(x, s, Negated))
    ensures multiset(Images(tree, Insert(x, s, Negated))) == multiset{tree[x]} + multiset(Images(tree, s))
  {
    if s == [] || Negated(x) <= Negated(s[0]) {
      ImagesCons(tree, x, s);
    } else {
      var y, rest := s[0], s[1..];
      assert s == [y] + rest;
      InsertedImages(tree, x, rest);
      ImagesCons(tree, y, rest);
      ImagesCons(tree, y, Insert(x, rest, Negated));
      Swapped(multiset{tree[x]}, multiset{tree[y]}, multiset(Images(tree, rest)));
    }
  }

  /** Sorting positions rearranges the hashes at them. */
  lemma {:induction false} SortedImages(tree: seq<Hash>, s: seq<nat>)
    requires Within(tree, s)
    ensures Within(tree, Descending(s)) && multiset(Images(tree, Descending(s))) == multiset(Images(tree, s))
  {
    if s != [] {
      SortedImages(tree, s[1..]);
      InsertedImages(tree, s[0], Descending(s[1..]));
      ImagesCons(tree, s[0], s[1..]);
      assert s == [s[0]] + s[1..];
    }
  }

  lemma LeavesAreWithin(tree: seq<Hash>, queue: seq<nat>)
    requires AllLeaves(tree, queue) && |tree| % 2 == 1
    ensures Within(tree, queue)
  {
    forall i | 0 <= i < |queue| ensures Climbable(tree, queue[i]) { assert IsLeaf(tree, queue[i]); }
  }

  lemma {:induction false} OrderedLeadsToRoot(k: Keccak, tree: seq<Hash>, queue: seq<nat>)
    requires ValidTree(k, tree) && AllLeaves(tree, queue) && StrictlyDescending(queue)
    ensures Within(tree, queue)
    ensures var mp := MultiProofOf(tree, queue);
      && WellFormed(mp) && Processed(k, mp) == Ok(tree[0])
  {
    LeavesAreWithin(tree, queue);
    if queue != [] {
      ReplayFollowsQueue(k, tree, queue);
    }
  }

  /** Completeness: the multi proof of any set of distinct leaves, also of none, is well formed and gives the root. */
  lemma {:induction false} MultiProofLeadsToRoot(k: Keccak, tree: seq<Hash>, indices: seq<nat>)
    requires ValidTree(k, tree) && AllLeaves(tree, indices) && Distinct(indices)
    ensures Within(tree, indices) && Within(tree, Descending(indices))
    ensures var mp := MultiProofOf(tree, Descending(indices));
      && WellFormed(mp) && Processed(k, mp) == Ok(tree[0])
      && multiset(mp.leaves) == multiset(Images(tree, indices))
  {
    var queue := Descending(indices);
    assert AllLeaves(tree, queue) && StrictlyDescending(queue) by { SortedLeaves(tree, indices, queue); }
    OrderedLeadsToRoot(k, tree, queue);
    LeavesAreWithin(tree, indices);
    SortedImages(tree, indices);
  }

  lemma {:induction false} ReplaySizes(k: Keccak, stack: seq<Hash>, proof: seq<Hash>, flags: seq<bool>)
    ensures var r := Replay(k, stack, proof, flags);
      && (r.Done? ==> |r.stack| + |r.proof| + |flags| == |stack| + |proof|)
      && (r.Done? && flags != [] ==> r.stack != [])
      && (r.Done? ==> |r.proof| + Falses(flags) == |proof|)
      && (|proof| == Falses(flags) && |stack| + |proof| == |flags| + 1 ==> r.Done?)
    decreases |flags|
  {
    if flags != [] {
      if flags[0] && |stack| >= 2 {
        ReplaySizes(k, stack[2..] + [HashPair(k, stack[0], stack[1])], proof, flags[1..]);
      } else if !flags[0] && stack != [] && proof != [] {
        ReplaySizes(k, stack[1..] + [HashPair(k, stack[0], proof[0])], proof[1..], flags[1..]);
      }
      FalsesBounded(flags);
      FalsesBounded(flags[1..]);
    }
  }

  lemma FalsesBounded(flags: seq<bool>)
    ensures Falses(flags) <= |flags|
  {
  }

  /** The positions of the false flags among the first `n`. */
  ghost function FalseAt(flags: seq<bool>, n: nat): set<int>
    requires n <= |flags|
  {
    set i | 0 <= i < n && !flags[i]
  }

  lemma {:induction false} FalsesSnoc(flags: seq<bool>, flag: bool)
    ensures Falses(flags + [flag]) == Falses(flags) + if flag then 0 else 1
  {
    if flags == [] {
      assert (flags + [flag])[1..] == [];
    } else {
      FalsesSnoc(flags[1..], flag);
      assert (flags + [flag])[1..] == flags[1..] + [flag];
    }
  }

  lemma {:induction false} FalsesCount(flags: seq<bool>, n: nat)
    requires n <= |flags|
    ensures Falses(flags[..n]) == |FalseAt(flags, n)|
  {
    if n > 0 {
      FalsesCount(flags, n - 1);
      FalsesSnoc(flags[..n - 1], flags[n - 1]);
      assert flags[..n] == flags[..n - 1] + [flags[n - 1]];
      assert FalseAt(flags, n) == FalseAt(flags, n - 1) + if flags[n - 1] then {} else {n - 1};
    }
  }

  /** What the verifier refuses before it starts: too few siblings for the false flags, or numbers that do not add up. */
  lemma {:induction false} RefusesExactly(k: Keccak, mp: MultiProof)
    ensures var falses := |FalseAt(mp.flags, |mp.flags|)|;
      && (Processed(k, mp) == Err(TooFewSiblings) <==> |mp.proof| < falses)
      && (Processed(k, mp) == Err(Incompatible) <==> |mp.proof| >= falses && |mp.leaves| + |mp.proof| != |mp.flags| + 1)
  {
    FalsesCount(mp.flags, |mp.flags|);
    assert mp.flags[..|mp.flags|] == mp.flags;
  }

  /**
   The two format checks do not keep the verifier from running dry. Past both checks, it runs
   dry exactly when there are flags and the proof is longer than the flags call for.
   */
  lemma RunsDryExactly(k: Keccak, mp: MultiProof)
    requires WellFormed(mp)
    ensures Processed(k, mp) == Err(RanDry) <==> mp.flags != [] && |mp.proof| > Falses(mp.flags)
  {
    ReplaySizes(k, mp.leaves, mp.proof, mp.flags);
  }

  lemma RunsDryPastTheChecks(k: Keccak)
    ensures var mp := MultiProof([1], [2], [true]); WellFormed(mp) && Processed(k, mp) == Err(RanDry)
  {
  }

  // ----- Soundness of multi proofs -------------------------------------------------------------

  /** Node `a` is `b` or an ancestor of it. */
  ghost predicate Above(a: nat, b: nat) {
    a == b || (b > 0 && Above(a, Parent(b)))
  }

  lemma {:induction false} AboveIsLess(a: nat, b: nat)
    requires Above(a, b)
    ensures a <= b
  {
    if a != b { AboveIsLess(a, Parent(b)); }
  }

  lemma {:induction false} AboveParent(c: nat, x: nat)
    requires c > 0 && Above(c, x)
    ensures Above(Parent(c), x)
  {
    if c == x {
      assert Above(Parent(c), Parent(x));
    } else {
      AboveParent(c, Parent(x));
    }
  }

  ghost predicate Unrelated(a: nat, b: nat) { !Above(a, b) && !Above(b, a) }

  ghost predicate ApartFrom(x: nat, ps: seq<nat>) {
    forall i | 0 <= i < |ps| :: Unrelated(x, ps[i])
  }

  /** No position is another or above another. */
  ghost predicate Apart(ps: seq<nat>) {
    forall i, j | 0 <= i < j < |ps| :: Unrelated(ps[i], ps[j])
  }

  lemma {:induction false} ChildApart(c: nat, ps: seq<nat>)
    requires c > 0 && ApartFrom(Parent(c), ps)
    ensures ApartFrom(c, ps)
  {
    forall i | 0 <= i < |ps| ensures Unrelated(c, ps[i]) {
      assert Unrelated(Parent(c), ps[i]);
      if Above(c, ps[i]) { AboveParent(c, ps[i]); }
      if ps[i] == c { AboveParent(c, c); }
    }
  }

  lemma {:induction false} SiblingsApart(c: nat)
    requires c > 0
    ensures Parent(Sibling(c)) == Parent(c) && Unrelated(c, Sibling(c))
  {
    if Above(c, Parent(c)) { AboveIsLess(c, Parent(c)); }
    if Above(Sibling(c), Parent(c)) { AboveIsLess(Sibling(c), Parent(c)); }
  }

  lemma {:induction false} RemoveApart(a: seq<nat>, x: nat, b: seq<nat>)
    requires Apart(a + [x] + b)
    ensures Apart(a + b) && ApartFrom(x, a + b)
  {
    var all, rest := a + [x] + b, a + b;
    assert forall i | 0 <= i < |rest| :: rest[i] == all[if i < |a| then i else i + 1];
    assert all[|a|] == x;
  }

  lemma {:induction false} InsertApart(a: seq<nat>, x: nat, b: seq<nat>)
    requires Apart(a + b) && ApartFrom(x, a + b)
    ensures Apart(a + [x] + b)
  {
    var all, rest := a + [x] + b, a + b;
    assert forall i | 0 <= i < |all| && i != |a| :: all[i] == rest[if i < |a| then i else i - 1];
    assert all[|a|] == x;
  }

  /** A position gives way to its two children: both in front, or one in front and one before the siblings. */
  lemma {:induction false} SplitApart(rest: seq<nat>, c: nat, proof: seq<nat>)
    requires c > 0 && Apart(rest + [Parent(c)] + proof)
    ensures Apart([c, Sibling(c)] + rest + proof)
  {
    var s, both := Sibling(c), rest + proof;
    RemoveApart(rest, Parent(c), proof);
    SiblingsApart(c);
    ChildApart(c, both);
    ChildApart(s, both);
    AddApart(s, both);
    assert ([s] + both)[1..] == both;
    AddApart(c, [s] + both);
    assert [c] + ([s] + both) == [c, s] + rest + proof;
  }

  lemma {:induction false} SpreadApart(rest: seq<nat>, c: nat, proof: seq<nat>)
    requires c > 0 && Apart(rest + [Parent(c)] + proof)
    ensures Apart([c] + rest + ([Sibling(c)] + proof))
  {
    var s, both, more := Sibling(c), rest + proof, rest + [Sibling(c)] + proof;
    RemoveApart(rest, Parent(c), proof);
    SiblingsApart(c);
    ChildApart(c, both);
    ChildApart(s, both);
    InsertApart(rest, s, proof);
    ApartFromMore(c, rest, s, proof);
    AddApart(c, more);
    assert [c] + more == [c] + rest + ([s] + proof);
  }

  lemma AddApart(x: nat, ps: seq<nat>)
    requires Apart(ps) && ApartFrom(x, ps)
    ensures Apart([x] + ps)
  {
  }

  lemma ApartFromMore(x: nat, a: seq<nat>, y: nat, b: seq<nat>)
    requires ApartFrom(x, a + b) && Unrelated(x, y)
    ensures ApartFrom(x, a + [y] + b)
  {
    var more, both := a + [y] + b, a + b;
    assert forall i | 0 <= i < |more| && i != |a| :: more[i] == both[if i < |a| then i else i - 1];
  }

  /** The hashes are those of the nodes at the positions. */
  ghost predicate At(tree: seq<Hash>, ps: seq<nat>, hashes: seq<Hash>) {
    |ps| == |hashes| && forall i | 0 <= i < |ps| :: ps[i] < |tree| && tree[ps[i]] == hashes[i]
  }

  /** Takes one step of the verifier back: the digest at the end of the stack gives way to what it is the digest of. */
  lemma {:induction false} StepBackwards(k: Keccak, tree: seq<Hash>, rest: seq<Hash>, proof: seq<Hash>, a: Hash, b: Hash,
                                         ps: seq<nat>, qs: seq<nat>)
    returns (c: nat)
    requires ValidTree(k, tree) && CollisionFree(k) && LeavesApart(k, tree)
    requires At(tree, ps, rest + [HashPair(k, a, b)]) && At(tree, qs, proof) && Apart(ps + qs)
    ensures c > 0
    ensures At(tree, [c, Sibling(c)] + ps[..|rest|], [a, b] + rest) && Apart([c, Sibling(c)] + ps[..|rest|] + qs)
    ensures At(tree, [c] + ps[..|rest|], [a] + rest) && At(tree, [Sibling(c)] + qs, [b] + proof)
    ensures Apart([c] + ps[..|rest|] + ([Sibling(c)] + qs))
  {
    var n, h := |rest|, HashPair(k, a, b);
    assert (rest + [h])[n] == h && forall i | 0 <= i < n :: (rest + [h])[i] == rest[i];
    c := PairNamesChildren(k, tree, ps[n], a, b);
    assert ps == ps[..n] + [Parent(c)];
    SplitApart(ps[..n], c, qs);
    SpreadApart(ps[..n], c, qs);
  }

  /** From where the hashes at the end of a replay sit, where those at its start sit. */
  lemma {:induction false} ReplayBackwards(k: Keccak, tree: seq<Hash>, stack: seq<Hash>, proof: seq<Hash>, flags: seq<bool>,
                                           endStack: seq<nat>, endProof: seq<nat>)
    returns (ps: seq<nat>, qs: seq<nat>)
    requires ValidTree(k, tree) && CollisionFree(k) && LeavesApart(k, tree)
    requires var r := Replay(k, stack, proof, flags); r.Done? && At(tree, endStack, r.stack) && At(tree, endProof, r.proof)
    requires Apart(endStack + endProof)
    ensures At(tree, ps, stack) && At(tree, qs, proof) && Apart(ps + qs)
    decreases |flags|
  {
    if flags == [] {
      ps, qs := endStack, endProof;
    } else if flags[0] {
      var a, b, rest := stack[0], stack[1], stack[2..];
      var ps', qs' := ReplayBackwards(k, tree, rest + [HashPair(k, a, b)], proof, flags[1..], endStack, endProof);
      var c := StepBackwards(k, tree, rest, proof, a, b, ps', qs');
      ps, qs := [c, Sibling(c)] + ps'[..|rest|], qs';
      assert stack == [a, b] + rest;
    } else {
      var a, b, rest, later := stack[0], proof[0], stack[1..], proof[1..];
      var ps', qs' := ReplayBackwards(k, tree, rest + [HashPair(k, a, b)], later, flags[1..], endStack, endProof);
      var c := StepBackwards(k, tree, rest, later, a, b, ps', qs');
      ps, qs := [c] + ps'[..|rest|], [Sibling(c)] + qs';
      assert stack == [a] + rest && proof == [b] + later;
    }
  }

  /**
   Soundness, for every input: the leaves and siblings of a multi proof that gives the root are hashes of nodes at
   positions none of which is another or above another, so no leaf is proved twice; what is no pair digest is a leaf.
   */
  lemma {:induction false} MultiProofIsSound(k: Keccak, tree: seq<Hash>, mp: MultiProof) returns (ps: seq<nat>, qs: seq<nat>)
    requires ValidTree(k, tree) && CollisionFree(k) && LeavesApart(k, tree)
    requires Processed(k, mp) == Ok(tree[0])
    ensures At(tree, ps, mp.leaves) && At(tree, qs, mp.proof) && Apart(ps + qs)
    ensures forall i | 0 <= i < |ps| && (forall a, b :: mp.leaves[i] != HashPair(k, a, b)) :: IsLeaf(tree, ps[i])
  {
    ReplaySizes(k, mp.leaves, mp.proof, mp.flags);
    var r := Replay(k, mp.leaves, mp.proof, mp.flags);
    if r.stack != [] {
      ps, qs := ReplayBackwards(k, tree, mp.leaves, mp.proof, mp.flags, [0], []);
    } else {
      ps, qs := ReplayBackwards(k, tree, mp.leaves, mp.proof, mp.flags, [], [0]);
    }
    forall i | 0 <= i < |ps| && (forall a, b :: mp.leaves[i] != HashPair(k, a, b)) ensures IsLeaf(tree, ps[i]) {
      assert ConsistentAt(k, tree, ps[i]);
    }
  }
}
