/**
 The Merkle tree over rows of values: rows are hashed, the hashes sorted and made the leaves,
 and every row remembers the tree position of its own hash.

 Hashing a row (its ABI encoding, digested twice) is the parameter `h`; it may refuse a row.
 */
module StandardTree {
  import opened Wrappers
  import opened MerkleTree
  import opened Sorting

  type Row = seq<string>
  type LeafHash = Row -> Option<Hash>

  datatype Hashed = Hashed(value: Row, valueIndex: nat, hash: Hash)
  datatype Indexed = Indexed(value: Row, treeIndex: nat)
  datatype StandardTree = StandardTree(lookup: map<Hash, nat>, tree: seq<Hash>, values: seq<Indexed>)

  datatype LeafType = Number(index: nat) | LeafBytes(row: Row)

  datatype TreeError =
    | BadRow | OutOfRange | WrongValue | NotInTree | Unproved | LookupMissing
    | Core(error: MerkleTree.Error)

  ghost predicate AllHash(h: LeafHash, rows: seq<Row>) {
    forall i | 0 <= i < |rows| :: h(rows[i]).Some?
  }

  ghost function RowHashes(h: LeafHash, rows: seq<Row>): seq<Hash>
    requires AllHash(h, rows)
  {
    seq(|rows|, i requires 0 <= i < |rows| => h(rows[i]).value)
  }

  /** Rows and leaf positions correspond one to one, and each row's position holds its own hash. */
  ghost predicate IndexesRows(h: LeafHash, t: StandardTree, rows: seq<Row>) {
    && AllHash(h, rows)
    && |t.values| == |rows| && |t.tree| == 2 * |rows| - 1
    && (forall i | 0 <= i < |rows| ::
          && t.values[i].value == rows[i]
          && IsLeaf(t.tree, t.values[i].treeIndex)
          && t.tree[t.values[i].treeIndex] == h(rows[i]).value)
    && (forall i, j | 0 <= i < j < |rows| :: t.values[i].treeIndex != t.values[j].treeIndex)
    && (forall p: nat {:trigger HasRow(t, p)} | IsLeaf(t.tree, p) :: HasRow(t, p))
  }

  ghost predicate HasRow(t: StandardTree, p: nat) {
    exists i :: 0 <= i < |t.values| && t.values[i].treeIndex == p
  }

  /** The lookup finds, for exactly the hashes of the rows, the last row with that hash. */
  ghost predicate LooksUp(h: LeafHash, lookup: map<Hash, nat>, rows: seq<Row>) {
    && AllHash(h, rows)
    && (forall i | 0 <= i < |rows| :: h(rows[i]).value in lookup && i <= lookup[h(rows[i]).value])
    && (forall x | x in lookup :: lookup[x] < |rows| && h(rows[lookup[x]]).value == x)
  }

  ghost predicate Correct(h: LeafHash, k: Keccak, t: StandardTree, rows: seq<Row>) {
    && IndexesRows(h, t, rows)
    && LooksUp(h, t.lookup, rows)
    && ValidTree(k, t.tree)
    && multiset(Leaves(t.tree)) == multiset(RowHashes(h, rows))
    && Ascending(Leaves(t.tree), Itself)
  }

  function Itself(x: nat): int { x }

  function HashOf(x: Hashed): int { x.hash }

  function Hashes(s: seq<Hashed>): (r: seq<Hash>)
    ensures |r| == |s|
    ensures forall i | 0 <= i < |s| :: r[i] == s[i].hash
  {
    if s == [] then [] else [s[0].hash] + Hashes(s[1..])
  }

  function Positions(s: seq<Hashed>): (r: seq<nat>)
    ensures |r| == |s|
  {
    seq(|s|, i requires 0 <= i < |s| => s[i].valueIndex)
  }

  // ----- What sorting does to the hashes -------------------------------------------------------

  lemma {:induction false} InsertHashes(x: Hashed, s: seq<Hashed>)
    ensures Hashes(Insert(x, s, HashOf)) == Insert(x.hash, Hashes(s), Itself)
  {
    var r := Insert(x, s, HashOf);
    if s == [] || HashOf(x) <= HashOf(s[0]) {
      assert r[1..] == s;
    } else {
      InsertHashes(x, s[1..]);
      assert Hashes(s)[1..] == Hashes(s[1..]);
      assert r[1..] == Insert(x, s[1..], HashOf);
    }
  }

  /** Sorting the hashed rows sorts their hashes. */
  lemma {:induction false} SortHashes(s: seq<Hashed>)
    ensures Hashes(SortBy(s, HashOf)) == SortBy(Hashes(s), Itself)
  {
    if s != [] {
      SortHashes(s[1..]);
      InsertHashes(s[0], SortBy(s[1..], HashOf));
      assert Hashes(s)[1..] == Hashes(s[1..]);
    }
  }

  ghost predicate InOrder(h: LeafHash, rows: seq<Row>, s: seq<Hashed>) {
    && AllHash(h, rows) && |s| == |rows|
    && forall i | 0 <= i < |rows| :: s[i] == Hashed(rows[i], i, h(rows[i]).value)
  }

  /** A rearrangement of the hashed rows repeats no index and misses none. */
  lemma PositionsStay(h: LeafHash, rows: seq<Row>, hashed: seq<Hashed>, sorted: seq<Hashed>)
    requires InOrder(h, rows, hashed) && multiset(sorted) == multiset(hashed)
    ensures Distinct(Positions(sorted))
    ensures forall i | 0 <= i < |rows| :: i in Positions(sorted)
  {
    SameMembers(sorted, hashed);
    assert Members(Positions(sorted)) == Members(Positions(hashed)) by {
      PositionsWithin(sorted, hashed);
      PositionsWithin(hashed, sorted);
    }
    DistinctBySize(Positions(hashed));
    DistinctBySize(Positions(sorted));
    forall i | 0 <= i < |rows| ensures i in Positions(sorted) {
      assert Positions(hashed)[i] == i;
      assert i in Members(Positions(sorted));
    }
  }

  lemma PositionsWithin(s: seq<Hashed>, t: seq<Hashed>)
    requires forall x | x in s :: x in t
    ensures Members(Positions(s)) <= Members(Positions(t))
  {
    forall p | p in Positions(s) ensures p in Positions(t) {
      var i :| 0 <= i < |s| && Positions(s)[i] == p;
      assert s[i] in t;
      var j :| 0 <= j < |t| && t[j] == s[i];
      assert Positions(t)[j] == p;
    }
  }

  /** A rearrangement keeps each hash beside the index of its row. */
  lemma HashesStay(h: LeafHash, rows: seq<Row>, hashed: seq<Hashed>, sorted: seq<Hashed>, j: nat)
    requires InOrder(h, rows, hashed) && multiset(sorted) == multiset(hashed) && j < |sorted|
    ensures sorted[j].valueIndex < |rows| && sorted[j].hash == h(rows[sorted[j].valueIndex]).value
  {
    SameMembers(sorted, hashed);
    assert sorted[j] in hashed;
  }

  // ----- Building ------------------------------------------------------------------------------

  method HashRows(h: LeafHash, rows: seq<Row>) returns (r: Result<seq<Hashed>, TreeError>)
    ensures r.Ok? <==> AllHash(h, rows)
    ensures r.Ok? ==> InOrder(h, rows, r.value)
    ensures r.Err? ==> r.error == BadRow
  {
    var hashed := [];
    for i := 0 to |rows|
      invariant AllHash(h, rows[..i])
      invariant InOrder(h, rows[..i], hashed)
    {
      var hash := h(rows[i]);
      if hash.None? { return Err(BadRow); }
      hashed := hashed + [Hashed(rows[i], i, hash.value)];
    }
    assert rows[..|rows|] == rows;
    return Ok(hashed);
  }

  /** Gives the row behind the j-th sorted hash the j-th position from the end of the tree. */
  method PlaceRows(rows: seq<Row>, sorted: seq<Hashed>, length: nat) returns (values: seq<Indexed>)
    requires |sorted| == |rows| <= length
    requires forall j | 0 <= j < |sorted| :: Positions(sorted)[j] < |rows|
    requires Distinct(Positions(sorted))
    ensures |values| == |rows|
    ensures forall i | 0 <= i < |rows| :: values[i].value == rows[i]
    ensures forall j | 0 <= j < |sorted| :: values[Positions(sorted)[j]].treeIndex == length - j - 1
  {
    values := seq(|rows|, i requires 0 <= i < |rows| => Indexed(rows[i], 0));
    for j := 0 to |sorted|
      invariant |values| == |rows|
      invariant forall i | 0 <= i < |rows| :: values[i].value == rows[i]
      invariant forall m | 0 <= m < j :: values[Positions(sorted)[m]].treeIndex == length - m - 1
    {
      var p := Positions(sorted)[j];
      values := values[p := values[p].(treeIndex := length - j - 1)];
    }
  }

  /** Maps each row's hash to the row; of rows with one hash the last wins. */
  method MakeLookup(h: LeafHash, rows: seq<Row>) returns (lookup: map<Hash, nat>)
    requires AllHash(h, rows)
    ensures LooksUp(h, lookup, rows)
  {
    lookup := map[];
    for i := 0 to |rows|
      invariant LooksUp(h, lookup, rows[..i])
    {
      lookup := lookup[h(rows[i]).value := i];
    }
    assert rows[..|rows|] == rows;
  }

  method Of(h: LeafHash, k: Keccak, rows: seq<Row>) returns (r: Result<StandardTree, TreeError>)
    ensures r.Ok? <==> rows != [] && AllHash(h, rows)
    ensures r.Ok? ==> Correct(h, k, r.value, rows)
    ensures r.Err? ==> r.error == if AllHash(h, rows) then Core(NoLeaves) else BadRow
  {
    var hashed := HashRows(h, rows);
    if hashed.Err? { return Err(hashed.error); }
    var sorted := SortBy(hashed.value, HashOf);
    var tree := MakeMerkleTree(k, Hashes(sorted));
    if tree.Err? { return Err(Core(tree.error)); }
    PositionsStay(h, rows, hashed.value, sorted);
    forall j | 0 <= j < |sorted| ensures Positions(sorted)[j] < |rows| {
      HashesStay(h, rows, hashed.value, sorted, j);
    }
    var values := PlaceRows(rows, sorted, |tree.value|);
    var lookup := MakeLookup(h, rows);
    var t := StandardTree(lookup, tree.value, values);
    PlacedRowsAreIndexed(h, k, rows, hashed.value, sorted, t);
    LeavesAreTheHashes(h, k, rows, hashed.value, sorted, t);
    return Ok(t);
  }

  ghost predicate Placed(rows: seq<Row>, sorted: seq<Hashed>, t: StandardTree) {
    && |t.values| == |rows| == |sorted|
    && (forall i | 0 <= i < |rows| :: t.values[i].value == rows[i])
    && (forall j | 0 <= j < |sorted| ::
          Positions(sorted)[j] < |rows| && t.values[Positions(sorted)[j]].treeIndex == |t.tree| - j - 1)
  }

  lemma {:induction false} PlacedRowsAreIndexed(h: LeafHash, k: Keccak, rows: seq<Row>, hashed: seq<Hashed>, sorted: seq<Hashed>, t: StandardTree)
    requires InOrder(h, rows, hashed) && multiset(sorted) == multiset(hashed) && rows != []
    requires Placed(rows, sorted, t) && t.tree == Built(k, Hashes(sorted))
    ensures IndexesRows(h, t, rows)
  {
    PositionsStay(h, rows, hashed, sorted);
    forall i | 0 <= i < |rows|
      ensures IsLeaf(t.tree, t.values[i].treeIndex) && t.tree[t.values[i].treeIndex] == h(rows[i]).value
      ensures t.values[i].treeIndex == |t.tree| - PlaceOf(sorted, i) - 1
    {
      PlacedRow(h, k, rows, hashed, sorted, t, PlaceOf(sorted, i));
    }
    forall p: nat | IsLeaf(t.tree, p) ensures HasRow(t, p) {
      assert t.values[Positions(sorted)[|t.tree| - 1 - p]].treeIndex == p;
    }
  }

  lemma {:induction false} PlacedRow(h: LeafHash, k: Keccak, rows: seq<Row>, hashed: seq<Hashed>, sorted: seq<Hashed>, t: StandardTree, j: nat)
    requires InOrder(h, rows, hashed) && multiset(sorted) == multiset(hashed) && j < |sorted|
    requires t.tree == Built(k, Hashes(sorted)) && Placed(rows, sorted, t)
    ensures var i := Positions(sorted)[j];
      IsLeaf(t.tree, t.values[i].treeIndex) && t.tree[t.values[i].treeIndex] == h(rows[i]).value
  {
    HashesStay(h, rows, hashed, sorted, j);
    BuiltLeaf(k, Hashes(sorted), j);
  }

  ghost function PlaceOf(sorted: seq<Hashed>, i: nat): (j: nat)
    requires i in Positions(sorted)
    ensures j < |sorted| && Positions(sorted)[j] == i
  {
    var j :| 0 <= j < |sorted| && Positions(sorted)[j] == i;
    j
  }

  lemma {:induction false} HashesInOrder(h: LeafHash, rows: seq<Row>, hashed: seq<Hashed>)
    requires InOrder(h, rows, hashed)
    ensures Hashes(hashed) == RowHashes(h, rows)
  {
  }

  lemma {:induction false} LeavesAreTheHashes(h: LeafHash, k: Keccak, rows: seq<Row>, hashed: seq<Hashed>, sorted: seq<Hashed>, t: StandardTree)
    requires InOrder(h, rows, hashed) && sorted == SortBy(hashed, HashOf) && rows != []
    requires t.tree == Built(k, Hashes(sorted))
    ensures ValidTree(k, t.tree)
    ensures multiset(Leaves(t.tree)) == multiset(RowHashes(h, rows))
    ensures Ascending(Leaves(t.tree), Itself)
  {
    BuiltIsValid(k, Hashes(sorted));
    SortHashes(hashed);
    HashesInOrder(h, rows, hashed);
  }

  /** Permuting the rows, or anything else that keeps the multiset of hashes, leaves the tree unchanged. */
  lemma TreeIgnoresRowOrder(h: LeafHash, k: Keccak, t: StandardTree, rows: seq<Row>, t': StandardTree, rows': seq<Row>)
    requires Correct(h, k, t, rows) && Correct(h, k, t', rows')
    requires multiset(RowHashes(h, rows)) == multiset(RowHashes(h, rows'))
    ensures t.tree == t'.tree
  {
    AscendingUnique(Leaves(t.tree), Leaves(t'.tree), Itself);
    ValidExactlyBuilt(k, t.tree);
    ValidExactlyBuilt(k, t'.tree);
  }

  // ----- Proving -------------------------------------------------------------------------------

  function ValidateValue(h: LeafHash, t: StandardTree, index: nat): Result<(), TreeError> {
    if index >= |t.values| then Err(OutOfRange)
    else if t.values[index].treeIndex >= |t.tree| then Err(OutOfRange)
    else match h(t.values[index].value)
      case None => Err(BadRow)
      case Some(leaf) => if leaf == t.tree[t.values[index].treeIndex] then Ok(()) else Err(WrongValue)
  }

  function ValueIndex(h: LeafHash, t: StandardTree, leaf: LeafType): Result<nat, TreeError> {
    match leaf
    case Number(i) => Ok(i)
    case LeafBytes(row) =>
      match h(row)
      case None => Err(BadRow)
      case Some(x) => if x in t.lookup then Ok(t.lookup[x]) else Err(NotInTree)
  }

  /** The leaf names a row: by its number, or by values that hash like one of the rows. */
  ghost predicate Names(h: LeafHash, rows: seq<Row>, leaf: LeafType) {
    match leaf
    case Number(i) => i < |rows|
    case LeafBytes(row) => h(row).Some? && exists i :: 0 <= i < |rows| && h(rows[i]) == h(row)
  }

  lemma NamedRowsValidate(h: LeafHash, t: StandardTree, rows: seq<Row>, leaf: LeafType)
    requires IndexesRows(h, t, rows) && LooksUp(h, t.lookup, rows)
    ensures Names(h, rows, leaf)
      <==> ValueIndex(h, t, leaf).Ok? && ValidateValue(h, t, ValueIndex(h, t, leaf).value).Ok?
  {
  }

  /** The row a leaf stands for: the one with its number, or the last one that hashes like its values. */
  ghost predicate StandsFor(h: LeafHash, rows: seq<Row>, leaf: LeafType, n: nat) {
    && n < |rows|
    && match leaf
       case Number(i) => n == i
       case LeafBytes(row) => h(row).Some? && h(rows[n]) == h(row) && forall j | n < j < |rows| :: h(rows[j]) != h(row)
  }

  /** The hash a leaf asks to be proved. */
  ghost function NamedHash(h: LeafHash, rows: seq<Row>, leaf: LeafType): Option<Hash> {
    match leaf
    case Number(i) => if i < |rows| then h(rows[i]) else None
    case LeafBytes(row) => h(row)
  }

  /** The index found for a leaf is that of the row it stands for, which has the hash it asks for; there is no other. */
  lemma FoundRowStands(h: LeafHash, t: StandardTree, rows: seq<Row>, leaf: LeafType, n: nat)
    requires IndexesRows(h, t, rows) && LooksUp(h, t.lookup, rows) && Names(h, rows, leaf)
    ensures ValueIndex(h, t, leaf).Ok? && NamedHash(h, rows, leaf).Some?
    ensures StandsFor(h, rows, leaf, n) <==> ValueIndex(h, t, leaf).value == n
    ensures ValueIndex(h, t, leaf).value == n ==> n < |rows| && h(rows[n]) == NamedHash(h, rows, leaf)
  {
    if leaf.LeafBytes? {
      var i :| 0 <= i < |rows| && h(rows[i]) == h(leaf.row);
      assert h(rows[i]).value in t.lookup;
      var found := ValueIndex(h, t, leaf).value;
      assert h(rows[found]) == h(leaf.row);
      forall j | found < j < |rows| ensures h(rows[j]) != h(leaf.row) {
        assert j <= t.lookup[h(rows[j]).value];
      }
    }
  }

  /** The position of the row a leaf stands for is within 32-bit sibling arithmetic. */
  ghost predicate Reachable(h: LeafHash, t: StandardTree, rows: seq<Row>, leaf: LeafType) {
    exists n: nat :: StandsFor(h, rows, leaf, n) && n < |t.values| && t.values[n].treeIndex < I32_MAX
  }

  lemma ReachableRow(h: LeafHash, t: StandardTree, rows: seq<Row>, leaf: LeafType, n: nat)
    requires IndexesRows(h, t, rows) && LooksUp(h, t.lookup, rows) && Names(h, rows, leaf)
    requires ValueIndex(h, t, leaf) == Ok(n)
    ensures n < |rows| && (Reachable(h, t, rows, leaf) <==> t.values[n].treeIndex < I32_MAX)
  {
    FoundRowStands(h, t, rows, leaf, n);
    if Reachable(h, t, rows, leaf) {
      var n': nat :| StandsFor(h, rows, leaf, n') && n' < |t.values| && t.values[n'].treeIndex < I32_MAX;
      FoundRowStands(h, t, rows, leaf, n');
    }
  }

  /** A row's position is a leaf whose proof leads to the root. */
  lemma {:induction false} RowIsProvable(h: LeafHash, k: Keccak, t: StandardTree, rows: seq<Row>, i: nat)
    requires IndexesRows(h, t, rows) && ValidTree(k, t.tree) && i < |rows|
    ensures var p := t.values[i].treeIndex;
      && IsLeaf(t.tree, p) && Climbable(t.tree, p)
      && ProcessProof(k, t.tree[p], ProofOf(t.tree, p)) == t.tree[0]
  {
    assert IsLeaf(t.tree, t.values[i].treeIndex);
    ProofLeadsToRoot(k, t.tree, t.values[i].treeIndex);
  }

  /** On a tree over `rows` a proof is produced for exactly the leaves that name a row in reach, and it proves that row's hash. */
  method GetProof(h: LeafHash, k: Keccak, t: StandardTree, leaf: LeafType, ghost rows: seq<Row>)
    returns (r: Result<seq<Hash>, TreeError>)
    ensures Correct(h, k, t, rows) ==> (r.Ok? <==> Names(h, rows, leaf) && Reachable(h, t, rows, leaf))
    ensures Correct(h, k, t, rows) && r.Ok? ==>
      NamedHash(h, rows, leaf).Some? && ProcessProof(k, NamedHash(h, rows, leaf).value, r.value) == t.tree[0]
    ensures ValueIndex(h, t, leaf).Err? ==> r == Err(ValueIndex(h, t, leaf).error)
    ensures ValueIndex(h, t, leaf).Ok? && ValidateValue(h, t, ValueIndex(h, t, leaf).value).Err? ==>
      r == Err(ValidateValue(h, t, ValueIndex(h, t, leaf).value).error)
    ensures r.Ok? ==> ValueIndex(h, t, leaf).Ok? && ValueIndex(h, t, leaf).value < |t.values|
    ensures r.Ok? ==> var value := t.values[ValueIndex(h, t, leaf).value].value;
      h(value).Some? && ProcessProof(k, h(value).value, r.value) == t.tree[0]
  {
    if Correct(h, k, t, rows) { NamedRowsValidate(h, t, rows, leaf); }
    var index := ValueIndex(h, t, leaf);
    if index.Err? { return Err(index.error); }
    if Correct(h, k, t, rows) && Names(h, rows, leaf) {
      FoundRowStands(h, t, rows, leaf, index.value);
      ReachableRow(h, t, rows, leaf, index.value);
      RowIsProvable(h, k, t, rows, index.value);
    }
    var valid := ValidateValue(h, t, index.value);
    if valid.Err? { return Err(valid.error); }
    var value := t.values[index.value];
    var proof := MerkleTree.GetProof(t.tree, value.treeIndex);
    if proof.Err? { return Err(Core(proof.error)); }
    if ProcessProof(k, t.tree[value.treeIndex], proof.value) != t.tree[0] {
      return Err(Unproved);
    }
    return Ok(proof.value);
  }

  datatype RowProof = RowProof(leaves: seq<Row>, proof: seq<Hash>, flags: seq<bool>)

  /** Leaf `i` is the first one not found or, with all found, the first that does not validate; `e` is why. */
  ghost predicate FailsFirst(h: LeafHash, t: StandardTree, leaves: seq<LeafType>, i: nat, e: TreeError)
    requires i < |leaves|
  {
    || (ValueIndex(h, t, leaves[i]) == Err(e) && forall j | 0 <= j < i :: ValueIndex(h, t, leaves[j]).Ok?)
    || ((forall j | 0 <= j < |leaves| :: ValueIndex(h, t, leaves[j]).Ok?)
        && ValidateValue(h, t, ValueIndex(h, t, leaves[i]).value) == Err(e)
        && forall j | 0 <= j < i :: ValidateValue(h, t, ValueIndex(h, t, leaves[j]).value).Ok?)
  }

  /** The row numbers behind the leaves; every lookup is done before the first validation. */
  method RowNumbers(h: LeafHash, t: StandardTree, leaves: seq<LeafType>, ghost rows: seq<Row>)
    returns (r: Result<seq<nat>, TreeError>)
    ensures r.Ok? <==> forall i | 0 <= i < |leaves| ::
      ValueIndex(h, t, leaves[i]).Ok? && ValidateValue(h, t, ValueIndex(h, t, leaves[i]).value).Ok?
    ensures r.Ok? ==> |r.value| == |leaves|
    ensures r.Ok? ==> forall i | 0 <= i < |leaves| :: ValueIndex(h, t, leaves[i]) == Ok(r.value[i])
    ensures r.Err? ==> exists i: nat :: i < |leaves| && FailsFirst(h, t, leaves, i, r.error)
    ensures IndexesRows(h, t, rows) && LooksUp(h, t.lookup, rows) ==>
      && (r.Ok? <==> AllName(h, rows, leaves))
      && (r.Ok? ==> AllStand(h, rows, leaves, r.value))
  {
    if IndexesRows(h, t, rows) && LooksUp(h, t.lookup, rows) { NamedLeaves(h, t, rows, leaves); }
    var numbers := [];
    for i := 0 to |leaves|
      invariant |numbers| == i
      invariant forall j | 0 <= j < i :: ValueIndex(h, t, leaves[j]) == Ok(numbers[j])
    {
      var index := ValueIndex(h, t, leaves[i]);
      if index.Err? {
        assert FailsFirst(h, t, leaves, i, index.error);
        return Err(index.error);
      }
      numbers := numbers + [index.value];
    }
    for i := 0 to |leaves|
      invariant forall j | 0 <= j < i :: ValidateValue(h, t, numbers[j]).Ok?
    {
      var valid := ValidateValue(h, t, numbers[i]);
      if valid.Err? {
        assert FailsFirst(h, t, leaves, i, valid.error);
        return Err(valid.error);
      }
    }
    return Ok(numbers);
  }

  ghost predicate AllName(h: LeafHash, rows: seq<Row>, leaves: seq<LeafType>) {
    forall i | 0 <= i < |leaves| :: Names(h, rows, leaves[i])
  }

  ghost predicate AllStand(h: LeafHash, rows: seq<Row>, leaves: seq<LeafType>, numbers: seq<nat>) {
    |numbers| == |leaves| && forall i | 0 <= i < |leaves| :: StandsFor(h, rows, leaves[i], numbers[i])
  }

  /** No two leaves stand for one row. */
  ghost predicate NoRowTwice(h: LeafHash, rows: seq<Row>, leaves: seq<LeafType>) {
    forall i, j, n: nat | 0 <= i < j < |leaves| && StandsFor(h, rows, leaves[i], n) :: !StandsFor(h, rows, leaves[j], n)
  }

  lemma NamedLeaves(h: LeafHash, t: StandardTree, rows: seq<Row>, leaves: seq<LeafType>)
    requires IndexesRows(h, t, rows) && LooksUp(h, t.lookup, rows)
    ensures forall i | 0 <= i < |leaves| ::
      && (Names(h, rows, leaves[i])
          <==> ValueIndex(h, t, leaves[i]).Ok? && ValidateValue(h, t, ValueIndex(h, t, leaves[i]).value).Ok?)
      && (Names(h, rows, leaves[i]) ==> StandsFor(h, rows, leaves[i], ValueIndex(h, t, leaves[i]).value))
  {
    forall i | 0 <= i < |leaves|
      ensures Names(h, rows, leaves[i])
        <==> ValueIndex(h, t, leaves[i]).Ok? && ValidateValue(h, t, ValueIndex(h, t, leaves[i]).value).Ok?
      ensures Names(h, rows, leaves[i]) ==> StandsFor(h, rows, leaves[i], ValueIndex(h, t, leaves[i]).value)
    {
      NamedRowsValidate(h, t, rows, leaves[i]);
      if Names(h, rows, leaves[i]) { FoundRowStands(h, t, rows, leaves[i], ValueIndex(h, t, leaves[i]).value); }
    }
  }

  lemma OneRowEach(h: LeafHash, rows: seq<Row>, leaf: LeafType, n: nat, n': nat)
    requires StandsFor(h, rows, leaf, n) && StandsFor(h, rows, leaf, n')
    ensures n == n'
  {
  }

  lemma NoRowTwiceIsDistinct(h: LeafHash, rows: seq<Row>, leaves: seq<LeafType>, numbers: seq<nat>)
    requires AllStand(h, rows, leaves, numbers)
    ensures NoRowTwice(h, rows, leaves) <==> Distinct(numbers)
  {
    forall i, j, n: nat | 0 <= i < j < |leaves| && StandsFor(h, rows, leaves[i], n) && StandsFor(h, rows, leaves[j], n)
      ensures numbers[i] == numbers[j]
    {
      OneRowEach(h, rows, leaves[i], n, numbers[i]);
      OneRowEach(h, rows, leaves[j], n, numbers[j]);
    }
  }

  ghost predicate HashTo(h: LeafHash, rows: seq<Row>, hashes: seq<Hash>) {
    |rows| == |hashes| && forall i | 0 <= i < |rows| :: h(rows[i]) == Some(hashes[i])
  }

  lemma LeavesHaveRows(h: LeafHash, k: Keccak, t: StandardTree, rows: seq<Row>, numbers: seq<nat>)
    requires Correct(h, k, t, rows) && forall i | 0 <= i < |numbers| :: numbers[i] < |rows|
    ensures var indices := TreeIndices(t, numbers);
      AllLeaves(t.tree, indices) && (Distinct(indices) <==> Distinct(numbers))
  {
    var indices := TreeIndices(t, numbers);
    forall i, j | 0 <= i < j < |numbers|
      ensures indices[i] == indices[j] <==> numbers[i] == numbers[j]
    {
      OneRowPerIndex(h, t, rows, numbers[i], numbers[j]);
    }
  }

  lemma OneRowPerIndex(h: LeafHash, t: StandardTree, rows: seq<Row>, i: nat, j: nat)
    requires IndexesRows(h, t, rows) && i < |rows| && j < |rows|
    ensures t.values[i].treeIndex == t.values[j].treeIndex <==> i == j
  {
  }

  /** Puts the rows back in place of their hashes; `LookupMissing` stands for a panic. */
  method RowsOf(h: LeafHash, t: StandardTree, hashes: seq<Hash>) returns (r: Result<seq<Row>, TreeError>)
    ensures (forall x | x in hashes :: x in t.lookup && t.lookup[x] < |t.values|) ==> r.Ok?
    ensures r.Ok? ==> |r.value| == |hashes|
    ensures r.Ok? ==> forall i | 0 <= i < |hashes| ::
      hashes[i] in t.lookup && t.lookup[hashes[i]] < |t.values| && r.value[i] == t.values[t.lookup[hashes[i]]].value
  {
    var found := [];
    for i := 0 to |hashes|
      invariant |found| == i
      invariant forall j | 0 <= j < i ::
        hashes[j] in t.lookup && t.lookup[hashes[j]] < |t.values| && found[j] == t.values[t.lookup[hashes[j]]].value
    {
      if hashes[i] !in t.lookup || t.lookup[hashes[i]] >= |t.values| { return Err(LookupMissing); }
      found := found + [t.values[t.lookup[hashes[i]]].value];
    }
    return Ok(found);
  }

  function TreeIndices(t: StandardTree, numbers: seq<nat>): (r: seq<nat>)
    requires forall i | 0 <= i < |numbers| :: numbers[i] < |t.values|
    ensures |r| == |numbers|
  {
    seq(|numbers|, i requires 0 <= i < |numbers| => t.values[numbers[i]].treeIndex)
  }

  /** Rows, however picked, sit at leaves; picked once each, their multi proof leads to the root and looks up again. */
  lemma RowsAreProvable(h: LeafHash, k: Keccak, t: StandardTree, rows: seq<Row>, numbers: seq<nat>)
    requires Correct(h, k, t, rows) && forall i | 0 <= i < |numbers| :: numbers[i] < |rows|
    ensures var positions := TreeIndices(t, numbers);
      && AllLeaves(t.tree, positions)
      && (Distinct(positions) <==> Distinct(numbers))
      && Within(t.tree, positions) && Within(t.tree, Descending(positions))
      && (Distinct(numbers) ==> Provable(h, k, t, MultiProofOf(t.tree, Descending(positions)), Images(t.tree, positions)))
  {
    var positions := TreeIndices(t, numbers);
    LeavesHaveRows(h, k, t, rows, numbers);
    ProvedLeavesLookUp(h, t, rows, positions);
    if Distinct(numbers) {
      MultiProofLeadsToRoot(k, t.tree, positions);
    }
  }

  ghost predicate Provable(h: LeafHash, k: Keccak, t: StandardTree, mp: MultiProof, hashes: seq<Hash>) {
    && t.tree != [] && Processed(k, mp) == Ok(t.tree[0])
    && multiset(mp.leaves) == multiset(hashes)
    && forall x | x in mp.leaves :: x in t.lookup && t.lookup[x] < |t.values| && h(t.values[t.lookup[x]].value) == Some(x)
  }

  ghost predicate AllHashed(h: LeafHash, rows: seq<Row>, leaves: seq<LeafType>) {
    forall i | 0 <= i < |leaves| :: NamedHash(h, rows, leaves[i]).Some?
  }

  /** The hashes asked for. */
  ghost function NamedHashes(h: LeafHash, rows: seq<Row>, leaves: seq<LeafType>): seq<Hash>
    requires AllHashed(h, rows, leaves)
  {
    seq(|leaves|, i requires 0 <= i < |leaves| => NamedHash(h, rows, leaves[i]).value)
  }

  /** The rows handed out have, up to order, the hashes asked for, and with the siblings lead to the root. */
  ghost predicate Proves(h: LeafHash, k: Keccak, t: StandardTree, rp: RowProof, asked: seq<Hash>) {
    t.tree != [] && exists hashes: seq<Hash> ::
      && HashTo(h, rp.leaves, hashes) && multiset(hashes) == multiset(asked)
      && Processed(k, MultiProof(hashes, rp.proof, rp.flags)) == Ok(t.tree[0])
  }

  lemma StandingHash(h: LeafHash, rows: seq<Row>, leaf: LeafType, n: nat)
    requires StandsFor(h, rows, leaf, n)
    ensures NamedHash(h, rows, leaf) == h(rows[n])
  {
  }

  lemma NamedImages(h: LeafHash, t: StandardTree, rows: seq<Row>, leaves: seq<LeafType>, numbers: seq<nat>)
    requires IndexesRows(h, t, rows) && AllStand(h, rows, leaves, numbers) && Within(t.tree, TreeIndices(t, numbers))
    ensures AllHashed(h, rows, leaves) && Images(t.tree, TreeIndices(t, numbers)) == NamedHashes(h, rows, leaves)
  {
    forall i | 0 <= i < |leaves| ensures NamedHash(h, rows, leaves[i]) == Some(t.tree[TreeIndices(t, numbers)[i]]) {
      StandingHash(h, rows, leaves[i], numbers[i]);
    }
  }

  ghost predicate AllReachable(h: LeafHash, t: StandardTree, rows: seq<Row>, leaves: seq<LeafType>) {
    forall i | 0 <= i < |leaves| :: Reachable(h, t, rows, leaves[i])
  }

  lemma ReachableInTree(h: LeafHash, t: StandardTree, rows: seq<Row>, leaves: seq<LeafType>, numbers: seq<nat>)
    requires |t.values| == |rows| && AllStand(h, rows, leaves, numbers) && Within(t.tree, TreeIndices(t, numbers))
    ensures AllInReach(t.tree, TreeIndices(t, numbers)) <==> AllReachable(h, t, rows, leaves)
  {
    var positions := TreeIndices(t, numbers);
    forall i | 0 <= i < |leaves| ensures InReach(t.tree, positions[i]) <==> Reachable(h, t, rows, leaves[i]) {
      assert Climbable(t.tree, positions[i]) && StandsFor(h, rows, leaves[i], numbers[i]);
      if Reachable(h, t, rows, leaves[i]) {
        var n: nat :| StandsFor(h, rows, leaves[i], n) && n < |t.values| && t.values[n].treeIndex < I32_MAX;
        OneRowEach(h, rows, leaves[i], n, numbers[i]);
      }
    }
  }

  /** The proof of the rows with these numbers, put together from the core's. */
  method ProveRows(h: LeafHash, k: Keccak, t: StandardTree, nums: seq<nat>, ghost rows: seq<Row>)
    returns (r: Result<RowProof, TreeError>, ghost hashes: seq<Hash>)
    requires forall i | 0 <= i < |nums| :: nums[i] < |t.values|
    ensures Correct(h, k, t, rows) ==> Within(t.tree, TreeIndices(t, nums))
    ensures Correct(h, k, t, rows) ==> (r.Ok? <==> Distinct(nums) && AllInReach(t.tree, TreeIndices(t, nums)))
    ensures Correct(h, k, t, rows) && r.Err? ==>
      r.error == Core(if !Distinct(nums) then DuplicateIndex else if Beyond(TreeIndices(t, nums)) then TooLarge else OutOfBounds)
    ensures Correct(h, k, t, rows) && r.Ok? ==>
      && HashTo(h, r.value.leaves, hashes) && multiset(hashes) == multiset(Images(t.tree, TreeIndices(t, nums)))
      && Processed(k, MultiProof(hashes, r.value.proof, r.value.flags)) == Ok(t.tree[0])
  {
    var indices := new nat[|nums|](i requires 0 <= i < |nums| => t.values[nums[i]].treeIndex);
    assert indices[..] == TreeIndices(t, nums);
    if Correct(h, k, t, rows) { RowsAreProvable(h, k, t, rows, nums); }
    hashes := [];
    var core := MerkleTree.GetMultiProof(t.tree, indices);
    if core.Err? { return Err(Core(core.error)), []; }
    var mp := core.value;
    hashes := mp.leaves;
    var root := ProcessMultiProof(k, mp);
    if root.Err? { return Err(Core(root.error)), hashes; }
    if root.value != t.tree[0] { return Err(Unproved), hashes; }
    var found := RowsOf(h, t, mp.leaves);
    if found.Err? { return Err(found.error), hashes; }
    assert mp == MultiProof(mp.leaves, mp.proof, mp.flags);
    return Ok(RowProof(found.value, mp.proof, mp.flags)), hashes;
  }

  /**
   On a tree over `rows` a multi proof is produced exactly when every leaf names a row in reach and no row is named
   twice; it carries rows that hash like those asked for and, with the proof and its flags, lead to the root.
   */
  method GetMultiProof(h: LeafHash, k: Keccak, t: StandardTree, leaves: seq<LeafType>, ghost rows: seq<Row>)
    returns (r: Result<RowProof, TreeError>)
    ensures Correct(h, k, t, rows) ==>
      (r.Ok? <==> AllName(h, rows, leaves) && NoRowTwice(h, rows, leaves) && AllReachable(h, t, rows, leaves))
    ensures Correct(h, k, t, rows) && r.Ok? ==>
      AllHashed(h, rows, leaves) && Proves(h, k, t, r.value, NamedHashes(h, rows, leaves))
    ensures Correct(h, k, t, rows) && r.Err? && AllName(h, rows, leaves) ==>
      if NoRowTwice(h, rows, leaves) then r.error in {Core(TooLarge), Core(OutOfBounds)} else r.error == Core(DuplicateIndex)
    ensures Correct(h, k, t, rows) && !AllName(h, rows, leaves) ==>
      r.Err? && exists i: nat :: i < |leaves| && FailsFirst(h, t, leaves, i, r.error)
  {
    var numbers := RowNumbers(h, t, leaves, rows);
    if numbers.Err? { return Err(numbers.error); }
    var nums := numbers.value;
    assert forall i | 0 <= i < |nums| :: nums[i] < |t.values| by { InRange(h, t, leaves, nums); }
    ghost var hashes;
    r, hashes := ProveRows(h, k, t, nums, rows);
    if Correct(h, k, t, rows) {
      NoRowTwiceIsDistinct(h, rows, leaves, nums);
      NamedImages(h, t, rows, leaves, nums);
      ReachableInTree(h, t, rows, leaves, nums);
    }
  }

  lemma InRange(h: LeafHash, t: StandardTree, leaves: seq<LeafType>, nums: seq<nat>)
    requires |nums| == |leaves|
    requires forall i | 0 <= i < |leaves| :: ValueIndex(h, t, leaves[i]) == Ok(nums[i]) && ValidateValue(h, t, nums[i]).Ok?
    ensures forall i | 0 <= i < |nums| :: nums[i] < |t.values|
  {
  }

  lemma LeafLooksUp(h: LeafHash, t: StandardTree, rows: seq<Row>, p: nat)
    requires IndexesRows(h, t, rows) && LooksUp(h, t.lookup, rows) && IsLeaf(t.tree, p)
    ensures var x := t.tree[p]; x in t.lookup && t.lookup[x] < |rows| && h(rows[t.lookup[x]]) == Some(x)
  {
    assert HasRow(t, p);
    var i :| 0 <= i < |rows| && t.values[i].treeIndex == p;
    assert h(rows[i]).value in t.lookup;
  }

  lemma LeavesLookUp(h: LeafHash, t: StandardTree, rows: seq<Row>, queue: seq<nat>)
    requires IndexesRows(h, t, rows) && LooksUp(h, t.lookup, rows) && AllLeaves(t.tree, queue) && Within(t.tree, queue)
    ensures forall x | x in Images(t.tree, queue) :: x in t.lookup && t.lookup[x] < |rows| && h(rows[t.lookup[x]]) == Some(x)
  {
    var leaves := Images(t.tree, queue);
    forall q | 0 <= q < |leaves|
      ensures var x := leaves[q]; x in t.lookup && t.lookup[x] < |rows| && h(rows[t.lookup[x]]) == Some(x)
    {
      LeafLooksUp(h, t, rows, queue[q]);
    }
  }

  /** Every hash in a generated multi proof of leaves is the hash of a row the lookup finds. */
  lemma {:induction false} ProvedLeavesLookUp(h: LeafHash, t: StandardTree, rows: seq<Row>, positions: seq<nat>)
    requires IndexesRows(h, t, rows) && LooksUp(h, t.lookup, rows) && AllLeaves(t.tree, positions) && |t.tree| % 2 == 1
    ensures Within(t.tree, positions) && Within(t.tree, Descending(positions))
    ensures var leaves := Images(t.tree, Descending(positions));
      forall x | x in leaves :: x in t.lookup && t.lookup[x] < |rows| && h(rows[t.lookup[x]]) == Some(x)
  {
    var queue := Descending(positions);
    assert AllLeaves(t.tree, queue) by { SortedLeaves(t.tree, positions, queue); }
    LeavesAreWithin(t.tree, positions);
    LeavesAreWithin(t.tree, queue);
    LeavesLookUp(h, t, rows, queue);
  }
}
