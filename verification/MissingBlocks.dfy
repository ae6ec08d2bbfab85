/**
 The search for blocks that could not be retrieved: a stack of identifiers is worked off, present
 blocks contribute their references, absent ones are collected.

 The store maps the blocks that are present and readable to their references; `broken` are those
 that are present but cannot be read. The graph is acyclic: `rank` falls along every reference.
 */
module MissingBlocks {
  import opened Wrappers

  type Cid = nat
  type Store = map<Cid, seq<Cid>>

  ghost predicate Acyclic(store: Store, rank: Cid -> nat) {
    forall c, i | c in store && 0 <= i < |store[c]| :: rank(store[c][i]) < rank(c)
  }

  /** All references are below `bound`. */
  ghost predicate Below(rank: Cid -> nat, cids: seq<Cid>, bound: nat) {
    forall i | 0 <= i < |cids| :: rank(cids[i]) < bound
  }

  /** The number of paths that start at `c`, and at any of several. */
  ghost function Paths(store: Store, rank: Cid -> nat, c: Cid): (n: nat)
    requires Acyclic(store, rank)
    ensures n > 0
    decreases rank(c), 1, 0
  {
    if c in store then 1 + PathsAll(store, rank, store[c], rank(c)) else 1
  }

  ghost function PathsAll(store: Store, rank: Cid -> nat, cids: seq<Cid>, bound: nat): nat
    requires Acyclic(store, rank) && Below(rank, cids, bound)
    decreases bound, 0, |cids|
  {
    if cids == [] then 0
    else PathsAll(store, rank, cids[..|cids| - 1], bound) + Paths(store, rank, cids[|cids| - 1])
  }

  /** The identifiers that paths from `c` end at for want of a readable block, once for each such path. */
  ghost function Ends(store: Store, rank: Cid -> nat, c: Cid): multiset<Cid>
    requires Acyclic(store, rank)
    decreases rank(c), 1, 0
  {
    if c in store then EndsAll(store, rank, store[c], rank(c)) else multiset{c}
  }

  ghost function EndsAll(store: Store, rank: Cid -> nat, cids: seq<Cid>, bound: nat): multiset<Cid>
    requires Acyclic(store, rank) && Below(rank, cids, bound)
    decreases bound, 0, |cids|
  {
    if cids == [] then multiset{}
    else EndsAll(store, rank, cids[..|cids| - 1], bound) + Ends(store, rank, cids[|cids| - 1])
  }

  /** Which bound is given does not matter. */
  lemma {:induction false} AnyBound(store: Store, rank: Cid -> nat, cids: seq<Cid>, low: nat, high: nat)
    requires Acyclic(store, rank) && low <= high && Below(rank, cids, low)
    ensures Below(rank, cids, high)
    ensures PathsAll(store, rank, cids, low) == PathsAll(store, rank, cids, high)
    ensures EndsAll(store, rank, cids, low) == EndsAll(store, rank, cids, high)
    decreases |cids|
  {
    if cids != [] {
      AnyBound(store, rank, cids[..|cids| - 1], low, high);
    }
  }

  lemma BelowBoth(rank: Cid -> nat, a: seq<Cid>, b: seq<Cid>, bound: nat)
    ensures Below(rank, a + b, bound) <==> Below(rank, a, bound) && Below(rank, b, bound)
  {
    assert forall i | 0 <= i < |a| :: (a + b)[i] == a[i];
    assert forall i | 0 <= i < |b| :: (a + b)[|a| + i] == b[i];
  }

  lemma {:induction false} ConcatenatedPaths(store: Store, rank: Cid -> nat, a: seq<Cid>, b: seq<Cid>, bound: nat)
    requires Acyclic(store, rank) && Below(rank, a, bound) && Below(rank, b, bound) && Below(rank, a + b, bound)
    ensures PathsAll(store, rank, a + b, bound) == PathsAll(store, rank, a, bound) + PathsAll(store, rank, b, bound)
    decreases |b|
  {
    if b == [] {
      assert a + b == a;
    } else {
      var init := b[..|b| - 1];
      BelowBoth(rank, a, init, bound);
      ConcatenatedPaths(store, rank, a, init, bound);
      assert (a + b)[..|a + b| - 1] == a + init;
    }
  }

  lemma {:induction false} ConcatenatedEnds(store: Store, rank: Cid -> nat, a: seq<Cid>, b: seq<Cid>, bound: nat)
    requires Acyclic(store, rank) && Below(rank, a, bound) && Below(rank, b, bound) && Below(rank, a + b, bound)
    ensures EndsAll(store, rank, a + b, bound) == EndsAll(store, rank, a, bound) + EndsAll(store, rank, b, bound)
    decreases |b|
  {
    if b == [] {
      assert a + b == a;
    } else {
      var init := b[..|b| - 1];
      BelowBoth(rank, a, init, bound);
      ConcatenatedEnds(store, rank, a, init, bound);
      assert (a + b)[..|a + b| - 1] == a + init;
    }
  }

  /** The stack after its top was taken off and, if present, replaced by its references. */
  function Unfolded(store: Store, rest: seq<Cid>, c: Cid): seq<Cid> {
    if c in store then rest + store[c] else rest
  }

  lemma {:induction false} UnfoldStep(store: Store, rank: Cid -> nat, rest: seq<Cid>, c: Cid, bound: nat)
    requires Acyclic(store, rank) && Below(rank, rest + [c], bound)
    ensures Below(rank, Unfolded(store, rest, c), bound)
    ensures PathsAll(store, rank, Unfolded(store, rest, c), bound) < PathsAll(store, rank, rest + [c], bound)
    ensures EndsAll(store, rank, rest + [c], bound)
         == EndsAll(store, rank, Unfolded(store, rest, c), bound) + if c in store then multiset{} else multiset{c}
  {
    assert (rest + [c])[|rest|] == c && (rest + [c])[..|rest|] == rest;
    BelowBoth(rank, rest, [c], bound);
    if c in store {
      AnyBound(store, rank, store[c], rank(c), bound);
      BelowBoth(rank, rest, store[c], bound);
      ConcatenatedPaths(store, rank, rest, store[c], bound);
      ConcatenatedEnds(store, rank, rest, store[c], bound);
    }
  }

  // ----- Paths ---------------------------------------------------------------------------------

  /** A walk along references through readable blocks. */
  ghost predicate IsPath(store: Store, p: seq<Cid>) {
    p != [] && forall i | 0 <= i < |p| - 1 :: p[i] in store && p[i + 1] in store[p[i]]
  }

  ghost predicate Reaches(store: Store, from: Cid, to: Cid) {
    exists p :: IsPath(store, p) && p[0] == from && p[|p| - 1] == to
  }

  lemma ReachesItself(store: Store, c: Cid)
    ensures Reaches(store, c, c)
  {
    assert IsPath(store, [c]);
  }

  lemma ReachesThrough(store: Store, c: Cid, i: nat, to: Cid)
    requires c in store && i < |store[c]| && Reaches(store, store[c][i], to)
    ensures Reaches(store, c, to)
  {
    var p :| IsPath(store, p) && p[0] == store[c][i] && p[|p| - 1] == to;
    assert IsPath(store, [c] + p);
    assert ([c] + p)[|p|] == to;
  }

  lemma ReachesOnward(store: Store, c: Cid, to: Cid) returns (i: nat)
    requires Reaches(store, c, to) && c != to
    ensures c in store && i < |store[c]| && Reaches(store, store[c][i], to)
  {
    var p :| IsPath(store, p) && p[0] == c && p[|p| - 1] == to;
    assert p[0] in store && p[1] in store[p[0]];
    i :| i < |store[c]| && store[c][i] == p[1];
    var q := p[1..];
    assert IsPath(store, q) by {
      forall j | 0 <= j < |q| - 1 ensures q[j] in store && q[j + 1] in store[q[j]] {
        assert q[j] == p[j + 1] && q[j + 1] == p[j + 2];
      }
    }
  }

  ghost predicate SomeReaches(store: Store, cids: seq<Cid>, x: Cid) {
    exists i :: 0 <= i < |cids| && Reaches(store, cids[i], x)
  }

  lemma SomeReachesSnoc(store: Store, cids: seq<Cid>, x: Cid)
    requires cids != []
    ensures SomeReaches(store, cids, x)
      <==> SomeReaches(store, cids[..|cids| - 1], x) || Reaches(store, cids[|cids| - 1], x)
  {
  }

  /** Paths from `c` end at exactly the identifiers without a readable block that `c` reaches. */
  lemma {:induction false} EndsAreReachable(store: Store, rank: Cid -> nat, c: Cid, x: Cid)
    requires Acyclic(store, rank)
    ensures x in Ends(store, rank, c) <==> Reaches(store, c, x) && x !in store
    decreases rank(c), 1, 0
  {
    if c in store {
      EndsAllReachable(store, rank, store[c], rank(c), x);
      if Reaches(store, c, x) && x !in store {
        var i := ReachesOnward(store, c, x);
      }
      if SomeReaches(store, store[c], x) {
        var i :| 0 <= i < |store[c]| && Reaches(store, store[c][i], x);
        ReachesThrough(store, c, i, x);
      }
    } else {
      ReachesItself(store, c);
      if Reaches(store, c, x) && x != c {
        var i := ReachesOnward(store, c, x);
        assert false;
      }
    }
  }

  lemma {:induction false} EndsAllReachable(store: Store, rank: Cid -> nat, cids: seq<Cid>, bound: nat, x: Cid)
    requires Acyclic(store, rank) && Below(rank, cids, bound)
    ensures x in EndsAll(store, rank, cids, bound) <==> SomeReaches(store, cids, x) && x !in store
    decreases bound, 0, |cids|
  {
    if cids != [] {
      var n := |cids| - 1;
      EndsAllReachable(store, rank, cids[..n], bound, x);
      EndsAreReachable(store, rank, cids[n], x);
      SomeReachesSnoc(store, cids, x);
    }
  }

  // ----- The search ----------------------------------------------------------------------------

  /** What was found and what is still stacked make up the whole answer. */
  ghost predicate Searching(store: Store, rank: Cid -> nat, root: Cid, stack: seq<Cid>, missing: seq<Cid>)
    requires Acyclic(store, rank)
  {
    && Below(rank, stack, rank(root) + 1)
    && multiset(missing) + EndsAll(store, rank, stack, rank(root) + 1) == Ends(store, rank, root)
  }

  lemma {:induction false} SearchStart(store: Store, rank: Cid -> nat, root: Cid)
    requires Acyclic(store, rank)
    ensures Searching(store, rank, root, [root], [])
  {
  }

  lemma {:induction false} SearchStep(store: Store, rank: Cid -> nat, root: Cid, rest: seq<Cid>, c: Cid, missing: seq<Cid>)
    requires Acyclic(store, rank) && Searching(store, rank, root, rest + [c], missing)
    ensures Searching(store, rank, root, Unfolded(store, rest, c), if c in store then missing else missing + [c])
    ensures PathsAll(store, rank, Unfolded(store, rest, c), rank(root) + 1) < PathsAll(store, rank, rest + [c], rank(root) + 1)
    ensures c !in store ==> c in Ends(store, rank, root)
  {
    UnfoldStep(store, rank, rest, c, rank(root) + 1);
    if c !in store {
      MoveOver(missing, EndsAll(store, rank, rest, rank(root) + 1), c);
    }
  }

  lemma MoveOver(missing: seq<Cid>, rest: multiset<Cid>, c: Cid)
    ensures multiset(missing + [c]) + rest == multiset(missing) + (rest + multiset{c})
  {
  }

  /**
   Works off the stack. Ends on every acyclic graph, the number of paths still to follow falling with each step.
   Fails exactly when a broken block is reached; otherwise it lists each absent identifier once per path to it.
   */
  method MissingBlocks(store: Store, broken: set<Cid>, root: Cid, ghost rank: Cid -> nat) returns (r: Result<seq<Cid>, Cid>)
    requires Acyclic(store, rank) && broken !! store.Keys
    ensures r.Ok? <==> forall c | c in broken :: !Reaches(store, root, c)
    ensures r.Err? ==> r.error in broken && Reaches(store, root, r.error)
    ensures r.Ok? ==> multiset(r.value) == Ends(store, rank, root)
    ensures r.Ok? ==> forall x :: x in r.value <==> Reaches(store, root, x) && x !in store
  {
    var stack, missing := [root], [];
    SearchStart(store, rank, root);
    while stack != []
      invariant Searching(store, rank, root, stack, missing)
      invariant forall x | x in missing :: x !in broken
      decreases PathsAll(store, rank, stack, rank(root) + 1)
    {
      var n := |stack| - 1;
      var cid, rest := stack[n], stack[..n];
      assert stack == rest + [cid];
      SearchStep(store, rank, root, rest, cid, missing);
      if cid in broken {
        EndsAreReachable(store, rank, root, cid);
        return Err(cid);
      }
      if cid in store {
        stack := rest + store[cid];
      } else {
        missing := missing + [cid];
        stack := rest;
      }
    }
    ListedIsReachable(store, rank, root, missing);
    return Ok(missing);
  }

  lemma {:induction false} ListedIsReachable(store: Store, rank: Cid -> nat, root: Cid, missing: seq<Cid>)
    requires Acyclic(store, rank) && multiset(missing) == Ends(store, rank, root)
    ensures forall x :: x in missing <==> Reaches(store, root, x) && x !in store
  {
    forall x ensures x in missing <==> Reaches(store, root, x) && x !in store {
      EndsAreReachable(store, rank, root, x);
      assert x in missing <==> x in multiset(missing);
    }
  }
}
