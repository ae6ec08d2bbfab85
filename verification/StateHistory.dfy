/**
 The application's record of committed states: the latest one, and a history of past ones kept
 under the height at which each takes effect, one above the block that committed it.
 */
module StateHistory {
  import opened Wrappers

  datatype Params = Params(
    stateRoot: nat, timestamp: nat, networkVersion: nat, baseFee: nat,
    circSupply: nat, chainId: nat, powerScale: int, appVersion: nat)

  datatype AppState = AppState(blockHeight: nat, oldest: nat, params: Params)

  /** What executing a block yields. */
  datatype Outcome = Outcome(
    stateRoot: nat, timestamp: nat, appVersion: nat, baseFee: nat, circSupply: nat, powerScale: int)

  datatype QueryHeight = Committed | Pending | Height(h: nat)

  datatype Db = Db(app: Option<AppState>, hist: map<nat, Params>)

  const FreshDb := Db(None, map[])

  // ----- Storing a committed state -------------------------------------------------------------

  /** The highest height to prune when the newest state takes effect at `top`, if any; sizes of 0 keep all. */
  function PruneHeight(size: nat, top: nat): Option<nat> {
    if size > 0 && top >= size then Some(top - size) else None
  }

  /** The database once `state` is saved with a history of `size`. */
  function Saved(size: nat, db: Db, state: AppState): Db {
    var top := state.blockHeight + 1;
    var hist := db.hist[top := state.params];
    match PruneHeight(size, top)
    case None => Db(Some(state), hist)
    case Some(p) =>
      Db(Some(state.(oldest := if state.oldest <= p then p + 1 else state.oldest)),
         map h | h in hist && !(state.oldest <= h <= p) :: hist[h])
  }

  function NewParams(p: Params, o: Outcome): Params {
    p.(stateRoot := o.stateRoot, timestamp := o.timestamp, appVersion := o.appVersion,
       baseFee := o.baseFee, circSupply := o.circSupply, powerScale := o.powerScale)
  }

  function EmptyParams(root: nat): Params { Params(root, 0, 0, 0, 0, 0, 0, 0) }

  class App {
    var app: Option<AppState>
    var hist: map<nat, Params>
    const histSize: nat

    ghost function Value(): Db
      reads this
    {
      Db(app, hist)
    }

    /** Opens the application on a database; a database without a state gets one for height 0. */
    constructor (db: Db, size: nat, emptyRoot: nat)
      ensures histSize == size
      ensures Value() == Opened(size, db, emptyRoot)
    {
      histSize, app, hist := size, db.app, db.hist;
      new;
      if app.None? {
        SetCommittedState(AppState(0, 0, EmptyParams(emptyRoot)));
      }
    }

    method SetCommittedState(state: AppState)
      modifies this
      ensures Value() == Saved(histSize, old(Value()), state)
    {
      var top := state.blockHeight + 1;
      hist := hist[top := state.params];
      var oldest := state.oldest;
      ghost var full := hist;
      if histSize > 0 && top >= histSize {
        var pruneHeight := top - histSize;
        while oldest <= pruneHeight
          invariant state.oldest <= oldest
          invariant oldest <= pruneHeight + 1 || oldest == state.oldest
          invariant hist == map h | h in full && !(state.oldest <= h < oldest) :: full[h]
          invariant app == old(app)
        {
          hist := hist - {oldest};
          oldest := oldest + 1;
        }
      }
      app := Some(state.(oldest := oldest));
    }

    /** Stores the genesis state as that of a block before the first. */
    method InitChain(genesis: Params, initialHeight: nat)
      requires initialHeight > 0
      modifies this
      ensures Value() == Saved(histSize, old(Value()), AppState(initialHeight - 1, initialHeight - 1, genesis))
    {
      SetCommittedState(AppState(initialHeight - 1, initialHeight - 1, genesis));
    }

    /** Commits what executing a block gave; without a committed state this is an error and changes nothing. */
    method FinalizeBlock(height: nat, o: Outcome) returns (ok: bool)
      modifies this
      ensures ok <==> old(app).Some?
      ensures Value() == if ok then Finalized(histSize, old(Value()), height, o) else old(Value())
    {
      if app.None? { return false; }
      var state := app.value.(blockHeight := height, params := NewParams(app.value.params, o));
      SetCommittedState(state);
      return true;
    }

    /** The state for a query and the height reported with it. */
    method StateParamsAtHeight(height: QueryHeight) returns (r: Option<(Params, nat)>)
      ensures r == Looked(Value(), height)
    {
      if height.Height? && height.h in hist {
        return Some((hist[height.h], height.h));
      }
      return if app.Some? then Some((app.value.params, app.value.blockHeight)) else None;
    }

    /** How far the block history may be forgotten. */
    method Commit() returns (retain: Option<nat>)
      ensures retain.Some? <==> app.Some?
      ensures retain.Some? ==> retain.value == RetainHeight(histSize, app.value.blockHeight)
    {
      if app.None? { return None; }
      var height := app.value.blockHeight;
      return Some(if histSize == 0 || height < histSize then 0 else height - histSize);
    }
  }

  function Opened(size: nat, db: Db, emptyRoot: nat): Db {
    if db.app.None? then Saved(size, db, AppState(0, 0, EmptyParams(emptyRoot))) else db
  }

  function Finalized(size: nat, db: Db, height: nat, o: Outcome): Db
    requires db.app.Some?
  {
    Saved(size, db, db.app.value.(blockHeight := height, params := NewParams(db.app.value.params, o)))
  }

  function Looked(db: Db, height: QueryHeight): Option<(Params, nat)> {
    if height.Height? && height.h in db.hist then Some((db.hist[height.h], height.h))
    else if db.app.Some? then Some((db.app.value.params, db.app.value.blockHeight))
    else None
  }

  function RetainHeight(size: nat, height: nat): nat {
    if size == 0 || height < size then 0 else height - size
  }

  // ----- The history against the chain ---------------------------------------------------------

  /** What block `n` committed, counting genesis as block 0. */
  function ParamsAfter(genesis: Params, blocks: seq<Outcome>, n: nat): Params
    requires n <= |blocks|
  {
    if n == 0 then genesis else NewParams(ParamsAfter(genesis, blocks, n - 1), blocks[n - 1])
  }

  /** The database after opening, genesis at initial height 1 and the blocks from 1 on. */
  function Chain(size: nat, emptyRoot: nat, genesis: Params, blocks: seq<Outcome>): (db: Db)
    ensures db.app.Some?
  {
    if blocks == [] then
      Saved(size, Opened(size, FreshDb, emptyRoot), AppState(0, 0, genesis))
    else
      Finalized(size, Chain(size, emptyRoot, genesis, blocks[..|blocks| - 1]), |blocks|, blocks[|blocks| - 1])
  }

  /** The lowest height with a state in the history. */
  function Lowest(size: nat, n: nat): nat {
    if size == 0 || n + 1 <= size then 1 else n + 2 - size
  }

  lemma {:induction false} ParamsAfterPrefix(genesis: Params, blocks: seq<Outcome>, n: nat)
    requires blocks != [] && n < |blocks|
    ensures ParamsAfter(genesis, blocks, n) == ParamsAfter(genesis, blocks[..|blocks| - 1], n)
  {
    if n > 0 {
      ParamsAfterPrefix(genesis, blocks, n - 1);
    }
  }

  ghost predicate Window(size: nat, genesis: Params, blocks: seq<Outcome>, db: Db) {
    var n := |blocks|;
    && db.app.Some? && db.app.value.blockHeight == n && db.app.value.params == ParamsAfter(genesis, blocks, n)
    && (db.app.value.oldest == Lowest(size, n) || db.app.value.oldest == 0)
    && (forall h | h in db.hist :: Lowest(size, n) <= h <= n + 1)
    && (forall h | Lowest(size, n) <= h <= n + 1 :: h in db.hist)
    && (forall h | h in db.hist :: db.hist[h] == ParamsAfter(genesis, blocks, h - 1))
  }

  /** One more block moves the window on. */
  lemma {:induction false} BlockMovesTheWindow(size: nat, genesis: Params, blocks: seq<Outcome>, db: Db)
    requires blocks != [] && Window(size, genesis, blocks[..|blocks| - 1], db)
    ensures Window(size, genesis, blocks, Finalized(size, db, |blocks|, blocks[|blocks| - 1]))
  {
    var n, init := |blocks|, blocks[..|blocks| - 1];
    forall k | 0 <= k < n ensures ParamsAfter(genesis, blocks, k) == ParamsAfter(genesis, init, k) {
      ParamsAfterPrefix(genesis, blocks, k);
    }
    assert ParamsAfter(genesis, blocks, n) == NewParams(ParamsAfter(genesis, init, n - 1), blocks[n - 1]);
  }

  /**
   After any blocks the history holds exactly the heights of the window, each with the state committed by the
   block below it, and the latest state is that of the last block.
   */
  lemma {:induction false} HistoryIsTheWindow(size: nat, emptyRoot: nat, genesis: Params, blocks: seq<Outcome>)
    ensures Window(size, genesis, blocks, Chain(size, emptyRoot, genesis, blocks))
  {
    if blocks != [] {
      var init := blocks[..|blocks| - 1];
      HistoryIsTheWindow(size, emptyRoot, genesis, init);
      BlockMovesTheWindow(size, genesis, blocks, Chain(size, emptyRoot, genesis, init));
    }
  }

  /** A query inside the window gets the state committed by the block below, any other the latest state. */
  lemma QueriesSeeTheChain(size: nat, emptyRoot: nat, genesis: Params, blocks: seq<Outcome>, q: QueryHeight)
    ensures var n := |blocks|;
      Looked(Chain(size, emptyRoot, genesis, blocks), q)
        == if q.Height? && Lowest(size, n) <= q.h <= n + 1
           then Some((ParamsAfter(genesis, blocks, q.h - 1), q.h))
           else Some((ParamsAfter(genesis, blocks, n), n))
  {
    HistoryIsTheWindow(size, emptyRoot, genesis, blocks);
  }

  /** The block whose state a query gets. */
  function CommittingBlock(size: nat, n: nat, q: QueryHeight): nat {
    if q.Height? && Lowest(size, n) <= q.h <= n + 1 then q.h - 1 else n
  }

  /** The height reported with a state is that of the block which committed it only for queries outside the window. */
  lemma ReportedHeightIsTheBlockExactly(size: nat, emptyRoot: nat, genesis: Params, blocks: seq<Outcome>, q: QueryHeight)
    ensures var n := |blocks|;
      (Looked(Chain(size, emptyRoot, genesis, blocks), q).value.1 == CommittingBlock(size, n, q))
      <==> !(q.Height? && Lowest(size, n) <= q.h <= n + 1)
  {
    HistoryIsTheWindow(size, emptyRoot, genesis, blocks);
  }

  /** Every kept state's block lies above the retain height, so no block still needed is forgotten; genesis has no block. */
  lemma KeptStatesKeepTheirBlocks(size: nat, emptyRoot: nat, genesis: Params, blocks: seq<Outcome>, h: nat)
    requires h in Chain(size, emptyRoot, genesis, blocks).hist
    ensures h == 1 || RetainHeight(size, |blocks|) < h - 1
  {
    HistoryIsTheWindow(size, emptyRoot, genesis, blocks);
  }

  /** The state a block leaves behind is what its own execution yielded, on the chain that genesis named. */
  lemma {:induction false} StateIsTheLastOutcome(genesis: Params, blocks: seq<Outcome>, n: nat)
    requires 0 < n <= |blocks|
    ensures var p := ParamsAfter(genesis, blocks, n);
      && Outcome(p.stateRoot, p.timestamp, p.appVersion, p.baseFee, p.circSupply, p.powerScale) == blocks[n - 1]
      && p.chainId == genesis.chainId && p.networkVersion == genesis.networkVersion
  {
    if n > 1 {
      StateIsTheLastOutcome(genesis, blocks, n - 1);
    }
  }

  /** The retain height is the greatest that spares every kept state's block, and 0 while nothing was pruned. */
  lemma RetainHeightIsTight(size: nat, emptyRoot: nat, genesis: Params, blocks: seq<Outcome>, r: nat)
    ensures var hist := Chain(size, emptyRoot, genesis, blocks).hist;
      && (1 in hist ==> RetainHeight(size, |blocks|) == 0)
      && (1 !in hist ==> ((forall h | h in hist :: r < h - 1) <==> r <= RetainHeight(size, |blocks|)))
  {
    HistoryIsTheWindow(size, emptyRoot, genesis, blocks);
    var low := Lowest(size, |blocks|);
    assert low in Chain(size, emptyRoot, genesis, blocks).hist;
  }
}
