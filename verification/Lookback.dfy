/** The chain-metadata actor's window of block hashes: an ordered array by epoch, bounded by dropping its lowest entry. */
module Lookback {
  import opened Wrappers
  import opened Sorting

  type Hash = nat
  type Hashes = map<nat, Hash>

  /** The least of a non-empty set. */
  ghost predicate IsLeast(s: set<nat>, x: nat) {
    x in s && forall y | y in s :: x <= y
  }

  /** Walks the array in order and stops at the first entry. */
  method FirstIndex(hashes: Hashes) returns (first: nat)
    requires hashes != map[]
    ensures IsLeast(hashes.Keys, first)
  {
    var todo := hashes.Keys;
    first :| first in todo;
    todo := todo - {first};
    while todo != {}
      invariant todo <= hashes.Keys && first in hashes
      invariant forall y | y in hashes && y !in todo :: first <= y
      decreases |todo|
    {
      var y :| y in todo;
      if y < first { first := y; }
      todo := todo - {y};
    }
  }

  /** What a push leaves, given which entry is the lowest. */
  ghost predicate PushedTo(len: nat, before: Hashes, epoch: nat, block: Hash, after: Hashes) {
    var full := before[epoch := block];
    if |full| > len then exists first :: IsLeast(full.Keys, first) && after == full - {first}
    else after == full
  }

  class State {
    var blockhashes: Hashes
    const lookbackLen: nat

    constructor (len: nat)
      ensures blockhashes == map[] && lookbackLen == len
    {
      blockhashes, lookbackLen := map[], len;
    }

    method PushBlockHash(epoch: nat, block: Hash)
      modifies this
      ensures PushedTo(lookbackLen, old(blockhashes), epoch, block, blockhashes)
    {
      var hashes := blockhashes[epoch := block];
      if |hashes| > lookbackLen {
        var first := FirstIndex(hashes);
        hashes := hashes - {first};
      }
      blockhashes := hashes;
    }

    method GetBlockHash(epoch: nat) returns (r: Option<Hash>)
      ensures r.Some? <==> epoch in blockhashes
      ensures r.Some? ==> r.value == blockhashes[epoch]
    {
      return if epoch in blockhashes then Some(blockhashes[epoch]) else None;
    }
  }

  // ----- Streams of pushes ---------------------------------------------------------------------

  datatype Push = Push(epoch: nat, block: Hash)

  /** The states a stream of pushes may pass through, from the empty array on. */
  ghost predicate IsTrace(len: nat, pushes: seq<Push>, trace: seq<Hashes>) {
    && |trace| == |pushes| + 1 && trace[0] == map[]
    && forall i | 0 <= i < |pushes| :: PushedTo(len, trace[i], pushes[i].epoch, pushes[i].block, trace[i + 1])
  }

  ghost function Epochs(pushes: seq<Push>): set<nat> {
    if pushes == [] then {} else Epochs(pushes[..|pushes| - 1]) + {pushes[|pushes| - 1].epoch}
  }

  /** The hash pushed last for an epoch. */
  ghost function LastHash(pushes: seq<Push>, e: nat): Hash
    requires e in Epochs(pushes)
  {
    var last := pushes[|pushes| - 1];
    if last.epoch == e then last.block else LastHash(pushes[..|pushes| - 1], e)
  }

  /** `top` are the `len` greatest members of `all`, or all of them if there are fewer. */
  ghost predicate IsTop(top: set<nat>, all: set<nat>, len: nat) {
    && top <= all
    && |top| == (if |all| < len then |all| else len)
    && forall x, y | x in all && x !in top && y in top :: x < y
  }

  /** Adding an element and dropping the least when there are too many keeps the greatest. */
  lemma TopStep(top: set<nat>, all: set<nat>, len: nat, e: nat, next: set<nat>)
    requires IsTop(top, all, len)
    requires if |top + {e}| > len then exists m :: IsLeast(top + {e}, m) && next == top + {e} - {m} else next == top + {e}
    ensures IsTop(next, all + {e}, len)
  {
    SubsetSize(top, all);
    SubsetSize(top + {e}, all + {e});
    if e in top {
      assert top + {e} == top && all + {e} == all;
    } else if |top + {e}| <= len {
      assert top == all;
    } else {
      var m :| IsLeast(top + {e}, m) && next == top + {e} - {m};
      assert |next| == len;
    }
  }

  /** The window holds the greatest epochs ever pushed, each with the hash pushed last for it. */
  ghost predicate HoldsTop(len: nat, pushes: seq<Push>, hashes: Hashes) {
    && IsTop(hashes.Keys, Epochs(pushes), len)
    && forall e | e in hashes :: hashes[e] == LastHash(pushes, e)
  }

  lemma {:induction false} PushKeepsTop(len: nat, pushes: seq<Push>, p: Push, before: Hashes, after: Hashes)
    requires HoldsTop(len, pushes, before) && PushedTo(len, before, p.epoch, p.block, after)
    ensures HoldsTop(len, pushes + [p], after)
  {
    SnocPush(pushes, p);
    PushKeys(len, before, p.epoch, p.block, after);
    TopStep(before.Keys, Epochs(pushes), len, p.epoch, after.Keys);
    forall e | e in after ensures after[e] == LastHash(pushes + [p], e) {
      assert e == p.epoch || (e in before && after[e] == before[e]);
    }
  }

  lemma {:induction false} SnocPush(pushes: seq<Push>, p: Push)
    ensures Epochs(pushes + [p]) == Epochs(pushes) + {p.epoch}
    ensures LastHash(pushes + [p], p.epoch) == p.block
    ensures forall e | e in Epochs(pushes) && e != p.epoch :: LastHash(pushes + [p], e) == LastHash(pushes, e)
  {
  }

  lemma PushKeys(len: nat, before: Hashes, epoch: nat, block: Hash, after: Hashes)
    requires PushedTo(len, before, epoch, block, after)
    ensures if |before.Keys + {epoch}| > len
      then exists m :: IsLeast(before.Keys + {epoch}, m) && after.Keys == before.Keys + {epoch} - {m}
      else after.Keys == before.Keys + {epoch}
  {
    var full := before[epoch := block];
    assert full.Keys == before.Keys + {epoch};
    if |full| > len {
      var m :| IsLeast(full.Keys, m) && after == full - {m};
      assert after.Keys == before.Keys + {epoch} - {m};
    }
  }

  lemma {:induction false} StreamKeepsTop(len: nat, pushes: seq<Push>, trace: seq<Hashes>)
    requires IsTrace(len, pushes, trace)
    ensures HoldsTop(len, pushes, trace[|pushes|])
  {
    if pushes != [] {
      var n := |pushes| - 1;
      StreamKeepsTop(len, pushes[..n], trace[..n + 1]);
      PushKeepsTop(len, pushes[..n], pushes[n], trace[n], trace[n + 1]);
      assert pushes[..n] + [pushes[n]] == pushes;
    }
  }

  ghost function Above(all: set<nat>, e: nat): set<nat> { set x | x in all && x > e }

  lemma TopByRank(top: set<nat>, all: set<nat>, len: nat, e: nat)
    requires IsTop(top, all, len)
    ensures e in top <==> e in all && |Above(all, e)| < len
  {
    if e in top {
      assert Above(all, e) <= top - {e};
      SubsetSize(Above(all, e), top - {e});
    } else if e in all {
      assert top <= Above(all, e);
      SubsetSize(top, Above(all, e));
      SubsetSize(top, all);
    }
  }

  /**
   Streaming top: after any pushes the window holds an epoch exactly when it was pushed and fewer than `len` greater
   epochs were, and then under the hash pushed last for it.
   */
  lemma WindowIsStreamingTop(len: nat, pushes: seq<Push>, trace: seq<Hashes>, e: nat)
    requires IsTrace(len, pushes, trace)
    ensures var hashes := trace[|pushes|];
      && (e in hashes <==> e in Epochs(pushes) && |Above(Epochs(pushes), e)| < len)
      && (e in hashes ==> hashes[e] == LastHash(pushes, e))
  {
    StreamKeepsTop(len, pushes, trace);
    TopByRank(trace[|pushes|].Keys, Epochs(pushes), len, e);
  }

  ghost predicate Consecutive(pushes: seq<Push>, first: nat) {
    forall i | 0 <= i < |pushes| :: pushes[i].epoch == first + i
  }

  lemma {:induction false} ConsecutiveEpochs(pushes: seq<Push>, first: nat, e: nat)
    requires Consecutive(pushes, first)
    ensures e in Epochs(pushes) <==> first <= e < first + |pushes|
    ensures |Epochs(pushes)| == |pushes|
    ensures e in Epochs(pushes) ==> |Above(Epochs(pushes), e)| == first + |pushes| - 1 - e
    ensures e in Epochs(pushes) ==> LastHash(pushes, e) == pushes[e - first].block
  {
    if pushes != [] {
      var n := |pushes| - 1;
      var init, last := pushes[..n], pushes[n].epoch;
      ConsecutiveEpochs(init, first, e);
      ConsecutiveEpochs(init, first, last);
      if e in Epochs(init) {
        assert Above(Epochs(pushes), e) == Above(Epochs(init), e) + {last};
      } else if e == last {
        forall x | x in Epochs(pushes) ensures x <= e { ConsecutiveEpochs(init, first, x); }
        assert Above(Epochs(pushes), e) == {};
      }
    }
  }

  /** For consecutive blocks the window is exactly the last `len` of them. */
  lemma WindowIsTheLastBlocks(len: nat, pushes: seq<Push>, trace: seq<Hashes>, first: nat, e: nat)
    requires IsTrace(len, pushes, trace) && Consecutive(pushes, first)
    ensures var hashes, end := trace[|pushes|], first + |pushes|;
      && (e in hashes <==> first <= e < end && end - len <= e)
      && (e in hashes ==> hashes[e] == pushes[e - first].block)
  {
    WindowIsStreamingTop(len, pushes, trace, e);
    ConsecutiveEpochs(pushes, first, e);
  }
}
