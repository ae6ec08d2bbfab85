/** Stable sorting by an integer key: what the library's `sort_by` and `sort_by_key` do to a vector. */
module Sorting {

  ghost predicate Ascending<T>(s: seq<T>, key: T -> int) {
    s == [] || ((forall y | y in s :: key(s[0]) <= key(y)) && Ascending(s[1..], key))
  }

  function Insert<T>(x: T, s: seq<T>, key: T -> int): (r: seq<T>)
    ensures multiset(r) == multiset(s) + multiset{x}
    ensures |r| == |s| + 1
    ensures forall y | y in r :: y == x || y in s
  {
    if s == [] || key(x) <= key(s[0]) then
      [x] + s
    else
      assert s == [s[0]] + s[1..];
      [s[0]] + Insert(x, s[1..], key)
  }

  lemma {:induction false} InsertAscends<T>(x: T, s: seq<T>, key: T -> int)
    requires Ascending(s, key)
    ensures Ascending(Insert(x, s, key), key)
  {
    var r := Insert(x, s, key);
    if s == [] || key(x) <= key(s[0]) {
      assert r[1..] == s;
    } else {
      InsertAscends(x, s[1..], key);
      assert r[1..] == Insert(x, s[1..], key);
    }
  }

  function SortBy<T>(s: seq<T>, key: T -> int): (r: seq<T>)
    ensures multiset(r) == multiset(s)
    ensures |r| == |s|
    ensures Ascending(r, key)
  {
    if s == [] then
      []
    else
      assert s == [s[0]] + s[1..];
      var rest := SortBy(s[1..], key);
      InsertAscends(s[0], rest, key);
      Insert(s[0], rest, key)
  }

  lemma {:induction false} AscendingAt<T>(s: seq<T>, key: T -> int, i: nat, j: nat)
    requires Ascending(s, key) && i <= j < |s|
    ensures key(s[i]) <= key(s[j])
  {
    if i > 0 {
      AscendingAt(s[1..], key, i - 1, j - 1);
    }
  }

  /** Sequences with equal multisets have the same members. */
  lemma SameMembers<T>(s: seq<T>, t: seq<T>)
    requires multiset(s) == multiset(t)
    ensures |s| == |t|
    ensures forall x | x in s :: x in t
    ensures forall x | x in t :: x in s
  {
    assert |s| == |multiset(s)| == |multiset(t)| == |t|;
    forall x | x in s ensures x in t { assert x in multiset(t); }
    forall x | x in t ensures x in s { assert x in multiset(s); }
  }

  lemma DropHead<T>(s: seq<T>)
    requires s != []
    ensures multiset(s[1..]) == multiset(s) - multiset{s[0]}
  {
    assert s == [s[0]] + s[1..];
  }

  /** Where the key is the element itself, an ascending arrangement is determined by the multiset. */
  lemma {:induction false} AscendingUnique(s: seq<nat>, t: seq<nat>, key: nat -> int)
    requires forall x :: key(x) == x
    requires Ascending(s, key) && Ascending(t, key)
    requires multiset(s) == multiset(t)
    ensures s == t
  {
    SameMembers(s, t);
    if s != [] {
      assert s[0] == t[0] by {
        assert s[0] in t && t[0] in s;
        assert key(s[0]) == s[0] && key(t[0]) == t[0];
      }
      DropHead(s);
      DropHead(t);
      AscendingUnique(s[1..], t[1..], key);
      assert s == [s[0]] + s[1..];
      assert t == [t[0]] + t[1..];
    }
  }

  ghost predicate Distinct<T>(s: seq<T>) {
    forall i, j | 0 <= i < j < |s| :: s[i] != s[j]
  }

  ghost function Members<T>(s: seq<T>): set<T> { set x | x in s }

  lemma {:induction false} DistinctBySize<T>(s: seq<T>)
    ensures |Members(s)| <= |s|
    ensures Distinct(s) <==> |Members(s)| == |s|
  {
    if s != [] {
      var x, rest := s[0], s[1..];
      DistinctBySize(rest);
      assert Members(s) == Members(rest) + {x};
      if x in Members(rest) {
        assert Members(s) == Members(rest);
        var j :| 0 <= j < |rest| && rest[j] == x;
        assert s[j + 1] == s[0];
      } else {
        assert forall j | 0 < j < |s| :: s[j] == rest[j - 1];
        assert Distinct(rest) ==> Distinct(s);
        assert Distinct(s) ==> Distinct(rest) by {
          assert forall j | 0 <= j < |rest| :: rest[j] == s[j + 1];
        }
      }
    }
  }

  /** A rearrangement repeats an element exactly when the original does. */
  lemma DistinctStays<T>(s: seq<T>, t: seq<T>)
    requires multiset(s) == multiset(t)
    ensures Distinct(s) <==> Distinct(t)
  {
    SameMembers(s, t);
    assert Members(s) == Members(t);
    DistinctBySize(s);
    DistinctBySize(t);
  }

  lemma SubsetSize<T>(a: set<T>, b: set<T>)
    requires a <= b
    ensures |a| <= |b| && (|a| == |b| ==> a == b)
  {
    assert b == a + (b - a);
    assert |b| == |a| + |b - a|;
  }

  lemma Regroup<T>(a: seq<T>, b: seq<T>, c: seq<T>)
    ensures a + (b + c) == a + b + c
  {
  }

  lemma HeadAndTail<T>(s: seq<T>)
    requires s != []
    ensures s == [s[0]] + s[1..]
  {
  }
}
