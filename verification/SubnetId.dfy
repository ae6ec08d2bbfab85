/**
 Subnet identifiers: a root network and the path of subnet actors below it, with the walks up and
 down along a path that route messages between subnets.
 */
module SubnetId {
  import opened Wrappers

  type Address = nat

  datatype SubnetId = SubnetId(root: nat, children: seq<Address>)

  function Parent(id: SubnetId): Option<SubnetId> {
    if id.children == [] then None else Some(SubnetId(id.root, id.children[..|id.children| - 1]))
  }

  /** How many leading elements two paths share. */
  function Common(a: seq<Address>, b: seq<Address>): (n: nat)
    ensures n <= |a| && n <= |b|
  {
    if a != [] && b != [] && a[0] == b[0] then 1 + Common(a[1..], b[1..]) else 0
  }

  function CommonParent(self: SubnetId, other: SubnetId): Option<(nat, SubnetId)> {
    if self.root != other.root then None
    else
      var common := Common(self.children, other.children);
      Some((common, SubnetId(self.root, self.children[..common])))
  }

  function Down(self: SubnetId, from: SubnetId): Option<SubnetId> {
    if |self.children| <= |from.children| then None
    else match CommonParent(self, from)
      case None => None
      case Some((i, _)) => Some(SubnetId(self.root, self.children[..i + 1]))
  }

  /** Where a step up leads; `Panic` is the underflow of an index. */
  datatype Step = Nowhere | To(id: SubnetId) | Panic

  function Up(self: SubnetId, from: SubnetId): Step {
    if |self.children| < |from.children| then Nowhere
    else match CommonParent(self, from)
      case None => Nowhere
      case Some((i, _)) => if i == 0 then Panic else To(SubnetId(self.root, self.children[..i - 1]))
  }

  /** `a` lies on the path of `b`, possibly at its end. */
  ghost predicate OnPath(a: SubnetId, b: SubnetId) {
    a.root == b.root && a.children <= b.children
  }

  lemma {:induction false} CommonIsPrefix(a: seq<Address>, b: seq<Address>)
    ensures var n := Common(a, b); a[..n] == b[..n] && (n < |a| && n < |b| ==> a[n] != b[n])
  {
    if a != [] && b != [] && a[0] == b[0] {
      CommonIsPrefix(a[1..], b[1..]);
      var n := Common(a[1..], b[1..]);
      assert a[..n + 1] == [a[0]] + a[1..][..n];
      assert b[..n + 1] == [b[0]] + b[1..][..n];
    }
  }

  lemma SamePrefixAt(a: seq<Address>, b: seq<Address>, n: nat, i: nat)
    requires n <= |a| && n <= |b| && a[..n] == b[..n]
    ensures i < n ==> a[i] == b[i]
  {
  }

  /** A count with a shared prefix of that length and a difference or an end after it is the common count. */
  lemma CommonUnique(a: seq<Address>, b: seq<Address>, n: nat)
    requires n <= |a| && n <= |b| && a[..n] == b[..n] && (n < |a| && n < |b| ==> a[n] != b[n])
    ensures Common(a, b) == n
  {
    CommonIsPrefix(a, b);
    var m := Common(a, b);
    SamePrefixAt(a, b, n, m);
    SamePrefixAt(a, b, m, n);
  }

  /** The common parent lies on both paths, every subnet on both paths lies on its path, and the order does not matter. */
  lemma CommonParentIsDeepest(a: SubnetId, b: SubnetId, c: SubnetId)
    requires a.root == b.root
    ensures CommonParent(a, b) == CommonParent(b, a)
    ensures CommonParent(a, b).Some?
    ensures var (n, p) := CommonParent(a, b).value; n == |p.children| && OnPath(p, a) && OnPath(p, b)
    ensures OnPath(c, a) && OnPath(c, b) ==> OnPath(c, CommonParent(a, b).value.1)
  {
    CommonIsPrefix(a.children, b.children);
    var n := Common(a.children, b.children);
    CommonUnique(b.children, a.children, n);
    if OnPath(c, a) && OnPath(c, b) {
      assert forall i | 0 <= i < |c.children| :: a.children[i] == c.children[i] && b.children[i] == c.children[i];
    }
  }

  lemma CommonWithAncestor(self: SubnetId, from: SubnetId)
    requires OnPath(from, self)
    ensures Common(self.children, from.children) == |from.children|
  {
    CommonUnique(self.children, from.children, |from.children|);
  }

  /** Wherever it starts, down goes to the child of the common parent on the path, exactly if the path is the deeper one. */
  lemma DownExactly(self: SubnetId, from: SubnetId)
    ensures Down(self, from).Some? <==> self.root == from.root && |self.children| > |from.children|
    ensures Down(self, from).Some? ==> var d := Down(self, from).value;
      OnPath(d, self) && Parent(d) == Some(CommonParent(self, from).value.1)
  {
    if Down(self, from).Some? {
      var n := Common(self.children, from.children);
      assert self.children[..n + 1][..n] == self.children[..n];
    }
  }

  /** Wherever it starts, up goes to the parent of the common parent, exactly if there is one and the path is no shallower. */
  lemma UpExactly(self: SubnetId, from: SubnetId)
    ensures Up(self, from).To? <==>
      && self.root == from.root && |self.children| >= |from.children|
      && Parent(CommonParent(self, from).value.1).Some?
    ensures Up(self, from).To? ==> Some(Up(self, from).id) == Parent(CommonParent(self, from).value.1)
  {
    if Up(self, from).To? {
      var n := Common(self.children, from.children);
      assert self.children[..n][..n - 1] == self.children[..n - 1];
    }
  }

  // ----- Walking a path ------------------------------------------------------------------------

  /** From a strict ancestor, down goes to the ancestor's child on the path. */
  lemma DownToChild(self: SubnetId, from: SubnetId)
    requires OnPath(from, self) && from != self
    ensures Down(self, from).Some?
    ensures var d := Down(self, from).value; OnPath(d, self) && Parent(d) == Some(from)
  {
    CommonWithAncestor(self, from);
    assert |from.children| < |self.children|;
    assert self.children[..|from.children| + 1][..|from.children|] == from.children;
  }

  /** From a subnet on the path below the root, up goes to its parent. */
  lemma UpToParent(self: SubnetId, from: SubnetId)
    requires OnPath(from, self) && from.children != []
    ensures Up(self, from).To? && Some(Up(self, from).id) == Parent(from)
  {
    CommonWithAncestor(self, from);
    var n := |from.children|;
    assert self.children[..n - 1] == from.children[..n - 1];
  }

  /** Down then up, and up then down, lead back. */
  lemma DownAndUpAreInverse(self: SubnetId, from: SubnetId)
    requires OnPath(from, self)
    ensures from != self ==> Down(self, from).Some? && Up(self, Down(self, from).value) == To(from)
    ensures from.children != [] ==> Up(self, from).To? && Down(self, Up(self, from).id) == Some(from)
  {
    if from != self {
      DownToChild(self, from);
      UpToParent(self, Down(self, from).value);
    }
    if from.children != [] {
      UpToParent(self, from);
      var p := Up(self, from).id;
      DownToChild(self, p);
      var d := Down(self, p).value;
      assert d.children == self.children[..|from.children|] == from.children;
    }
  }

  /** Going down step by step. */
  function WalkDown(self: SubnetId, from: SubnetId, steps: nat): Option<SubnetId> {
    if steps == 0 then Some(from)
    else match WalkDown(self, from, steps - 1)
      case None => None
      case Some(at) => Down(self, at)
  }

  /** The walk down passes each subnet of the path, arrives after exactly the difference in depth, and goes no further. */
  lemma {:induction false} WalkDownArrives(self: SubnetId, from: SubnetId, steps: nat)
    requires OnPath(from, self)
    ensures WalkDown(self, from, steps)
      == if |from.children| + steps <= |self.children|
         then Some(SubnetId(self.root, self.children[..|from.children| + steps])) else None
    ensures WalkDown(self, from, steps) == Some(self) <==> steps == |self.children| - |from.children|
  {
    if steps > 0 {
      WalkDownArrives(self, from, steps - 1);
      var depth := |from.children| + steps - 1;
      if depth <= |self.children| {
        var at := SubnetId(self.root, self.children[..depth]);
        assert OnPath(at, self);
        CommonWithAncestor(self, at);
      }
    } else {
      assert self.children[..|from.children|] == from.children;
    }
    assert self.children[..|self.children|] == self.children;
  }

  /** A step up panics exactly when it starts from the root or off the path's first child, no deeper than the path. */
  lemma UpPanicsExactly(self: SubnetId, from: SubnetId)
    ensures Up(self, from).Panic?
      <==> && self.root == from.root && |from.children| <= |self.children|
           && (from.children == [] || from.children[0] != self.children[0])
  {
  }

  lemma UpFromTheRootPanics(self: SubnetId)
    ensures Up(self, SubnetId(self.root, [])).Panic?
  {
  }

  // ----- Message directions --------------------------------------------------------------------

  datatype MsgType = BottomUp | TopDown

  predicate IsBottomUp(from: SubnetId, to: SubnetId) {
    match CommonParent(from, to)
    case None => false
    case Some((index, _)) => |from.children| > index
  }

  function IpcType(from: SubnetId, to: SubnetId): MsgType {
    if IsBottomUp(from, to) then BottomUp else TopDown
  }

  /** How a message from `from` to `to` is applied in `curr`. */
  function ApplyType(curr: SubnetId, from: SubnetId, to: SubnetId): MsgType {
    if CommonParent(curr, to) == CommonParent(from, to) && IpcType(from, to) == BottomUp then BottomUp else TopDown
  }

  /** A message goes up exactly when its source is not on the path of its destination. */
  lemma BottomUpExactly(from: SubnetId, to: SubnetId)
    ensures IsBottomUp(from, to) <==> from.root == to.root && !OnPath(from, to)
  {
    if from.root == to.root {
      CommonIsPrefix(from.children, to.children);
      var n := Common(from.children, to.children);
      if OnPath(from, to) {
        CommonWithAncestor(to, from);
        CommonParentIsDeepest(to, from, from);
      }
    }
  }

  /** On the route of a message that goes up: from its source to the common parent, both included. */
  ghost predicate OnTheWayUp(curr: SubnetId, from: SubnetId, to: SubnetId)
    requires from.root == to.root
  {
    OnPath(curr, from) && OnPath(CommonParent(from, to).value.1, curr)
  }

  /** And from below the common parent to its destination. */
  ghost predicate OnTheWayDown(curr: SubnetId, from: SubnetId, to: SubnetId)
    requires from.root == to.root
  {
    OnPath(curr, to) && !OnPath(curr, from)
  }

  /** A message that has to go up is applied as going up until the common parent, and as going down below it. */
  lemma TurnsAtTheCommonParent(curr: SubnetId, from: SubnetId, to: SubnetId)
    requires from.root == to.root && !OnPath(from, to)
    ensures OnTheWayUp(curr, from, to) ==> ApplyType(curr, from, to) == BottomUp
    ensures OnTheWayDown(curr, from, to) ==> ApplyType(curr, from, to) == TopDown
  {
    BottomUpExactly(from, to);
    CommonParentIsDeepest(from, to, curr);
    var (n, p) := CommonParent(from, to).value;
    CommonIsPrefix(from.children, to.children);
    if OnTheWayUp(curr, from, to) {
      if n < |curr.children| && n < |to.children| {
        assert curr.children[n] == from.children[n];
      }
      assert curr.children[..n] == p.children == to.children[..n];
      CommonUnique(curr.children, to.children, n);
    }
    if OnTheWayDown(curr, from, to) {
      CommonWithAncestor(to, curr);
      CommonParentIsDeepest(to, curr, curr);
    }
  }

  /** A message whose source is on its destination's path, or that leaves its root network, is never applied as going up. */
  lemma NeverUpOnThePath(curr: SubnetId, from: SubnetId, to: SubnetId)
    requires from.root != to.root || OnPath(from, to)
    ensures IpcType(from, to) == ApplyType(curr, from, to) == TopDown
  {
    BottomUpExactly(from, to);
  }

  /** In all cases: a message is applied as going up exactly if it has to go up and the subnet shares no more with the destination than its source does. */
  lemma ApplyTypeExactly(curr: SubnetId, from: SubnetId, to: SubnetId)
    ensures ApplyType(curr, from, to) == BottomUp
      <==> && from.root == to.root == curr.root && !OnPath(from, to)
           && |CommonParent(curr, to).value.1.children| == |CommonParent(from, to).value.1.children|
  {
    BottomUpExactly(from, to);
    if from.root == to.root == curr.root {
      CommonParentIsDeepest(curr, to, to);
      CommonParentIsDeepest(from, to, to);
      CommonIsPrefix(curr.children, to.children);
      CommonIsPrefix(from.children, to.children);
    }
  }
}
