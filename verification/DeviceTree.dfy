/** Enumerating the device tree through the child / peer / parent calls of Open Firmware. */
module DeviceTree {
  import opened Options
  import opened Lists

  /** A finite ordered forest: the first tree's root and children, and the trees after it. */
  datatype Forest = Nil | Cons(root: nat, kids: Forest, rest: Forest)

  /** The firmware calls, on handles; 0 is no node, and OF_peer(0) is the root. */
  datatype Firmware = Firmware(child: nat -> nat, peer: nat -> nat, parent: nat -> nat)

  function Preorder(f: Forest): seq<nat> {
    match f
    case Nil => []
    case Cons(h, kids, rest) => [h] + Preorder(kids) + Preorder(rest)
  }

  function Head(f: Forest): nat {
    if f == Nil then 0 else f.root
  }

  /** The calls answer as the forest says; `up` is the parent of its roots. */
  predicate Answers(fw: Firmware, f: Forest, up: nat) {
    match f
    case Nil => true
    case Cons(h, kids, rest) =>
      h != 0 && fw.child(h) == Head(kids) && fw.peer(h) == Head(rest) && fw.parent(h) == up
      && Answers(fw, kids, h) && Answers(fw, rest, up)
  }

  /** A device tree: one root, distinct handles. */
  ghost predicate IsTree(fw: Firmware, f: Forest) {
    f.Cons? && f.rest == Nil && fw.peer(0) == f.root && Answers(fw, f, 0) && Distinct(Preorder(f))
  }

  // ---- Where a node and its subtree stand in preorder ----

  function Pos(f: Forest, h: nat): (i: nat)
    requires h in Preorder(f)
    ensures i < |Preorder(f)| && Preorder(f)[i] == h
  {
    if h == f.root then 0
    else if h in Preorder(f.kids) then 1 + Pos(f.kids, h)
    else 1 + |Preorder(f.kids)| + Pos(f.rest, h)
  }

  /** Just past the node's subtree. */
  function EndOf(f: Forest, h: nat): (i: nat)
    requires h in Preorder(f)
    ensures Pos(f, h) < i <= |Preorder(f)|
  {
    if h == f.root then 1 + |Preorder(f.kids)|
    else if h in Preorder(f.kids) then 1 + EndOf(f.kids, h)
    else 1 + |Preorder(f.kids)| + EndOf(f.rest, h)
  }

  lemma DistinctParts(f: Forest)
    requires f.Cons? && Distinct(Preorder(f))
    ensures Distinct(Preorder(f.kids)) && Distinct(Preorder(f.rest))
    ensures f.root !in Preorder(f.kids) && f.root !in Preorder(f.rest)
    ensures forall h :: h in Preorder(f.kids) ==> h !in Preorder(f.rest)
  {
    DistinctConcat(f.root, Preorder(f.kids), Preorder(f.rest));
  }

  lemma DistinctConcat(h: nat, k: seq<nat>, r: seq<nat>)
    requires Distinct([h] + k + r)
    ensures Distinct(k) && Distinct(r) && h !in k && h !in r && forall x :: x in k ==> x !in r
  {
    var p := [h] + k + r;
    assert p[0] == h;
    assert forall i :: 0 <= i < |k| ==> p[1 + i] == k[i];
    assert forall i :: 0 <= i < |r| ==> p[1 + |k| + i] == r[i];
  }

  /** A node without children is followed by what comes after its subtree; one with children by the
      first of them. */
  ghost predicate ChildFits(fw: Firmware, f: Forest, h: nat)
    requires h in Preorder(f)
  {
    if fw.child(h) == 0 then EndOf(f, h) == Pos(f, h) + 1
    else Pos(f, h) + 1 < |Preorder(f)| && Preorder(f)[Pos(f, h) + 1] == fw.child(h)
  }

  lemma {:induction false} ChildIsNext(fw: Firmware, f: Forest, up: nat, h: nat)
    requires Answers(fw, f, up) && h in Preorder(f) && Distinct(Preorder(f))
    ensures ChildFits(fw, f, h)
  {
    hide Distinct, Preorder;
    PreorderNil();
    DistinctParts(f);
    PreorderParts(f);
    if h == f.root {
      if f.kids.Cons? {
        PreorderParts(f.kids);
      }
    } else if h in Preorder(f.kids) {
      ChildIsNext(fw, f.kids, f.root, h);
    } else {
      ChildIsNext(fw, f.rest, up, h);
    }
  }

  lemma PreorderNil()
    ensures Preorder(Nil) == []
  {}

  /** What of_next_node relies on when it walks up: a node's peer comes right after its subtree; a last
      sibling's subtree ends where its parent's does. */
  ghost predicate PeerFits(fw: Firmware, f: Forest, up: nat, h: nat)
    requires h in Preorder(f)
  {
    if fw.peer(h) != 0 then EndOf(f, h) < |Preorder(f)| && Preorder(f)[EndOf(f, h)] == fw.peer(h)
    else if fw.parent(h) == up then EndOf(f, h) == |Preorder(f)|
    else fw.parent(h) in Preorder(f) && Pos(f, fw.parent(h)) < Pos(f, h) && EndOf(f, fw.parent(h)) == EndOf(f, h)
  }

  lemma PeerInKids(fw: Firmware, f: Forest, up: nat, h: nat)
    requires f.Cons? && h in Preorder(f.kids) && PeerFits(fw, f.kids, f.root, h)
    requires f.root !in Preorder(f.kids) && up !in Preorder(f)
    ensures PeerFits(fw, f, up, h)
  {
    hide Preorder;
    PreorderParts(f);
  }

  lemma PeerInRest(fw: Firmware, f: Forest, up: nat, h: nat)
    requires f.Cons? && h in Preorder(f.rest) && PeerFits(fw, f.rest, up, h)
    requires f.root !in Preorder(f.rest) && forall x :: x in Preorder(f.kids) ==> x !in Preorder(f.rest)
    ensures PeerFits(fw, f, up, h)
  {
    hide Preorder;
    PreorderParts(f);
  }

  lemma PreorderParts(f: Forest)
    requires f.Cons?
    ensures Preorder(f) == [f.root] + Preorder(f.kids) + Preorder(f.rest)
  {}

  lemma {:induction false} PeerIsAfter(fw: Firmware, f: Forest, up: nat, h: nat)
    requires Answers(fw, f, up) && h in Preorder(f) && Distinct(Preorder(f)) && up !in Preorder(f)
    ensures PeerFits(fw, f, up, h)
  {
    DistinctParts(f);
    if h == f.root {
      assert f.rest.Cons? ==> Preorder(f.rest)[0] == f.rest.root;
    } else if h in Preorder(f.kids) {
      PeerIsAfter(fw, f.kids, f.root, h);
      PeerInKids(fw, f, up, h);
    } else {
      PeerIsAfter(fw, f.rest, up, h);
      PeerInRest(fw, f, up, h);
    }
  }

  lemma {:induction false} NoZero(fw: Firmware, f: Forest, up: nat)
    requires Answers(fw, f, up)
    ensures 0 !in Preorder(f)
  {
    if f.Cons? {
      NoZero(fw, f.kids, f.root);
      NoZero(fw, f.rest, up);
    }
  }

  /** The handle at a position of the enumeration, 0 past its end. */
  function At(order: seq<nat>, i: nat): nat {
    if i < |order| then order[i] else 0
  }

  /** Where the enumeration goes on after a node; from 0 it begins. */
  function After(f: Forest, node: nat): nat
    requires node == 0 || node in Preorder(f)
  {
    if node == 0 then 0 else Pos(f, node) + 1
  }

  lemma TreeStart(fw: Firmware, f: Forest)
    requires IsTree(fw, f)
    ensures Preorder(f) != [] && Preorder(f)[0] == fw.peer(0)
  {}

  /** of_next_node: the next handle in preorder, 0 after the last one. */
  method NextNode(fw: Firmware, ghost f: Forest, node: nat) returns (n: nat)
    requires IsTree(fw, f) && (node == 0 || node in Preorder(f))
    ensures n == At(Preorder(f), After(f, node))
  {
    hide Preorder, Pos, EndOf, Answers, Distinct;
    NoZero(fw, f, 0);
    if node == 0 {
      TreeStart(fw, f);
      return fw.peer(0);
    }
    ChildIsNext(fw, f, 0, node);
    if fw.child(node) != 0 {
      return fw.child(node);
    }
    var up := node;
    while up != 0
      invariant up != 0 ==> up in Preorder(f) && EndOf(f, up) == Pos(f, node) + 1
      invariant up == 0 ==> Pos(f, node) + 1 == |Preorder(f)|
      decreases if up == 0 then 0 else 1 + Pos(f, up)
    {
      PeerIsAfter(fw, f, 0, up);
      if fw.peer(up) != 0 {
        return fw.peer(up);
      }
      up := fw.parent(up);
    }
    return 0;
  }

  /** Iterating of_next_node from 0 visits every node exactly once, in preorder, and then stops. */
  method Enumerate(fw: Firmware, ghost f: Forest) returns (visited: seq<nat>)
    requires IsTree(fw, f)
    ensures visited == Preorder(f)
  {
    NoZero(fw, f, 0);
    visited := [];
    var node := NextNode(fw, f, 0);
    while node != 0
      invariant |visited| <= |Preorder(f)| && visited == Preorder(f)[..|visited|]
      invariant node == At(Preorder(f), |visited|)
      decreases |Preorder(f)| - |visited|
    {
      PosUnique(f, node, |visited|);
      visited := visited + [node];
      node := NextNode(fw, f, node);
    }
  }

  lemma PosUnique(f: Forest, h: nat, i: nat)
    requires Distinct(Preorder(f)) && i < |Preorder(f)| && Preorder(f)[i] == h
    ensures Pos(f, h) == i
  {
  }

  // ---- Searching ----

  /** The handles from position i on that are accepted, in order. */
  function Accepted(order: seq<nat>, accepts: nat -> bool, i: nat): seq<nat>
    requires i <= |order|
    decreases |order| - i
  {
    if i == |order| then []
    else (if accepts(order[i]) then [order[i]] else []) + Accepted(order, accepts, i + 1)
  }

  /** of_find_compatible_node, given whether the result can be allocated: the first accepted node after
      `from`. */
  method FindCompatible(fw: Firmware, ghost f: Forest, from: nat, accepts: nat -> bool, memory: bool)
    returns (r: Option<nat>)
    requires IsTree(fw, f) && (from == 0 || from in Preorder(f))
    ensures var rest := Accepted(Preorder(f), accepts, After(f, from));
      r == if rest == [] || !memory then None else Some(rest[0])
    ensures r.Some? ==> r.value in Preorder(f) && r.value != 0
    ensures r.Some? ==>
      Accepted(Preorder(f), accepts, After(f, from))[1..] == Accepted(Preorder(f), accepts, After(f, r.value))
    ensures r.Some? ==> After(f, from) < After(f, r.value)
  {
    hide Preorder, Pos, EndOf, Answers;
    NoZero(fw, f, 0);
    var node := NextNode(fw, f, from);
    ghost var i := After(f, from);
    while node != 0
      invariant After(f, from) <= i <= |Preorder(f)| && node == At(Preorder(f), i)
      invariant Accepted(Preorder(f), accepts, i) == Accepted(Preorder(f), accepts, After(f, from))
      decreases |Preorder(f)| - i
    {
      PosUnique(f, node, i);
      if accepts(node) {
        return if memory then Some(node) else None;
      }
      i := i + 1;
      node := NextNode(fw, f, node);
    }
    return None;
  }

  /** Some entry of a match table names the node. */
  predicate Matches(table: seq<nat -> bool>, node: nat) {
    exists i :: 0 <= i < |table| && table[i](node)
  }

  function Named(table: seq<nat -> bool>): nat -> bool {
    (n: nat) => Matches(table, n)
  }

  // Its inner loop: the first entry of the table that names the node.
  method FirstNaming(table: seq<nat -> bool>, node: nat) returns (k: nat)
    ensures k <= |table| && (k < |table| <==> Matches(table, node))
    ensures !Matches(table[..k], node) && (k < |table| ==> table[k](node))
  {
    k := 0;
    while k < |table|
      invariant k <= |table| && !Matches(table[..k], node)
    {
      if table[k](node) {
        return;
      }
      k := k + 1;
    }
    assert table[..k] == table;
  }

  /** of_find_matching_node_and_match: the first node after `from` that the table names, and the first
      entry that names it. */
  method FindMatching(fw: Firmware, ghost f: Forest, from: nat, table: seq<nat -> bool>, memory: bool)
    returns (r: Option<nat>, id: Option<nat>)
    requires IsTree(fw, f) && (from == 0 || from in Preorder(f))
    ensures var rest := Accepted(Preorder(f), Named(table), After(f, from));
      r == if rest == [] || !memory then None else Some(rest[0])
    ensures r.Some? <==> id.Some?
    ensures r.Some? ==> id.value < |table| && table[id.value](r.value) && !Matches(table[..id.value], r.value)
  {
    hide Preorder, Pos, EndOf, Answers;
    NoZero(fw, f, 0);
    var node := NextNode(fw, f, from);
    ghost var i := After(f, from);
    ghost var accepts := Named(table);
    while node != 0
      invariant After(f, from) <= i <= |Preorder(f)| && node == At(Preorder(f), i)
      invariant Accepted(Preorder(f), accepts, i) == Accepted(Preorder(f), accepts, After(f, from))
      decreases |Preorder(f)| - i
    {
      PosUnique(f, node, i);
      var k := FirstNaming(table, node);
      if k < |table| {
        assert accepts(node);
        if !memory {
          return None, None;
        }
        return Some(node), Some(k);
      }
      assert !accepts(node);
      i := i + 1;
      node := NextNode(fw, f, node);
    }
    return None, None;
  }

  /** Repeated of_find_compatible_node calls return exactly the compatible nodes, in preorder. */
  method FindAll(fw: Firmware, ghost f: Forest, accepts: nat -> bool) returns (found: seq<nat>)
    requires IsTree(fw, f)
    ensures found == Accepted(Preorder(f), accepts, 0)
  {
    hide Preorder, Pos, EndOf, Answers, Accepted;
    found := [];
    var from := 0;
    var r := FindCompatible(fw, f, from, accepts, true);
    while r.Some?
      invariant from == 0 || from in Preorder(f)
      invariant found + Accepted(Preorder(f), accepts, After(f, from)) == Accepted(Preorder(f), accepts, 0)
      invariant var rest := Accepted(Preorder(f), accepts, After(f, from));
        r == if rest == [] then None else Some(rest[0])
      invariant r.Some? ==> r.value in Preorder(f) && After(f, from) < After(f, r.value)
      invariant r.Some? ==>
        Accepted(Preorder(f), accepts, After(f, from))[1..] == Accepted(Preorder(f), accepts, After(f, r.value))
      decreases |Preorder(f)| - After(f, from)
    {
      ghost var rest := Accepted(Preorder(f), accepts, After(f, from));
      assert rest == [r.value] + rest[1..];
      found := found + [r.value];
      from := r.value;
      r := FindCompatible(fw, f, from, accepts, true);
    }
  }
}
