/** The binary trie behind longest-prefix-match tables: common/pof_tree.c. */
module Trie {
  import opened Bits
  import opened Bitfield

  const TOP: byte := [true, false, false, false, false, false, false, false]  // 0x80

  /** moveLeft: the bytes holding the next bitNum bits lose their first bit and end with a zero. */
  method MoveLeft(value: array<byte>, bitNum: nat)
    requires bitNum <= 8 * value.Length
    modifies value
    ensures bitNum == 0 ==> value[..] == old(value[..])
    ensures bitNum > 0 ==>
      var m := 8 * CeilBytes(bitNum);
      BitsOf(value[..]) == old(BitsOf(value[..]))[1..m] + [false] + old(BitsOf(value[..]))[m..]
  {
    if bitNum == 0 {
      return;
    }
    ghost var was := value[..];
    var n := CeilBytes(bitNum);
    var i := 0;
    while i < n - 1
      invariant 0 <= i <= n - 1
      invariant forall k :: 0 <= k < i ==> value[k] == Or(MoveBitLeft(was[k], 1), MoveBitRight(was[k + 1], 7))
      invariant forall k :: i <= k < value.Length ==> value[k] == was[k]
    {
      value[i] := Or(MoveBitLeft(value[i], 1), MoveBitRight(value[i + 1], 7));
      i := i + 1;
    }
    value[i] := MoveBitLeft(value[i], 1);
    ShiftedLeft(was, value[..], n, 8 * n);
  }

  lemma ShiftedLeft(was: seq<byte>, now: seq<byte>, n: nat, m: nat)
    requires 0 < n <= |was| == |now| && m == 8 * n
    requires forall k :: 0 <= k < n - 1 ==> now[k] == Or(MoveBitLeft(was[k], 1), MoveBitRight(was[k + 1], 7))
    requires now[n - 1] == MoveBitLeft(was[n - 1], 1) && forall k :: n <= k < |was| ==> now[k] == was[k]
    ensures BitsOf(now) == BitsOf(was)[1..m] + [false] + BitsOf(was)[m..]
  {
    var r := BitsOf(was)[1..m] + [false] + BitsOf(was)[m..];
    forall j | 0 <= j < 8 * |was|
      ensures BitsOf(now)[j] == r[j]
    {
      ShiftedBit(was, now, n, j);
    }
  }

  lemma ShiftedBit(was: seq<byte>, now: seq<byte>, n: nat, j: nat)
    requires 0 < n <= |was| == |now| && j < 8 * |was|
    requires forall k :: 0 <= k < n - 1 ==> now[k] == Or(MoveBitLeft(was[k], 1), MoveBitRight(was[k + 1], 7))
    requires now[n - 1] == MoveBitLeft(was[n - 1], 1) && forall k :: n <= k < |was| ==> now[k] == was[k]
    ensures BitsOf(now)[j] ==
            if j < 8 * n - 1 then BitsOf(was)[j + 1] else if j == 8 * n - 1 then false else BitsOf(was)[j]
  {
    var k, r := j / 8, j % 8;
    assert j == 8 * k + r;
    BitsOfAt(now, k, r);
    BitsOfAt(was, k, r);
    if k < n {
      LeftByOne(was[k], if k < n - 1 then was[k + 1] else ZERO);
      if r < 7 { BitsOfAt(was, k, r + 1); } else if k < n - 1 { BitsOfAt(was, k + 1, 0); }
    }
  }

  lemma LeftByOne(a: byte, b: byte)
    ensures MoveBitLeft(a, 1) == a[1..] + [false]
    ensures Or(MoveBitLeft(a, 1), MoveBitRight(b, 7)) == a[1..] + [b[0]]
  {}

  /** toLeft: the first bit is clear. */
  predicate ToLeft(value: seq<byte>)
    requires |value| > 0
  {
    And(value[0], TOP) != TOP
  }

  lemma ToLeftIsFirstBit(value: seq<byte>)
    requires |value| > 0
    ensures ToLeft(value) <==> !BitsOf(value)[0]
  {
    BitsOfAt(value, 0, 0);
    assert And(value[0], TOP)[0] == value[0][0];
    if value[0][0] { assert And(value[0], TOP) == TOP; }
  }

  /** The way from the root to a node: false to the left son, true to the right son. */
  type Path = seq<bool>

  /** One step down from a node. */
  function Down(p: Path, right: bool): Path {
    p + [right]
  }

  datatype Ptr<P> = Null | Ptr(value: P)

  class TreeNode<P> {
    var ptr: Ptr<P>
    var leftSon: TreeNode?<P>
    var rightSon: TreeNode?<P>
    ghost var path: Path

    constructor (ghost path: Path)
      ensures ptr.Null? && leftSon == null && rightSon == null && this.path == path
    {
      this.path := path;
      ptr := Null;
      leftSon := null;
      rightSon := null;
    }

    function Son(right: bool): TreeNode?<P>
      reads this
    {
      if right then rightSon else leftSon
    }

    /** Setting one of the two links. */
    method Link(right: bool, son: TreeNode?<P>)
      modifies this
      ensures Son(right) == son && Son(!right) == old(Son(!right)) && ptr == old(ptr) && path == old(path)
    {
      if right { rightSon := son; } else { leftSon := son; }
    }

    predicate IsLeaf()
      reads this
    {
      leftSon == null && rightSon == null
    }
  }

  /** How far a walk along the key has come: rest bits are left, and they stand in front of the value. */
  ghost predicate Walking(value: seq<byte>, rest: nat, key: Path) {
    rest <= 8 * |value| && rest <= |key| && forall i :: 0 <= i < rest ==> BitsOf(value)[i] == key[|key| - rest + i]
  }

  /** Taking the next bit off the front of a walked value: which son it names, and the shift. Behind less than a
      byte of the key follow the bits that were behind it. */
  method NextBit(value: array<byte>, rest: nat, ghost key: Path) returns (right: bool)
    requires 0 < rest && Walking(value[..], rest, key)
    modifies value
    ensures right == key[|key| - rest] && Walking(value[..], rest - 1, key)
    ensures rest <= 8 ==> BitsOf(value[..])[rest - 1] == (rest < 8 && old(BitsOf(value[..]))[rest])
  {
    ToLeftIsFirstBit(value[..]);
    right := !ToLeft(value[..]);
    MoveLeft(value, rest);
  }

  /** The stored entry with the longest path among the first n prefixes of key. */
  function LongestPrefix<P>(c: map<Path, P>, key: Path, n: nat): Ptr<P>
    requires n <= |key|
  {
    if key[..n] in c then Ptr(c[key[..n]])
    else if n == 0 then Null
    else LongestPrefix(c, key, n - 1)
  }

  /** The same among the prefixes shorter than n bits. */
  function LongestBelow<P>(c: map<Path, P>, key: Path, n: nat): Ptr<P>
    requires n <= |key|
  {
    if n == 0 then Null else LongestPrefix(c, key, n - 1)
  }

  class Tree<P> {
    var root: TreeNode<P>
    var count: nat
    ghost var nodes: map<Path, TreeNode<P>>  // every node under its path
    ghost var Repr: set<TreeNode<P>>         // the memory of the trie: every node it has or had
    ghost var contents: map<Path, P>         // what the trie stores: each non-null ptr under its node's path

    ghost function NodeAt(p: Path): TreeNode?<P>
      reads this
    {
      if p in nodes then nodes[p] else null
    }

    ghost predicate Valid()
      reads this, Repr
    {
      && (forall p: Path | p in nodes :: nodes[p] in Repr)
      && [] in nodes && nodes[[]] == root
      && (forall p: Path, b: bool {:trigger nodes[p].Son(b)} {:trigger Down(p, b)} | p in nodes ::
            nodes[p].Son(b) == NodeAt(Down(p, b)))
      && (forall p: Path | p in nodes :: nodes[p].path == p)
      && (forall p: Path, b: bool {:trigger Down(p, b)} :: Down(p, b) in nodes ==> p in nodes)
      && (forall p: Path :: p in contents <==> p in nodes && nodes[p].ptr.Ptr?)
      && (forall p: Path | p in contents :: contents[p] == nodes[p].ptr.value)
      && count < 0x1_0000_0000
    }

    constructor ()
      ensures Valid() && contents == map[] && count == 0 && forall n: nat :: DepthAtMost(n)
      ensures fresh(Repr)
    {
      var n := new TreeNode<P>([]);
      root := n;
      count := 0;
      nodes := map[[] := n];
      Repr := {n};
      contents := map[];
    }

    /** No path is longer than a key. */
    ghost predicate DepthAtMost(n: nat)
      reads this
    {
      forall q: Path :: q in nodes ==> |q| <= n
    }

    /** Creating the missing son of the node at a path. */
    method AddSon(node: TreeNode<P>, right: bool, ghost path: Path) returns (son: TreeNode<P>)
      requires Valid() && path in nodes && nodes[path] == node && node.Son(right) == null
      modifies this`nodes, this`Repr, node
      ensures Valid() && fresh(son) && nodes == old(nodes)[Down(path, right) := son] && Repr == old(Repr) + {son}
    {
      ghost var q := Down(path, right);
      son := new TreeNode<P>(q);
      node.Link(right, son);
      nodes, Repr := nodes[q := son], Repr + {son};
      forall p: Path, b: bool
        ensures Down(p, b) == q ==> p == path && b == right
        ensures p in nodes ==> nodes[p].Son(b) == NodeAt(Down(p, b))
      {
        SnocInjective(p, b, path, right);
        assert old(node.Son(b)) == old(NodeAt(Down(path, b)));
      }
    }

    /** One iteration of the insertion loop: down to the son that the next bit names, created if missing. */
    method DescendOrCreate(node: TreeNode<P>, value: array<byte>, rest: nat, ghost key: Path, ghost k: nat)
      returns (next: TreeNode<P>)
      requires Valid() && 0 < rest && k == |key| - rest
      requires Walking(value[..], rest, key) && NodeAt(key[..k]) == node
      modifies this`nodes, this`Repr, node, value
      ensures Valid() && (forall x :: x in Repr ==> x in old(Repr) || fresh(x))
      ensures forall q: Path :: q in nodes ==> q in old(nodes) || |q| <= k + 1
      ensures Walking(value[..], rest - 1, key) && NodeAt(key[..k + 1]) == next
    {
      var right := NextBit(value, rest, key);
      assert key[..k + 1] == Down(key[..k], right);
      var son := node.Son(right);
      if son == null {
        next := AddSon(node, right, key[..k]);
      } else {
        next := son;
      }
    }

    /** The insertion loop: the node at the path of the first bitNum bits, with any missing nodes created. */
    method ReachOrCreate(value: array<byte>, bitNum: nat, ghost key: Path) returns (node: TreeNode<P>)
      requires Valid() && bitNum <= 8 * value.Length && BitsOf(value[..])[..bitNum] == key
      modifies this`nodes, this`Repr, Repr, value
      ensures Valid() && (forall x :: x in Repr ==> x in old(Repr) || fresh(x)) && NodeAt(key) == node
      ensures forall q: Path :: q in nodes ==> q in old(nodes) || |q| <= bitNum
    {
      node := root;
      var rest: nat := bitNum;
      ghost var k := 0;
      while rest > 0
        invariant Valid() && (forall x :: x in Repr ==> x in old(Repr) || fresh(x))
        invariant forall q: Path :: q in nodes ==> q in old(nodes) || |q| <= bitNum
        invariant k == bitNum - rest && Walking(value[..], rest, key) && NodeAt(key[..k]) == node
      {
        node := DescendOrCreate(node, value, rest, key, k);
        rest := rest - 1;
        k := k + 1;
      }
      assert key[..bitNum] == key;
    }

    method ChangeCount(change: int)
      requires Valid()
      modifies this`count
      ensures Valid() && count == (old(count) + change) % 0x1_0000_0000
    {
      count := (count + change) % 0x1_0000_0000;
    }

    method SetPtr(node: TreeNode<P>, p: P, ghost key: Path)
      requires Valid() && NodeAt(key) == node
      modifies this`contents, node`ptr
      ensures Valid() && contents == old(contents)[key := p]
    {
      node.ptr := Ptr(p);
      contents := contents[key := p];
    }

    /** tree_nodeInsert. */
    method NodeInsert(p: P, value: array<byte>, bitNum: nat)
      requires Valid()
      requires bitNum <= 8 * value.Length
      modifies this, Repr, value
      ensures Valid() && (forall x :: x in Repr ==> x in old(Repr) || fresh(x)) && root == old(root)
      ensures contents == old(contents)[old(BitsOf(value[..])[..bitNum]) := p]
      ensures forall n: nat :: bitNum <= n && old(DepthAtMost(n)) ==> DepthAtMost(n)
      ensures count == (old(count) + 1) % 0x1_0000_0000
    {
      ghost var key := BitsOf(value[..])[..bitNum];
      var node := ReachOrCreate(value, bitNum, key);
      SetPtr(node, p, key);
      ChangeCount(1);
    }

    /** One iteration of the deletion and lookup walks: down to the son that the next bit names, if there is one. */
    method Descend(node: TreeNode<P>, value: array<byte>, rest: nat, ghost key: Path, ghost k: nat)
      returns (next: TreeNode?<P>, right: bool)
      requires Valid() && 0 < rest && k == |key| - rest
      requires Walking(value[..], rest, key) && NodeAt(key[..k]) == node
      modifies value
      ensures right == key[k] && Walking(value[..], rest - 1, key) && next == NodeAt(key[..k + 1])
      ensures rest <= 8 ==> BitsOf(value[..])[rest - 1] == (rest < 8 && old(BitsOf(value[..]))[rest])
    {
      right := NextBit(value, rest, key);
      assert key[..k + 1] == Down(key[..k], right);
      next := node.Son(right);
    }

    /** The deletion walk: the node at the path of the first bitNum bits, if any, and the link that leads to it. */
    method FindWithParent(value: array<byte>, bitNum: nat, ghost key: Path)
      returns (node: TreeNode?<P>, parent: TreeNode<P>, fromRight: bool)
      requires Valid() && bitNum <= 8 * value.Length && BitsOf(value[..])[..bitNum] == key
      modifies value
      ensures node == NodeAt(key)
      ensures node != null && bitNum > 0 ==>
        fromRight == key[bitNum - 1] && NodeAt(key[..bitNum - 1]) == parent
    {
      node, parent, fromRight := root, root, false;
      var rest: nat := bitNum;
      ghost var k := 0;
      while rest > 0
        invariant node != null && k == bitNum - rest && Walking(value[..], rest, key) && NodeAt(key[..k]) == node
        invariant k > 0 ==> fromRight == key[k - 1] && NodeAt(key[..k - 1]) == parent
      {
        parent := node;
        node, fromRight := Descend(parent, value, rest, key, k);
        rest := rest - 1;
        k := k + 1;
        if node == null {
          NoNodeAt(key, k);
          return;
        }
      }
      assert key[..k] == key;
    }

    /** Paths are closed under prefixes. */
    lemma {:induction false} NoNodeBelow(p: Path, key: Path)
      requires Valid() && p <= key && p !in nodes
      ensures key !in nodes
      decreases |key|
    {
      if p != key {
        var up := key[..|key| - 1];
        NoNodeBelow(p, up);
        assert key == Down(up, key[|key| - 1]);
      }
    }

    lemma NoNodeAt(key: Path, k: nat)
      requires Valid() && k <= |key| && NodeAt(key[..k]) == null
      ensures NodeAt(key) == null
    {
      NoNodeBelow(key[..k], key);
    }

    /** Freeing a leaf and clearing the link to it. */
    method RemoveLeaf(node: TreeNode<P>, parent: TreeNode<P>, right: bool, ghost key: Path)
      requires Valid() && NodeAt(key) == node && key !in contents && node.IsLeaf() && node != root && key != []
      requires right == key[|key| - 1] && NodeAt(key[..|key| - 1]) == parent
      modifies this`nodes, parent
      ensures Valid() && nodes == old(nodes) - {key}
    {
      ghost var up := key[..|key| - 1];
      assert key == Down(up, right);
      parent.Link(right, null);
      nodes := nodes - {key};
      forall p: Path, b: bool
        ensures Down(p, b) == key ==> p == up && b == right
        ensures p in nodes ==> nodes[p].Son(b) == NodeAt(Down(p, b))
        ensures Down(p, b) in nodes ==> p in nodes
      {
        SnocInjective(p, b, up, right);
        assert old(node.Son(b)) == old(NodeAt(Down(key, b)));
        assert old(parent.Son(b)) == old(NodeAt(Down(up, b)));
      }
    }

    method ClearPtr(node: TreeNode<P>, ghost key: Path)
      requires Valid() && NodeAt(key) == node
      modifies this`contents, node`ptr
      ensures Valid() && contents == old(contents) - {key}
    {
      node.ptr := Null;
      contents := contents - {key};
    }

    /** tree_nodeDelete. A walk that leaves the trie changes nothing; otherwise the node loses its ptr, and the node
        itself goes too when it is a leaf below the root. Interior nodes without a ptr stay. */
    method NodeDelete(value: array<byte>, bitNum: nat) returns (ok: bool)
      requires Valid()
      requires bitNum <= 8 * value.Length
      modifies this, Repr, value
      ensures Valid() && Repr == old(Repr) && root == old(root)
      ensures ok <==> old(BitsOf(value[..])[..bitNum]) in old(nodes)
      ensures contents == old(contents) - {old(BitsOf(value[..])[..bitNum])}
      ensures forall n: nat :: old(DepthAtMost(n)) ==> DepthAtMost(n)
      ensures count == if ok then (old(count) - 1) % 0x1_0000_0000 else old(count)
    {
      ghost var key := BitsOf(value[..])[..bitNum];
      var node, parent, fromRight := FindWithParent(value, bitNum, key);
      if node == null {
        return false;
      }
      ClearPtr(node, key);
      if node.IsLeaf() && node != root {
        RemoveLeaf(node, parent, fromRight, key);
      }
      ChangeCount(-1);
      ok := true;
    }

    /** One iteration of the lookup walk: it keeps the last ptr it passes. */
    method Visit(node: TreeNode<P>, p: Ptr<P>, value: array<byte>, rest: nat, ghost key: Path, ghost k: nat)
      returns (p': Ptr<P>, next: TreeNode?<P>)
      requires Valid() && 0 < rest && k == |key| - rest
      requires Walking(value[..], rest, key) && NodeAt(key[..k]) == node && p == LongestBelow(contents, key, k)
      modifies value
      ensures Walking(value[..], rest - 1, key) && next == NodeAt(key[..k + 1])
      ensures p' == LongestBelow(contents, key, k + 1)
      ensures rest <= 8 ==> BitsOf(value[..])[rest - 1] == (rest < 8 && old(BitsOf(value[..]))[rest])
    {
      p' := if node.ptr != Null then node.ptr else p;
      var right;
      next, right := Descend(node, value, rest, key, k);
    }

    /** tree_nodeLookup: the walk follows the key's bits. It ends below the key's last bit at the latest, provided the
        node at the key itself has no son where the bit left in front of the value then leads. */
    method NodeLookup(value: array<byte>, bitNum: nat) returns (p: Ptr<P>)
      requires Valid() && 0 < value.Length && bitNum <= 8 * value.Length
      requires var key, stray := BitsOf(value[..])[..bitNum], bitNum < 8 && BitsOf(value[..])[bitNum];
        key in nodes ==> nodes[key].Son(stray) == null
      modifies value
      ensures p == LongestPrefix(contents, old(BitsOf(value[..])[..bitNum]), bitNum)
    {
      ghost var key, stray := BitsOf(value[..])[..bitNum], bitNum < 8 && BitsOf(value[..])[bitNum];
      p := Null;
      var node: TreeNode?<P> := root;
      var rest: nat := bitNum;
      ghost var k := 0;
      while node != null && rest > 0
        invariant k == bitNum - rest && Walking(value[..], rest, key) && node == NodeAt(key[..k])
        invariant p == LongestBelow(contents, key, k)
        invariant rest < 8 ==> BitsOf(value[..])[rest] == stray
        decreases rest
      {
        p, node := Visit(node, p, value, rest, key, k);
        rest := rest - 1;
        k := k + 1;
      }
      ToLeftIsFirstBit(value[..]);
      assert key[..bitNum] == key;
      p := LastVisit(node, p, !ToLeft(value[..]), key, k);
    }

    /** The end of the lookup walk. At the node of a key that is used up, one more iteration takes the node's ptr and
        finds no son. */
    method LastVisit(node: TreeNode?<P>, p: Ptr<P>, right: bool, ghost key: Path, ghost k: nat) returns (p': Ptr<P>)
      requires Valid() && k <= |key| && node == NodeAt(key[..k]) && p == LongestBelow(contents, key, k)
      requires node == null ==> k > 0
      requires node != null ==> key[..k] == key && node.Son(right) == null
      ensures p' == LongestPrefix(contents, key, |key|)
    {
      if node == null {
        NothingLonger(k, key, |key|);
        return p;
      }
      p' := if node.ptr != Null then node.ptr else p;
      assert node.Son(right) == null;
    }

    /** Below a path without a node no prefix is stored. */
    lemma {:induction false} NothingLonger(k: nat, key: Path, n: nat)
      requires Valid() && 0 < k <= |key| && k - 1 <= n <= |key| && key[..k] !in nodes
      ensures LongestPrefix(contents, key, n) == LongestBelow(contents, key, k)
      decreases n
    {
      if n >= k {
        assert key[..k] <= key[..n];
        NoNodeBelow(key[..k], key[..n]);
        NothingLonger(k, key, n - 1);
      }
    }
  }

  lemma SnocInjective(p: Path, b: bool, q: Path, c: bool)
    ensures Down(p, b) == Down(q, c) ==> p == q && b == c
    ensures Down(p, b) != p
  {
    if Down(p, b) == Down(q, c) {
      assert p == Down(p, b)[..|p|] && q == Down(q, c)[..|q|];
    }
  }

  /** The lookup's answer is the stored entry whose path is the longest prefix of the key, or none. */
  lemma {:induction false} LongestPrefixMeaning<P>(c: map<Path, P>, key: Path, n: nat, k: nat)
    requires n <= |key| && k <= n
    ensures LongestPrefix(c, key, n) == Null <==> forall i: nat :: i <= n ==> key[..i] !in c
    ensures key[..k] in c && (forall i: nat :: k < i <= n ==> key[..i] !in c)
            ==> LongestPrefix(c, key, n) == Ptr(c[key[..k]])
  {
    if n > 0 && key[..n] !in c {
      LongestPrefixMeaning(c, key, n - 1, if k < n then k else n - 1);
    }
  }

  /** Storing a new path and deleting it gives every key the answer it had before, whatever nodes are left. */
  lemma InsertDeleteForgets<P>(c: map<Path, P>, p: Path, e: P, key: Path)
    requires p !in c
    ensures LongestPrefix(c[p := e] - {p}, key, |key|) == LongestPrefix(c, key, |key|)
  {
    assert c[p := e] - {p} == c;
  }

  /** Deleting one path changes the answer only of the keys whose longest stored prefix it was. */
  lemma {:induction false} DeleteChangesNoOther<P>(c: map<Path, P>, p: Path, key: Path, n: nat)
    requires n <= |key|
    requires forall k: nat :: k <= n && key[..k] == p ==> exists i: nat :: k < i <= n && key[..i] in c
    ensures LongestPrefix(c - {p}, key, n) == LongestPrefix(c, key, n)
  {
    if n > 0 && key[..n] != p && key[..n] !in c {
      DeleteChangesNoOther(c, p, key, n - 1);
    }
  }
}
