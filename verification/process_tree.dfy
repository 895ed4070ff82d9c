/** The process tree: a binary tree of forks whose leaves carry the states that are alive,
    and the random walk through it that selects the next state to run. */
module ProcessTrees {
  import opened Constructors

  class PTreeNode<T(==)> {
    var parent: PTreeNode?<T>
    var left: PTreeNode?<T>
    var right: PTreeNode?<T>
    var data: Option<T>
    ghost const depth: nat

    constructor (parent: PTreeNode?<T>, data: T, ghost depth: nat)
      ensures this.parent == parent && left == null && right == null && this.data == Some(data) && this.depth == depth
    {
      this.parent, left, right, this.data, this.depth := parent, null, null, Some(data), depth;
    }

    predicate IsLeaf()
      reads this
    {
      left == null && right == null
    }
  }

  class PTree<T(==)> {
    var root: PTreeNode<T>
    ghost var nodes: set<PTreeNode<T>>
    ghost var leaves: map<T, PTreeNode<T>>

    constructor (data: T)
      ensures Valid() && fresh(nodes) && leaves == map[data := root] && root in nodes
    {
      root := new PTreeNode(null, data, 0);
      new;
      nodes := {root};
      leaves := map[data := root];
    }

    /** A node is its parent's child and its children's parent. */
    ghost predicate Joint(n: PTreeNode<T>)
      reads this, nodes, n
    {
      && (n.parent == null <==> n == root)
      && (n.parent != null ==> n.parent in nodes && (n.parent.left == n || n.parent.right == n))
      && (n.left != null ==> n.left in nodes && n.left.parent == n && n.left.depth == n.depth + 1)
      && (n.right != null ==> n.right in nodes && n.right.parent == n && n.right.depth == n.depth + 1)
      && (n.left != null ==> n.left != n.right)
    }

    ghost predicate Linked()
      reads this, nodes
    {
      && (nodes != {} ==> root in nodes && root.depth == 0)
      && forall n {:trigger Joint(n)} :: n in nodes ==> Joint(n)
    }

    /** The node carries data if and only if it is a leaf, and is where its data is found. */
    ghost predicate Labelled(n: PTreeNode<T>)
      reads this, n
    {
      && (n.data.Some? <==> n.IsLeaf())
      && (n.data.Some? ==> n.data.value in leaves && leaves[n.data.value] == n)
    }

    /** Every datum sits on one node; one node at most may still lack a label. */
    ghost predicate LabelledBut(hole: PTreeNode?<T>)
      reads this, nodes
    {
      && (forall n {:trigger Labelled(n)} :: n in nodes && n != hole ==> Labelled(n))
      && (hole != null ==> hole in nodes && hole.data.None?)
      && forall d :: d in leaves ==> leaves[d] in nodes && leaves[d].data == Some(d)
    }

    ghost predicate Valid()
      reads this, nodes
    {
      Linked() && LabelledBut(null)
    }

    /** The node of a datum is a leaf that carries it. */
    lemma {:induction false} LeafOf(d: T)
      requires Valid() && d in leaves
      ensures leaves[d] in nodes && leaves[d].IsLeaf() && leaves[d].data == Some(d)
    {
      assert Labelled(leaves[d]);
    }

    /** A leaf gives up its data. */
    method Vacate(n: PTreeNode<T>)
      requires Valid() && n in nodes && n.data.Some?
      modifies this`leaves, n`data
      ensures Linked() && LabelledBut(n) && n.IsLeaf() && n.data.None? && leaves == old(leaves) - {old(n.data.value)}
    {
      assert Labelled(n);
      leaves := leaves - {n.data.value};
      n.data := None;
      forall m | m in nodes ensures Joint(m) && (m != n ==> Labelled(m)) {
        assert old(Joint(m)) && old(Labelled(m));
      }
    }

    /** A leaf that has given up its data gets two children. */
    method Split(n: PTreeNode<T>, leftData: T, rightData: T) returns (l: PTreeNode<T>, r: PTreeNode<T>)
      requires Linked() && LabelledBut(n) && n.IsLeaf()
      requires leftData != rightData && leftData !in leaves && rightData !in leaves
      modifies this`nodes, this`leaves, n
      ensures Valid() && nodes == old(nodes) + {l, r} && fresh(l) && fresh(r) && root == old(root)
      ensures leaves == old(leaves)[leftData := l][rightData := r]
      ensures n.data == old(n.data) && n.left == l && n.right == r && l.parent == n && r.parent == n
    {
      n.left := new PTreeNode(n, leftData, n.depth + 1);
      n.right := new PTreeNode(n, rightData, n.depth + 1);
      l, r := n.left, n.right;
      nodes := nodes + {l, r};
      leaves := leaves[leftData := l][rightData := r];
      assert Joint(n) by { assert old(Joint(n)); }
      forall m | m in nodes ensures Joint(m) && Labelled(m) {
        if m in old(nodes) {
          assert old(Joint(m)) && (m != n ==> old(Labelled(m)));
        }
      }
    }

    /** A fork: the leaf of a datum becomes an inner node above that datum and a new one. */
    method Divide(n: PTreeNode<T>, leftData: T, rightData: T) returns (l: PTreeNode<T>, r: PTreeNode<T>)
      requires Valid() && n in nodes && n.data.Some? && leftData != rightData
      requires (leftData == n.data.value && rightData !in leaves) || (rightData == n.data.value && leftData !in leaves)
      modifies this`nodes, this`leaves, n
      ensures Valid() && nodes == old(nodes) + {l, r} && fresh(l) && fresh(r)
      ensures leaves == old(leaves)[leftData := l][rightData := r]
    {
      ghost var d := n.data.value;
      ghost var before := leaves;
      Vacate(n);
      l, r := Split(n, leftData, rightData);
      assert (before - {d})[leftData := l][rightData := r] == before[leftData := l][rightData := r];
    }

    /** A root without children is the whole tree. */
    lemma {:induction false} RootAlone(m: PTreeNode<T>)
      requires Linked() && m in nodes && root.IsLeaf()
      ensures m == root
      decreases m.depth
    {
      assert Joint(m);
      if m != root {
        assert Joint(m.parent);
        RootAlone(m.parent);
      }
    }

    /** Takes a leaf out of the tree; what is returned is its parent. */
    method Unlink(n: PTreeNode<T>) returns (p: PTreeNode?<T>)
      requires n in nodes && Linked() && LabelledBut(n) && n.IsLeaf()
      modifies this`nodes, if n.parent == null then {} else {n.parent}
      ensures Linked() && LabelledBut(p) && nodes == old(nodes) - {n} && root == old(root)
      ensures p == old(n.parent)
      ensures p == null ==> nodes == {}
      ensures p != null ==> p.depth + 1 == n.depth
      ensures leaves == old(leaves)
      ensures forall m :: m in nodes ==> m.data == old(m.data) && m.parent == old(m.parent)
    {
      assert Joint(n);
      p := n.parent;
      if p == null {
        forall m | m in nodes ensures m == n {
          RootAlone(m);
        }
      } else {
        assert Joint(p) && Labelled(p);
        if n == p.left {
          p.left := null;
        } else {
          p.right := null;
        }
      }
      nodes := nodes - {n};
      forall m | m in nodes ensures Joint(m) && (m != p ==> Labelled(m)) {
        assert old(Joint(m)) && old(Labelled(m));
      }
    }

    /** Removes a leaf and every ancestor that is left without children. */
    method Remove(node: PTreeNode<T>)
      requires Valid() && node in nodes && node.IsLeaf() && node.data.Some?
      modifies this`nodes, this`leaves, nodes
      ensures Valid() && nodes <= old(nodes) - {node} && root == old(root)
      ensures leaves == old(leaves) - {old(node.data.value)}
      ensures forall n :: n in nodes ==> n.data == old(n.data) && n.parent == old(n.parent)
    {
      Vacate(node);
      assert Joint(node);
      var n := Unlink(node);
      while n != null && n.IsLeaf()
        invariant Linked() && LabelledBut(n) && root == old(root) && nodes <= old(nodes) - {node}
        invariant n == null ==> nodes == {}
        invariant leaves == old(leaves) - {old(node.data.value)}
        invariant forall m :: m in nodes ==> m.data == old(m.data) && m.parent == old(m.parent)
        decreases if n == null then 0 else n.depth + 1
      {
        assert Joint(n);
        n := Unlink(n);
      }
    }

    // --- Random-path selection ----------------------------------------------------------------

    ghost function Deeper(n: PTreeNode<T>): (d: set<PTreeNode<T>>)
      reads this
    {
      set m | m in nodes && n.depth < m.depth
    }

    /** A node without data has a child, and its children are deeper. */
    lemma {:induction false} InnerNode(n: PTreeNode<T>)
      requires Valid() && n in nodes && n.data.None?
      ensures n.left != null || n.right != null
      ensures n.left != null ==> n.left in nodes && Deeper(n.left) < Deeper(n)
      ensures n.right != null ==> n.right in nodes && Deeper(n.right) < Deeper(n)
    {
      assert Joint(n) && Labelled(n);
      if n.left != null {
        assert n.left in Deeper(n) && n.left !in Deeper(n.left);
      }
      if n.right != null {
        assert n.right in Deeper(n) && n.right !in Deeper(n.right);
      }
    }

    /** Where a walk down from n ends; a coin is used only where there are two children. */
    ghost function Walk(n: PTreeNode<T>, coins: seq<bool>): (r: Option<T>)
      requires Valid() && n in nodes
      reads this, nodes
      decreases Deeper(n)
    {
      if n.data.Some? then n.data
      else
        InnerNode(n);
        if n.left == null then Walk(n.right, coins)
        else if n.right == null then Walk(n.left, coins)
        else if coins == [] then None
        else Walk(if coins[0] then n.left else n.right, coins[1..])
    }

    /** Walking from the root on these coins means walking from n on the rest. */
    ghost predicate LeadsTo(flips: seq<bool>, n: PTreeNode<T>)
      requires Valid() && root in nodes
      reads this, nodes
    {
      n in nodes && forall rest :: Walk(root, flips + rest) == Walk(n, rest)
    }

    /** One step down the tree. */
    method Descend(n: PTreeNode<T>, ghost flips: seq<bool>, coin: bool)
      returns (next: PTreeNode<T>, ghost now: seq<bool>)
      requires Valid() && root in nodes && LeadsTo(flips, n) && n.data.None?
      ensures LeadsTo(now, next) && Deeper(next) < Deeper(n)
    {
      InnerNode(n);
      if n.left == null {
        next, now := n.right, flips;
      } else if n.right == null {
        next, now := n.left, flips;
      } else {
        WalkOn(n, flips, coin);
        next, now := if coin then n.left else n.right, flips + [coin];
      }
    }

    /** The walk from the root, tossing a coin at each fork, always ends, and at a state that
        is alive. */
    method SelectState() returns (d: T, ghost flips: seq<bool>)
      requires Valid() && nodes != {}
      ensures d in leaves && Walk(root, flips) == Some(d)
    {
      var n := root;
      flips := [];
      assert forall rest :: flips + rest == rest;
      while n.data.None?
        invariant LeadsTo(flips, n)
        decreases Deeper(n)
      {
        var coin: bool := *;
        n, flips := Descend(n, flips, coin);
      }
      assert Labelled(n);
      d := n.data.value;
      Arrived(flips, n);
    }

    lemma {:induction false} Arrived(flips: seq<bool>, n: PTreeNode<T>)
      requires Valid() && root in nodes && LeadsTo(flips, n)
      ensures Walk(root, flips) == Walk(n, [])
    {
      assert flips + [] == flips;
      assert Walk(root, flips + []) == Walk(n, []);
    }

    lemma {:induction false} WalkOn(n: PTreeNode<T>, flips: seq<bool>, coin: bool)
      requires Valid() && root in nodes && n in nodes && n.data.None? && n.left != null && n.right != null
      requires n.left in nodes && n.right in nodes && LeadsTo(flips, n)
      ensures LeadsTo(flips + [coin], if coin then n.left else n.right)
    {
      forall rest ensures Walk(root, flips + [coin] + rest) == Walk(if coin then n.left else n.right, rest) {
        assert flips + [coin] + rest == flips + ([coin] + rest);
        assert ([coin] + rest)[1..] == rest;
      }
    }

    /** Some sequence of coins leads to any given node. */
    lemma {:induction false} PathTo(n: PTreeNode<T>) returns (coins: seq<bool>)
      requires Valid() && n in nodes
      ensures root in nodes && LeadsTo(coins, n)
      decreases n.depth
    {
      assert Joint(n);
      if n == root {
        coins := [];
        assert forall rest :: coins + rest == rest;
      } else {
        var p := n.parent;
        assert Joint(p) && Labelled(p);
        coins := PathTo(p);
        InnerNode(p);
        if p.left != null && p.right != null {
          WalkOn(p, coins, p.left == n);
          coins := coins + [p.left == n];
        }
      }
    }

    /** Every state that is alive can be selected. */
    lemma {:induction false} EveryStateSelectable(d: T)
      requires Valid() && d in leaves
      ensures root in nodes && exists coins :: Walk(root, coins) == Some(d)
    {
      var coins := PathTo(leaves[d]);
      Arrived(coins, leaves[d]);
    }
  }
}
