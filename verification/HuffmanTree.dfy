/** The decoding tree, built by inserting the codewords one by one into nested two-slot nodes. */
module HuffmanTree {
  import opened Wire
  import opened Bits
  import opened PrefixCode

  datatype Slot = Empty | Leaf(symbol: nat) | Branch(node: Node)

  class Node {
    ghost const path: Bitstring  // the bits that lead here from the root
    var zero: Slot
    var one: Slot

    constructor (ghost path: Bitstring)
      ensures this.path == path && zero == Empty && one == Empty
    {
      this.path := path;
      zero, one := Empty, Empty;
    }

    function At(bit: bool): Slot
      reads this
    {
      if bit then one else zero
    }

    method Put(bit: bool, slot: Slot)
      modifies this
      ensures At(bit) == slot && At(!bit) == old(At(!bit))
    {
      if bit {
        one := slot;
      } else {
        zero := slot;
      }
    }
  }

  ghost predicate InsideSome(code: Code, k: nat, path: Bitstring)
    requires k <= |code|
  {
    exists s | 0 <= s < k :: path < code[s]
  }

  ghost predicate OnNoCodeword(code: Code, k: nat, path: Bitstring)
    requires k <= |code|
  {
    forall s | 0 <= s < k :: !(path <= code[s])
  }

  lemma PrefixOfSnoc(p: Bitstring, b: bool, q: Bitstring, c: bool)
    requires p + [b] <= q + [c]
    ensures p <= q && (q + [c])[|p|] == b
    ensures p == q ==> b == c
  {
    assert forall i | 0 <= i < |p| :: p[i] == (p + [b])[i];
    assert (p + [b])[|p|] == b;
  }

  class Tree {
    const root: Node
    ghost var nodes: set<Node>

    /** What a slot may hold when the first `k` codewords are in the tree. */
    ghost predicate SlotFits(code: Code, k: nat, n: Node, bit: bool)
      requires k <= |code| && n in nodes
      reads this, nodes
    {
      match n.At(bit)
      case Empty => OnNoCodeword(code, k, n.path + [bit])
      case Leaf(s) => s < k && code[s] == n.path + [bit]
      case Branch(m) => m in nodes && m.path == n.path + [bit]
    }

    ghost predicate Linked(code: Code, k: nat)
      requires k <= |code|
      reads this, nodes
    {
      && root in nodes
      && root.path == []
      && (forall n, bit | n in nodes :: SlotFits(code, k, n, bit))
      && (forall m, n | m in nodes && n in nodes && m.path == n.path :: m == n)
    }

    /** The tree holds exactly the first `k` codewords. */
    ghost predicate Valid(code: Code, k: nat)
      reads this, nodes
    {
      && k <= |code|
      && Linked(code, k)
      && forall n | n in nodes :: n == root || InsideSome(code, k, n.path)
    }

    constructor ()
      ensures forall code: Code :: Valid(code, 0)
      ensures fresh(root) && fresh(nodes)
    {
      root := new Node([]);
      new;
      nodes := {root};
    }

    /** Hang a new node in an empty slot. */
    method Grow(code: Code, k: nat, n: Node, bit: bool) returns (child: Node)
      requires k <= |code| && Linked(code, k) && n in nodes && n.At(bit) == Empty
      requires forall m | m in nodes :: m.path != n.path + [bit]
      modifies this`nodes, n
      ensures fresh(child) && nodes == old(nodes) + {child} && child.path == n.path + [bit]
      ensures n.At(bit) == Branch(child) && n.At(!bit) == old(n.At(!bit))
      ensures Linked(code, k)
    {
      assert SlotFits(code, k, n, bit);
      child := new Node(n.path + [bit]);
      n.Put(bit, Branch(child));
      nodes := nodes + {child};
      forall m, b | m in nodes
        ensures SlotFits(code, k, m, b)
      {
        if m == child {
          forall s | 0 <= s < k
            ensures !(child.path + [b] <= code[s])
          {
            assert child.path <= child.path + [b];
          }
        } else {
          assert old(SlotFits(code, k, m, b));
        }
      }
    }

    /** Put symbol `k` where its codeword ends. */
    method PutSymbol(code: Code, k: nat, n: Node, bit: bool)
      requires k < |code| && Linked(code, k) && n in nodes && n.At(bit) == Empty
      requires code[k] == n.path + [bit]
      requires forall m | m in nodes && m.path < n.path :: !m.At(code[k][|m.path|]).Empty?
      modifies n
      ensures Linked(code, k + 1)
    {
      n.Put(bit, Leaf(k));
      var next := k + 1;
      forall m, b | m in nodes
        ensures SlotFits(code, next, m, b)
      {
        assert old(SlotFits(code, k, m, b));
        if m.At(b).Empty? && m.path + [b] <= code[k] {
          PrefixOfSnoc(m.path, b, n.path, bit);
        }
      }
    }

    /** Insert codeword `k`: walk down, adding nodes where there are none, and put the symbol in the last slot. */
    method Insert(code: Code, k: nat)
      requires PrefixFree(code) && k < |code| && code[k] != []
      requires Valid(code, k)
      modifies this`nodes, nodes
      ensures Valid(code, k + 1)
      ensures fresh(nodes - old(nodes))
    {
      var codeword := code[k];
      var path := root;
      var j := 0;
      while j < |codeword| - 1
        invariant 0 <= j <= |codeword| - 1
        invariant path in nodes && path.path == codeword[..j]
        invariant Linked(code, k)
        invariant OnTheWay(code, k, codeword[..j])
        invariant forall n | n in nodes && n.path < codeword[..j] :: !n.At(codeword[|n.path|]).Empty?
        invariant fresh(nodes - old(nodes))
      {
        var bit := codeword[j];
        assert codeword[..j + 1] == codeword[..j] + [bit];
        if path.At(bit) == Empty {
          NoNodeYet(code, k, path, bit);
          var child := Grow(code, k, path, bit);
        }
        assert SlotFits(code, k, path, bit);
        assert !path.At(bit).Leaf?;  // the source asserts that it stands on a list
        path := path.At(bit).node;
        j := j + 1;
      }
      var last := codeword[j];
      assert codeword == codeword[..j] + [last];
      LastSlotIsFree(code, k, path, last);
      PutSymbol(code, k, path, last);
    }

    /** Every node lies inside one of the first `k` codewords, or on the way to the new one. */
    ghost predicate OnTheWay(code: Code, k: nat, way: Bitstring)
      requires k <= |code|
      reads this, nodes
    {
      forall n | n in nodes :: n == root || InsideSome(code, k, n.path) || n.path <= way
    }

    /** Where a slot on the way is empty, no node lies below it. */
    lemma NoNodeYet(code: Code, k: nat, path: Node, bit: bool)
      requires k <= |code| && Linked(code, k) && path in nodes && path.At(bit) == Empty
      requires OnTheWay(code, k, path.path)
      ensures forall n | n in nodes :: n.path != path.path + [bit]
    {
      assert SlotFits(code, k, path, bit);
    }

    /** Prefix-freedom leaves the last slot of a new codeword free. */
    lemma LastSlotIsFree(code: Code, k: nat, path: Node, last: bool)
      requires PrefixFree(code) && k < |code| && Linked(code, k) && path in nodes
      requires code[k] == path.path + [last]
      requires OnTheWay(code, k, path.path)
      ensures path.At(last) == Empty
    {
      assert SlotFits(code, k, path, last);
    }

    /** One step of a walk in the finished tree: never into an empty slot, and exactly the table's answer. */
    lemma Step(code: Code, n: Node, bit: bool)
      requires GoodCode(code) && Valid(code, |code|) && n in nodes
      ensures match n.At(bit)
              case Empty => false
              case Leaf(s) => Symbol(code, n.path + [bit]) == Some(s)
              case Branch(m) => m in nodes && m.path == n.path + [bit] && Symbol(code, n.path + [bit]) == None
    {
      assert SlotFits(code, |code|, n, bit);
      EmptyIsResidual(code);
      assert IsResidual(code, n.path);
      match n.At(bit)
      case Empty => ResidualStep(code, n.path, bit);
      case Leaf(s) => SymbolOfCodeword(code, s);
      case Branch(m) =>
        var s :| 0 <= s < |code| && m.path < code[s];
    }
  }

  /** The tree of a whole code. */
  method Build(code: Code) returns (tree: Tree)
    requires PrefixFree(code)
    requires forall i | 0 <= i < |code| :: code[i] != []
    ensures fresh(tree) && fresh(tree.nodes)
    ensures tree.Valid(code, |code|)
  {
    tree := new Tree();
    for i := 0 to |code|
      invariant fresh(tree) && fresh(tree.nodes)
      invariant tree.Valid(code, i)
    {
      tree.Insert(code, i);
    }
  }
}
