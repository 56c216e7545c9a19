// The hashing collaborator of the tree (tree.go:57-79): a caller-supplied
// hash over byte strings, used with RFC 6962 domain separation.
module Hashing {

  type byte = bv8

  type Bytes = seq<byte>

  /** The injected hash function (the source passes a hash.Hash object). */
  type Hasher = Bytes -> Bytes

  datatype Option<+T> = None | Some(value: T)

  const LeafHashPrefix: Bytes := [0]
  const NodeHashPrefix: Bytes := [1]

  /** Hash(0x00 || data): the hash of one leaf. */
  function LeafSum(h: Hasher, data: Bytes): Bytes
  {
    h(LeafHashPrefix + data)
  }

  /** Hash(0x01 || left || right): the hash of an interior node. */
  function NodeSum(h: Hasher, left: Bytes, right: Bytes): Bytes
  {
    h(NodeHashPrefix + left + right)
  }

  /** Every digest has the same length, as with any hash.Hash. */
  ghost predicate FixedLength(h: Hasher, size: nat)
  {
    forall x :: |h(x)| == size
  }

  /** No digest is empty, as with any hash.Hash: an empty slice can then
      stand for "no hash here". */
  ghost predicate NonEmptyDigests(h: Hasher)
  {
    forall x :: |h(x)| > 0
  }

  /** Two different inputs that h maps to the same digest. */
  ghost predicate Collides(h: Hasher, x: Bytes, y: Bytes)
  {
    x != y && h(x) == h(y)
  }

  /** Two different inputs among `inputs` share a digest. Security properties
      are stated as "either the claim holds or two of the (finitely many)
      inputs the computation hashed collide". */
  ghost predicate CollisionAmong(h: Hasher, inputs: set<Bytes>)
  {
    exists x, y :: x in inputs && y in inputs && Collides(h, x, y)
  }

  lemma {:induction false} CollisionAmongGrows(h: Hasher, inputs: set<Bytes>, more: set<Bytes>)
    requires inputs <= more && CollisionAmong(h, inputs)
    ensures CollisionAmong(h, more)
  {
    var x, y :| x in inputs && y in inputs && Collides(h, x, y);
    assert x in more && y in more;
  }

  /** Domain separation: a leaf hash equal to a node hash is a collision
      between the leaf input 0x00 || data and the node input
      0x01 || left || right. */
  lemma {:induction false} LeafNodeSeparated(h: Hasher, data: Bytes, left: Bytes, right: Bytes)
    ensures LeafSum(h, data) == NodeSum(h, left, right) ==>
              Collides(h, LeafHashPrefix + data, NodeHashPrefix + left + right)
  {
    var x, y := LeafHashPrefix + data, NodeHashPrefix + left + right;
    assert x[0] != y[0];
  }

  /** Equal leaf hashes of different data are a collision between the two
      leaf inputs. */
  lemma {:induction false} LeafSumBinding(h: Hasher, d1: Bytes, d2: Bytes)
    ensures LeafSum(h, d1) == LeafSum(h, d2) ==>
              d1 == d2 || Collides(h, LeafHashPrefix + d1, LeafHashPrefix + d2)
  {
    var x, y := LeafHashPrefix + d1, LeafHashPrefix + d2;
    assert x[1..] == d1 && y[1..] == d2;
  }

  /** Equal node hashes over equally long left children either agree on both
      children or are a collision between the two node inputs. */
  lemma {:induction false} NodeSumBinding(h: Hasher, a: Bytes, b: Bytes, c: Bytes, d: Bytes)
    requires |a| == |c|
    ensures NodeSum(h, a, b) == NodeSum(h, c, d) ==>
              (a == c && b == d) || Collides(h, NodeHashPrefix + a + b, NodeHashPrefix + c + d)
  {
    var x, y := NodeHashPrefix + a + b, NodeHashPrefix + c + d;
    assert x[1..1 + |a|] == a && y[1..1 + |c|] == c;
    assert x[1 + |a|..] == b && y[1 + |c|..] == d;
  }

  /** Equal node hashes over equally long right children either agree on both
      children or are a collision between the two node inputs. */
  lemma {:induction false} NodeSumBindingRight(h: Hasher, a: Bytes, b: Bytes, c: Bytes, d: Bytes)
    requires |b| == |d|
    ensures NodeSum(h, a, b) == NodeSum(h, c, d) ==>
              (a == c && b == d) || Collides(h, NodeHashPrefix + a + b, NodeHashPrefix + c + d)
  {
    var x, y := NodeHashPrefix + a + b, NodeHashPrefix + c + d;
    if x == y {
      assert x[1..1 + |a|] == a && x[1 + |a|..] == b;
      assert y[1..1 + |c|] == c && y[1 + |c|..] == d;
    }
  }
}
