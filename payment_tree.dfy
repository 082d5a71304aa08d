/**
 * The `CumulativePaymentTree` class of lib/cumulative-payment-tree.js. It
 * extends MerkleTree in the source; here it holds the tree it builds over the
 * payment nodes, and the lookups go through that tree.
 */
module Payments {
  import opened Wrappers
  import opened ByteOrder
  import opened Encoding
  import opened MerkleSpec
  import opened PaymentSpec
  import opened Merkle

  /** The strings handed to `super(paymentNodes)`. */
  function NodeValues(nodes: seq<string>): (vs: seq<Value>)
    ensures |vs| == |nodes|
  {
    seq(|nodes|, i requires 0 <= i < |nodes| => Str(nodes[i]))
  }

  /** A reduced payment list: distinct non-empty payees with positive amounts. */
  predicate IsReduced(r: seq<Payment>) {
    && Distinct(PayeesOf(r))
    && forall i :: 0 <= i < |r| ==> r[i].payee != "" && r[i].amount > 0
  }

  /** '0x' and 64 zero digits: `bufferToHex(zeros(32))`. */
  function ZeroProof(): (s: string)
    ensures s == BufferToHex(seq(32, _ => 0 as Byte))
    ensures |s| == 66 && s[..2] == "0x" && forall i :: 2 <= i < 66 ==> s[i] == '0'
  {
    ZeroBytesHex(32);
    "0x" + seq(64, _ => '0')
  }

  /** Every payment node is a leaf of a tree built over the nodes. */
  lemma NodeIsLeaf(lh: LeafHash, nodes: seq<string>, n: string)
    requires n in nodes && n != ""
    ensures QueryDigest(lh, Str(n)) in Canonical(lh, NodeValues(nodes))
  {
    var vs := NodeValues(nodes);
    var i :| 0 <= i < |nodes| && nodes[i] == n;
    assert vs[i] == Str(n) && Truthy(Str(n));
    assert lh(Str(n)) in LeafSet(lh, vs);
    CanonicalSpec(lh, vs);
    assert lh(Str(n)) in Elems(Canonical(lh, vs));
  }

  /** The node hexProofForPayee finds in a reduced list is a leaf of the tree over its nodes. */
  lemma FoundNodeIsLeaf(lh: LeafHash, r: seq<Payment>, p: string)
    requires IsReduced(r)
    requires FindNode(Nodes(r), p).Some?
    ensures QueryDigest(lh, Str(FindNode(Nodes(r), p).value)) in Canonical(lh, NodeValues(Nodes(r)))
  {
    var n := FindNode(Nodes(r), p).value;
    FindNodeSpec(Nodes(r), p);
    NodesDistinct(r);
    var i :| 0 <= i < |Nodes(r)| && Nodes(r)[i] == n;
    NodeIsLeaf(lh, Nodes(r), n);
  }

  /** The prefix `[paymentCycle, amount]` becomes the two words of its items. */
  lemma TwoWords(c: nat, amount: nat)
    ensures PrefixWords(Items([c, amount])) == [ToWord(c), ToWord(amount)]
  {
    assert [amount][1..] == [];
    assert Words([amount]) == [ToWord(amount)];
    assert [c, amount][1..] == [amount];
    assert Words([c, amount]) == [ToWord(c)] + Words([amount]);
  }

  /** A hex proof whose first two words are those of `c` and `amount` starts with their hex. */
  lemma PrefixedHex(c: nat, amount: nat, proof: seq<Bytes>, hex: string)
    requires |proof| >= 2 && proof[..2] == [ToWord(c), ToWord(amount)]
    requires |hex| == 2 + 64 * |proof|
    requires forall i :: 0 <= i < |proof| ==> hex[2 + 64 * i .. 2 + 64 * i + 64] == BytesToHex(proof[i])
    ensures |hex| >= 130
    ensures hex[2..66] == BytesToHex(ToWord(c)) && hex[66..130] == BytesToHex(ToWord(amount))
  {
    assert proof[0] == ToWord(c) && proof[1] == ToWord(amount);
    assert hex[2 + 64 * 1 .. 2 + 64 * 1 + 64] == BytesToHex(proof[1]);
  }

  class CumulativePaymentTree {
    const tree: MerkleTree
    const paymentNodes: seq<string>
    const paymentList: seq<Payment>

    /** The nodes render the reduced list, and the tree is built over the nodes. */
    ghost predicate Valid()
      reads this, tree
    {
      && tree.Valid()
      && IsReduced(paymentList)
      && paymentNodes == Nodes(paymentList)
      && tree.elements == Canonical(tree.leafHash, NodeValues(paymentNodes))
    }

    /** `new CumulativePaymentTree(paymentList)`: filter, group and sum, render the nodes, build the tree. */
    constructor (keccak: Hash, leafHash: LeafHash, payments: seq<Payment>)
      ensures paymentList == Reduced(payments)
      ensures paymentNodes == Nodes(paymentList)
      ensures tree.keccak == keccak && tree.leafHash == leafHash
      ensures Valid()
    {
      var reduced := Reduced(payments);
      var nodes := Nodes(reduced);
      tree := new MerkleTree(keccak, leafHash, NodeValues(nodes));
      paymentNodes := nodes;
      paymentList := reduced;
      ReducedSpec(payments);
    }

    /**
     * `amountForPayee(payee)`: the amount of the entry whose payee is exactly
     * `p`, and 0 when there is none.
     */
    function AmountForPayee(p: string): (r: nat)
      reads this, tree
      requires Valid()
      ensures r > 0 <==> p in PayeesOf(paymentList)
      ensures forall i :: 0 <= i < |paymentList| && paymentList[i].payee == p ==> r == paymentList[i].amount
    {
      AmountForUnique(paymentList, p);
      AmountFor(paymentList, p)
    }

    /**
     * `hexProofForPayee(payee, paymentCycle)`: the all-zero word when no node
     * contains `p`; otherwise the hex proof of the first such node with the
     * words of the cycle and of the exact-match amount in front. That node is
     * always a leaf, so getHexProof cannot fail here.
     */
    method HexProofForPayee(p: string, c: nat) returns (r: string)
      requires Valid()
      ensures FindNode(paymentNodes, p).None? ==> r == ZeroProof()
      ensures FindNode(paymentNodes, p).Some? ==>
        var proof := tree.ProofFor(Str(FindNode(paymentNodes, p).value), Items([c, AmountForPayee(p)]));
        && proof.Ok?
        && r == ArrToHex(proof.value)
        && |r| >= 130
        && r[2..66] == BytesToHex(ToWord(c))
        && r[66..130] == BytesToHex(ToWord(AmountForPayee(p)))
    {
      var leaf := FindNode(paymentNodes, p);
      if leaf.None? {
        return ZeroProof();
      }
      var amount := AmountForPayee(p);
      FoundNodeIsLeaf(tree.leafHash, paymentList, p);
      var prefix := Items([c, amount]);
      var hex := tree.GetHexProof(Str(leaf.value), prefix);
      ghost var proof := tree.ProofFor(Str(leaf.value), prefix).value;
      TwoWords(c, amount);
      PrefixedHex(c, amount, proof, hex.value);
      r := hex.value;
    }
  }
}
