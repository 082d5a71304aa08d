/**
 * The `MerkleTree` class of lib/merkle-tree.js. The constructor and the
 * loops of getLayers, getNextLayer, getProof and bufIndexOf are imperative;
 * each method is proved against the functions of MerkleSpec.
 */
module Merkle {
  import opened Wrappers
  import opened ByteOrder
  import opened Encoding
  import opened MerkleSpec

  /** The error getProof throws: 'Element does not exist in Merkle tree'. */
  datatype Error = NotFound

  class MerkleTree {
    /** The Keccak-256 primitive and the leaf hash the tree is built with. */
    const keccak: Hash
    const leafHash: LeafHash

    var elements: seq<Digest>
    var layers: seq<seq<Bytes>>

    /** Leaves ascending and distinct, layers built from them. */
    ghost predicate Valid()
      reads this
    {
      StrictlyAscending(elements) && layers == LayersOf(keccak, elements)
    }

    /** `new MerkleTree(elements)`: filter, hash, deduplicate, sort, then build the layers. */
    constructor (keccak: Hash, leafHash: LeafHash, input: seq<Value>)
      ensures this.keccak == keccak && this.leafHash == leafHash
      ensures elements == Canonical(leafHash, input)
      ensures Valid()
    {
      this.keccak := keccak;
      this.leafHash := leafHash;
      new;
      elements := LeafDigests(leafHash, input);
      elements := BufDedup(elements);
      elements := Sort(elements);
      CanonicalSpec(leafHash, input);
      layers := GetLayers(elements);
    }

    /** `getLayers(elements)`: pushes next layers until the last one has at most one entry. */
    method GetLayers(es: seq<Bytes>) returns (ls: seq<seq<Bytes>>)
      ensures ls == LayersOf(keccak, es)
    {
      if |es| == 0 {
        return [[[]]];
      }
      var h := keccak;
      ls := [es];
      var last := es;
      while |last| > 1
        invariant |ls| >= 1 && ls[|ls| - 1] == last && |last| >= 1
        invariant ls + BuildLayers(h, last)[1..] == BuildLayers(h, es)
        decreases |last|
      {
        var next := GetNextLayer(last);
        BuildLayersStep(h, last);
        AppendAssoc(ls, [next], BuildLayers(h, next)[1..]);
        ls := ls + [next];
        last := next;
      }
      assert BuildLayers(h, last)[1..] == [];
    }

    /** `getNextLayer(l)`: at each even index, combinedHash of the entry and its successor. */
    method GetNextLayer(l: seq<Bytes>) returns (r: seq<Bytes>)
      ensures r == NextLayer(keccak, l)
    {
      r := [];
      for idx := 0 to |l|
        invariant |r| == (idx + 1) / 2
        invariant forall k :: 0 <= k < |r| ==> r[k] == ParentOf(keccak, l, k)
      {
        if idx % 2 == 0 {
          var second := if idx + 1 < |l| then Some(l[idx + 1]) else None;
          r := r + [CombinedHash(keccak, Some(l[idx]), second).value];
        }
      }
      NextLayerEntries(keccak, l);
    }

    /** `getRoot()`: the single entry of the top layer (the empty value for an empty tree). */
    function GetRoot(): (r: Bytes)
      reads this
      requires Valid()
      ensures elements == [] ==> r == []
      ensures elements != [] ==> |r| == 32
      ensures |elements| == 1 ==> r == elements[0]
    {
      LayersSpec(keccak, elements);
      layers[|layers| - 1][0]
    }

    /** `getHexRoot()`: "0x" and 64 hex digits; the hex form of the empty-tree sentinel is left out (None). */
    function GetHexRoot(): (r: Option<string>)
      reads this
      requires Valid()
      ensures r.None? <==> elements == []
      ensures r.Some? ==> |r.value| == 66 && r.value == BufferToHex(GetRoot())
      ensures r.Some? ==> HexToBytes(r.value[2..]) == Some(GetRoot())
    {
      if elements == [] then None
      else
        HexRoundTrip(GetRoot());
        Some(BufferToHex(GetRoot()))
    }

    /** `bufIndexOf(el, arr)`: scans for the query digest; -1 when it is absent. */
    method BufIndexOf(el: Value, arr: seq<Digest>) returns (i: int)
      ensures i == IndexOf(arr, QueryDigest(leafHash, el))
    {
      var hash := QueryDigest(leafHash, el);
      for j := 0 to |arr|
        invariant forall k :: 0 <= k < j ==> arr[k] != hash
      {
        if hash == arr[j] {
          return j;
        }
      }
      return -1;
    }

    /** `bufDedup(elements)`: keeps the entries whose first index is their own. */
    method BufDedup(es: seq<Digest>) returns (r: seq<Digest>)
      ensures r == Dedup(es)
    {
      r := [];
      for i := 0 to |es|
        invariant r == Dedup(es[..i])
      {
        var first := BufIndexOf(Buf(es[i]), es);
        assert es[..i + 1][..i] == es[..i] && es[..i + 1][i] == es[i];
        if es[i] in es[..i] {
          var j :| 0 <= j < i && es[j] == es[i];
          assert first <= j;
        }
        if first == i {
          r := r + [es[i]];
        }
      }
      assert es[..|es|] == es;
    }

    /**
     * What getProof returns: NotFound exactly when the query digest is not a
     * leaf; otherwise the prefix words, then at most one 32-byte sibling per
     * layer below the top, which fold from the leaf to the root.
     */
    ghost function ProofFor(el: Value, prefix: Prefix): (r: Result<seq<Bytes>, Error>)
      reads this
      requires Valid()
      ensures r.Err? <==> QueryDigest(leafHash, el) !in elements
      ensures r.Ok? ==> |r.value| >= |PrefixWords(prefix)| && r.value[..|PrefixWords(prefix)|] == PrefixWords(prefix)
      ensures r.Ok? ==> |r.value| - |PrefixWords(prefix)| <= |layers| - 1
      ensures r.Ok? ==> Fold(keccak, QueryDigest(leafHash, el), r.value[|PrefixWords(prefix)|..]) == GetRoot()
      ensures r.Ok? ==> AllDigests(r.value)
    {
      var q := QueryDigest(leafHash, el);
      if q in elements then
        var words := PrefixWords(prefix);
        var p := words + Siblings(layers, IndexOf(elements, q));
        ProofLayout(keccak, elements, layers, q, words, p);
        Ok(p)
      else Err(NotFound)
    }

    /** `getProof(el, prefix)`: walks the layers from the leaf up, collecting the pair entries. */
    method GetProof(el: Value, prefix: Prefix) returns (r: Result<seq<Bytes>, Error>)
      requires Valid()
      ensures r == ProofFor(el, prefix)
    {
      var ls, es := layers, elements;
      ghost var q := QueryDigest(leafHash, el);
      var idx := BufIndexOf(el, es);
      if idx == -1 {
        return Err(NotFound);
      }
      var proof: seq<Bytes> := [];
      var i: nat := idx;
      for k := 0 to |ls|
        invariant proof + Siblings(ls[k..], i) == Siblings(ls, idx)
      {
        var pairElement := GetPairElement(i, ls[k]);
        SiblingsStep(ls, k, i, proof);
        if pairElement.Some? {
          proof := proof + [pairElement.value];
        }
        i := i / 2;
      }
      assert ls[|ls|..] == [];
      assert proof == Siblings(ls, idx);
      var words := PrefixWords(prefix);
      r := Ok(words + proof);
    }

    /** `getHexProof(el, prefix)`: the proof rendered by bufArrToHex, 2 + 64 characters per word. */
    method GetHexProof(el: Value, prefix: Prefix) returns (r: Result<string, Error>)
      requires Valid()
      ensures r.Err? <==> QueryDigest(leafHash, el) !in elements
      ensures r.Ok? ==> ProofFor(el, prefix).Ok? && r.value == ArrToHex(ProofFor(el, prefix).value)
      ensures r.Ok? ==> |r.value| == 2 + 64 * |ProofFor(el, prefix).value|
      ensures r.Ok? ==> forall i :: 0 <= i < |ProofFor(el, prefix).value| ==>
        r.value[2 + 64 * i .. 2 + 64 * i + 64] == BytesToHex(ProofFor(el, prefix).value[i])
    {
      var proof := GetProof(el, prefix);
      if proof.Err? {
        return Err(proof.error);
      }
      ArrToHexLayout(proof.value);
      return Ok(ArrToHex(proof.value));
    }
  }
}
