/**
 * The Merkle tree as the library implements it: a node value, a proof object
 * whose element list grows with AddElement, and the tree class whose
 * constructor hashes the leaves, fills the index dictionary and reduces the
 * leaves level by level. Every method is proved against the reference
 * definitions of module MerkleSpec.
 */
module Merkle {
  import opened Wrappers
  import opened Bip340
  import opened MerkleSpec

  /** A node: its hash and, for a branch, its two children. */
  datatype MerkleNode = MerkleNode(hash: Digest, left: Option<MerkleNode>, right: Option<MerkleNode>)
  {
    predicate IsLeaf()
    {
      left.None? && right.None?
    }

    /** The hash as 64 lowercase hex characters, which decode back to the hash. */
    function GetHashAsHex(): (s: string)
      ensures |s| == 64
      ensures forall i :: 0 <= i < |s| ==> IsLowerHexChar(s[i])
      ensures DecodeHex(s) == Success(hash)
    {
      ToHexStringLayout(hash);
      DecodeHexOfToHexString(hash);
      ToHexString(hash)
    }
  }

  function Hashes(nodes: seq<MerkleNode>): seq<Digest>
  {
    seq(|nodes|, k requires 0 <= k < |nodes| => nodes[k].hash)
  }

  lemma HashesAppend(nodes: seq<MerkleNode>, n: MerkleNode)
    ensures Hashes(nodes + [n]) == Hashes(nodes) + [n.hash]
  {
  }

  /** Growing a prefix of `s` by one element. */
  lemma TakeOneMore<T>(s: seq<T>, n: nat)
    requires n < |s|
    ensures s[..n + 1] == s[..n] + [s[n]]
  {
  }

  /** The right partner of node `i`, duplicating the last node of an odd level. */
  lemma RightOfHashes(nodes: seq<MerkleNode>, i: nat, right: MerkleNode)
    requires i < |nodes|
    requires right == if i + 1 < |nodes| then nodes[i + 1] else nodes[i]
    ensures RightOf(Hashes(nodes), i) == right.hash
  {
  }

  /**
   * Appending the parent of the pair starting at node `2 * |parents|` (with
   * the odd-node duplication) extends the computed prefix of the next level.
   */
  lemma ParentsGrow(p: Primitives, branchHashTag: string, nodes: seq<MerkleNode>, parents: seq<MerkleNode>,
                    right: MerkleNode, parent: MerkleNode)
    requires 2 * |parents| < |nodes|
    requires right == if 2 * |parents| + 1 < |nodes| then nodes[2 * |parents| + 1] else nodes[2 * |parents|]
    requires parent.hash == BranchHash(p, branchHashTag, nodes[2 * |parents|].hash, right.hash)
    requires Hashes(parents) == NextLevel(p, branchHashTag, Hashes(nodes))[..|parents|]
    ensures |parents| < |NextLevel(p, branchHashTag, Hashes(nodes))|
    ensures Hashes(parents + [parent]) == NextLevel(p, branchHashTag, Hashes(nodes))[..|parents| + 1]
  {
    var next := NextLevel(p, branchHashTag, Hashes(nodes));
    NextLevelAt(p, branchHashTag, Hashes(nodes), |parents|);
    RightOfHashes(nodes, 2 * |parents|, right);
    HashesAppend(parents, parent);
    TakeOneMore(next, |parents|);
  }

  /** The sibling found on this level followed by the path of the parents is the path of this level. */
  lemma PathOfParents(p: Primitives, branchHashTag: string, nodes: seq<MerkleNode>, parents: seq<MerkleNode>,
                      nodeIndex: nat, before: seq<ProofElement>)
    requires nodeIndex < |nodes| && |nodes| >= 2
    requires Hashes(parents) == NextLevel(p, branchHashTag, Hashes(nodes))
    ensures nodeIndex / 2 < |parents|
    ensures before + [ProofStep(Hashes(nodes), nodeIndex)] + Path(p, branchHashTag, Hashes(parents), nodeIndex / 2)
         == before + Path(p, branchHashTag, Hashes(nodes), nodeIndex)
  {
    PathUnfold(p, branchHashTag, Hashes(nodes), nodeIndex);
  }

  /** Taking one more item extends the leaf hashes by its hash and records it in the index map. */
  lemma OneMoreItem(p: Primitives, hashTag: string, items: seq<string>, n: nat)
    requires n < |items|
    ensures LeafHashes(p, hashTag, items[..n + 1]) == LeafHashes(p, hashTag, items[..n]) + [LeafHash(p, hashTag, items[n])]
    ensures IndexMap(items[..n + 1]) == IndexMap(items[..n])[items[n] := n]
  {
    assert items[..n + 1][..n] == items[..n];
  }

  function HashOf(node: Option<MerkleNode>): Option<Digest>
  {
    match node
    case None => None
    case Some(n) => Some(n.hash)
  }

  /** Every branch below `n` holds the branch hash of its two children, in order. */
  ghost predicate Consistent(p: Primitives, branchHashTag: string, n: MerkleNode)
  {
    match (n.left, n.right)
    case (None, None) => true
    case (Some(l), Some(r)) =>
      n.hash == BranchHash(p, branchHashTag, l.hash, r.hash)
      && Consistent(p, branchHashTag, l) && Consistent(p, branchHashTag, r)
    case _ => false
  }

  /** The leaf hashing of the constructor and of VerifyProof: the two known tags use their wrappers, any other the generic hash. */
  method HashLeafItem(p: Primitives, hashTag: string, item: string) returns (hash: Digest)
    ensures hash == LeafHash(p, hashTag, item)
  {
    if hashTag == BitcoinTransactionTag {
      hash := HashBitcoinTransactionOfString(p, item);
    } else if hashTag == ProofOfReserveLeafTag {
      hash := HashProofOfReserveLeafOfString(p, item);
    } else {
      hash := TaggedHashOfString(p, hashTag, item);
    }
  }

  /** The branch hashing of BuildTree, GenerateProofHelper and VerifyProof, dispatched on the tag like the leaves. */
  method HashBranchBytes(p: Primitives, branchHashTag: string, combined: seq<byte>) returns (hash: Digest)
    ensures hash == Tagged(p, branchHashTag, combined)
  {
    if branchHashTag == BitcoinTransactionTag {
      hash := HashBitcoinTransaction(p, combined);
    } else if branchHashTag == ProofOfReserveBranchTag {
      hash := HashProofOfReserveBranch(p, combined);
    } else {
      hash := TaggedHash(p, branchHashTag, combined);
    }
  }

  /** Decodes a hex string two characters at a time, failing where the C# code throws. */
  method StringToByteArray(hex: string) returns (r: Result<seq<byte>, HexError>)
    ensures r == DecodeHex(hex)
  {
    var length := |hex|;
    var bytes := new byte[length / 2];
    var i := 0;
    while i < length
      invariant 0 <= i <= length && i % 2 == 0
      invariant forall k :: 0 <= k < i ==> IsHexChar(hex[k])
      invariant forall k :: 0 <= k < i / 2 ==> bytes[k] == PairValue(hex[2 * k], hex[2 * k + 1])
      invariant DecodeHex(hex[i..]).Failure? ==> DecodeHex(hex) == DecodeHex(hex[i..])
    {
      if i + 2 > length {
        assert |hex[i..]| == 1;
        assert DecodeHex(hex[i..]) == Failure(SubstringOutOfRange);
        return Failure(SubstringOutOfRange);
      }
      if !(IsHexChar(hex[i]) && IsHexChar(hex[i + 1])) {
        DecodeHexBadPair(hex, i);
        return Failure(NotHexDigits);
      }
      bytes[i / 2] := PairValue(hex[i], hex[i + 1]);
      DecodeHexTail(hex, i);
      i := i + 2;
    }
    DecodeHexOfPairs(hex, bytes[..]);
    r := Success(bytes[..]);
  }

  /** A string of valid pairs decodes to the bytes the pairs denote. */
  lemma DecodeHexOfPairs(hex: string, bytes: seq<byte>)
    requires |hex| == 2 * |bytes|
    requires forall k :: 0 <= k < |hex| ==> IsHexChar(hex[k])
    requires forall k :: 0 <= k < |bytes| ==> bytes[k] == PairValue(hex[2 * k], hex[2 * k + 1])
    ensures DecodeHex(hex) == Success(bytes)
  {
    assert AllHex(hex);
    DecodeHexSucceeds(hex);
    assert DecodeHex(hex).value == bytes;
  }

  /** Decoding from position `i` fails with NotHexDigits when the pair at `i` is not hex. */
  lemma DecodeHexBadPair(hex: string, i: nat)
    requires i + 2 <= |hex| && !(IsHexChar(hex[i]) && IsHexChar(hex[i + 1]))
    ensures DecodeHex(hex[i..]) == Failure(NotHexDigits)
  {
    assert hex[i..][0] == hex[i] && hex[i..][1] == hex[i + 1];
  }

  /** Decoding from position `i` after a valid pair continues from `i + 2` with the same outcome kind. */
  lemma DecodeHexTail(hex: string, i: nat)
    requires i + 2 <= |hex| && IsHexChar(hex[i]) && IsHexChar(hex[i + 1])
    ensures DecodeHex(hex[i + 2..]).Failure? ==> DecodeHex(hex[i..]) == DecodeHex(hex[i + 2..])
  {
    assert hex[i..][0] == hex[i] && hex[i..][1] == hex[i + 1];
    assert hex[i..][2..] == hex[i + 2..];
  }

  /** A membership proof: the item and the elements that lead from its leaf to the root. */
  class MerkleProof {
    const leafData: string
    var elements: seq<ProofElement>

    constructor (leafData: string)
      ensures this.leafData == leafData && elements == []
    {
      this.leafData := leafData;
      elements := [];
    }

    method AddElement(hash: string, isLeftSide: bool)
      modifies this`elements
      ensures elements == old(elements) + [(hash, isLeftSide)]
    {
      elements := elements + [(hash, isLeftSide)];
    }
  }

  class MerkleTree {
    const primitives: Primitives
    const hashTag: string
    const branchHashTag: string
    /** The items the tree was built from. */
    ghost const data: seq<string>

    const root: Option<MerkleNode>
    const leaves: seq<MerkleNode>
    const leafIndices: map<string, nat>

    /** The state the constructor establishes; every field is immutable, as in the C# class. */
    ghost predicate Valid()
    {
      && Hashes(leaves) == LeafHashes(primitives, hashTag, data)
      && (forall k :: 0 <= k < |leaves| ==> leaves[k].IsLeaf())
      && leafIndices == IndexMap(data)
      && HashOf(root) == Root(primitives, branchHashTag, Hashes(leaves))
      && (root.Some? ==> Consistent(primitives, branchHashTag, root.value))
      && (root.Some? ==> (root.value.IsLeaf() <==> |data| == 1))
    }

    constructor (p: Primitives, data: seq<string>, hashTag: string := BitcoinTransactionTag,
                 branchHashTag: string := BitcoinTransactionTag)
      ensures Valid()
      ensures this.primitives == p && this.data == data
      ensures this.hashTag == hashTag && this.branchHashTag == branchHashTag
    {
      this.primitives := p;
      this.hashTag := hashTag;
      this.branchHashTag := branchHashTag;
      this.data := data;
      var leaves: seq<MerkleNode> := [];
      var indices: map<string, nat> := map[];
      var index := 0;
      while index < |data|
        invariant 0 <= index <= |data|
        invariant Hashes(leaves) == LeafHashes(p, hashTag, data[..index])
        invariant forall k :: 0 <= k < |leaves| ==> leaves[k].IsLeaf()
        invariant indices == IndexMap(data[..index])
      {
        var item := data[index];
        var hash := HashLeafItem(p, hashTag, item);
        OneMoreItem(p, hashTag, data, index);
        HashesAppend(leaves, MerkleNode(hash, None, None));
        leaves := leaves + [MerkleNode(hash, None, None)];
        indices := indices[item := index];
        index := index + 1;
      }
      assert data[..index] == data;
      this.leaves := leaves;
      this.leafIndices := indices;
      var root := BuildTree(p, branchHashTag, leaves);
      this.root := root;
    }

    /** The root hash as hex: absent exactly for a tree of no items. */
    function GetRootHashAsHex(): (r: Option<string>)
      requires Valid()
      ensures r.None? <==> data == []
      ensures r == RootHex(primitives, hashTag, branchHashTag, data)
    {
      match root
      case None => None
      case Some(n) => Some(n.GetHashAsHex())
    }

    /** The parent hash of a pair: the branch-tag hash of the left hash followed by the right hash. */
    static method HashChildren(p: Primitives, branchHashTag: string, left: MerkleNode, right: MerkleNode) returns (parentHash: Digest)
      ensures parentHash == BranchHash(p, branchHashTag, left.hash, right.hash)
    {
      var combined := ConcatenateBytes(left.hash, right.hash);
      parentHash := HashBranchBytes(p, branchHashTag, combined);
    }

    /**
     * Reduces `nodes` to their root: consecutive pairs (the last node paired
     * with itself when the count is odd) become parents, and the parents are
     * reduced in turn.
     */
    static method BuildTree(p: Primitives, branchHashTag: string, nodes: seq<MerkleNode>) returns (r: Option<MerkleNode>)
      requires forall k :: 0 <= k < |nodes| ==> Consistent(p, branchHashTag, nodes[k])
      ensures HashOf(r) == Root(p, branchHashTag, Hashes(nodes))
      ensures r.Some? ==> Consistent(p, branchHashTag, r.value)
      ensures |nodes| == 1 ==> r == Some(nodes[0])
      ensures |nodes| >= 2 ==> r.Some? && !r.value.IsLeaf()
      decreases |nodes|
    {
      if |nodes| == 0 {
        return None;
      }
      if |nodes| == 1 {
        return Some(nodes[0]);
      }
      ghost var next := NextLevel(p, branchHashTag, Hashes(nodes));
      var parents: seq<MerkleNode> := [];
      var i := 0;
      while i < |nodes|
        invariant 0 <= i <= |nodes| + 1 && i == 2 * |parents|
        invariant Hashes(parents) == next[..|parents|]
        invariant forall k :: 0 <= k < |parents| ==>
          !parents[k].IsLeaf() && Consistent(p, branchHashTag, parents[k])
      {
        var right := if i + 1 < |nodes| then nodes[i + 1] else nodes[i];
        var parentHash := HashChildren(p, branchHashTag, nodes[i], right);
        ParentsGrow(p, branchHashTag, nodes, parents, right, MerkleNode(parentHash, Some(nodes[i]), Some(right)));
        parents := parents + [MerkleNode(parentHash, Some(nodes[i]), Some(right))];
        i := i + 2;
      }
      assert next[..|parents|] == next;
      r := BuildTree(p, branchHashTag, parents);
    }

    /** The proof for `data`, or DataNotFound (an ArgumentException in C#) when it is not an item. */
    method GenerateProof(data: string) returns (r: Result<MerkleProof, TreeError>)
      requires Valid()
      ensures r.Failure? <==> data !in this.data
      ensures r.Failure? ==> r.error == DataNotFound
      ensures r.Success? ==> fresh(r.value) && r.value.leafData == data
      ensures r.Success? ==> r.value.elements == ProofFor(primitives, hashTag, branchHashTag, this.data, data).value
    {
      if data !in leafIndices {
        return Failure(DataNotFound);
      }
      var leafIndex := leafIndices[data];
      var proof := new MerkleProof(data);
      GenerateProofHelper(leaves, leafIndex, proof);
      return Success(proof);
    }

    /**
     * Repeats the reduction of BuildTree; at the pair that holds the node at
     * `nodeIndex` it records the sibling and moves the index to the parent.
     */
    method GenerateProofHelper(nodes: seq<MerkleNode>, nodeIndex: nat, proof: MerkleProof)
      requires nodeIndex < |nodes|
      modifies proof`elements
      ensures proof.elements == old(proof.elements) + Path(primitives, branchHashTag, Hashes(nodes), nodeIndex)
      decreases |nodes|
    {
      if |nodes| <= 1 {
        return;
      }
      ghost var level := Hashes(nodes);
      ghost var next := NextLevel(primitives, branchHashTag, level);
      ghost var pair := nodeIndex / 2;
      assert nodeIndex == 2 * pair || nodeIndex == 2 * pair + 1;
      ghost var step := ProofStep(level, nodeIndex);
      var parents: seq<MerkleNode> := [];
      var index := nodeIndex;
      var i := 0;
      while i < |nodes|
        invariant 0 <= i <= |nodes| + 1 && i == 2 * |parents|
        invariant Hashes(parents) == next[..|parents|]
        invariant |parents| <= pair ==> index == nodeIndex && proof.elements == old(proof.elements)
        invariant |parents| > pair ==> index == pair && proof.elements == old(proof.elements) + [step]
      {
        var right := if i + 1 < |nodes| then nodes[i + 1] else nodes[i];
        var parentHash := HashChildren(primitives, branchHashTag, nodes[i], right);
        ParentsGrow(primitives, branchHashTag, nodes, parents, right, MerkleNode(parentHash, None, None));
        ghost var before := parents;
        parents := parents + [MerkleNode(parentHash, None, None)];
        if i == index || (i + 1 == index && i + 1 < |nodes|) {
          assert |before| == pair;
          if i == index {
            RightOfHashes(nodes, nodeIndex, right);
            proof.AddElement(ToHexString(right.hash), false);
          } else {
            assert nodes[i].hash == level[nodeIndex - 1];
            proof.AddElement(ToHexString(nodes[i].hash), true);
          }
          assert i / 2 == pair;
          index := i / 2;
        } else {
          assert |before| != pair;
        }
        i := i + 2;
      }
      assert next[..|parents|] == next;
      GenerateProofHelper(parents, index, proof);
      PathOfParents(primitives, branchHashTag, nodes, parents, nodeIndex, old(proof.elements));
    }

    /**
     * Recomputes the root from the leaf data and the proof elements and
     * compares its hex with `root` exactly; an undecodable sibling is the
     * exception StringToByteArray raises.
     */
    static method VerifyProof(p: Primitives, proof: MerkleProof, root: string,
                              hashTag: string := BitcoinTransactionTag,
                              branchHashTag: string := BitcoinTransactionTag)
      returns (r: Result<bool, HexError>)
      ensures r == Verify(p, proof.leafData, proof.elements, root, hashTag, branchHashTag)
    {
      var currentHash := HashLeafItem(p, hashTag, proof.leafData);
      var elements := proof.elements;
      var k := 0;
      while k < |elements|
        invariant 0 <= k <= |elements|
        invariant Fold(p, branchHashTag, LeafHash(p, hashTag, proof.leafData), elements)
               == Fold(p, branchHashTag, currentHash, elements[k..])
      {
        var (siblingHashHex, isLeftSide) := elements[k];
        var decoded := StringToByteArray(siblingHashHex);
        if decoded.Failure? {
          return Failure(decoded.error);
        }
        var siblingHash := decoded.value;
        var combined;
        if isLeftSide {
          combined := ConcatenateBytes(siblingHash, currentHash);
        } else {
          combined := ConcatenateBytes(currentHash, siblingHash);
        }
        assert elements[k..][1..] == elements[k + 1..];
        currentHash := HashBranchBytes(p, branchHashTag, combined);
        k := k + 1;
      }
      r := Success(ToHexString(currentHash) == root);
    }
  }
}
