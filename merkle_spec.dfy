/**
 * Reference definitions of what the Merkle tree computes, as functions over
 * digests: leaf hashing, the item-to-index map, one reduction level, the
 * root, the sibling path recorded for an item, hex decoding of siblings and
 * the verifier's fold. The classes in module Merkle are proved equal to
 * these; the properties of the library are lemmas here.
 */
module MerkleSpec {
  import opened Wrappers
  import opened Bip340

  /** A proof element: the sibling's hash as hex, and whether the sibling is on the left. */
  type ProofElement = (string, bool)

  datatype TreeError = DataNotFound

  /** The exceptions StringToByteArray can raise. */
  datatype HexError =
    | SubstringOutOfRange   // odd length: the last two-character substring runs past the end
    | NotHexDigits          // a two-character pair that is not a hex number

  // ---------------------------------------------------------------------
  // Leaves and the index map

  function LeafHash(p: Primitives, hashTag: string, item: string): Digest
  {
    Tagged(p, hashTag, p.utf8(item))
  }

  function BranchHash(p: Primitives, branchHashTag: string, left: Digest, right: Digest): Digest
  {
    Tagged(p, branchHashTag, left + right)
  }

  /** The leaf list, built by appending one leaf per item. */
  function LeafHashes(p: Primitives, hashTag: string, items: seq<string>): (leaves: seq<Digest>)
    ensures |leaves| == |items|
    ensures forall k :: 0 <= k < |items| ==> leaves[k] == LeafHash(p, hashTag, items[k])
  {
    if items == [] then []
    else LeafHashes(p, hashTag, items[..|items| - 1]) + [LeafHash(p, hashTag, items[|items| - 1])]
  }

  /**
   * The item-to-index dictionary, built by assigning `map[item] := index` for
   * each item in turn: a later duplicate overwrites, so an item maps to its
   * last position.
   */
  function IndexMap(items: seq<string>): (m: map<string, nat>)
    ensures forall x :: x in m <==> x in items
    ensures forall x :: x in m ==> m[x] < |items| && items[m[x]] == x
    ensures forall x, j :: x in m && m[x] < j < |items| ==> items[j] != x
  {
    if items == [] then map[]
    else IndexMap(items[..|items| - 1])[items[|items| - 1] := |items| - 1]
  }

  // ---------------------------------------------------------------------
  // Reduction

  /** The node paired with position `i` (even) at a level: the next one, or itself when `i` is last. */
  function RightOf(level: seq<Digest>, i: nat): Digest
    requires i < |level|
  {
    if i + 1 < |level| then level[i + 1] else level[i]
  }

  /** One reduction level: consecutive pairs are hashed; an odd trailing node is paired with itself. */
  function NextLevel(p: Primitives, branchHashTag: string, level: seq<Digest>): (parents: seq<Digest>)
    ensures |parents| == (|level| + 1) / 2
    ensures |level| >= 2 ==> |parents| < |level|
    decreases |level|
  {
    if |level| == 0 then []
    else if |level| == 1 then [BranchHash(p, branchHashTag, level[0], level[0])]
    else [BranchHash(p, branchHashTag, level[0], level[1])] + NextLevel(p, branchHashTag, level[2..])
  }

  /** Parent k is the branch hash of nodes 2k and 2k+1, or of node 2k twice when it is the last node. */
  lemma {:induction false} NextLevelAt(p: Primitives, branchHashTag: string, level: seq<Digest>, k: nat)
    requires k < (|level| + 1) / 2
    ensures NextLevel(p, branchHashTag, level)[k] == BranchHash(p, branchHashTag, level[2 * k], RightOf(level, 2 * k))
    decreases |level|
  {
    if k > 0 {
      NextLevelAt(p, branchHashTag, level[2..], k - 1);
      assert level[2..][2 * (k - 1)] == level[2 * k];
      assert RightOf(level[2..], 2 * (k - 1)) == RightOf(level, 2 * k);
    }
  }

  /** The root: absent for no nodes, the node itself for one, else the root of the next level. */
  function Root(p: Primitives, branchHashTag: string, level: seq<Digest>): (r: Option<Digest>)
    ensures r.None? <==> |level| == 0
    decreases |level|
  {
    if |level| == 0 then None
    else if |level| == 1 then Some(level[0])
    else Root(p, branchHashTag, NextLevel(p, branchHashTag, level))
  }

  /** Number of reduction levels above `n` nodes. */
  function Levels(n: nat): nat
    decreases n
  {
    if n <= 1 then 0 else 1 + Levels((n + 1) / 2)
  }

  // ---------------------------------------------------------------------
  // Proof generation

  /**
   * The element recorded at a level for the node at `index`: for a left node,
   * its right partner (itself when it is last) with flag false; for a right
   * node, its left partner with flag true.
   */
  function ProofStep(level: seq<Digest>, index: nat): (step: ProofElement)
    requires index < |level|
    ensures |step.0| == 64
    ensures step.1 <==> index % 2 == 1
  {
    if index % 2 == 0 then (ToHexString(RightOf(level, index)), false)
    else (ToHexString(level[index - 1]), true)
  }

  /** The elements recorded from `level` up to the root, following the index through each level. */
  function Path(p: Primitives, branchHashTag: string, level: seq<Digest>, index: nat): (path: seq<ProofElement>)
    requires index < |level|
    ensures |path| == Levels(|level|)
    decreases |level|
  {
    if |level| <= 1 then []
    else [ProofStep(level, index)] + Path(p, branchHashTag, NextLevel(p, branchHashTag, level), index / 2)
  }

  lemma PathUnfold(p: Primitives, branchHashTag: string, level: seq<Digest>, index: nat)
    requires index < |level| && |level| >= 2
    ensures Path(p, branchHashTag, level, index)
         == [ProofStep(level, index)] + Path(p, branchHashTag, NextLevel(p, branchHashTag, level), index / 2)
  {
  }

  /** The root of the tree over `items`, as lowercase hex, or absent for no items. */
  function RootHex(p: Primitives, hashTag: string, branchHashTag: string, items: seq<string>): (r: Option<string>)
    ensures r.None? <==> items == []
    ensures r.Some? ==> |r.value| == 64
  {
    match Root(p, branchHashTag, LeafHashes(p, hashTag, items))
    case None => None
    case Some(d) => Some(ToHexString(d))
  }

  /** The proof elements generated for `data`, or DataNotFound when it is not an item. */
  function ProofFor(p: Primitives, hashTag: string, branchHashTag: string, items: seq<string>, data: string)
    : (r: Result<seq<ProofElement>, TreeError>)
    ensures r.Failure? <==> data !in items
    ensures r.Success? ==> |r.value| == Levels(|items|)
  {
    var indices := IndexMap(items);
    if data !in indices then Failure(DataNotFound)
    else Success(Path(p, branchHashTag, LeafHashes(p, hashTag, items), indices[data]))
  }

  // ---------------------------------------------------------------------
  // Hex decoding

  /** Value of a hex digit of either case (Convert.ToByte with base 16). */
  function HexDigitValue(c: char): (v: Option<nat>)
    ensures v.Some? ==> v.value < 16
  {
    if '0' <= c <= '9' then Some(c as int - '0' as int)
    else if 'a' <= c <= 'f' then Some(c as int - 'a' as int + 10)
    else if 'A' <= c <= 'F' then Some(c as int - 'A' as int + 10)
    else None
  }

  predicate IsHexChar(c: char)
  {
    HexDigitValue(c).Some?
  }

  predicate AllHex(s: string)
  {
    forall i :: 0 <= i < |s| ==> IsHexChar(s[i])
  }

  function PairValue(hi: char, lo: char): byte
    requires IsHexChar(hi) && IsHexChar(lo)
  {
    16 * HexDigitValue(hi).value + HexDigitValue(lo).value
  }

  /**
   * StringToByteArray, pair by pair from the front: a pair running past the
   * end is SubstringOutOfRange, a pair that is not two hex digits is
   * NotHexDigits.
   */
  function DecodeHex(s: string): Result<seq<byte>, HexError>
    decreases |s|
  {
    if |s| == 0 then Success([])
    else if |s| == 1 then Failure(SubstringOutOfRange)
    else if !(IsHexChar(s[0]) && IsHexChar(s[1])) then Failure(NotHexDigits)
    else match DecodeHex(s[2..])
      case Failure(e) => Failure(e)
      case Success(tail) => Success([PairValue(s[0], s[1])] + tail)
  }

  /** Decoding succeeds exactly on even-length strings of hex digits, and then gives one byte per pair. */
  lemma {:induction false} DecodeHexSucceeds(s: string)
    ensures DecodeHex(s).Success? <==> |s| % 2 == 0 && AllHex(s)
    ensures DecodeHex(s).Success? ==> |DecodeHex(s).value| == |s| / 2
    ensures DecodeHex(s).Success? ==>
      forall k :: 0 <= k < |s| / 2 ==> DecodeHex(s).value[k] == PairValue(s[2 * k], s[2 * k + 1])
    decreases |s|
  {
    if |s| >= 2 {
      var t := s[2..];
      DecodeHexSucceeds(t);
      if IsHexChar(s[0]) && IsHexChar(s[1]) {
        assert AllHex(s) <==> AllHex(t) by {
          if AllHex(t) {
            forall i | 2 <= i < |s| ensures IsHexChar(s[i]) { assert s[i] == t[i - 2]; }
          }
        }
        if DecodeHex(s).Success? {
          var d := DecodeHex(s).value;
          forall k | 1 <= k < |s| / 2 ensures d[k] == PairValue(s[2 * k], s[2 * k + 1]) {
            assert t[2 * (k - 1)] == s[2 * k] && t[2 * (k - 1) + 1] == s[2 * k + 1];
          }
        }
      } else {
        assert !AllHex(s);
      }
    }
  }

  /** Which exception decoding raises: an odd length reports the overrun, a bad pair in an even-length string the format. */
  lemma {:induction false} DecodeHexFailures(s: string)
    ensures |s| % 2 == 1 && AllHex(s[..|s| - 1]) ==> DecodeHex(s) == Failure(SubstringOutOfRange)
    ensures |s| % 2 == 0 && !AllHex(s) ==> DecodeHex(s) == Failure(NotHexDigits)
    decreases |s|
  {
    if |s| >= 2 {
      var t := s[2..];
      DecodeHexFailures(t);
      if IsHexChar(s[0]) && IsHexChar(s[1]) {
        if |s| % 2 == 1 && AllHex(s[..|s| - 1]) {
          var u := t[..|t| - 1];
          forall i | 0 <= i < |u| ensures IsHexChar(u[i]) {
            assert u[i] == s[..|s| - 1][i + 2];
          }
        }
        if |s| % 2 == 0 && !AllHex(s) {
          var i :| 0 <= i < |s| && !IsHexChar(s[i]);
          assert t[i - 2] == s[i];
        }
      } else if |s| % 2 == 1 {
        assert s[..|s| - 1][0] == s[0] && s[..|s| - 1][1] == s[1];
      }
    }
  }

  /** Decoding undoes lowercase hex encoding. */
  lemma DecodeHexOfToHexString(bytes: seq<byte>)
    ensures DecodeHex(ToHexString(bytes)) == Success(bytes)
  {
    var s := ToHexString(bytes);
    ToHexStringLayout(bytes);
    assert AllHex(s) by {
      forall i | 0 <= i < |s| ensures IsHexChar(s[i]) { assert IsLowerHexChar(s[i]); }
    }
    DecodeHexSucceeds(s);
    var d := DecodeHex(s).value;
    forall k | 0 <= k < |bytes| ensures d[k] == bytes[k] {
      HexDigitRoundTrip(bytes[k] / 16);
      HexDigitRoundTrip(bytes[k] % 16);
      assert d[k] == PairValue(s[2 * k], s[2 * k + 1]);
    }
    assert d == bytes;
  }

  lemma HexDigitRoundTrip(n: int)
    requires 0 <= n < 16
    ensures HexDigitValue(HexDigit(n)) == Some(n)
  {
  }

  /** Distinct byte sequences have distinct hex strings. */
  lemma ToHexStringInjective(a: seq<byte>, b: seq<byte>)
    ensures ToHexString(a) == ToHexString(b) ==> a == b
  {
    DecodeHexOfToHexString(a);
    DecodeHexOfToHexString(b);
  }

  // ---------------------------------------------------------------------
  // Verification

  /** One verifier step: the sibling goes before the current hash when it is on the left. */
  function Combine(p: Primitives, branchHashTag: string, current: Digest, sibling: seq<byte>, isLeftSide: bool): Digest
  {
    if isLeftSide then Tagged(p, branchHashTag, sibling + current)
    else Tagged(p, branchHashTag, current + sibling)
  }

  /** The verifier's left fold over the proof elements, failing at the first undecodable sibling. */
  function Fold(p: Primitives, branchHashTag: string, current: Digest, elements: seq<ProofElement>)
    : Result<Digest, HexError>
    decreases |elements|
  {
    if elements == [] then Success(current)
    else match DecodeHex(elements[0].0)
      case Failure(e) => Failure(e)
      case Success(sibling) =>
        Fold(p, branchHashTag, Combine(p, branchHashTag, current, sibling, elements[0].1), elements[1..])
  }

  /** VerifyProof: fold from the leaf hash, then compare the hex of the result with `root` exactly. */
  function Verify(p: Primitives, leafData: string, elements: seq<ProofElement>, root: string,
                  hashTag: string, branchHashTag: string): (r: Result<bool, HexError>)
    ensures r == Success(true) ==> |root| == 64
  {
    match Fold(p, branchHashTag, LeafHash(p, hashTag, leafData), elements)
    case Failure(e) => Failure(e)
    case Success(d) => Success(ToHexString(d) == root)
  }

  // ---------------------------------------------------------------------
  // Properties

  /** The element recorded for `index` combines with the node at `index` into its parent on the next level. */
  lemma ProofStepGivesParent(p: Primitives, branchHashTag: string, level: seq<Digest>, index: nat)
    requires index < |level|
    ensures DecodeHex(ProofStep(level, index).0).Success?
    ensures Combine(p, branchHashTag, level[index], DecodeHex(ProofStep(level, index).0).value, ProofStep(level, index).1)
         == NextLevel(p, branchHashTag, level)[index / 2]
  {
    var m := index / 2;
    NextLevelAt(p, branchHashTag, level, m);
    var step := ProofStep(level, index);
    if index % 2 == 0 {
      assert index == 2 * m;
      var sibling := RightOf(level, index);
      assert step == (ToHexString(sibling), false);
      DecodeHexOfToHexString(sibling);
    } else {
      assert index == 2 * m + 1;
      var sibling := level[index - 1];
      assert step == (ToHexString(sibling), true);
      assert RightOf(level, 2 * m) == level[index];
      DecodeHexOfToHexString(sibling);
    }
  }

  /** Fold over a non-empty list whose head decodes: one Combine, then the rest. */
  lemma FoldStep(p: Primitives, branchHashTag: string, current: Digest, elements: seq<ProofElement>)
    requires elements != [] && DecodeHex(elements[0].0).Success?
    ensures Fold(p, branchHashTag, current, elements)
         == Fold(p, branchHashTag, Combine(p, branchHashTag, current, DecodeHex(elements[0].0).value, elements[0].1), elements[1..])
  {
  }

  /** Folding the path of the node at `index` reproduces the root of the level. */
  lemma {:induction false} PathFoldsToRoot(p: Primitives, branchHashTag: string, level: seq<Digest>, index: nat)
    requires index < |level|
    ensures Fold(p, branchHashTag, level[index], Path(p, branchHashTag, level, index))
         == Success(Root(p, branchHashTag, level).value)
    decreases |level|
  {
    if |level| > 1 {
      var next := NextLevel(p, branchHashTag, level);
      var path := Path(p, branchHashTag, level, index);
      assert path[0] == ProofStep(level, index);
      assert path[1..] == Path(p, branchHashTag, next, index / 2);
      ProofStepGivesParent(p, branchHashTag, level, index);
      FoldStep(p, branchHashTag, level[index], path);
      PathFoldsToRoot(p, branchHashTag, next, index / 2);
      assert Root(p, branchHashTag, level) == Root(p, branchHashTag, next);
    }
  }

  /** Every item of a non-empty tree has a proof that verifies against the tree's root hex. */
  lemma GenerateThenVerify(p: Primitives, hashTag: string, branchHashTag: string, items: seq<string>, data: string)
    requires data in items
    ensures ProofFor(p, hashTag, branchHashTag, items, data).Success?
    ensures RootHex(p, hashTag, branchHashTag, items).Some?
    ensures Verify(p, data, ProofFor(p, hashTag, branchHashTag, items, data).value,
                   RootHex(p, hashTag, branchHashTag, items).value, hashTag, branchHashTag) == Success(true)
  {
    var leaves := LeafHashes(p, hashTag, items);
    var j := IndexMap(items)[data];
    PathFoldsToRoot(p, branchHashTag, leaves, j);
  }

  /** A proof that verifies against `root` verifies against no other string: the comparison is exact. */
  lemma OnlyExactRootAccepted(p: Primitives, leafData: string, elements: seq<ProofElement>, root: string,
                              other: string, hashTag: string, branchHashTag: string)
    requires Verify(p, leafData, elements, root, hashTag, branchHashTag) == Success(true)
    requires other != root
    ensures Verify(p, leafData, elements, other, hashTag, branchHashTag) == Success(false)
  {
  }

  /** A generated proof checked against a string that is not 64 hex characters, such as "invalid_root", gives false. */
  lemma InvalidRootRejected(p: Primitives, hashTag: string, branchHashTag: string, items: seq<string>, data: string)
    requires data in items
    ensures Verify(p, data, ProofFor(p, hashTag, branchHashTag, items, data).value,
                   "invalid_root", hashTag, branchHashTag) == Success(false)
  {
    GenerateThenVerify(p, hashTag, branchHashTag, items, data);
  }

  /** Verification fails (the C# code throws) exactly when some sibling string does not decode. */
  lemma {:induction false} FoldFailsIffUndecodable(p: Primitives, branchHashTag: string, current: Digest,
                                                   elements: seq<ProofElement>)
    ensures Fold(p, branchHashTag, current, elements).Failure? <==>
      exists k :: 0 <= k < |elements| && DecodeHex(elements[k].0).Failure?
    decreases |elements|
  {
    if elements != [] {
      match DecodeHex(elements[0].0)
      case Failure(_) =>
      case Success(sibling) =>
        var next := Combine(p, branchHashTag, current, sibling, elements[0].1);
        FoldFailsIffUndecodable(p, branchHashTag, next, elements[1..]);
        if exists k :: 0 <= k < |elements| && DecodeHex(elements[k].0).Failure? {
          var k :| 0 <= k < |elements| && DecodeHex(elements[k].0).Failure?;
          assert elements[1..][k - 1] == elements[k];
        }
    }
  }

  /** A tree of one item has the leaf hash as its root and an empty proof. */
  lemma SingleLeafTree(p: Primitives, hashTag: string, branchHashTag: string, item: string)
    ensures RootHex(p, hashTag, branchHashTag, [item]) == Some(ToHexString(LeafHash(p, hashTag, item)))
    ensures ProofFor(p, hashTag, branchHashTag, [item], item) == Success([])
  {
  }

  /** A tree of no items has no root, and every proof request fails. */
  lemma EmptyTree(p: Primitives, hashTag: string, branchHashTag: string, data: string)
    ensures RootHex(p, hashTag, branchHashTag, []) == None
    ensures ProofFor(p, hashTag, branchHashTag, [], data) == Failure(DataNotFound)
  {
  }

  /** Repeating the last node of an odd level does not change the next level. */
  lemma NextLevelOddDuplicate(p: Primitives, branchHashTag: string, level: seq<Digest>)
    requires |level| % 2 == 1
    ensures NextLevel(p, branchHashTag, level + [level[|level| - 1]]) == NextLevel(p, branchHashTag, level)
  {
    var longer := level + [level[|level| - 1]];
    var a := NextLevel(p, branchHashTag, longer);
    var b := NextLevel(p, branchHashTag, level);
    forall k | 0 <= k < |a| ensures a[k] == b[k] {
      NextLevelAt(p, branchHashTag, longer, k);
      NextLevelAt(p, branchHashTag, level, k);
      assert longer[2 * k] == level[2 * k];
      assert RightOf(longer, 2 * k) == RightOf(level, 2 * k);
    }
  }

  /**
   * For an odd number of items (at least three), appending a copy of the last
   * item leaves the root unchanged.
   */
  lemma OddCountDuplicateKeepsRoot(p: Primitives, hashTag: string, branchHashTag: string, items: seq<string>)
    requires |items| % 2 == 1 && |items| >= 3
    ensures RootHex(p, hashTag, branchHashTag, items + [items[|items| - 1]])
         == RootHex(p, hashTag, branchHashTag, items)
  {
    var longer := items + [items[|items| - 1]];
    var leaves := LeafHashes(p, hashTag, items);
    assert longer[..|longer| - 1] == items;
    assert LeafHashes(p, hashTag, longer) == leaves + [leaves[|leaves| - 1]];
    NextLevelOddDuplicate(p, branchHashTag, leaves);
  }

  /** The trees over [a, b, c] and [a, b, c, c] have the same root hex. */
  lemma ThreeItemsAndDuplicatedLast(p: Primitives, hashTag: string, branchHashTag: string, a: string, b: string, c: string)
    ensures RootHex(p, hashTag, branchHashTag, [a, b, c]) == RootHex(p, hashTag, branchHashTag, [a, b, c, c])
  {
    assert [a, b, c] + [c] == [a, b, c, c];
    OddCountDuplicateKeepsRoot(p, hashTag, branchHashTag, [a, b, c]);
  }
}
