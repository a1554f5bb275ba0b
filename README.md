# ProofOfReserve Merkle tree, in Dafny

A model of the Merkle-tree library of ProofOfReserve. An exchange publishes
the root of a tree whose leaves are its users, each serialised as `(id,balance)`.
A user can then check, from a proof of membership, that they are counted in
the published root. The model covers four parts:

- **The tagged hash** (module `Bip340`, `bip340.dfy`). This is BIP-340's
  `SHA256(SHA256(tag) || SHA256(tag) || msg)` (the definition of hash_name(x)
  in the Specification section of BIP-340). The byte overload fills a buffer
  with three block copies, as the C# code does. The model also has the
  string overload, the six fixed-tag wrappers, lowercase hex encoding and
  byte concatenation.
- **Reference definitions** (module `MerkleSpec`, `merkle_spec.dfy`). These
  are functions over digests for what the tree computes:
  - the leaf hashes and the item-to-index map;
  - one reduction level, in which an odd trailing node is paired with
    itself, and the root;
  - the sibling path recorded for an item;
  - decoding of hex siblings, with the two exceptions it can raise;
  - the verifier's left fold.

  The properties of the library are lemmas over these definitions. The main
  one is that every generated proof verifies against the root.
- **The library's classes** (module `Merkle`, `merkle_tree.dfy`):
  - `MerkleNode` is a datatype.
  - `MerkleProof` is a class. Its element list grows with `AddElement`.
  - `MerkleTree` is a class. Its constructor hashes the items in a loop,
    fills the index dictionary and builds the tree. `BuildTree`,
    `GenerateProofHelper`, `VerifyProof` and `StringToByteArray` keep the C#
    code's loops.

  Each method is proved equal to its reference definition.
- **The leaf item** (module `Users`, `user.dfy`). `User.ToString` gives
  `"(" + id + "," + balance + ")"`. A parser reads that string back, which
  proves that distinct users give distinct strings.

SHA-256 and UTF-8 encoding are runtime library calls. They are parameters of
the model: the value `Primitives(sha256, utf8)` is passed to every
operation. SHA-256 is only assumed to return 32 bytes. No property proved
here relies on collision resistance.

Exceptions are `Failure` values:
- `GenerateProof` on an unknown item gives `Failure(DataNotFound)`, in place
  of the C# `ArgumentException`.
- When `StringToByteArray` would throw, inside `VerifyProof` too, the result
  is the exception the C# loop meets first, pair by pair from the front. A
  pair that is not two hex digits gives `Failure(NotHexDigits)`, which stands
  for the FormatException and, for a pair starting with '-', the
  ArgumentException of `Convert.ToByte`. When every
  full pair is hex and one character is left over, the result is
  `Failure(SubstringOutOfRange)`. So "zz1" gives `NotHexDigits`.

Two behaviours of the code are easy to miss:
- The item-to-index dictionary is filled by overwriting. So a duplicated
  item maps to its **last** position (`IndexMap`, and the `leafIndices`
  invariant of `MerkleTree`).
- `VerifyProof` compares the computed hex with the expected root **exactly**.
  Case is not normalised, so an upper-case root is rejected
  (`OnlyExactRootAccepted`).

## Model

| member | source | states |
|---|---|---|
| Bip340.BlockCopy | ProofOfReserve.MerkleTree/BIP340HashUtility.cs:26-28 | the source bytes land in the destination from `offset` on, in order; every other byte of the destination is unchanged |
| Bip340.Tagged | ProofOfReserve.MerkleTree/BIP340HashUtility.cs:13 | reference definition of the tagged hash: SHA256 of SHA256(UTF-8 tag), the same again, then the message; 32 bytes by its type `Digest` |
| Bip340.TaggedHash | ProofOfReserve.MerkleTree/BIP340HashUtility.cs:18-32 | the three block copies into a fresh buffer, then SHA256 of the buffer, give exactly the reference tagged hash; the body proves the buffer is the tag hash twice followed by the message |
| Bip340.TaggedHashOfString | ProofOfReserve.MerkleTree/BIP340HashUtility.cs:41-44 | the string overload is the byte overload applied to the UTF-8 bytes of the message |
| Bip340.HashBitcoinTransactionOfString | ProofOfReserve.MerkleTree/BIP340HashUtility.cs:51-54 | equals the tagged hash with the literal tag "Bitcoin_Transaction" of the UTF-8 message |
| Bip340.HashBitcoinTransaction | ProofOfReserve.MerkleTree/BIP340HashUtility.cs:61-64 | equals the tagged hash with tag "Bitcoin_Transaction" of the bytes |
| Bip340.HashProofOfReserveLeafOfString | ProofOfReserve.MerkleTree/BIP340HashUtility.cs:71-74 | equals the tagged hash with tag "ProofOfReserve_Leaf" of the UTF-8 message |
| Bip340.HashProofOfReserveLeaf | ProofOfReserve.MerkleTree/BIP340HashUtility.cs:81-84 | equals the tagged hash with tag "ProofOfReserve_Leaf" of the bytes |
| Bip340.HashProofOfReserveBranchOfString | ProofOfReserve.MerkleTree/BIP340HashUtility.cs:91-94 | equals the tagged hash with tag "ProofOfReserve_Branch" of the UTF-8 message |
| Bip340.HashProofOfReserveBranch | ProofOfReserve.MerkleTree/BIP340HashUtility.cs:101-104 | equals the tagged hash with tag "ProofOfReserve_Branch" of the bytes |
| Bip340.HexDigit | ProofOfReserve.MerkleTree/BIP340HashUtility.cs:113 | the character for a nibble is lowercase hex, a decimal digit exactly for values below ten |
| Bip340.ToHexString | ProofOfReserve.MerkleTree/BIP340HashUtility.cs:111-114 | the hex string has two characters per byte and no separators |
| Bip340.ToHexStringLayout | ProofOfReserve.MerkleTree/BIP340HashUtility.cs:111-114 | byte k sits at positions 2k (high nibble) and 2k+1 (low nibble); every character is one of 0-9a-f |
| MerkleSpec.ToHexStringInjective | ProofOfReserve.MerkleTree/BIP340HashUtility.cs:111-114 | distinct byte sequences have distinct hex strings |
| Bip340.ConcatenateBytes | ProofOfReserve.MerkleTree/BIP340HashUtility.cs:122-128 | the result is `first` followed by `second`, so its length is the sum of theirs |
| MerkleSpec.LeafHash | ProofOfReserve.MerkleTree/MerkleTree.cs:115-127 | reference definition of a leaf: the tagged hash, with the leaf tag, of the UTF-8 bytes of the item |
| MerkleSpec.BranchHash | ProofOfReserve.MerkleTree/MerkleTree.cs:174-192 | reference definition of a parent: the tagged hash, with the branch tag, of the left hash followed by the right hash |
| MerkleSpec.LeafHashes | ProofOfReserve.MerkleTree/MerkleTree.cs:112-133 | one leaf per item, in input order; leaf k is the tagged hash of the UTF-8 bytes of item k |
| MerkleSpec.IndexMap | ProofOfReserve.MerkleTree/MerkleTree.cs:131 | the keys are exactly the items; each item maps to a position holding that item; no later position holds it, so the position is the last occurrence |
| MerkleSpec.RightOf | ProofOfReserve.MerkleTree/MerkleTree.cs:172 | the right partner of node `i` is node `i+1`, or node `i` itself when it is the last node (duplication of an odd trailing node) |
| MerkleSpec.NextLevel | ProofOfReserve.MerkleTree/MerkleTree.cs:167-196 | n nodes give ⌈n/2⌉ parents, strictly fewer when n ≥ 2, which is why the reduction terminates |
| MerkleSpec.NextLevelAt | ProofOfReserve.MerkleTree/MerkleTree.cs:170-195 | parent k is the branch hash of node 2k followed by node 2k+1, or by node 2k itself when 2k is the last node |
| MerkleSpec.Root | ProofOfReserve.MerkleTree/MerkleTree.cs:153-199 | the root is absent exactly when there are no nodes |
| MerkleSpec.ProofStep | ProofOfReserve.MerkleTree/MerkleTree.cs:250-269 | the element recorded at one level is 64 hex characters, and its side flag is true exactly when the target is a right node (odd index) |
| MerkleSpec.Path | ProofOfReserve.MerkleTree/MerkleTree.cs:219-274 | one element is recorded per level while the level has more than one node |
| MerkleSpec.RootHex | ProofOfReserve.MerkleTree/MerkleTree.cs:148-151 | the root hex is absent exactly for no items, and otherwise has 64 characters |
| MerkleSpec.ProofFor | ProofOfReserve.MerkleTree/MerkleTree.cs:207-217 | fails exactly when the item is not in the tree; otherwise gives one element per level |
| MerkleSpec.ProofStepGivesParent | ProofOfReserve.MerkleTree/MerkleTree.cs:250-269 | the element recorded for a node decodes; combining it with the node, on the side its flag names, gives the node's parent (a left node's sibling is on the right with flag false, a right node's on the left with flag true) |
| MerkleSpec.HexDigitValue | ProofOfReserve.MerkleTree/MerkleTree.cs:341 | the value of a hex digit of either case, as `Convert.ToByte(..., 16)` reads it, is below 16; other characters have none |
| MerkleSpec.PairValue | ProofOfReserve.MerkleTree/MerkleTree.cs:341 | the byte a two-digit pair denotes: sixteen times the first digit plus the second |
| MerkleSpec.DecodeHex | ProofOfReserve.MerkleTree/MerkleTree.cs:335-344 | reference definition of the decoding, pair by pair from the front, with the first exception met; its properties are the next two rows |
| MerkleSpec.DecodeHexSucceeds | ProofOfReserve.MerkleTree/MerkleTree.cs:335-344 | decoding succeeds if and only if the length is even and every character is a hex digit; it then gives one byte per pair, the pair's value |
| MerkleSpec.DecodeHexFailures | ProofOfReserve.MerkleTree/MerkleTree.cs:335-344 | an odd-length string of hex digits fails with the substring overrun; an even-length string with a non-hex character fails with `NotHexDigits`, which stands for both exceptions `Convert.ToByte` can raise on a pair: the FormatException, and the ArgumentException for a pair starting with '-' |
| MerkleSpec.DecodeHexOfToHexString | ProofOfReserve.MerkleTree/MerkleTree.cs:335-344 | decoding the hex of any byte sequence gives back those bytes |
| MerkleSpec.Combine | ProofOfReserve.MerkleTree/MerkleTree.cs:304-328 | one verifier step: the sibling goes before the current hash when its flag says left, after it otherwise, and the pair is hashed with the branch tag |
| MerkleSpec.Fold | ProofOfReserve.MerkleTree/MerkleTree.cs:300-329 | reference definition of the verifier's left fold: each sibling is decoded, put on the side its flag names, and hashed with the branch tag; the first sibling that does not decode stops the fold |
| MerkleSpec.Verify | ProofOfReserve.MerkleTree/MerkleTree.cs:282-333 | the fold from the leaf hash, then the exact comparison of its hex with the root; true is possible only for a root of 64 characters |
| MerkleSpec.PathFoldsToRoot | ProofOfReserve.MerkleTree/MerkleTree.cs:282-333 | folding the recorded path from the node at any index reproduces the root of the level |
| MerkleSpec.GenerateThenVerify | ProofOfReserve.MerkleTree.Tests/MerkleTreeTests.cs:22-26 | for every item of a non-empty tree, verifying its generated proof against the root hex gives true |
| MerkleSpec.OnlyExactRootAccepted | ProofOfReserve.MerkleTree/MerkleTree.cs:332 | a proof that verifies against one root string gives false for every other string, so the comparison is exact and case-sensitive |
| MerkleSpec.InvalidRootRejected | ProofOfReserve.MerkleTree.Tests/MerkleTreeTests.cs:89-99 | a generated proof checked against "invalid_root" gives false |
| MerkleSpec.FoldFailsIffUndecodable | ProofOfReserve.MerkleTree/MerkleTree.cs:300-302 | verification fails (the C# code throws) if and only if some sibling string does not decode |
| MerkleSpec.SingleLeafTree | ProofOfReserve.MerkleTree.Tests/MerkleTreeTests.cs:51-69 | a one-item tree has the item's leaf hash as its root, and the item's proof is empty |
| MerkleSpec.EmptyTree | ProofOfReserve.MerkleTree.Tests/MerkleTreeTests.cs:71-87 | an empty tree has no root, and every proof request fails with DataNotFound |
| MerkleSpec.NextLevelOddDuplicate | ProofOfReserve.MerkleTree/MerkleTree.cs:172 | appending a copy of the last node of an odd level leaves the next level unchanged |
| MerkleSpec.OddCountDuplicateKeepsRoot | ProofOfReserve.MerkleTree/MerkleTree.cs:172 | for an odd number of items, at least three, appending a copy of the last item keeps the root hex |
| MerkleSpec.ThreeItemsAndDuplicatedLast | ProofOfReserve.MerkleTree.Tests/MerkleTreeTests.cs:101-116 | the trees over [a, b, c] and [a, b, c, c] have the same root hex |
| Merkle.MerkleNode.IsLeaf | ProofOfReserve.MerkleTree/MerkleTree.cs:26 | a node is a leaf exactly when it has neither child |
| Merkle.MerkleNode.GetHashAsHex | ProofOfReserve.MerkleTree/MerkleTree.cs:45-48 | the node hash as 64 lowercase hex characters (0-9a-f) that decode back to the hash |
| Merkle.Consistent | ProofOfReserve.MerkleTree/MerkleTree.cs:194 | every node is a leaf or has both children, and every branch holds the branch hash of its left child followed by its right child |
| Merkle.HashLeafItem | ProofOfReserve.MerkleTree/MerkleTree.cs:115-127 | the three-way dispatch on the leaf tag always gives the generic tagged hash of the UTF-8 item |
| Merkle.HashBranchBytes | ProofOfReserve.MerkleTree/MerkleTree.cs:174-192 | the three-way dispatch on the branch tag always gives the generic tagged hash of the bytes |
| Merkle.StringToByteArray | ProofOfReserve.MerkleTree/MerkleTree.cs:335-344 | the pairwise decoding loop gives exactly the reference decoding, including which exception it raises, for strings whose characters are single UTF-16 code units; `NotHexDigits` stands for both the FormatException and the ArgumentException that `Convert.ToByte` can raise on a pair, and a pair starting with '+' is outside the claim (see "## Left out") |
| Merkle.ParentsGrow | ProofOfReserve.MerkleTree/MerkleTree.cs:170-195 | appending the parent of the pair at `i` (the last node duplicated when odd) extends the computed prefix of the next level by one |
| Merkle.MerkleProof.constructor | ProofOfReserve.MerkleTree/MerkleTree.cs:70-74 | a new proof holds the leaf data and no elements |
| Merkle.MerkleProof.AddElement | ProofOfReserve.MerkleTree/MerkleTree.cs:81-84 | appends one (hash, side) element and changes nothing else |
| Merkle.MerkleTree.Valid | ProofOfReserve.MerkleTree/MerkleTree.cs:92-96 | the state the constructor leaves in the readonly fields: the leaves hold the leaf hashes of the data, the index map sends each item to its last position, the root hashes the leaves with every branch consistent, and the root is itself a leaf exactly when there is one item |
| Merkle.MerkleTree.constructor | ProofOfReserve.MerkleTree/MerkleTree.cs:104-137 | establishes `Valid`: leaves are the leaf hashes of the items, the index dictionary is the last-occurrence map, the root is the reference root, every branch holds the hash of its children, and the root is a leaf exactly when there is one item |
| Merkle.MerkleTree.GetRootHashAsHex | ProofOfReserve.MerkleTree/MerkleTree.cs:148-151 | absent exactly for an empty tree; otherwise the hex of the reference root |
| Merkle.MerkleTree.HashChildren | ProofOfReserve.MerkleTree/MerkleTree.cs:174-192 | concatenating the two child hashes and hashing with the branch tag gives the branch hash of left then right |
| Merkle.MerkleTree.BuildTree | ProofOfReserve.MerkleTree/MerkleTree.cs:153-200 | the returned node's hash is the reference root; every branch below it holds the hash of its children; one node is returned itself; two or more give a branch |
| Merkle.MerkleTree.GenerateProof | ProofOfReserve.MerkleTree/MerkleTree.cs:207-217 | fails with DataNotFound exactly when the item is not in the tree; otherwise gives a new proof of that item whose elements are the reference path from the item's last position |
| Merkle.MerkleTree.GenerateProofHelper | ProofOfReserve.MerkleTree/MerkleTree.cs:219-274 | appends exactly the reference path of `nodeIndex` to the proof: one element per level, and the index moves to `i/2` and matches no later pair of the level |
| Merkle.MerkleTree.VerifyProof | ProofOfReserve.MerkleTree/MerkleTree.cs:282-333 | the foreach loop gives exactly the reference left fold and the exact hex comparison, and fails where a sibling does not decode |
| Users.User.ToString | ProofOfReserve/Models/User.cs:41-44 | the string starts with '(' and ends with ')' and has at least five characters |
| Users.IntToDecimal | ProofOfReserve/Models/User.cs:43 | an integer's text is non-empty, starts with '-' exactly when the integer is negative, and is otherwise all digits |
| Users.NatToDecimal | ProofOfReserve/Models/User.cs:43 | a number's decimal text is non-empty, all digits, and has no leading zero |
| Users.DigitsValueOfNatToDecimal | ProofOfReserve/Models/User.cs:43 | the digits of a number's decimal text denote that number |
| Users.ParseIntOfIntToDecimal | ProofOfReserve/Models/User.cs:43 | the signed decimal text of an integer reads back as that integer |
| Users.ParseUser | ProofOfReserve/Models/User.cs:41-44 | the reader of "(id,balance)" accepts only strings of at least five characters in parentheses |
| Users.ParseUserOfToString | ProofOfReserve/Models/User.cs:41-44 | reading "(id,balance)" back gives the user it came from |
| Users.ToStringInjective | ProofOfReserve/Models/User.cs:43 | two users give the same string only when they have the same id and balance |
| Users.ToStringCharacters | ProofOfReserve/Models/User.cs:37-43 | the string uses only digits, '-', ',', '(' and ')', so it contains no whitespace |
| Users.ToStringOneComma | ProofOfReserve/Models/User.cs:43 | the string contains exactly one comma |
| Users.ToStringLength | ProofOfReserve/Models/User.cs:11-16 | with 32-bit fields, the string is at most 25 characters |

## Left out

- SHA-256 (`SHA256.HashData`) and UTF-8 (`Encoding.UTF8.GetBytes`) are parameters, not definitions. The model assumes only that SHA-256 returns 32 bytes.
- Collision resistance and tag separation are not stated: they are probabilistic claims about SHA-256, which is a parameter here.
- `BitConverter.ToString(...).Replace("-", "").ToLowerInvariant()` is modelled directly as the nibble-to-character map it amounts to.
- Merkle.StringToByteArray: Dafny strings are sequences of Unicode scalar values, but C# strings are UTF-16 code units, and `hex.Length` and `Substring(i, 2)` count code units. A character outside the Basic Multilingual Plane is two code units in C# and one character here. For example, on a sibling string made of one such character, C# throws the format error for its surrogate pair, while the model reports the substring overrun. Lone surrogates, in items or in siblings, cannot be represented at all.
- Merkle.StringToByteArray: a pair is accepted only as two hex digits of either case. `Convert.ToByte(s, 16)` also accepts a '+' followed by one hex digit ("+f" gives 15); the model gives `NotHexDigits` there. It rejects a pair starting with '-' with an ArgumentException, not the FormatException; the model reports both as `NotHexDigits`. (A "0x" prefix is rejected in C# too, as no digits follow it.)
- The `MerkleNode` object graph is a datatype: reference identity and sharing between nodes are not modelled. They affect no hash.
- The leaf data is a sequence of strings. A null item is not modelled. In C# it throws ArgumentNullException in `Encoding.UTF8.GetBytes` while its leaf is hashed, before the dictionary is written.
- `BuildTree` is an instance method in C# that reads `_branchHashTag`. Here it is static and takes the primitives and the branch tag as arguments, so the constructor can set every field as a constant. The hashing is the same.
- `HashChildren` has no C# counterpart. It names the concatenate-and-hash block that `BuildTree` and `GenerateProofHelper` write out inline.
- `MerkleNode.hash` is a 32-byte `Digest` here, while the public C# constructor accepts any `byte[]`. Every node the library builds holds a SHA-256 output, so no proved property depends on this.
- The tree's item list is a ghost field. The C# class does not keep it; it exists only to state the invariant.
- Users.User.ToString: the C# interpolation formats with the current culture. The model uses the invariant culture's '-' sign and plain ASCII digits.
- The parameterless `User()` and the two-argument `User(id, balance)` only store fields. They are the datatype's constructor `User(id, balance)`; a parameterless user is `User(0, 0)`.
- ProofOfReserveService is not part of this model. It is the caller of the tree: it builds the tree over the serialised users with the tags "ProofOfReserve_Leaf" and "ProofOfReserve_Branch", and maps each proof element's `IsLeftSide` to a direction of 0 (left) or 1 (right). The model covers any pair of tags, these included.
- The HTTP controller, the user service and the demo program are not part of this model. The controller maps the service's results and exceptions to HTTP responses. The user service holds a fixed list of sample users, serialises them and looks them up by id. The demo program prints example output.
