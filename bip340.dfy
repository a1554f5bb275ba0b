/**
 * The hash utility of the Merkle-tree library: the BIP-340 tagged hash
 * (the definition of hash_name(x) in the Specification section of BIP-340), its fixed-tag
 * wrappers, lowercase hex encoding and byte concatenation.
 *
 * SHA-256 (FIPS 180-4) and UTF-8 encoding are library calls of the runtime;
 * they are parameters here, bundled in `Primitives`.
 */
module Bip340 {

  type byte = x: int | 0 <= x < 256

  /** A SHA-256 output: exactly 32 bytes. */
  type Digest = s: seq<byte> | |s| == 32 witness seq(32, _ => 0)

  /** The two foreign functions the hash utility calls. */
  datatype Primitives = Primitives(sha256: seq<byte> -> Digest, utf8: string -> seq<byte>)

  const BitcoinTransactionTag := "Bitcoin_Transaction"
  const ProofOfReserveLeafTag := "ProofOfReserve_Leaf"
  const ProofOfReserveBranchTag := "ProofOfReserve_Branch"

  /** Reference definition: SHA256(SHA256(tag) || SHA256(tag) || message). */
  function Tagged(p: Primitives, tag: string, message: seq<byte>): Digest
  {
    var tagHash := p.sha256(p.utf8(tag));
    p.sha256(tagHash + tagHash + message)
  }

  /** Copies all of `src` into `dst` starting at `offset`; the rest of `dst` is untouched. */
  method BlockCopy(src: seq<byte>, dst: array<byte>, offset: nat)
    requires offset + |src| <= dst.Length
    modifies dst
    ensures forall k :: 0 <= k < dst.Length ==>
      dst[k] == if offset <= k < offset + |src| then src[k - offset] else old(dst[k])
  {
    var i := 0;
    while i < |src|
      invariant 0 <= i <= |src|
      invariant forall k :: 0 <= k < dst.Length ==>
        dst[k] == if offset <= k < offset + i then src[k - offset] else old(dst[k])
    {
      dst[offset + i] := src[i];
      i := i + 1;
    }
  }

  /** The byte overload: fills a buffer with the tag hash twice and then the message, and hashes it. */
  method TaggedHash(p: Primitives, tag: string, message: seq<byte>) returns (digest: Digest)
    ensures digest == Tagged(p, tag, message)
  {
    var tagBytes := p.utf8(tag);
    var tagHash: seq<byte> := p.sha256(tagBytes);
    var buffer := new byte[|tagHash| + |tagHash| + |message|];
    BlockCopy(tagHash, buffer, 0);
    BlockCopy(tagHash, buffer, |tagHash|);
    BlockCopy(message, buffer, |tagHash| * 2);
    assert buffer.Length == 2 * 32 + |message|;
    assert buffer[..] == tagHash + tagHash + message;
    digest := p.sha256(buffer[..]);
  }

  /** The string overload: the tagged hash of the UTF-8 bytes of `message`. */
  method TaggedHashOfString(p: Primitives, tag: string, message: string) returns (digest: Digest)
    ensures digest == Tagged(p, tag, p.utf8(message))
  {
    digest := TaggedHash(p, tag, p.utf8(message));
  }

  method HashBitcoinTransactionOfString(p: Primitives, message: string) returns (digest: Digest)
    ensures digest == Tagged(p, "Bitcoin_Transaction", p.utf8(message))
  {
    digest := TaggedHashOfString(p, BitcoinTransactionTag, message);
  }

  method HashBitcoinTransaction(p: Primitives, message: seq<byte>) returns (digest: Digest)
    ensures digest == Tagged(p, "Bitcoin_Transaction", message)
  {
    digest := TaggedHash(p, BitcoinTransactionTag, message);
  }

  method HashProofOfReserveLeafOfString(p: Primitives, message: string) returns (digest: Digest)
    ensures digest == Tagged(p, "ProofOfReserve_Leaf", p.utf8(message))
  {
    digest := TaggedHashOfString(p, ProofOfReserveLeafTag, message);
  }

  method HashProofOfReserveLeaf(p: Primitives, message: seq<byte>) returns (digest: Digest)
    ensures digest == Tagged(p, "ProofOfReserve_Leaf", message)
  {
    digest := TaggedHash(p, ProofOfReserveLeafTag, message);
  }

  method HashProofOfReserveBranchOfString(p: Primitives, message: string) returns (digest: Digest)
    ensures digest == Tagged(p, "ProofOfReserve_Branch", p.utf8(message))
  {
    digest := TaggedHashOfString(p, ProofOfReserveBranchTag, message);
  }

  method HashProofOfReserveBranch(p: Primitives, message: seq<byte>) returns (digest: Digest)
    ensures digest == Tagged(p, "ProofOfReserve_Branch", message)
  {
    digest := TaggedHash(p, ProofOfReserveBranchTag, message);
  }

  /** Lowercase hex digit for a nibble. */
  function HexDigit(n: int): (c: char)
    requires 0 <= n < 16
    ensures IsLowerHexChar(c)
    ensures c <= '9' <==> n < 10
  {
    if n < 10 then ('0' as int + n) as char else ('a' as int + n - 10) as char
  }

  predicate IsLowerHexChar(c: char)
  {
    '0' <= c <= '9' || 'a' <= c <= 'f'
  }

  /**
   * Lowercase hex with no separators: byte k gives characters 2k (high
   * nibble) and 2k+1 (low nibble).
   */
  function ToHexString(bytes: seq<byte>): (s: string)
    ensures |s| == 2 * |bytes|
  {
    if bytes == [] then []
    else [HexDigit(bytes[0] / 16), HexDigit(bytes[0] % 16)] + ToHexString(bytes[1..])
  }

  /** The layout of the hex string: only 0-9a-f, byte k at positions 2k and 2k+1, high nibble first. */
  lemma {:induction false} ToHexStringLayout(bytes: seq<byte>)
    ensures forall k :: 0 <= k < |bytes| ==>
      ToHexString(bytes)[2 * k] == HexDigit(bytes[k] / 16) && ToHexString(bytes)[2 * k + 1] == HexDigit(bytes[k] % 16)
    ensures forall i :: 0 <= i < |ToHexString(bytes)| ==> IsLowerHexChar(ToHexString(bytes)[i])
  {
    if bytes != [] {
      var s := ToHexString(bytes);
      var t := ToHexString(bytes[1..]);
      ToHexStringLayout(bytes[1..]);
      assert s[2..] == t;
      forall k | 1 <= k < |bytes|
        ensures s[2 * k] == HexDigit(bytes[k] / 16) && s[2 * k + 1] == HexDigit(bytes[k] % 16)
      {
        assert s[2 * k] == t[2 * (k - 1)] && s[2 * k + 1] == t[2 * (k - 1) + 1];
        assert bytes[1..][k - 1] == bytes[k];
      }
      forall i | 2 <= i < |s| ensures IsLowerHexChar(s[i]) {
        assert s[i] == t[i - 2];
      }
    }
  }

  /** Allocates a buffer of |first| + |second| bytes and copies `first`, then `second`, into it. */
  method ConcatenateBytes(first: seq<byte>, second: seq<byte>) returns (result: seq<byte>)
    ensures |result| == |first| + |second|
    ensures result == first + second
  {
    var buffer := new byte[|first| + |second|];
    BlockCopy(first, buffer, 0);
    BlockCopy(second, buffer, |first|);
    result := buffer[..];
    assert result == first + second;
  }
}
