/**
 * The commit-then-reveal scheme (`GenerateSecureKey`, `ComputeHMAC` and
 * the key display, Program.cs). HMAC-SHA256 and UTF-8 encoding are
 * library calls and are given as function parameters; the secure random
 * bytes are given as `entropy`.
 */
module Commitment {
  import opened Wrappers
  import opened Hex

  const KeySize: nat := 32

  /** HMAC-SHA256 keyed by the first argument, over the second. */
  type HmacSha256 = (seq<byte>, seq<byte>) -> seq<byte>

  /** `Encoding.UTF8.GetBytes` */
  type Utf8Encoder = string -> seq<byte>

  /** `GenerateSecureKey`: a fresh 32-byte buffer that the secure random
      source fills in place. */
  method GenerateSecureKey(entropy: seq<byte>) returns (key: array<byte>)
    requires |entropy| == KeySize
    ensures fresh(key)
    ensures key[..] == entropy
  {
    key := new byte[KeySize];
    forall i | 0 <= i < KeySize {
      key[i] := entropy[i];
    }
  }

  /** `ComputeHMAC`: the digest of the move's UTF-8 bytes under the key,
      as lower-case hex, two digits per digest byte. */
  function ComputeHmac(key: seq<byte>, message: string, hmac: HmacSha256, utf8: Utf8Encoder): (digest: string)
    ensures |digest| == 2 * |hmac(key, utf8(message))|
    ensures forall i :: 0 <= i < |digest| ==> IsLowerHexDigit(digest[i])
    ensures DecodeHex(digest) == Some(hmac(key, utf8(message)))
  {
    var hash := hmac(key, utf8(message));
    LowerHexStringShape(hash);
    DecodeHexRoundTrip(hash);
    LowerHexString(hash)
  }

  /** The player's check after the key is revealed: read the key back and
      recompute the digest of the move that was announced. */
  function Verify(commitment: string, revealedKey: string, move: string,
                  hmac: HmacSha256, utf8: Utf8Encoder): (ok: bool)
    ensures ok ==> DecodeHex(revealedKey).Some?
    ensures ok ==> DecodeHex(commitment) == Some(hmac(DecodeHex(revealedKey).value, utf8(move)))
  {
    match DecodeHex(revealedKey)
    case Some(key) => ComputeHmac(key, move, hmac, utf8) == commitment
    case None => false
  }

  /** An honest round always passes the player's check: the displayed key
      (upper-case hex, 64 digits for a 32-byte key) reads back to the key
      that produced the commitment. */
  lemma RevealedKeyVerifies(key: seq<byte>, move: string, hmac: HmacSha256, utf8: Utf8Encoder)
    requires |key| == KeySize
    ensures |HexString(key)| == 64
    ensures Verify(ComputeHmac(key, move, hmac, utf8), HexString(key), move, hmac, utf8)
  {
    HexStringShape(key);
    DecodeHexRoundTrip(key);
  }

  /** The commitment binds the move up to the hash: one commitment and
      one revealed key pass the check for two moves only when HMAC gives
      both moves' bytes the same digest under that key. */
  lemma CommitmentBinds(commitment: string, revealedKey: string, move1: string, move2: string,
                        hmac: HmacSha256, utf8: Utf8Encoder)
    requires Verify(commitment, revealedKey, move1, hmac, utf8)
    requires Verify(commitment, revealedKey, move2, hmac, utf8)
    ensures var key := DecodeHex(revealedKey).value;
      hmac(key, utf8(move1)) == hmac(key, utf8(move2))
  {
  }
}
