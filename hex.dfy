/**
 * Hex rendering of byte arrays: `BitConverter.ToString(bytes).Replace("-", "")`
 * for the revealed key, and the same lower-cased for the HMAC digest
 * (Program.cs). `DecodeHex` is what a player uses to read a revealed key
 * back; it accepts either letter case.
 */
module Hex {
  import opened Wrappers
  import opened Text

  type byte = x: int | 0 <= x < 256

  /** The digit of a nibble, upper case as `BitConverter` writes it. */
  function HexDigit(v: int): char
    requires 0 <= v < 16
  {
    if v < 10 then ('0' as int + v) as char else ('A' as int + v - 10) as char
  }

  predicate IsUpperHexDigit(c: char)
  {
    '0' <= c <= '9' || 'A' <= c <= 'F'
  }

  predicate IsLowerHexDigit(c: char)
  {
    '0' <= c <= '9' || 'a' <= c <= 'f'
  }

  /** The value of a hex digit of either case. */
  function NibbleValue(c: char): Option<int>
  {
    if '0' <= c <= '9' then Some(c as int - '0' as int)
    else if 'A' <= c <= 'F' then Some(c as int - 'A' as int + 10)
    else if 'a' <= c <= 'f' then Some(c as int - 'a' as int + 10)
    else None
  }

  /** One byte: its high nibble, then its low nibble. */
  function ByteHex(b: byte): string
  {
    [HexDigit(b / 16), HexDigit(b % 16)]
  }

  /** `BitConverter.ToString(bytes)`: the bytes' digit pairs joined by dashes. */
  function BitConverterString(bytes: seq<byte>): (s: string)
    ensures |bytes| == 0 ==> s == ""
    ensures |bytes| > 0 ==> |s| == 3 * |bytes| - 1
  {
    if |bytes| == 0 then ""
    else if |bytes| == 1 then ByteHex(bytes[0])
    else ByteHex(bytes[0]) + "-" + BitConverterString(bytes[1..])
  }

  /** Byte k of `BitConverter.ToString` sits at 3k and 3k + 1, high
      nibble first, with a dash after it unless it is the last. */
  lemma {:induction false} BitConverterLayout(bytes: seq<byte>, k: int)
    requires 0 <= k < |bytes|
    ensures BitConverterString(bytes)[3 * k] == HexDigit(bytes[k] / 16)
    ensures BitConverterString(bytes)[3 * k + 1] == HexDigit(bytes[k] % 16)
    ensures k < |bytes| - 1 ==> BitConverterString(bytes)[3 * k + 2] == '-'
  {
    if k > 0 {
      BitConverterLayout(bytes[1..], k - 1);
    }
  }

  /** `s.Replace("-", "")` */
  function RemoveDashes(s: string): (r: string)
    ensures |r| <= |s|
    ensures forall i :: 0 <= i < |r| ==> r[i] != '-'
  {
    if |s| == 0 then ""
    else (if s[0] == '-' then "" else [s[0]]) + RemoveDashes(s[1..])
  }

  /** Removing the dashes keeps every other character, as many times as
      it occurs, and leaves a dash-free string as it is. */
  lemma {:induction false} RemoveDashesKeeps(s: string)
    ensures multiset(RemoveDashes(s)) == multiset(s)['-' := 0]
    ensures '-' !in s ==> RemoveDashes(s) == s
  {
    if |s| > 0 {
      assert s == [s[0]] + s[1..];
      RemoveDashesKeeps(s[1..]);
    }
  }

  /** The key as displayed (Program.cs:37): the reference digit pairs. */
  function HexString(bytes: seq<byte>): (s: string)
    ensures s == Pairs(bytes)
  {
    DashesRemovedArePairs(bytes);
    RemoveDashes(BitConverterString(bytes))
  }

  /** The digest as displayed (Program.cs:73): the digit pairs,
      lower-cased. */
  function LowerHexString(bytes: seq<byte>): (s: string)
    ensures s == Lower(Pairs(bytes))
  {
    Lower(HexString(bytes))
  }

  /** The digit pairs of the bytes, back to back: the reference rendering. */
  function Pairs(bytes: seq<byte>): (s: string)
    ensures |s| == 2 * |bytes|
  {
    if |bytes| == 0 then "" else ByteHex(bytes[0]) + Pairs(bytes[1..])
  }

  /** Reads a hex string of either case back into bytes, two digits per byte. */
  function DecodeHex(s: string): Option<seq<byte>>
  {
    if |s| == 0 then Some([])
    else if |s| == 1 then None
    else
      match (NibbleValue(s[0]), NibbleValue(s[1]), DecodeHex(s[2..]))
      case (Some(hi), Some(lo), Some(rest)) => Some([hi * 16 + lo] + rest)
      case _ => None
  }

  lemma {:induction false} RemoveDashesAppend(s: string, t: string)
    ensures RemoveDashes(s + t) == RemoveDashes(s) + RemoveDashes(t)
  {
    if |s| > 0 {
      assert (s + t)[1..] == s[1..] + t;
      RemoveDashesAppend(s[1..], t);
    } else {
      assert s + t == t;
    }
  }

  /** Removing the dashes from `BitConverter.ToString` leaves exactly the
      digit pairs. */
  lemma {:induction false} DashesRemovedArePairs(bytes: seq<byte>)
    ensures RemoveDashes(BitConverterString(bytes)) == Pairs(bytes)
  {
    if |bytes| == 1 {
      assert bytes[1..] == [];
    } else if |bytes| > 1 {
      var b := ByteHex(bytes[0]);
      RemoveDashesAppend(b + "-", BitConverterString(bytes[1..]));
      RemoveDashesAppend(b, "-");
      assert RemoveDashes(b) == b;
      DashesRemovedArePairs(bytes[1..]);
    }
  }

  lemma {:induction false} PairsAt(bytes: seq<byte>, k: int)
    requires 0 <= k < |bytes|
    ensures Pairs(bytes)[2 * k] == HexDigit(bytes[k] / 16)
    ensures Pairs(bytes)[2 * k + 1] == HexDigit(bytes[k] % 16)
  {
    if k > 0 {
      PairsAt(bytes[1..], k - 1);
    }
  }

  /** The displayed key: two upper-case digits per byte, the high nibble
      first, nothing else. */
  lemma HexStringShape(bytes: seq<byte>)
    ensures |HexString(bytes)| == 2 * |bytes|
    ensures forall i :: 0 <= i < |HexString(bytes)| ==> IsUpperHexDigit(HexString(bytes)[i])
    ensures forall k :: 0 <= k < |bytes| ==>
      HexString(bytes)[2 * k] == HexDigit(bytes[k] / 16) &&
      HexString(bytes)[2 * k + 1] == HexDigit(bytes[k] % 16)
  {
    forall k | 0 <= k < |bytes|
      ensures Pairs(bytes)[2 * k] == HexDigit(bytes[k] / 16)
      ensures Pairs(bytes)[2 * k + 1] == HexDigit(bytes[k] % 16)
    {
      PairsAt(bytes, k);
    }
    forall i | 0 <= i < |HexString(bytes)|
      ensures IsUpperHexDigit(HexString(bytes)[i])
    {
      PairsAt(bytes, i / 2);
    }
  }

  /** The displayed digest: two lower-case digits per byte, the high
      nibble first. */
  lemma LowerHexStringShape(bytes: seq<byte>)
    ensures |LowerHexString(bytes)| == 2 * |bytes|
    ensures forall i :: 0 <= i < |LowerHexString(bytes)| ==> IsLowerHexDigit(LowerHexString(bytes)[i])
    ensures forall k :: 0 <= k < |bytes| ==>
      LowerHexString(bytes)[2 * k] == LowerChar(HexDigit(bytes[k] / 16)) &&
      LowerHexString(bytes)[2 * k + 1] == LowerChar(HexDigit(bytes[k] % 16))
  {
    HexStringShape(bytes);
  }

  lemma {:induction false} DecodePairs(bytes: seq<byte>)
    ensures DecodeHex(Pairs(bytes)) == Some(bytes)
  {
    if |bytes| > 0 {
      var b, rest := ByteHex(bytes[0]), Pairs(bytes[1..]);
      DecodePairs(bytes[1..]);
      assert (b + rest)[2..] == rest;
      assert bytes == [bytes[0]] + bytes[1..];
    }
  }

  lemma {:induction false} DecodeLowerPairs(bytes: seq<byte>)
    ensures DecodeHex(Lower(Pairs(bytes))) == Some(bytes)
  {
    if |bytes| > 0 {
      var b, rest := ByteHex(bytes[0]), Pairs(bytes[1..]);
      DecodeLowerPairs(bytes[1..]);
      LowerAppend(b, rest);
      assert (Lower(b) + Lower(rest))[2..] == Lower(rest);
      assert bytes == [bytes[0]] + bytes[1..];
    }
  }

  /** Both renderings read back to the original bytes: the letter case of
      the key and of the digest does not change their value. */
  lemma DecodeHexRoundTrip(bytes: seq<byte>)
    ensures DecodeHex(HexString(bytes)) == Some(bytes)
    ensures DecodeHex(LowerHexString(bytes)) == Some(bytes)
  {
    DecodePairs(bytes);
    DecodeLowerPairs(bytes);
  }
}
