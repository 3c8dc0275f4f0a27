/**
  The hexadecimal rendering `NeighborTable.byteArrayToHexString` performs on
  a slice of a reply: bytes taken from the end of the slice down to its
  start, each as two lower-case digits, and the decoding that undoes it.
 */
module Hex {
  import opened Common

  const Digits: string := "0123456789abcdef"

  function HexDigit(n: int): (c: char)
    requires 0 <= n < 16
    ensures IsHexDigit(c)
  {
    Digits[n]
  }

  predicate IsHexDigit(c: char) {
    '0' <= c <= '9' || 'a' <= c <= 'f'
  }

  function DigitValue(c: char): (n: int)
    requires IsHexDigit(c)
    ensures 0 <= n < 16
  {
    if c <= '9' then c as int - '0' as int else c as int - 'a' as int + 10
  }

  lemma DigitValueInverse(n: int)
    requires 0 <= n < 16
    ensures DigitValue(HexDigit(n)) == n
  {
  }

  /** `Long.toHexString(v)` for a masked byte: lower-case digits without
      leading zeros, so one digit below 16 and two from 16 on. */
  function LongToHex(v: Octet): (r: string)
    ensures |r| == (if v < 16 then 1 else 2)
    ensures r[|r| - 1] == HexDigit(v % 16)
    ensures v >= 16 ==> r[0] == HexDigit(v / 16)
  {
    if v < 16 then [HexDigit(v)] else [HexDigit(v / 16), HexDigit(v % 16)]
  }

  /** One step of the rendering loop: the `toHexString` result, with a "0"
      put in front when it has fewer than two digits. */
  function ByteHex(v: Octet): (r: string)
    ensures r == [HexDigit(v / 16), HexDigit(v % 16)]
  {
    var hex := LongToHex(v);
    if |hex| < 2 then "0" + hex else hex
  }

  /** The bytes `a[end-1]`, `a[end-2]`, ..., `a[start]`, each rendered by
      `ByteHex`. Java indexes only when `start < end`, so the slice must then
      lie inside the array; an empty or reversed range gives "". */
  function HexString(a: seq<JByte>, start: int, end: int): (r: string)
    requires end <= start || (0 <= start && end <= |a|)
    ensures |r| == (if end <= start then 0 else 2 * (end - start))
    ensures forall k :: 0 <= k < |r| ==> IsHexDigit(r[k])
    decreases end - start
  {
    if end <= start then "" else HexString(a, start + 1, end) + ByteHex(Mask(a[start]))
  }

  /** The loop of `byteArrayToHexString` as written: `i` runs from `end - 1`
      down to `start`, appending each byte's padded digits. */
  method ByteArrayToHexString(bytes: seq<JByte>, start: int, end: int) returns (str: string)
    requires end <= start || (0 <= start && end <= |bytes|)
    ensures str == HexString(bytes, start, end)
  {
    str := "";
    var i := end - 1;
    while i >= start
      invariant i < end
      invariant end <= start ==> i == end - 1
      invariant start < end ==> start - 1 <= i
      invariant str == HexString(bytes, i + 1, end)
      decreases i - start
    {
      str := str + ByteHex(Mask(bytes[i]));
      i := i - 1;
    }
  }

  /** Two hex digits per octet, most significant digit first. */
  function HexDecode(s: string): (r: seq<Octet>)
    requires |s| % 2 == 0
    requires forall k :: 0 <= k < |s| ==> IsHexDigit(s[k])
    ensures |r| == |s| / 2
  {
    if |s| == 0 then [] else [16 * DigitValue(s[0]) + DigitValue(s[1])] + HexDecode(s[2..])
  }

  lemma {:induction false} HexDecodeAppend(s: string, t: string)
    requires |s| % 2 == 0 && |t| % 2 == 0
    requires forall k :: 0 <= k < |s| ==> IsHexDigit(s[k])
    requires forall k :: 0 <= k < |t| ==> IsHexDigit(t[k])
    ensures HexDecode(s + t) == HexDecode(s) + HexDecode(t)
  {
    if |s| > 0 {
      assert (s + t)[2..] == s[2..] + t;
      HexDecodeAppend(s[2..], t);
    } else {
      assert s + t == t;
    }
  }

  lemma ByteHexDecode(v: Octet)
    ensures HexDecode(ByteHex(v)) == [v]
  {
    var h := ByteHex(v);
    DigitValueInverse(v / 16);
    DigitValueInverse(v % 16);
    assert h[2..] == [];
  }

  function MaskAll(bs: seq<JByte>): (r: seq<Octet>)
    ensures |r| == |bs|
    ensures forall i :: 0 <= i < |bs| ==> r[i] == Mask(bs[i])
  {
    seq(|bs|, i requires 0 <= i < |bs| => Mask(bs[i]))
  }

  /** Round trip: decoding the rendering of `a[start..end)` gives the masked
      bytes of that slice in reverse order. */
  lemma {:induction false} HexStringRoundTrip(a: seq<JByte>, start: int, end: int)
    requires 0 <= start <= end <= |a|
    ensures HexDecode(HexString(a, start, end)) == Reverse(MaskAll(a[start..end]))
    decreases end - start
  {
    if start < end {
      HexStringRoundTrip(a, start + 1, end);
      HexDecodeAppend(HexString(a, start + 1, end), ByteHex(Mask(a[start])));
      ByteHexDecode(Mask(a[start]));
      MaskAllFront(a, start, end);
    } else {
      assert MaskAll(a[start..end]) == [];
    }
  }

  /** The reversed masked slice ends with the slice's first byte. */
  lemma MaskAllFront(a: seq<JByte>, start: int, end: int)
    requires 0 <= start < end <= |a|
    ensures Reverse(MaskAll(a[start..end])) == Reverse(MaskAll(a[start + 1..end])) + [Mask(a[start])]
  {
    var m := MaskAll(a[start..end]);
    assert m[1..] == MaskAll(a[start + 1..end]);
    assert m[0] == Mask(a[start]);
  }

  /** The number a string of hex digits denotes, most significant digit first. */
  function HexValue(s: string): (v: nat)
    requires forall k :: 0 <= k < |s| ==> IsHexDigit(s[k])
  {
    if |s| == 0 then 0 else 16 * HexValue(s[..|s| - 1]) + DigitValue(s[|s| - 1])
  }

  /** Appending a byte's two digits shifts the value up by one byte. */
  lemma HexValueAppendByte(s: string, v: Octet)
    requires forall k :: 0 <= k < |s| ==> IsHexDigit(s[k])
    ensures HexValue(s + ByteHex(v)) == 256 * HexValue(s) + v
  {
    var t := s + ByteHex(v);
    assert t[..|t| - 1] == s + [HexDigit(v / 16)];
    assert (s + [HexDigit(v / 16)])[..|s|] == s;
    DigitValueInverse(v / 16);
    DigitValueInverse(v % 16);
  }

  /** The address bytes 01 02 ... 08 as they sit on the wire render most
      significant (last) byte first. */
  lemma RenderEightBytes()
    ensures HexString([1, 2, 3, 4, 5, 6, 7, 8], 0, 8) == "0807060504030201"
  {
    var a: seq<JByte> := [1, 2, 3, 4, 5, 6, 7, 8];
    assert HexString(a, 7, 8) == "08";
    assert HexString(a, 6, 8) == "0807";
    assert HexString(a, 5, 8) == "080706";
    assert HexString(a, 4, 8) == "08070605";
    assert HexString(a, 3, 8) == "0807060504";
    assert HexString(a, 2, 8) == "080706050403";
    assert HexString(a, 1, 8) == "08070605040302";
  }

  /** A negative Java byte renders as its unsigned value, padded or not. */
  lemma RenderSignedBytes()
    ensures HexString([-1, -128, 10], 0, 3) == "0a80ff"
  {
    var a: seq<JByte> := [-1, -128, 10];
    assert HexString(a, 2, 3) == "0a";
    assert HexString(a, 1, 3) == "0a80";
  }
}
