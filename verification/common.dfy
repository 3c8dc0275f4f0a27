/**
  Shared vocabulary of the hub model: Java's signed bytes, the unsigned
  octets they mask to, an option type, and the state of a `java.util.Timer`
  reduced to what the orchestration logic observes.
 */
module Common {

  datatype Option<+T> = None | Some(value: T)

  /** A Java `byte`: a signed two's-complement value. */
  type JByte = x: int | -128 <= x < 128

  /** An unsigned octet, as produced by `b & 0xFF`. */
  type Octet = x: int | 0 <= x < 256

  /** Java's `b & 0xFF` (or `b & 0xffL`) on a signed byte. */
  function Mask(b: JByte): (r: Octet)
    ensures r % 256 == b % 256
    ensures b >= 0 ==> r == b
  {
    if b < 0 then b + 256 else b
  }

  /** Java's narrowing conversion `(byte) n`, as done by a compound
      assignment such as `index += listCount` on a byte variable. */
  function Wrap(n: int): (r: JByte)
    ensures (r - n) % 256 == 0
    ensures -128 <= n < 128 ==> r == n
  {
    (n + 128) % 256 - 128
  }

  /** The wrapped sum does not depend on whether an operand was wrapped first. */
  lemma WrapAdd(a: int, b: int)
    ensures Wrap(Wrap(a) + b) == Wrap(a + b)
  {
    var k := (a + 128) / 256;
    assert Wrap(a) == a - 256 * k;
    assert Wrap(a) + b + 128 == (a + b + 128) - 256 * k;
  }

  /** The state of a polling timer as the control logic sees it: never
      scheduled (or `null`), scheduled with a first delay and a period, or
      cancelled. A cancelled timer never fires again. */
  datatype Timer = Unscheduled | Armed(delay: int, period: int) | Cancelled

  /** `timer.cancel()`: a scheduled timer stops; any other stays as it is. */
  function Cancel(t: Timer): (r: Timer)
    ensures !r.Armed?
    ensures !t.Armed? ==> r == t
  {
    if t.Armed? then Cancelled else t
  }

  function Reverse<T>(s: seq<T>): (r: seq<T>)
    ensures |r| == |s|
    ensures forall i :: 0 <= i < |s| ==> r[i] == s[|s| - 1 - i]
  {
    if |s| == 0 then [] else Reverse(s[1..]) + [s[0]]
  }
}
