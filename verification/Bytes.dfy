/** Bytes on the wire and the number formats that the wire formats share. */
module Bytes {

  type byte = x: int | 0 <= x < 256

  datatype Option<+T> = None | Some(value: T)

  const CRLF: seq<byte> := [13, 10]
  const SPACE: byte := 32

  /** The decimal digits of n, as strconv.AppendUint prints them. */
  function Dec(n: nat): (s: seq<byte>)
    ensures |s| > 0
  {
    if n < 10 then [48 + n] else Dec(n / 10) + [48 + n % 10]
  }

  predicate IsDigit(b: byte) {
    48 <= b <= 57
  }

  /** The number written in s, most significant digit first. */
  function DecValue(s: seq<byte>): (r: Option<nat>)
  {
    if s == [] then Some(0)
    else
      var last := s[|s| - 1];
      match DecValue(s[..|s| - 1])
      case Some(v) => if IsDigit(last) then Some(10 * v + (last - 48)) else None
      case None => None
  }

  lemma {:induction false} DecValueOfDec(n: nat)
    ensures DecValue(Dec(n)) == Some(n)
    ensures forall i :: 0 <= i < |Dec(n)| ==> IsDigit(Dec(n)[i])
  {
    var s := Dec(n);
    if n < 10 {
      assert s[..|s| - 1] == [];
    } else {
      assert s[..|s| - 1] == Dec(n / 10);
      DecValueOfDec(n / 10);
    }
  }

  function Pow10(k: nat): nat {
    if k == 0 then 1 else 10 * Pow10(k - 1)
  }

  lemma {:induction false} DecLength(n: nat, k: nat)
    requires n < Pow10(k) && k > 0
    ensures |Dec(n)| <= k
  {
    if n >= 10 {
      DecLength(n / 10, k - 1);
    }
  }
}
