/**
 Small notions that several modules share.
 */
module Common {

  datatype Option<T> = None | Some(value: T)

  type byte = b: int | 0 <= b < 256

  function UpperHexDigit(d: int): (c: char)
    requires 0 <= d < 16
    ensures '0' <= c <= '9' || 'A' <= c <= 'F'
  {
    if d < 10 then (d + '0' as int) as char else (d - 10 + 'A' as int) as char
  }

  // Upper-case hexadecimal, without leading zeros.
  function UpperHex(n: nat): (t: string)
    ensures forall i | 0 <= i < |t| :: '0' <= t[i] <= '9' || 'A' <= t[i] <= 'F'
  {
    (if n < 16 then "" else UpperHex(n / 16)) + [UpperHexDigit(n % 16)]
  }

  lemma SubsetSize<T>(a: set<T>, b: set<T>)
    requires a <= b
    ensures |a| <= |b|
    ensures |a| == |b| ==> a == b
  {
    assert b == a + (b - a);
    assert |b| == |a| + |b - a|;
  }

  lemma MulMonotone(a: int, b: int, c: int)
    requires a <= b && c >= 0
    ensures a * c <= b * c
  {
    assert (b - a) * c >= 0;
  }
}
