/** Text turned into bytes: `str.encode("UTF-8")` on ASCII text. */
module ByteCodes {
  /** `s.encode("UTF-8")` for text whose characters are ASCII: one byte per
      character, holding its code. */
  function AsciiBytes(s: string): (b: seq<bv8>)
    ensures |b| == |s|
    ensures forall i :: 0 <= i < |s| && s[i] as int < 128 ==> b[i] as int == s[i] as int
  {
    AsciiCodes(s);
    seq(|s|, i requires 0 <= i < |s| => (s[i] as int % 256) as bv8)
  }

  lemma AsciiCodes(s: string)
    ensures forall i :: 0 <= i < |s| && s[i] as int < 128 ==> ((s[i] as int % 256) as bv8) as int == s[i] as int
  {
    forall i | 0 <= i < |s| && s[i] as int < 128
      ensures ((s[i] as int % 256) as bv8) as int == s[i] as int
    {
      CodeByte(s[i] as int);
    }
  }

  /** A code below 256 survives the trip through a byte. */
  lemma CodeByte(n: int)
    requires 0 <= n < 256
    ensures ((n % 256) as bv8) as int == n
  {
    assert n % 256 == n;
  }
}
