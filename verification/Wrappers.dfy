/** Option and hex helpers shared by the other modules. */
module Wrappers {

  datatype Option<+T> = None | Some(value: T)

  predicate IsHexDigit(c: char) {
    '0' <= c <= '9' || 'a' <= c <= 'f' || 'A' <= c <= 'F'
  }

  /** `is_hex` of osmocom.utils: whole bytes written in hex digits, within the given lengths. */
  predicate IsHex(s: string, minLen: nat, maxLen: nat) {
    minLen <= |s| <= maxLen && |s| % 2 == 0 && forall c <- s :: IsHexDigit(c)
  }

  lemma HexMeans(s: string, minLen: nat, maxLen: nat)
    ensures IsHex(s, minLen, maxLen) <==>
              && minLen <= |s| <= maxLen && (exists k: nat :: 2 * k == |s|)
              && forall c <- s :: c in "0123456789abcdefABCDEF"
  {
    assert forall c: char :: IsHexDigit(c) <==> c in "0123456789abcdefABCDEF";
    assert |s| % 2 == 0 ==> 2 * (|s| / 2) == |s|;
  }

  lemma FourHexDigits(s: string)
    ensures IsHex(s, 4, 4) <==> |s| == 4 && forall c <- s :: c in "0123456789abcdefABCDEF"
  {
    HexMeans(s, 4, 4);
    assert |s| == 4 ==> 2 * 2 == |s|;
  }

  function ToLower(s: string): (r: string)
    ensures |r| == |s|
    ensures forall i | 0 <= i < |s| :: r[i] == if 'A' <= s[i] <= 'Z' then s[i] - 'A' + 'a' else s[i]
  {
    seq(|s|, i requires 0 <= i < |s| => if 'A' <= s[i] <= 'Z' then s[i] - 'A' + 'a' else s[i])
  }

  lemma LowerStays(s: string)
    requires forall i | 0 <= i < |s| :: !('A' <= s[i] <= 'Z')
    ensures ToLower(s) == s
  {
  }
}
