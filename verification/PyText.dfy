// The string operations the contract texts are compared with. Case folding is a
// character map handed in by the caller; white space is Python's own list.
module PyText {

  /** str.isspace for one character, which is also what \s matches. */
  predicate IsSpace(c: char) {
    || '\t' <= c <= '\r' || '\U{1C}' <= c <= ' ' || c == '\U{85}' || c == '\U{A0}' || c == '\U{1680}'
    || '\U{2000}' <= c <= '\U{200A}' || c == '\U{2028}' || c == '\U{2029}' || c == '\U{202F}'
    || c == '\U{205F}' || c == '\U{3000}'
  }

  function StripLeft(s: string): string {
    if s != [] && IsSpace(s[0]) then StripLeft(s[1..]) else s
  }

  function StripRight(s: string): string {
    if s != [] && IsSpace(s[|s| - 1]) then StripRight(s[..|s| - 1]) else s
  }

  function Strip(s: string): string {
    StripRight(StripLeft(s))
  }

  function Lower(low: char -> char, s: string): (t: string)
    ensures |t| == |s|
    ensures forall i :: 0 <= i < |s| ==> t[i] == low(s[i])
  {
    seq(|s|, i requires 0 <= i < |s| => low(s[i]))
  }

  predicate Trimmed(s: string) {
    s == [] || (!IsSpace(s[0]) && !IsSpace(s[|s| - 1]))
  }

  lemma TrimmedStrips(s: string)
    requires Trimmed(s)
    ensures Strip(s) == s
  {
  }

  /** Stripping keeps one contiguous slice and drops only white space around it. */
  lemma StripIsSlice(s: string) returns (i: nat, j: nat)
    ensures i <= j <= |s| && Strip(s) == s[i..j] && Trimmed(Strip(s))
    ensures forall k :: 0 <= k < i || j <= k < |s| ==> IsSpace(s[k])
  {
    i := StripLeftIsSuffix(s);
    var t := s[i..];
    var n := StripRightIsPrefix(t);
    j := i + n;
    assert t[..n] == s[i..j];
    forall k | j <= k < |s|
      ensures IsSpace(s[k])
    {
      assert s[k] == t[k - i];
    }
  }

  lemma {:induction false} StripLeftIsSuffix(s: string) returns (i: nat)
    ensures i <= |s| && StripLeft(s) == s[i..] && forall k :: 0 <= k < i ==> IsSpace(s[k])
    ensures i < |s| ==> !IsSpace(s[i])
  {
    if s != [] && IsSpace(s[0]) {
      var k := StripLeftIsSuffix(s[1..]);
      i := k + 1;
    } else {
      i := 0;
    }
  }

  lemma {:induction false} StripRightIsPrefix(s: string) returns (n: nat)
    ensures n <= |s| && StripRight(s) == s[..n] && forall k :: n <= k < |s| ==> IsSpace(s[k])
    ensures n > 0 ==> !IsSpace(s[n - 1])
  {
    if s != [] && IsSpace(s[|s| - 1]) {
      n := StripRightIsPrefix(s[..|s| - 1]);
    } else {
      n := |s|;
    }
  }
}
