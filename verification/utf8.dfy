/**
 Well-formed UTF-8, as Table 3-7 of the Unicode Standard defines it: no
 overlong forms, no surrogates, nothing above U+10FFFF. PHP's
 `htmlspecialchars` decodes its input with exactly these rules when the
 charset is UTF-8 and returns the empty string on the first ill-formed
 sequence.
 */
module Utf8 {
  import opened Bytes

  predicate IsContinuation(b: byte) {
    0x80 <= b <= 0xBF
  }

  /** Length of the well-formed character that starts `s`, or 0 when `s` is
      empty or starts with an ill-formed sequence. */
  function FirstCharLength(s: Bytes): (n: nat)
    ensures n <= |s| && n <= 4
    ensures n == 1 <==> |s| > 0 && s[0] < 0x80
    ensures n > 1 ==> 0xC2 <= s[0] <= 0xF4 && forall k | 1 <= k < n :: IsContinuation(s[k])
  {
    if |s| == 0 then 0
    else if s[0] < 0x80 then 1
    else if 0xC2 <= s[0] <= 0xDF then
      if |s| >= 2 && IsContinuation(s[1]) then 2 else 0
    else if s[0] == 0xE0 then
      if |s| >= 3 && 0xA0 <= s[1] <= 0xBF && IsContinuation(s[2]) then 3 else 0
    else if 0xE1 <= s[0] <= 0xEC || 0xEE <= s[0] <= 0xEF then
      if |s| >= 3 && IsContinuation(s[1]) && IsContinuation(s[2]) then 3 else 0
    else if s[0] == 0xED then
      if |s| >= 3 && 0x80 <= s[1] <= 0x9F && IsContinuation(s[2]) then 3 else 0
    else if s[0] == 0xF0 then
      if |s| >= 4 && 0x90 <= s[1] <= 0xBF && IsContinuation(s[2]) && IsContinuation(s[3]) then 4 else 0
    else if 0xF1 <= s[0] <= 0xF3 then
      if |s| >= 4 && IsContinuation(s[1]) && IsContinuation(s[2]) && IsContinuation(s[3]) then 4 else 0
    else if s[0] == 0xF4 then
      if |s| >= 4 && 0x80 <= s[1] <= 0x8F && IsContinuation(s[2]) && IsContinuation(s[3]) then 4 else 0
    else 0
  }

  /** `s` is a sequence of well-formed UTF-8 characters. */
  predicate WellFormed(s: Bytes)
    decreases |s|
  {
    |s| == 0 || (FirstCharLength(s) > 0 && WellFormed(s[FirstCharLength(s)..]))
  }

  /** Which character starts `s` depends only on its first bytes. */
  lemma FirstCharLengthOfPrefix(s: Bytes, t: Bytes)
    requires FirstCharLength(s) > 0
    requires |t| >= FirstCharLength(s)
    requires t[..FirstCharLength(s)] == s[..FirstCharLength(s)]
    ensures FirstCharLength(t) == FirstCharLength(s)
  {
    var n := FirstCharLength(s);
    assert forall k | 0 <= k < n :: t[k] == t[..n][k] == s[..n][k] == s[k];
  }

  /** The first character of a well-formed string is itself well-formed. */
  lemma FirstCharWellFormed(s: Bytes)
    requires FirstCharLength(s) > 0
    ensures WellFormed(s[..FirstCharLength(s)])
  {
    var n := FirstCharLength(s);
    FirstCharLengthOfPrefix(s, s[..n]);
    assert s[..n][n..] == [];
  }

  /** Every ASCII string is well-formed. */
  lemma {:induction false} AsciiWellFormed(s: Bytes)
    requires forall i | 0 <= i < |s| :: s[i] < 0x80
    ensures WellFormed(s)
    decreases |s|
  {
    if |s| > 0 {
      AsciiWellFormed(s[1..]);
    }
  }

  /** Well-formedness is closed under concatenation. */
  lemma {:induction false} AppendWellFormed(a: Bytes, b: Bytes)
    requires WellFormed(a) && WellFormed(b)
    ensures WellFormed(a + b)
    decreases |a|
  {
    if |a| == 0 {
      assert a + b == b;
    } else {
      var n := FirstCharLength(a);
      assert (a + b)[..n] == a[..n];
      FirstCharLengthOfPrefix(a, a + b);
      assert (a + b)[n..] == a[n..] + b;
      AppendWellFormed(a[n..], b);
      WellFormedCons(a + b, n);
    }
  }

  /** A well-formed first character followed by a well-formed rest. */
  lemma WellFormedCons(s: Bytes, n: nat)
    requires 0 < n == FirstCharLength(s) && WellFormed(s[n..])
    ensures WellFormed(s)
  {
  }

  /** Dropping a leading ASCII byte keeps a string well-formed. */
  lemma DropAsciiHead(s: Bytes)
    requires WellFormed(s) && |s| > 0 && s[0] < 0x80
    ensures WellFormed(s[1..])
  {
  }

  /** Dropping a trailing ASCII byte keeps a string well-formed: no
      multi-byte character ends in an ASCII byte. */
  lemma {:induction false} DropAsciiLast(s: Bytes)
    requires WellFormed(s) && |s| > 0 && s[|s| - 1] < 0x80
    ensures WellFormed(s[..|s| - 1])
    decreases |s|
  {
    var n := FirstCharLength(s);
    if n == |s| {
      assert n == 1;
      assert s[..|s| - 1] == [];
    } else {
      var rest := s[n..];
      assert rest[|rest| - 1] == s[|s| - 1];
      DropAsciiLast(rest);
      var t := s[..|s| - 1];
      assert t[..n] == s[..n];
      FirstCharLengthOfPrefix(s, t);
      assert t[n..] == rest[..|rest| - 1];
    }
  }

  /** Dropping a run of leading ASCII bytes keeps a string well-formed. */
  lemma {:induction false} DropAsciiPrefix(s: Bytes, i: nat)
    requires WellFormed(s) && i <= |s|
    requires forall k | 0 <= k < i :: s[k] < 0x80
    ensures WellFormed(s[i..])
    decreases i
  {
    if i > 0 {
      DropAsciiHead(s);
      var t := s[1..];
      assert forall k | 0 <= k < i - 1 :: t[k] == s[k + 1];
      DropAsciiPrefix(t, i - 1);
      assert t[i - 1..] == s[i..];
    }
  }

  /** Dropping a run of trailing ASCII bytes keeps a string well-formed. */
  lemma {:induction false} DropAsciiSuffix(s: Bytes, j: nat)
    requires WellFormed(s) && j <= |s|
    requires forall k | j <= k < |s| :: s[k] < 0x80
    ensures WellFormed(s[..j])
    decreases |s| - j
  {
    if j < |s| {
      DropAsciiLast(s);
      var t := s[..|s| - 1];
      assert forall k | j <= k < |t| :: t[k] == s[k];
      DropAsciiSuffix(t, j);
      assert t[..j] == s[..j];
    } else {
      assert s[..j] == s;
    }
  }
}
