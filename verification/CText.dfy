/** Character strings as the C code sees them: sequences of bytes without the terminator. */
module CText {

  predicate IsSpace(c: char) {
    c == ' ' || c == '\t' || c == '\n' || c == '\r' || c as int == 11 || c as int == 12
  }

  /** The characters that isspace() takes in the C locale, by code. */
  lemma SpaceCodes(c: char)
    ensures IsSpace(c) <==> c as int == 32 || 9 <= c as int <= 13
  {
  }

  /** Lower case by code: what is not a capital letter of ASCII stays as it is. */
  lemma LowerCodes(c: char)
    ensures LowerChar(c) as int == c as int + if 65 <= c as int <= 90 then 32 else 0
  {
  }

  function LowerChar(c: char): char {
    if 'A' <= c <= 'Z' then (c as int + 32) as char else c
  }

  function Lower(s: string): (r: string)
    ensures |r| == |s|
    ensures forall i :: 0 <= i < |s| ==> r[i] == LowerChar(s[i])
  {
    seq(|s|, i requires 0 <= i < |s| => LowerChar(s[i]))
  }

  function TrimLeft(s: string): (r: string)
    ensures |r| <= |s|
  {
    if s != "" && IsSpace(s[0]) then TrimLeft(s[1..]) else s
  }

  function TrimRight(s: string): (r: string)
    ensures |r| <= |s|
  {
    if s != "" && IsSpace(s[|s| - 1]) then TrimRight(s[..|s| - 1]) else s
  }

  /** What is left of a text when the spaces in front are taken off. */
  lemma {:induction false} TrimLeftIs(s: string)
    ensures var r := TrimLeft(s);
      && (r == "" || !IsSpace(r[0])) && r == s[|s| - |r|..]
      && forall i :: 0 <= i < |s| - |r| ==> IsSpace(s[i])
  {
    if s != "" && IsSpace(s[0]) {
      hide IsSpace;
      TrimLeftIs(s[1..]);
      var r := TrimLeft(s[1..]);
      assert TrimLeft(s) == r;
      hide TrimLeft;
      assert s[|s| - |r|..] == s[1..][|s| - 1 - |r|..];
      forall i | 0 <= i < |s| - |r| ensures IsSpace(s[i]) {
        if i > 0 { assert s[i] == s[1..][i - 1]; }
      }
    }
  }

  /** And at the end. */
  lemma {:induction false} TrimRightIs(s: string)
    ensures var r := TrimRight(s);
      && (r == "" || !IsSpace(r[|r| - 1])) && r == s[..|r|]
      && forall i :: |r| <= i < |s| ==> IsSpace(s[i])
  {
    if s != "" && IsSpace(s[|s| - 1]) {
      hide IsSpace;
      var front := s[..|s| - 1];
      TrimRightIs(front);
      var r := TrimRight(front);
      assert TrimRight(s) == r;
      hide TrimRight;
      assert s[..|r|] == front[..|r|];
      forall i | |r| <= i < |s| ensures IsSpace(s[i]) {
        if i < |s| - 1 { assert s[i] == front[i]; }
      }
    }
  }

  function Trim(s: string): string { TrimRight(TrimLeft(s)) }

  /** No space at either end. */
  predicate Trimmed(s: string) { s == "" || (!IsSpace(s[0]) && !IsSpace(s[|s| - 1])) }

  lemma TrimTrims(s: string)
    ensures Trimmed(Trim(s))
    ensures Trimmed(s) ==> Trim(s) == s
  {
    var l := TrimLeft(s);
    var r := TrimRight(l);
    TrimLeftIs(s);
    TrimRightIs(l);
    if r != "" { assert r[0] == l[0]; }
    if Trimmed(s) && s != "" {
      assert |s| - |l| == 0;
    }
  }

  /** Trimming takes off spaces only, at the two ends. */
  lemma TrimIsMiddle(s: string)
    ensures exists a, b ::
      && 0 <= a <= b <= |s| && Trim(s) == s[a..b]
      && (forall i :: 0 <= i < a ==> IsSpace(s[i])) && (forall i :: b <= i < |s| ==> IsSpace(s[i]))
  {
    var l := TrimLeft(s);
    var r := TrimRight(l);
    TrimLeftIs(s);
    TrimRightIs(l);
    var a := |s| - |l|;
    assert r == s[a..a + |r|];
    forall i | a + |r| <= i < |s| ensures IsSpace(s[i]) { assert s[i] == l[i - a]; }
  }

  /** Index of the first `c`, or the length. */
  function IndexOf(s: string, c: char): (n: nat)
    ensures n <= |s| && (n == |s| || s[n] == c) && forall i :: 0 <= i < n ==> s[i] != c
  {
    if s == "" || s[0] == c then 0 else 1 + IndexOf(s[1..], c)
  }

  /** Numbers of 64 bits wrap around here. */
  const WORD: nat := 0x1_0000_0000_0000_0000

  predicate IsDigit(c: char) { '0' <= c <= '9' }

  function Decimal(n: nat): (s: string)
    ensures s != "" && forall i :: 0 <= i < |s| ==> IsDigit(s[i])
  {
    if n < 10 then [('0' as int + n) as char] else Decimal(n / 10) + [('0' as int + n % 10) as char]
  }

  function HexDigit(d: nat): char
    requires d < 16
  {
    if d < 10 then ('0' as int + d) as char else ('a' as int + d - 10) as char
  }

  /** What fits a field of `size` bytes. */
  function Cut(s: string, size: nat): (r: string)
    requires size > 0
    ensures |r| < size && r <= s
  {
    if |s| < size then s else s[..size - 1]
  }

  function EndsWith(s: string, suffix: string): bool {
    |s| >= |suffix| && s[|s| - |suffix|..] == suffix
  }
}
