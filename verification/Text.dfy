/** The few string operations of Go's `strings` package the modelled code relies on. */
module Text {

  /** The characters `unicode.IsSpace` accepts. */
  predicate IsSpace(c: char) {
    var n := c as int;
    9 <= n <= 13 || n == 32 || n == 0x85 || n == 0xA0 || n == 0x1680 || 0x2000 <= n <= 0x200A
    || n == 0x2028 || n == 0x2029 || n == 0x202F || n == 0x205F || n == 0x3000
  }

  predicate IsDigit(c: char) {
    '0' <= c <= '9'
  }

  predicate AllDigits(s: string) {
    forall i :: 0 <= i < |s| ==> IsDigit(s[i])
  }

  function TrimLeft(s: string): string {
    if s != "" && IsSpace(s[0]) then TrimLeft(s[1..]) else s
  }

  function TrimRight(s: string): string {
    if s != "" && IsSpace(s[|s| - 1]) then TrimRight(s[..|s| - 1]) else s
  }

  /** `strings.TrimSpace` */
  function Trim(s: string): string {
    TrimRight(TrimLeft(s))
  }

  predicate Trimmed(s: string) {
    s != "" ==> !IsSpace(s[0]) && !IsSpace(s[|s| - 1])
  }

  lemma {:induction false} TrimLeftStartsClean(s: string)
    ensures TrimLeft(s) != "" ==> !IsSpace(TrimLeft(s)[0])
  {
    if s != "" && IsSpace(s[0]) {
      TrimLeftStartsClean(s[1..]);
    }
  }

  lemma {:induction false} TrimRightEndsClean(s: string)
    ensures TrimRight(s) <= s
    ensures TrimRight(s) != "" ==> !IsSpace(TrimRight(s)[|TrimRight(s)| - 1])
  {
    if s != "" && IsSpace(s[|s| - 1]) {
      TrimRightEndsClean(s[..|s| - 1]);
    }
  }

  lemma TrimTwice(s: string)
    ensures Trimmed(Trim(s))
    ensures Trim(Trim(s)) == Trim(s)
  {
    TrimLeftStartsClean(s);
    TrimRightEndsClean(TrimLeft(s));
  }

  function LowerChar(c: char): char {
    if 'A' <= c <= 'Z' then (c as int + 32) as char else c
  }

  /** `strings.ToLower` on ASCII text */
  function LowerCase(s: string): string {
    seq(|s|, i requires 0 <= i < |s| => LowerChar(s[i]))
  }

  /** The same character, or an upper-case ASCII letter and its lower-case one. */
  predicate SameLetter(c: char, d: char) {
    c == d || ('A' <= c <= 'Z' && d as int - c as int == 32) || ('A' <= d <= 'Z' && c as int - d as int == 32)
  }

  /** `strings.EqualFold` on ASCII text */
  predicate EqualFold(a: string, b: string) {
    |a| == |b| && forall i :: 0 <= i < |a| ==> SameLetter(a[i], b[i])
  }

  /** Texts are equal but for the case exactly when they have one lower case. */
  lemma SameLowerCaseIff(a: string, b: string)
    ensures EqualFold(a, b) <==> LowerCase(a) == LowerCase(b)
  {
    if LowerCase(a) == LowerCase(b) {
      assert |a| == |LowerCase(a)| == |b|;
      forall i | 0 <= i < |a| ensures SameLetter(a[i], b[i]) {
        assert LowerChar(a[i]) == LowerCase(a)[i] == LowerChar(b[i]);
      }
    }
  }

  /** A text, a colon and a text without one: the last colon tells the two parts apart. */
  lemma LastColonSplits(s: string, a: string, t: string, b: string)
    requires ':' !in a && ':' !in b
    ensures s + ":" + a == t + ":" + b <==> s == t && a == b
  {
    if |a| < |b| {
      LongerEndDiffers(s, a, t, b);
    } else if |b| < |a| {
      LongerEndDiffers(t, b, s, a);
    } else if s + ":" + a == t + ":" + b {
      var k := s + ":" + a;
      assert s == k[..|s|] == t && a == k[|s| + 1..] == b;
    }
  }

  lemma LongerEndDiffers(s: string, a: string, t: string, b: string)
    requires ':' !in b && |a| < |b|
    ensures s + ":" + a != t + ":" + b
  {
    var k, l, j := s + ":" + a, t + ":" + b, |s|;
    if |k| == |l| {
      assert b[j - |t| - 1] in b;
      assert k[j] == ':' && l[j] == b[j - |t| - 1];
    }
  }

  /** The position of the first `c`, or the length when there is none. */
  function IndexOf(s: string, c: char): (i: nat)
    ensures i <= |s| && c !in s[..i]
    ensures i < |s| ==> s[i] == c
  {
    if s == "" || s[0] == c then 0 else 1 + IndexOf(s[1..], c)
  }
}
