/** Numbers and searches in lines of text, as streams and strings do them. */
module SolText {

  datatype Option<T> = None | Some(value: T)

  // ----- searches -----

  /** The first position of c, or -1. */
  function Find(s: string, c: char): (i: int)
    ensures -1 <= i < |s|
    ensures i >= 0 ==> s[i] == c && c !in s[..i]
    ensures i == -1 <==> c !in s
  {
    if s == "" then -1
    else if s[0] == c then 0
    else
      var i := Find(s[1..], c);
      if i < 0 then -1 else assert s[..i + 1] == [s[0]] + s[1..][..i]; i + 1
  }

  lemma {:induction false} FindAfter(a: string, c: char, b: string)
    requires c !in a
    ensures Find(a + [c] + b, c) == |a|
  {
    var s := a + [c] + b;
    if a == "" {
    } else {
      assert s[0] == a[0] && a[0] in a;
      assert s[1..] == a[1..] + [c] + b;
      FindAfter(a[1..], c, b);
    }
  }

  /** `substr(0, find(c))` and `substr(find(c) + 1)`: the whole string if c does not occur. */
  function Before(s: string, c: char): string {
    if Find(s, c) < 0 then s else s[..Find(s, c)]
  }

  function After(s: string, c: char): string {
    if Find(s, c) < 0 then s else s[Find(s, c) + 1..]
  }

  lemma CutAt(a: string, c: char, b: string)
    requires c !in a
    ensures Before(a + [c] + b, c) == a && After(a + [c] + b, c) == b
  {
    FindAfter(a, c, b);
  }

  predicate StartsWith(s: string, t: string) {
    |t| <= |s| && s[..|t|] == t
  }

  /** The first position at which t occurs in s, or -1. */
  function FindText(s: string, t: string): (i: int)
    ensures -1 <= i && (i >= 0 ==> i + |t| <= |s|)
  {
    if StartsWith(s, t) then 0
    else if s == "" then -1
    else
      var i := FindText(s[1..], t);
      if i < 0 then -1 else i + 1
  }

  /** t stands at position k of s. */
  predicate TextAt(s: string, t: string, k: int) {
    0 <= k && k + |t| <= |s| && s[k..k + |t|] == t
  }

  lemma TextBehind(s: string, t: string, k: int)
    requires s != "" && k > 0
    ensures TextAt(s, t, k) <==> TextAt(s[1..], t, k - 1)
  {
    if k + |t| <= |s| { assert s[1..][k - 1..k - 1 + |t|] == s[k..k + |t|]; }
  }

  lemma TextInFront(s: string, t: string, k: int)
    ensures TextAt(s, t, 0) <==> StartsWith(s, t)
    ensures TextAt(s, t, k) ==> 0 <= k <= |s|
    ensures s == "" && TextAt(s, t, k) ==> StartsWith(s, t)
  {
  }

  /** The search finds the first occurrence, and fails only if there is none. */
  lemma {:induction false} FindTextIsFirst(s: string, t: string, k: int)
    ensures FindText(s, t) >= 0 ==> TextAt(s, t, FindText(s, t)) && (TextAt(s, t, k) ==> FindText(s, t) <= k)
    ensures FindText(s, t) < 0 ==> !TextAt(s, t, k)
    decreases s
  {
    hide TextAt, StartsWith;
    TextInFront(s, t, k);
    if StartsWith(s, t) || s == "" {
    } else {
      FindTextIsFirst(s[1..], t, k - 1);
      if k > 0 { TextBehind(s, t, k); }
      if FindText(s[1..], t) >= 0 { TextBehind(s, t, FindText(s[1..], t) + 1); }
    }
  }

  lemma FoundAt(s: string, t: string, i: int)
    requires TextAt(s, t, i) && forall k :: 0 <= k < i ==> !TextAt(s, t, k)
    ensures FindText(s, t) == i
  {
    FindTextIsFirst(s, t, i);
  }

  predicate NoText(s: string, t: string) {
    forall k :: 0 <= k <= |s| ==> !TextAt(s, t, k)
  }

  lemma NotFound(s: string, t: string)
    ensures FindText(s, t) < 0 <==> NoText(s, t)
  {
    hide TextAt;
    FindTextIsFirst(s, t, 0);
    if FindText(s, t) < 0 {
      forall k ensures !TextAt(s, t, k) { FindTextIsFirst(s, t, k); }
    }
  }

  lemma {:induction false} NoTextWithout(s: string, t: string, c: char)
    requires c in t && c !in s
    ensures FindText(s, t) == -1
  {
    assert |t| <= |s| ==> c !in s[..|t|];
    if s == "" {
    } else {
      NoTextWithout(s[1..], t, c);
    }
  }

  // ----- numbers -----

  predicate IsDigit(c: char) {
    '0' <= c <= '9'
  }

  function Digit(n: nat): (c: char)
    requires n < 10
    ensures IsDigit(c) && DigitValue(c) == n
  {
    ('0' as int + n) as char
  }

  function DigitValue(c: char): nat
    requires IsDigit(c)
  {
    c as int - '0' as int
  }

  function Digits(n: nat): (s: string)
    ensures s != "" && forall c :: c in s ==> IsDigit(c)
  {
    if n < 10 then [Digit(n)] else Digits(n / 10) + [Digit(n % 10)]
  }

  /** A number as it is written to a stream. */
  function Print(n: int): (s: string)
    ensures s != "" && forall c :: c in s ==> IsDigit(c) || c == '-'
    ensures '-' in s <==> n < 0
  {
    if n < 0 then "-" + Digits(-n) else Digits(n)
  }

  /** The value of the digits a string starts with, after digits worth `value`. */
  function Value(s: string, value: nat): nat {
    if s == "" || !IsDigit(s[0]) then value else Value(s[1..], 10 * value + DigitValue(s[0]))
  }

  predicate IsSpace(c: char) {
    c == ' ' || c == '\t' || c == '\n' || c == '\r'
  }

  /** Reading a number from a stream: blanks are skipped, and there must be a digit. */
  function ParseInt(s: string): Option<int> {
    if s == "" then None
    else if IsSpace(s[0]) then ParseInt(s[1..])
    else
      var signed := s[0] == '-' || s[0] == '+';
      var t := if signed then s[1..] else s;
      if t == "" || !IsDigit(t[0]) then None
      else
        var value: int := Value(t, 0);
        Some(if s[0] == '-' then -value else value)
  }

  lemma {:induction false} ValueOfDigits(n: nat)
    ensures Value(Digits(n), 0) == n
  {
    if n < 10 {
      ValueOne(Digit(n), 0);
    } else {
      ValueOfDigits(n / 10);
      ValueAppend(Digits(n / 10), Digit(n % 10), 0);
      TenTimes(n);
    }
  }

  lemma TenTimes(n: nat)
    ensures 10 * (n / 10) + n % 10 == n
  {
  }

  lemma ValueOne(c: char, value: nat)
    requires IsDigit(c)
    ensures Value([c], value) == 10 * value + DigitValue(c)
  {
    assert Value([c][1..], 10 * value + DigitValue(c)) == 10 * value + DigitValue(c);
  }

  lemma {:induction false} ValueAppend(s: string, c: char, value: nat)
    requires IsDigit(c) && forall d :: d in s ==> IsDigit(d)
    ensures Value(s + [c], value) == 10 * Value(s, value) + DigitValue(c)
  {
    if s == "" {
      assert s + [c] == [c];
      ValueOne(c, value);
    } else {
      assert (s + [c])[1..] == s[1..] + [c];
      ValueAppend(s[1..], c, 10 * value + DigitValue(s[0]));
    }
  }

  /** A written number is read back, whatever blanks stand before it. */
  lemma {:induction false} ParsePrinted(blanks: string, n: int)
    requires forall c :: c in blanks ==> IsSpace(c)
    ensures ParseInt(blanks + Print(n)) == Some(n)
  {
    if blanks == "" {
      var s := Print(n);
      assert blanks + s == s;
      ValueOfDigits(if n < 0 then -n else n);
      if n < 0 { assert s[1..] == Digits(-n); }
    } else {
      assert (blanks + Print(n))[1..] == blanks[1..] + Print(n);
      ParsePrinted(blanks[1..], n);
    }
  }
}
