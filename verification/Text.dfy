/** Characters and numerals, as the regular expressions and formatters of the program see them. */
module Text {
  predicate IsDigit(c: char) {
    '0' <= c <= '9'
  }

  function DigitOf(d: nat): (c: char)
    requires d < 10
    ensures IsDigit(c) && DigitValue(c) == d
  {
    '0' + d as char
  }

  function DigitValue(c: char): nat
    requires IsDigit(c)
  {
    (c - '0') as nat
  }

  /** White space, as the interpreter's strip and its regular expressions have it. */
  predicate IsSpace(c: char) {
    var n := c as int;
    9 <= n <= 13 || 28 <= n <= 32 || n == 0x85 || n == 0xa0 || n == 0x1680 || 0x2000 <= n <= 0x200a
    || n == 0x2028 || n == 0x2029 || n == 0x202f || n == 0x205f || n == 0x3000
  }

  function TrimLeft(s: string): (r: string)
    ensures r == "" || !IsSpace(r[0])
  {
    if s != "" && IsSpace(s[0]) then TrimLeft(s[1..]) else s
  }

  function TrimRight(s: string): string {
    if s != "" && IsSpace(s[|s| - 1]) then TrimRight(s[..|s| - 1]) else s
  }

  function Strip(s: string): string {
    TrimRight(TrimLeft(s))
  }

  lemma {:induction false} TrimLeftExactly(s: string) returns (b: string)
    ensures s == b + TrimLeft(s) && forall i :: 0 <= i < |b| ==> IsSpace(b[i])
  {
    if s != "" && IsSpace(s[0]) {
      b := TrimLeftExactly(s[1..]);
      b := [s[0]] + b;
    } else {
      b := "";
    }
  }

  lemma {:induction false} TrimRightExactly(s: string) returns (b: string)
    ensures s == TrimRight(s) + b && forall i :: 0 <= i < |b| ==> IsSpace(b[i])
    ensures TrimRight(s) == "" || !IsSpace(TrimRight(s)[|TrimRight(s)| - 1])
  {
    if s != "" && IsSpace(s[|s| - 1]) {
      b := TrimRightExactly(s[..|s| - 1]);
      b := b + [s[|s| - 1]];
    } else {
      b := "";
    }
  }

  /** Stripping takes off all white space at both ends and nothing else. */
  lemma StripExactly(s: string) returns (b: string, e: string)
    ensures s == b + Strip(s) + e
    ensures (forall i :: 0 <= i < |b| ==> IsSpace(b[i])) && (forall i :: 0 <= i < |e| ==> IsSpace(e[i]))
    ensures Strip(s) == "" || (!IsSpace(Strip(s)[0]) && !IsSpace(Strip(s)[|Strip(s)| - 1]))
  {
    b := TrimLeftExactly(s);
    e := TrimRightExactly(TrimLeft(s));
    assert TrimLeft(s) == Strip(s) + e && s == b + (Strip(s) + e);
    assert Strip(s) != "" ==> Strip(s)[0] == TrimLeft(s)[0];
  }

  predicate StartsAt(t: string, i: nat, a: string) {
    i + |a| <= |t| && t[i..i + |a|] == a
  }

  predicate Contains(t: string, a: string) {
    exists i :: 0 <= i <= |t| && StartsAt(t, i, a)
  }

  /** Case folding of the letters that a case-insensitive pattern of English letters can meet. */
  function Fold(c: char): char {
    if 'A' <= c <= 'Z' then c + ('a' - 'A')
    else if c == '\U{017F}' then 's'
    else if c == '\U{0130}' || c == '\U{0131}' then 'i'
    else if c == '\U{212A}' then 'k'
    else c
  }

  /** The text starts with this prefix, letter case aside. */
  predicate StartsFolded(t: string, prefix: string) {
    |prefix| <= |t| && forall k :: 0 <= k < |prefix| ==> Fold(t[k]) == Fold(prefix[k])
  }

  /** The decimal numeral of `n`. */
  function Dec(n: nat): (s: string)
    ensures s != "" && forall c :: c in s ==> IsDigit(c)
  {
    if n < 10 then [DigitOf(n)] else Dec(n / 10) + [DigitOf(n % 10)]
  }

  function Value(s: string): nat
    requires forall c :: c in s ==> IsDigit(c)
  {
    if s == "" then 0 else 10 * Value(s[..|s| - 1]) + DigitValue(s[|s| - 1])
  }

  lemma {:induction false} ValueOfDec(n: nat)
    ensures Value(Dec(n)) == n
  {
    if n >= 10 {
      ValueOfDec(n / 10);
      assert Dec(n)[..|Dec(n)| - 1] == Dec(n / 10);
    } else {
      assert Dec(n)[..0] == "";
    }
  }

  /** The longest run of digits the text starts with. */
  function Digits(t: string): (s: string)
    ensures forall c :: c in s ==> IsDigit(c)
    ensures |s| <= |t| && s == t[..|s|] && (|s| == |t| || !IsDigit(t[|s|]))
  {
    if t == "" || !IsDigit(t[0]) then ""
    else
      var rest := Digits(t[1..]);
      assert t[..1 + |rest|] == [t[0]] + rest;
      [t[0]] + rest
  }

  lemma {:induction false} DigitsOfRun(s: string, tail: string)
    requires (forall c :: c in s ==> IsDigit(c)) && (tail == "" || !IsDigit(tail[0]))
    ensures Digits(s + tail) == s
  {
    if s == "" {
      assert s + tail == tail;
    } else {
      assert s[0] in s && (s + tail)[1..] == s[1..] + tail;
      DigitsOfRun(s[1..], tail);
    }
  }
}
