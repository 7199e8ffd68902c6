/**
 The string helpers of the Go and Java libraries that the modelled code leans on.
 */
module Text {
  import opened Sql

  /** `unicode.IsSpace` */
  predicate IsSpace(c: char) {
    || c == ' ' || '\t' <= c <= '\r' || c == '\U{85}' || c == '\U{A0}' || c == '\U{1680}'
    || '\U{2000}' <= c <= '\U{200A}' || c == '\U{2028}' || c == '\U{2029}' || c == '\U{202F}'
    || c == '\U{205F}' || c == '\U{3000}'
  }

  lemma SpacesOfAscii(c: char)
    requires c < '\U{80}'
    ensures IsSpace(c) <==> c in {' ', '\t', '\n', '\U{B}', '\U{C}', '\r'}
  {
  }

  predicate Trimmed(s: string, space: char -> bool) {
    s == [] || (!space(s[0]) && !space(s[|s| - 1]))
  }

  /** What is left after removing the characters in `space` from both ends. */
  function Trim(s: string, space: char -> bool): (r: string)
    ensures Trimmed(r, space)
    ensures Trimmed(s, space) ==> r == s
    ensures r == [] <==> forall c :: c in s ==> space(c)
    decreases |s|
  {
    if s == [] then s
    else if space(s[0]) then Trim(s[1..], space)
    else if space(s[|s| - 1]) then
      assert s[0] in s && s[0] in s[..|s| - 1];
      Trim(s[..|s| - 1], space)
    else
      assert s[0] in s;
      s
  }

  ghost predicate AllSpace(s: string, space: char -> bool) {
    forall i :: 0 <= i < |s| ==> space(s[i])
  }

  /** Trimming takes away space only. */
  lemma {:induction false} TrimTakesOnlySpace(s: string, space: char -> bool) returns (front: string, back: string)
    ensures s == front + Trim(s, space) + back
    ensures AllSpace(front, space) && AllSpace(back, space)
    decreases |s|
  {
    front, back := [], [];
    if s != [] && space(s[0]) {
      front, back := TrimTakesOnlySpace(s[1..], space);
      PutBack(s, front, Trim(s[1..], space), back);
      front := [s[0]] + front;
    } else if s != [] && space(s[|s| - 1]) {
      front, back := TrimTakesOnlySpace(s[..|s| - 1], space);
      PutBackLast(s, front, Trim(s[..|s| - 1], space), back);
      back := back + [s[|s| - 1]];
    }
  }

  lemma PutBack(s: string, front: string, r: string, back: string)
    requires s != [] && s[1..] == front + r + back
    ensures s == ([s[0]] + front) + r + back
  {
    assert s == [s[0]] + s[1..];
  }

  lemma PutBackLast(s: string, front: string, r: string, back: string)
    requires s != [] && s[..|s| - 1] == front + r + back
    ensures s == front + r + (back + [s[|s| - 1]])
  {
    assert s == s[..|s| - 1] + [s[|s| - 1]];
  }

  /** `strings.TrimSpace` */
  function TrimSpace(s: string): string {
    Trim(s, IsSpace)
  }

  /** `nz`: a blank string is stored as null, anything else as it came. */
  function Nz(s: string): Option<string> {
    if TrimSpace(s) == "" then None else Some(s)
  }

  predicate HasPrefix(s: string, prefix: string) {
    |prefix| <= |s| && s[..|prefix|] == prefix
  }

  lemma PrefixIff(s: string, prefix: string)
    ensures HasPrefix(s, prefix) <==> exists rest :: s == prefix + rest
  {
    if HasPrefix(s, prefix) {
      assert s == prefix + s[|prefix|..];
    }
  }

  // ---------- decimal numbers ----------

  predicate IsDigit(c: char) {
    '0' <= c <= '9'
  }

  function Digit(n: int): char
    requires 0 <= n < 10
  {
    '0' + n as char
  }

  function DigitValue(c: char): int {
    c as int - '0' as int
  }

  /** `%d` of a natural number. */
  function Decimal(n: nat): string {
    if n < 10 then [Digit(n)] else Decimal(n / 10) + [Digit(n % 10)]
  }

  /** The number a string of digits stands for. */
  function NumberOf(s: string): int {
    if s == [] then 0 else 10 * NumberOf(s[..|s| - 1]) + DigitValue(s[|s| - 1])
  }

  lemma {:induction false} DecimalReadsBack(n: nat)
    ensures NumberOf(Decimal(n)) == n
    ensures |Decimal(n)| >= 1 && forall i :: 0 <= i < |Decimal(n)| ==> IsDigit(Decimal(n)[i])
  {
    if n < 10 {
      assert [Digit(n)][..0] == [];
    } else {
      var front := Decimal(n / 10);
      DecimalReadsBack(n / 10);
      assert (front + [Digit(n % 10)])[..|front|] == front;
    }
  }

  function Power10(w: nat): nat {
    if w == 0 then 1 else 10 * Power10(w - 1)
  }

  /** `n` in `w` decimal digits. */
  function Pad(n: int, w: nat): (r: string)
    requires 0 <= n < Power10(w)
    ensures |r| == w
    decreases w
  {
    if w == 0 then [] else Pad(n / 10, w - 1) + [Digit(n % 10)]
  }

  ghost predicate Digits(s: string) {
    forall i :: 0 <= i < |s| ==> IsDigit(s[i])
  }

  lemma DigitsWithin(s: string, lo: nat, hi: nat)
    requires Digits(s) && lo <= hi <= |s|
    ensures Digits(s[lo..hi])
  {
    assert forall i :: 0 <= i < hi - lo ==> s[lo..hi][i] == s[lo + i];
  }

  /** Padding and reading undo each other. */
  lemma {:induction false} PadReadsBack(n: int, w: nat)
    requires 0 <= n < Power10(w)
    ensures NumberOf(Pad(n, w)) == n && Digits(Pad(n, w))
    decreases w
  {
    if w > 0 {
      var front := Pad(n / 10, w - 1);
      PadReadsBack(n / 10, w - 1);
      assert (front + [Digit(n % 10)])[..w - 1] == front;
    }
  }

  lemma {:induction false} NumberPadsBack(s: string)
    requires Digits(s)
    ensures 0 <= NumberOf(s) < Power10(|s|) && Pad(NumberOf(s), |s|) == s
  {
    if s != [] {
      var n := |s| - 1;
      NumberPadsBack(s[..n]);
      assert IsDigit(s[n]);
      assert NumberOf(s) / 10 == NumberOf(s[..n]) && Digit(NumberOf(s) % 10) == s[n];
      assert s == s[..n] + [s[n]];
    }
  }

  lemma DecimalIsInjective(a: nat, b: nat)
    requires Decimal(a) == Decimal(b)
    ensures a == b
  {
    DecimalReadsBack(a);
    DecimalReadsBack(b);
  }
}
