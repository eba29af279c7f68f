/** The parts of java.lang.String, java.lang.Character and java.lang.Integer that the
    image-name logic relies on, modelled over Dafny strings (sequences of char).
    Character classification and case mapping are ASCII only. A Java call that would
    throw returns `Throws(...)` instead of a value. */
module JavaStrings {

  /** The two exceptions the image-name code can raise on a malformed name. */
  datatype JavaException = StringIndexOutOfBounds | NumberFormat

  /** The outcome of a Java call: the value it returns, or the exception it throws.
      Failure-compatible, so `:-` propagates an exception the way Java does. */
  datatype Outcome<+T> = Value(v: T) | Throws(exception: JavaException) {
    predicate IsFailure() { Throws? }

    function PropagateFailure<U>(): Outcome<U>
      requires Throws?
    {
      Throws(exception)
    }

    function Extract(): T
      requires Value?
    {
      v
    }
  }

  const MinInt32: int := -0x8000_0000
  const MaxInt32: int := 0x7FFF_FFFF

  /** Java's `int`. */
  type Int32 = x: int | MinInt32 <= x <= MaxInt32

  // ---------------------------------------------------------------------------
  // Searching

  /** `pat` occurs in `s` starting at index `i`. */
  predicate OccursAt(s: string, pat: string, i: int) {
    0 <= i && i + |pat| <= |s| && s[i..i + |pat|] == pat
  }

  /** String.indexOf(pat, from): the first occurrence at or after `from`, or -1. */
  function IndexOfFrom(s: string, pat: string, from: nat): (r: int)
    ensures r == -1 || (from <= r && OccursAt(s, pat, r))
    ensures forall j :: from <= j && (r == -1 || j < r) ==> !OccursAt(s, pat, j)
    decreases |s| - from
  {
    if from + |pat| > |s| then -1
    else if s[from..from + |pat|] == pat then from
    else IndexOfFrom(s, pat, from + 1)
  }

  /** String.indexOf(pat): the first occurrence of `pat` in `s`, or -1. */
  function IndexOf(s: string, pat: string): (r: int)
    ensures r == -1 || OccursAt(s, pat, r)
    ensures forall j :: 0 <= j && (r == -1 || j < r) ==> !OccursAt(s, pat, j)
  {
    IndexOfFrom(s, pat, 0)
  }

  /** The last occurrence of `pat` in `s` that starts at or before `k`, or -1. */
  function LastIndexOfBelow(s: string, pat: string, k: int): (r: int)
    ensures r == -1 || (r <= k && OccursAt(s, pat, r))
    ensures forall j :: j <= k && r < j ==> !OccursAt(s, pat, j)
    decreases k + 1
  {
    if k < 0 then -1
    else if OccursAt(s, pat, k) then k
    else LastIndexOfBelow(s, pat, k - 1)
  }

  /** String.lastIndexOf(pat): the last occurrence of `pat` in `s`, or -1. */
  function LastIndexOf(s: string, pat: string): (r: int)
    ensures r == -1 || OccursAt(s, pat, r)
    ensures forall j :: r < j ==> !OccursAt(s, pat, j)
  {
    LastIndexOfBelow(s, pat, |s| - |pat|)
  }

  /** String.contains(pat). */
  function Contains(s: string, pat: string): (b: bool)
    ensures b <==> exists i :: OccursAt(s, pat, i)
  {
    IndexOf(s, pat) != -1
  }

  predicate StartsWith(s: string, prefix: string) {
    |prefix| <= |s| && s[..|prefix|] == prefix
  }

  predicate EndsWith(s: string, suffix: string) {
    |suffix| <= |s| && s[|s| - |suffix|..] == suffix
  }

  // ---------------------------------------------------------------------------
  // Access that can throw

  /** String.charAt(i). */
  function CharAt(s: string, i: int): Outcome<char> {
    if 0 <= i < |s| then Value(s[i]) else Throws(StringIndexOutOfBounds)
  }

  /** String.substring(b, e). */
  function Substring(s: string, b: int, e: int): Outcome<string> {
    if 0 <= b <= e <= |s| then Value(s[b..e]) else Throws(StringIndexOutOfBounds)
  }

  /** String.substring(b). */
  function SubstringFrom(s: string, b: int): Outcome<string> {
    Substring(s, b, |s|)
  }

  // ---------------------------------------------------------------------------
  // Characters (ASCII)

  predicate IsDigit(c: char) { '0' <= c <= '9' }

  predicate IsLower(c: char) { 'a' <= c <= 'z' }

  predicate IsUpper(c: char) { 'A' <= c <= 'Z' }

  predicate AllDigits(s: string) {
    forall k :: 0 <= k < |s| ==> IsDigit(s[k])
  }

  /** Character.getNumericValue: 0-9 for digits, 10-35 for letters, -1 otherwise. */
  function NumericValue(c: char): (r: int)
    ensures IsDigit(c) <==> 0 <= r <= 9
    ensures r == 0 <==> c == '0'
  {
    if IsDigit(c) then c as int - '0' as int
    else if IsLower(c) then c as int - 'a' as int + 10
    else if IsUpper(c) then c as int - 'A' as int + 10
    else -1
  }

  function ToUpperChar(c: char): char {
    if IsLower(c) then (c as int - 32) as char else c
  }

  function ToLowerChar(c: char): char {
    if IsUpper(c) then (c as int + 32) as char else c
  }

  /** String.toUpperCase. */
  function ToUpper(s: string): (r: string)
    ensures |r| == |s|
    ensures forall k :: 0 <= k < |s| ==> r[k] == ToUpperChar(s[k])
  {
    seq(|s|, k requires 0 <= k < |s| => ToUpperChar(s[k]))
  }

  /** String.toLowerCase. */
  function ToLower(s: string): (r: string)
    ensures |r| == |s|
    ensures forall k :: 0 <= k < |s| ==> r[k] == ToLowerChar(s[k])
  {
    seq(|s|, k requires 0 <= k < |s| => ToLowerChar(s[k]))
  }

  // ---------------------------------------------------------------------------
  // Integers and their decimal text

  function DigitChar(d: nat): (c: char)
    requires d < 10
    ensures IsDigit(c) && NumericValue(c) == d
  {
    ('0' as int + d) as char
  }

  /** The value of a string of decimal digits, leading zeros allowed. */
  function DigitsValue(s: string): nat
    requires AllDigits(s)
  {
    if s == [] then 0 else DigitsValue(s[..|s| - 1]) * 10 + NumericValue(s[|s| - 1])
  }

  /** The decimal text of a natural number, without leading zeros. */
  function NatToString(n: nat): (r: string)
    ensures |r| >= 1 && AllDigits(r)
    ensures r[0] == '0' <==> n == 0
    decreases n
  {
    if n < 10 then [DigitChar(n)] else NatToString(n / 10) + [DigitChar(n % 10)]
  }

  /** Integer.toString. */
  function IntToString(n: int): string {
    if n < 0 then "-" + NatToString(-n) else NatToString(n)
  }

  /** Integer.parseInt: an optional sign, then at least one digit, within int range. */
  function ParseInt(s: string): Outcome<Int32> {
    if s == [] then Throws(NumberFormat)
    else
      var digits := if s[0] == '-' || s[0] == '+' then s[1..] else s;
      if digits == [] || !AllDigits(digits) then Throws(NumberFormat)
      else
        var value: int := if s[0] == '-' then -(DigitsValue(digits) as int) else DigitsValue(digits);
        if MinInt32 <= value <= MaxInt32 then Value(value) else Throws(NumberFormat)
  }

  // ---------------------------------------------------------------------------
  // Lemmas

  /** Reading back the decimal text of n gives n. */
  lemma {:induction false} NatToStringValue(n: nat)
    ensures DigitsValue(NatToString(n)) == n
    decreases n
  {
    if n >= 10 {
      var r := NatToString(n);
      assert r[..|r| - 1] == NatToString(n / 10);
      NatToStringValue(n / 10);
    }
  }

  /** The number of digits of n for the widths the name builders care about. */
  lemma {:induction false} NatToStringLength(n: nat)
    ensures n < 10 ==> |NatToString(n)| == 1
    ensures 10 <= n < 100 ==> |NatToString(n)| == 2
    ensures 100 <= n < 1000 ==> |NatToString(n)| == 3
    ensures 1000 <= n ==> |NatToString(n)| >= 4
    decreases n
  {
    if n >= 10 {
      NatToStringLength(n / 10);
    }
  }

  /** A leading zero does not change the value of a digit string. */
  lemma {:induction false} LeadingZeroValue(s: string)
    requires AllDigits(s)
    ensures AllDigits("0" + s) && DigitsValue("0" + s) == DigitsValue(s)
    decreases |s|
  {
    if s != [] {
      var z := "0" + s;
      assert z[..|z| - 1] == "0" + s[..|s| - 1];
      LeadingZeroValue(s[..|s| - 1]);
    }
  }

  /** Integer.parseInt inverts Integer.toString on every int. */
  lemma ParseIntOfIntToString(n: Int32)
    ensures ParseInt(IntToString(n)) == Value(n)
  {
    if n < 0 {
      var m: nat := -(n as int);
      var digits := NatToString(m);
      NatToStringValue(m);
      ParseIntOfSignedDigits("-" + digits, digits);
    } else {
      NatToStringValue(n);
      ParseIntOfSignedDigits(NatToString(n), NatToString(n));
    }
  }

  /** Integer.parseInt on a digit run, alone or after a minus sign, within int range. */
  lemma ParseIntOfSignedDigits(s: string, digits: string)
    requires digits != [] && AllDigits(digits)
    requires s == digits || s == "-" + digits
    requires s == digits ==> DigitsValue(digits) <= MaxInt32
    requires s != digits ==> DigitsValue(digits) <= -MinInt32
    ensures s == digits ==> ParseInt(s) == Value(DigitsValue(digits))
    ensures s != digits ==> ParseInt(s) == Value(-(DigitsValue(digits) as int))
  {
    if s == digits {
      assert s[0] != '-' && s[0] != '+';
    } else {
      assert s[1..] == digits;
    }
  }

  /** A string of digits holds no non-digit character. */
  lemma DigitsLack(s: string, c: char)
    requires AllDigits(s) && !IsDigit(c)
    ensures c !in s
  {
  }

  /** A one-character pattern occurs exactly where that character stands. */
  lemma CharOccurrences(s: string, c: char)
    ensures forall j :: OccursAt(s, [c], j) <==> 0 <= j < |s| && s[j] == c
  {
    forall j | 0 <= j < |s|
      ensures OccursAt(s, [c], j) <==> s[j] == c
    {
      assert s[j..j + 1] == [s[j]];
    }
  }

  /** A two-character pattern occurs exactly where its two characters stand side by side. */
  lemma PairOccurrences(s: string, c: char, d: char)
    ensures forall j :: OccursAt(s, [c, d], j) <==> 0 <= j && j + 1 < |s| && s[j] == c && s[j + 1] == d
  {
    forall j
      ensures OccursAt(s, [c, d], j) <==> 0 <= j && j + 1 < |s| && s[j] == c && s[j + 1] == d
    {
      if 0 <= j && j + 1 < |s| {
        var w := s[j..j + 2];
        assert w == [s[j], s[j + 1]];
        assert w == [c, d] <==> w[0] == c && w[1] == d;
      }
    }
  }

  /** The last `c` of `s` is the one that no other `c` follows. */
  lemma LastIndexOfCharIs(s: string, c: char, i: int)
    requires 0 <= i < |s| && s[i] == c
    requires forall k :: i < k < |s| ==> s[k] != c
    ensures LastIndexOf(s, [c]) == i
  {
    CharOccurrences(s, c);
  }

  /** No `c` in `s` means no last `c`. */
  lemma LastIndexOfCharAbsent(s: string, c: char)
    requires c !in s
    ensures LastIndexOf(s, [c]) == -1
  {
    CharOccurrences(s, c);
  }

  /** The last `cd` of `s` is the one after which no `c` is followed by `d`. */
  lemma LastIndexOfPairIs(s: string, c: char, d: char, i: int)
    requires 0 <= i && i + 1 < |s| && s[i] == c && s[i + 1] == d
    requires forall k :: i < k < |s| - 1 && s[k] == c ==> s[k + 1] != d
    ensures LastIndexOf(s, [c, d]) == i
  {
    PairOccurrences(s, c, d);
    var r := LastIndexOf(s, [c, d]);
    assert OccursAt(s, [c, d], i);
    if r > i {
      assert OccursAt(s, [c, d], r);
      assert s[r] == c && s[r + 1] == d;
    }
  }

  /** The first `cd` of `s` is the one before which no `c` is followed by `d`. */
  lemma IndexOfPairIs(s: string, c: char, d: char, i: int)
    requires 0 <= i && i + 1 < |s| && s[i] == c && s[i + 1] == d
    requires forall k :: 0 <= k < i && s[k] == c ==> s[k + 1] != d
    ensures IndexOf(s, [c, d]) == i
  {
    PairOccurrences(s, c, d);
    var r := IndexOf(s, [c, d]);
    assert OccursAt(s, [c, d], i);
    if r != -1 && r < i {
      assert OccursAt(s, [c, d], r);
      assert s[r] == c && s[r + 1] == d;
    }
  }

  /** Text appended after a first occurrence does not move it. */
  lemma IndexOfExtend(a: string, b: string, pat: string)
    requires IndexOf(a, pat) != -1
    ensures IndexOf(a + b, pat) == IndexOf(a, pat)
  {
    var i := IndexOf(a, pat);
    assert (a + b)[i..i + |pat|] == a[i..i + |pat|];
    assert OccursAt(a + b, pat, i);
    forall j | 0 <= j < i
      ensures !OccursAt(a + b, pat, j)
    {
      assert !OccursAt(a, pat, j);
      assert (a + b)[j..j + |pat|] == a[j..j + |pat|];
    }

  }

  /** An occurrence inside a suffix is an occurrence in the whole string. */
  lemma ContainsOfSuffix(s: string, k: int, pat: string)
    requires 0 <= k <= |s| && Contains(s[k..], pat)
    ensures Contains(s, pat)
  {
    var i := IndexOf(s[k..], pat);
    assert s[k..][i..i + |pat|] == s[k + i..k + i + |pat|];
    assert OccursAt(s, pat, k + i);
  }

  /** Strings with the same occurrences of `pat` have the same first and last one. */
  lemma SameOccurrencesSameIndices(s: string, t: string, pat: string)
    requires forall j :: OccursAt(s, pat, j) <==> OccursAt(t, pat, j)
    ensures IndexOf(s, pat) == IndexOf(t, pat)
    ensures LastIndexOf(s, pat) == LastIndexOf(t, pat)
  {
    var a, b := IndexOf(s, pat), IndexOf(t, pat);
    if a != -1 {
      assert OccursAt(t, pat, a);
    }
    if b != -1 {
      assert OccursAt(s, pat, b);
    }
    var c, d := LastIndexOf(s, pat), LastIndexOf(t, pat);
    if c != -1 {
      assert OccursAt(t, pat, c);
    }
    if d != -1 {
      assert OccursAt(s, pat, d);
    }
  }

  /** Replacing one character by another, neither of them in `pat`, leaves the occurrences
      of `pat` where they were. */
  lemma ReplacedCharKeepsOccurrences(s: string, t: string, i: int, pat: string)
    requires |s| == |t| && 0 <= i < |s|
    requires forall k :: 0 <= k < |s| && k != i ==> s[k] == t[k]
    requires s[i] !in pat && t[i] !in pat
    ensures forall j :: OccursAt(s, pat, j) <==> OccursAt(t, pat, j)
  {
    forall j | 0 <= j && j + |pat| <= |s|
      ensures OccursAt(s, pat, j) <==> OccursAt(t, pat, j)
    {
      if j <= i < j + |pat| {
        assert s[j..j + |pat|][i - j] == s[i];
        assert t[j..j + |pat|][i - j] == t[i];
      } else {
        assert s[j..j + |pat|] == t[j..j + |pat|];
      }
    }
  }

  /** `s` with the character at `i` replaced by `c`. */
  function ReplaceCharAt(s: string, i: nat, c: char): (t: string)
    requires i < |s|
    ensures |t| == |s| && t[i] == c
    ensures forall k :: 0 <= k < |s| && k != i ==> t[k] == s[k]
  {
    s[..i] + [c] + s[i + 1..]
  }

  /** Putting the old character back undoes a replacement. */
  lemma ReplaceCharAtRestores(s: string, i: nat, c: char)
    requires i < |s|
    ensures ReplaceCharAt(ReplaceCharAt(s, i, c), i, s[i]) == s
  {
    var back := ReplaceCharAt(ReplaceCharAt(s, i, c), i, s[i]);
    assert forall k :: 0 <= k < |s| ==> back[k] == s[k];
  }

  /** Replacing a character outside `pat` by another outside `pat` moves no occurrence of `pat`. */
  lemma ReplaceCharAtKeepsIndices(s: string, i: nat, c: char, pat: string)
    requires i < |s| && s[i] !in pat && c !in pat
    ensures IndexOf(ReplaceCharAt(s, i, c), pat) == IndexOf(s, pat)
    ensures LastIndexOf(ReplaceCharAt(s, i, c), pat) == LastIndexOf(s, pat)
  {
    var t := ReplaceCharAt(s, i, c);
    ReplacedCharKeepsOccurrences(s, t, i, pat);
    SameOccurrencesSameIndices(s, t, pat);
  }
}
