/** The string operations the source relies on: decimal rendering of
    integers (int.ToString), string.Join(", ", ints), substring search, and
    ordinal ignore-case comparison. */
module Text {
  import opened Wrappers

  predicate IsDigit(c: char) {
    '0' <= c <= '9'
  }

  predicate AllDigits(s: string) {
    forall i :: 0 <= i < |s| ==> IsDigit(s[i])
  }

  function DigitChar(d: nat): (c: char)
    requires d < 10
    ensures IsDigit(c) && c as int - '0' as int == d
  {
    ('0' as int + d) as char
  }

  /** Decimal digits of n, most significant first. */
  function NatToString(n: nat): (s: string)
    ensures |s| > 0 && AllDigits(s)
    ensures s[0] == '0' ==> n == 0 && |s| == 1
  {
    if n < 10 then [DigitChar(n)] else NatToString(n / 10) + [DigitChar(n % 10)]
  }

  /** The value of a string of decimal digits. */
  function DigitsValue(s: string): nat
    requires AllDigits(s)
  {
    if s == [] then 0 else DigitsValue(s[..|s| - 1]) * 10 + (s[|s| - 1] as int - '0' as int)
  }

  lemma {:induction false} NatToStringRoundTrip(n: nat)
    ensures DigitsValue(NatToString(n)) == n
  {
    var s := NatToString(n);
    if n < 10 {
      assert s[..|s| - 1] == [];
    } else {
      assert s[..|s| - 1] == NatToString(n / 10);
      NatToStringRoundTrip(n / 10);
    }
  }

  predicate IsNumberChar(c: char) {
    IsDigit(c) || c == '-'
  }

  /** How the interpolation in Student.ToString renders an int: an optional
      negative sign and the digits. The source formats with the current culture;
      the model takes the negative sign to be the ASCII hyphen-minus. */
  function IntToString(i: int): (s: string)
    ensures |s| > 0 && ',' !in s
    ensures forall k :: 0 <= k < |s| ==> IsNumberChar(s[k])
  {
    if i < 0 then "-" + NatToString(-i) else NatToString(i)
  }

  /** Reads back what IntToString writes: an optional '-' and at least one digit. */
  function ParseInt(s: string): Option<int> {
    if |s| > 1 && s[0] == '-' && AllDigits(s[1..]) then Some(0 - DigitsValue(s[1..]) as int)
    else if |s| > 0 && AllDigits(s) then Some(DigitsValue(s) as int)
    else None
  }

  lemma IntToStringRoundTrip(i: int)
    ensures ParseInt(IntToString(i)) == Some(i)
  {
    var s := IntToString(i);
    if i < 0 {
      assert s[1..] == NatToString(-i);
      NatToStringRoundTrip(-i);
    } else {
      NatToStringRoundTrip(i);
    }
  }

  /** string.Join(", ", xs) over the decimal renderings of xs. */
  function JoinInts(xs: seq<int>): (s: string)
    ensures s == "" <==> xs == []
    ensures forall k :: 0 <= k < |s| ==> IsNumberChar(s[k]) || s[k] == ',' || s[k] == ' '
  {
    if |xs| == 0 then ""
    else if |xs| == 1 then IntToString(xs[0])
    else IntToString(xs[0]) + ", " + JoinInts(xs[1..])
  }

  /** Position of the first c in s, or |s| when there is none. */
  function IndexOf(s: string, c: char): (k: nat)
    ensures k <= |s|
    ensures forall i :: 0 <= i < k ==> s[i] != c
    ensures k < |s| ==> s[k] == c
  {
    if s == [] then 0 else if s[0] == c then 0 else 1 + IndexOf(s[1..], c)
  }

  /** Position of the last c in s, if there is one. */
  function LastIndexOf(s: string, c: char): (r: Option<nat>)
    ensures r.Some? ==> r.value < |s| && s[r.value] == c && forall k :: r.value < k < |s| ==> s[k] != c
    ensures r.None? ==> c !in s
  {
    if s == [] then None
    else if s[|s| - 1] == c then Some(|s| - 1)
    else LastIndexOf(s[..|s| - 1], c)
  }

  /** The last c of a + [c] + b is the one after a, when b holds no c. */
  lemma LastIndexOfBefore(a: string, c: char, b: string)
    requires c !in b
    ensures LastIndexOf(a + [c] + b, c) == Some(|a|)
  {
    var s := a + [c] + b;
    assert s[|a|] == c;
    assert forall k :: |a| < k < |s| ==> s[k] == b[k - |a| - 1];
  }

  /** Splits a non-empty ", "-separated list of integers back into its values. */
  function ParseNonEmptyIntList(s: string): Option<seq<int>>
    decreases |s|
  {
    var k := IndexOf(s, ',');
    if k == |s| then
      match ParseInt(s)
      case Some(v) => Some([v])
      case None => None
    else if k + 2 < |s| && s[k + 1] == ' ' then
      match ParseInt(s[..k])
      case None => None
      case Some(v) =>
        match ParseNonEmptyIntList(s[k + 2..])
        case None => None
        case Some(vs) => Some([v] + vs)
    else None
  }

  function ParseIntList(s: string): Option<seq<int>> {
    if s == "" then Some([]) else ParseNonEmptyIntList(s)
  }

  lemma IndexOfAfter(a: string, b: string, c: char)
    requires c !in a && |b| > 0 && b[0] == c
    ensures IndexOf(a + b, c) == |a|
  {
    var k := IndexOf(a + b, c);
    assert (a + b)[|a|] == c;
  }

  lemma IndexOfAbsent(s: string, c: char)
    requires c !in s
    ensures IndexOf(s, c) == |s|
  {
  }

  /** The joined text reads back to the same list: nothing is lost or reordered. */
  lemma {:induction false} JoinIntsRoundTrip(xs: seq<int>)
    ensures ParseIntList(JoinInts(xs)) == Some(xs)
  {
    if |xs| == 0 {
    } else if |xs| == 1 {
      IndexOfAbsent(IntToString(xs[0]), ',');
      IntToStringRoundTrip(xs[0]);
      assert [xs[0]] == xs;
    } else {
      JoinIntsRoundTrip(xs[1..]);
      ParseNextInt(xs[0], JoinInts(xs[1..]), xs[1..]);
      assert [xs[0]] + xs[1..] == xs;
    }
  }

  /** One more integer in front of a non-empty list that parses: the ", " after it splits them. */
  lemma ParseNextInt(x: int, tail: string, rest: seq<int>)
    requires tail != "" && ParseIntList(tail) == Some(rest)
    ensures ParseNonEmptyIntList(IntToString(x) + ", " + tail) == Some([x] + rest)
  {
    var head := IntToString(x);
    var s := head + ", " + tail;
    assert s == head + (", " + tail);
    IndexOfAfter(head, ", " + tail, ',');
    assert s[..|head|] == head;
    assert s[|head| + 2..] == tail;
    IntToStringRoundTrip(x);
  }

  // ---------------------------------------------------------------------
  // Substring search, ordinal and ordinal-ignore-case.

  predicate OccursAt(s: string, sub: string, i: nat) {
    i + |sub| <= |s| && s[i..i + |sub|] == sub
  }

  /** string.Contains(sub) with ordinal comparison. */
  predicate Contains(s: string, sub: string) {
    exists i: nat | i <= |s| :: OccursAt(s, sub, i)
  }

  /** The upper-case mapping of ASCII letters; every other character maps to itself. */
  function FoldCase(c: char): (d: char)
    ensures !('a' <= d <= 'z')
    ensures 'A' <= d <= 'Z' <==> 'A' <= c <= 'Z' || 'a' <= c <= 'z'
  {
    if 'a' <= c <= 'z' then (c as int - 32) as char else c
  }

  /** lower is an ASCII lower-case letter and upper is the same letter in upper case. */
  predicate CasePair(lower: char, upper: char) {
    'a' <= lower <= 'z' && upper as int == lower as int - 32
  }

  /** Two characters fold to the same character exactly when they are equal or are
      one ASCII letter in its two cases. */
  lemma FoldCaseMatches(x: char, y: char)
    ensures FoldCase(x) == FoldCase(y) <==> x == y || CasePair(x, y) || CasePair(y, x)
  {
  }

  /** string.Equals(a, b, StringComparison.OrdinalIgnoreCase), ASCII letters only. */
  predicate EqualsIgnoreCase(a: string, b: string) {
    |a| == |b| && forall i :: 0 <= i < |a| ==> FoldCase(a[i]) == FoldCase(b[i])
  }

  predicate OccursAtIgnoreCase(s: string, sub: string, i: nat) {
    i + |sub| <= |s| && EqualsIgnoreCase(s[i..i + |sub|], sub)
  }

  /** s.Contains(sub, StringComparison.OrdinalIgnoreCase). */
  predicate ContainsIgnoreCase(s: string, sub: string) {
    exists i: nat | i <= |s| :: OccursAtIgnoreCase(s, sub, i)
  }

  lemma EqualsIgnoreCaseIsEquivalence(a: string, b: string, c: string)
    ensures EqualsIgnoreCase(a, a)
    ensures EqualsIgnoreCase(a, b) ==> EqualsIgnoreCase(b, a)
    ensures EqualsIgnoreCase(a, b) && EqualsIgnoreCase(b, c) ==> EqualsIgnoreCase(a, c)
  {
  }

  /** An ordinal match is also a match ignoring case. */
  lemma ContainsImpliesIgnoreCase(s: string, sub: string)
    ensures Contains(s, sub) ==> ContainsIgnoreCase(s, sub)
  {
    if Contains(s, sub) {
      var i: nat :| i <= |s| && OccursAt(s, sub, i);
      assert OccursAtIgnoreCase(s, sub, i);
    }
  }

  lemma ContainsMiddle(a: string, b: string, c: string)
    ensures Contains(a + b + c, b) && ContainsIgnoreCase(a + b + c, b)
  {
    var s := a + b + c;
    assert s[|a|..|a| + |b|] == b;
    assert OccursAt(s, b, |a|);
    assert OccursAtIgnoreCase(s, b, |a|);
  }
}
