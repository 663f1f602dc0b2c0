/** Models of the java.lang string and integer routines the client calls:
    String.trim, String.equalsIgnoreCase (over ASCII letters), removal of the
    POSIX punctuation class \p{Punct}, Integer.toString, and Integer.parseInt
    as the client's tryParseInteger wraps it. */
module JavaText {
  import opened Wrappers

  // ---------------------------------------------------------------------------
  // String.trim: every code unit at or below U+0020 counts as white space.

  predicate IsTrimmable(c: char) { c <= ' ' }

  /** True when neither end of `s` is a trimmable code unit. */
  predicate IsTrimmed(s: string) {
    s == [] || (!IsTrimmable(s[0]) && !IsTrimmable(s[|s| - 1]))
  }

  predicate AllTrimmable(s: string) {
    forall i :: 0 <= i < |s| ==> IsTrimmable(s[i])
  }

  /** The index of the first code unit at or after i that is not white space
      (|s| when there is none): the scan from the front in String.trim. */
  function FirstKept(s: string, i: nat): (k: nat)
    requires i <= |s|
    ensures i <= k <= |s|
    ensures forall j :: i <= j < k ==> IsTrimmable(s[j])
    ensures k == |s| || !IsTrimmable(s[k])
    decreases |s| - i
  {
    if i == |s| || !IsTrimmable(s[i]) then i else FirstKept(s, i + 1)
  }

  /** The end, not below lo, of what remains once the white space at the end of
      s[..hi] is dropped: the scan from the back in String.trim. */
  function KeptEnd(s: string, lo: nat, hi: nat): (k: nat)
    requires lo <= hi <= |s|
    ensures lo <= k <= hi
    ensures forall j :: k <= j < hi ==> IsTrimmable(s[j])
    ensures k == lo || !IsTrimmable(s[k - 1])
    decreases hi
  {
    if hi == lo || !IsTrimmable(s[hi - 1]) then hi else KeptEnd(s, lo, hi - 1)
  }

  /** String.trim: drops the white space at both ends and keeps the rest. */
  function Trim(s: string): (r: string)
    ensures IsTrimmed(r)
    ensures r == [] <==> AllTrimmable(s)
    ensures |r| <= |s|
  {
    var lo := FirstKept(s, 0);
    var hi := KeptEnd(s, lo, |s|);
    s[lo..hi]
  }

  /** Trim finds exactly the text between white-space padding, whatever the padding. */
  lemma TrimDecomposition(a: string, m: string, b: string)
    requires AllTrimmable(a) && AllTrimmable(b) && IsTrimmed(m)
    ensures Trim(a + m + b) == m
  {
    var s := a + m + b;
    var lo := FirstKept(s, 0);
    var hi := KeptEnd(s, lo, |s|);
    if m == [] {
      assert AllTrimmable(s) by {
        forall j | 0 <= j < |s| ensures IsTrimmable(s[j]) {
          if j < |a| { assert s[j] == a[j]; } else { assert s[j] == b[j - |a|]; }
        }
      }
    } else {
      assert s[|a|] == m[0];
      assert forall j :: 0 <= j < |a| ==> s[j] == a[j];
      assert lo == |a|;
      assert s[|a| + |m| - 1] == m[|m| - 1];
      assert forall j :: |a| + |m| <= j < |s| ==> s[j] == b[j - |a| - |m|];
      assert hi == |a| + |m|;
      assert s[lo..hi] == m;
    }
  }

  /** Text that already has no white space at either end is left as it is. */
  lemma TrimOfTrimmed(s: string)
    requires IsTrimmed(s)
    ensures Trim(s) == s
  {
    TrimDecomposition([], s, []);
    assert [] + s + [] == s;
  }

  /** Trimming twice is trimming once. */
  lemma TrimIdempotent(s: string)
    ensures Trim(Trim(s)) == Trim(s)
  {
    TrimOfTrimmed(Trim(s));
  }

  lemma AllTrimmableConcat(x: string, y: string)
    requires AllTrimmable(x) && AllTrimmable(y)
    ensures AllTrimmable(x + y)
  {
    forall j | 0 <= j < |x + y| ensures IsTrimmable((x + y)[j]) {
      if j < |x| { assert (x + y)[j] == x[j]; } else { assert (x + y)[j] == y[j - |x|]; }
    }
  }

  lemma SliceSplit(s: string, lo: nat, hi: nat)
    requires lo <= hi <= |s|
    ensures s == s[..lo] + s[lo..hi] + s[hi..]
  {
  }

  /** Every text is its trimmed text between two runs of white space. */
  lemma TrimSplit(s: string) returns (front: string, back: string)
    ensures AllTrimmable(front) && AllTrimmable(back)
    ensures s == front + Trim(s) + back
  {
    var lo := FirstKept(s, 0);
    var hi := KeptEnd(s, lo, |s|);
    front := s[..lo];
    back := s[hi..];
    assert forall j :: 0 <= j < lo ==> front[j] == s[j];
    assert forall j :: 0 <= j < |back| ==> back[j] == s[hi + j];
    SliceSplit(s, lo, hi);
  }

  lemma Regroup(w1: string, front: string, m: string, back: string, w2: string)
    ensures w1 + (front + m + back) + w2 == (w1 + front) + m + (back + w2)
  {
  }

  /** White space put around a text vanishes under trim: the text between is all that is seen. */
  lemma TrimPadding(w1: string, s: string, w2: string)
    requires AllTrimmable(w1) && AllTrimmable(w2)
    ensures Trim(w1 + s + w2) == Trim(s)
  {
    var front, back := TrimSplit(s);
    var m := Trim(s);
    AllTrimmableConcat(w1, front);
    AllTrimmableConcat(back, w2);
    Regroup(w1, front, m, back, w2);
    TrimDecomposition(w1 + front, m, back + w2);
  }

  // ---------------------------------------------------------------------------
  // String.equalsIgnoreCase, with the case mapping restricted to ASCII letters.

  predicate IsUpperAscii(c: char) { 'A' <= c <= 'Z' }
  predicate IsLowerAscii(c: char) { 'a' <= c <= 'z' }

  function ToLowerAscii(c: char): (r: char)
    ensures IsLowerAscii(r) <==> IsUpperAscii(c) || IsLowerAscii(c)
    ensures !IsUpperAscii(c) ==> r == c
  {
    if IsUpperAscii(c) then (c as int + 32) as char else c
  }

  function ToUpperAscii(c: char): (r: char)
    ensures ToLowerAscii(r) == ToLowerAscii(c)
    ensures !IsLowerAscii(r)
  {
    if IsLowerAscii(c) then (c as int - 32) as char else c
  }

  /** Two strings are equal ignoring case when they have the same length and
      agree position by position after folding letters to lower case. */
  function EqualsIgnoreCase(a: string, b: string): (r: bool)
    ensures a == b ==> r
    ensures r ==> |a| == |b|
    ensures r && NoLetters(a) ==> a == b
  {
    |a| == |b| && forall i :: 0 <= i < |a| ==> ToLowerAscii(a[i]) == ToLowerAscii(b[i])
  }

  /** No ASCII letter occurs in s. */
  predicate NoLetters(s: string) {
    forall i :: 0 <= i < |s| ==> !IsUpperAscii(s[i]) && !IsLowerAscii(s[i])
  }

  /** String.toUpperCase over ASCII letters. */
  function ToUpperCase(s: string): (r: string)
    ensures |r| == |s|
    ensures forall i :: 0 <= i < |r| ==> !IsLowerAscii(r[i])
  {
    seq(|s|, i requires 0 <= i < |s| => ToUpperAscii(s[i]))
  }

  /** Upper-casing a string never changes which strings it equals ignoring case. */
  lemma UpperCaseEqualsIgnoreCase(s: string)
    ensures EqualsIgnoreCase(ToUpperCase(s), s)
  {
  }

  /** equalsIgnoreCase is an equivalence relation: symmetric and transitive. */
  lemma EqualsIgnoreCaseSymmetric(a: string, b: string)
    requires EqualsIgnoreCase(a, b)
    ensures EqualsIgnoreCase(b, a)
  {
  }

  lemma EqualsIgnoreCaseTransitive(a: string, b: string, c: string)
    requires EqualsIgnoreCase(a, b) && EqualsIgnoreCase(b, c)
    ensures EqualsIgnoreCase(a, c)
  {
  }

  // ---------------------------------------------------------------------------
  // replaceAll("[\\p{Punct}]", ""): \p{Punct} is the POSIX class of the 32
  // ASCII punctuation characters !"#$%&'()*+,-./:;<=>?@[\]^_`{|}~

  predicate IsPunct(c: char) {
    ('!' <= c <= '/') || (':' <= c <= '@') || ('[' <= c <= '`') || ('{' <= c <= '~')
  }

  predicate NoPunct(s: string) {
    forall i :: 0 <= i < |s| ==> !IsPunct(s[i])
  }

  /** Removes every punctuation character and keeps every other one, in order. */
  function StripPunct(s: string): (r: string)
    ensures NoPunct(r)
    ensures |r| <= |s|
  {
    if s == [] then []
    else
      var rest := StripPunct(s[1..]);
      if IsPunct(s[0]) then rest else [s[0]] + rest
  }

  /** Every character that is not punctuation survives, as often as it occurs. */
  lemma {:induction false} StripPunctKeepsOthers(s: string, c: char)
    requires !IsPunct(c)
    ensures multiset(StripPunct(s))[c] == multiset(s)[c]
  {
    if s != [] {
      assert s == [s[0]] + s[1..];
      StripPunctKeepsOthers(s[1..], c);
    }
  }

  /** Text made of punctuation alone strips to nothing. */
  lemma {:induction false} StripPunctOfPunctuation(s: string)
    requires forall k :: 0 <= k < |s| ==> IsPunct(s[k])
    ensures StripPunct(s) == []
  {
    if s != [] {
      StripPunctOfPunctuation(s[1..]);
    }
  }

  /** Stripping works character by character: it distributes over concatenation. */
  lemma {:induction false} StripPunctConcat(a: string, b: string)
    ensures StripPunct(a + b) == StripPunct(a) + StripPunct(b)
  {
    if a == [] {
      assert a + b == b;
    } else {
      assert (a + b)[0] == a[0] && (a + b)[1..] == a[1..] + b;
      StripPunctConcat(a[1..], b);
    }
  }

  /** Text without punctuation is left exactly as it is. */
  lemma {:induction false} StripPunctIdentity(s: string)
    requires NoPunct(s)
    ensures StripPunct(s) == s
  {
    if s != [] {
      StripPunctIdentity(s[1..]);
    }
  }

  // ---------------------------------------------------------------------------
  // Integer.parseInt and Integer.toString, over the ASCII decimal digits.

  const MIN_INT: int := -0x8000_0000
  const MAX_INT: int := 0x7fff_ffff

  predicate IsDigit(c: char) { '0' <= c <= '9' }

  predicate AllDigits(s: string) {
    forall i :: 0 <= i < |s| ==> IsDigit(s[i])
  }

  function DigitValue(c: char): (d: nat)
    requires IsDigit(c)
    ensures d < 10
  {
    c as int - '0' as int
  }

  function DigitChar(d: nat): (c: char)
    requires d < 10
    ensures IsDigit(c) && DigitValue(c) == d
  {
    ('0' as int + d) as char
  }

  /** The value of a string of decimal digits, most significant first. */
  function DigitsValue(s: string): (r: nat)
    requires AllDigits(s)
  {
    if s == [] then 0 else 10 * DigitsValue(s[..|s| - 1]) + DigitValue(s[|s| - 1])
  }

  /** tryParseInteger: Integer.parseInt accepts an optional '-' or '+' followed
      by at least one digit, whose value lies in the 32-bit range; anything else
      throws NumberFormatException, which tryParseInteger turns into null (None). */
  function TryParseInteger(s: string): (r: Option<int>)
    ensures r.Some? ==> MIN_INT <= r.value <= MAX_INT
    ensures r.Some? ==> |s| > 0 && AllDigits(s[1..])
    ensures r.Some? ==> IsDigit(s[0]) || (|s| > 1 && (s[0] == '-' || s[0] == '+'))
    ensures r.Some? && r.value < 0 ==> s[0] == '-'
  {
    if s == [] then None
    else
      var negative := s[0] == '-';
      var digits := if s[0] == '-' || s[0] == '+' then s[1..] else s;
      if digits == [] || !AllDigits(digits) then None
      else
        var magnitude: int := DigitsValue(digits);
        var v := if negative then -magnitude else magnitude;
        if MIN_INT <= v <= MAX_INT then Some(v) else None
  }

  /** Integer.toString of a non-negative value: its shortest decimal digits. */
  function NatToString(n: nat): (r: string)
    ensures r != [] && AllDigits(r)
    ensures DigitsValue(r) == n
    ensures r[0] == '0' ==> n == 0
  {
    if n < 10 then [DigitChar(n)]
    else
      var r := NatToString(n / 10) + [DigitChar(n % 10)];
      assert r[..|r| - 1] == NatToString(n / 10);
      r
  }

  /** Integer.toString of any int: a '-' before the digits of a negative value. */
  function IntToString(i: int): (r: string)
    ensures r != []
    ensures i < 0 <==> r[0] == '-'
  {
    if i < 0 then "-" + NatToString(-i) else NatToString(i)
  }

  /** parseInt reads back every 32-bit value that toString writes. */
  lemma TryParseIntegerToString(i: int)
    requires MIN_INT <= i <= MAX_INT
    ensures TryParseInteger(IntToString(i)) == Some(i)
  {
    if i < 0 {
      assert IntToString(i)[1..] == NatToString(-i);
    }
  }

  /** parseInt rejects the digits of every value above the 32-bit range. */
  lemma TryParseIntegerOverflow(n: nat)
    requires n > MAX_INT
    ensures TryParseInteger(NatToString(n)) == None
  {
  }

  /** Without a leading '-' the parsed value is never negative; in particular
      nothing parsed from punctuation-free text is. */
  lemma TryParseIntegerOfStrippedNonNegative(s: string)
    requires TryParseInteger(StripPunct(s)).Some?
    ensures TryParseInteger(StripPunct(s)).value >= 0
  {
  }

  /** A zero in front of a digit string does not change its value. */
  lemma {:induction false} DigitsValueLeadingZero(s: string)
    requires AllDigits(s)
    ensures AllDigits("0" + s) && DigitsValue("0" + s) == DigitsValue(s)
  {
    var z := "0" + s;
    if s != [] {
      assert z[..|z| - 1] == "0" + s[..|s| - 1];
      DigitsValueLeadingZero(s[..|s| - 1]);
    }
  }

  /** parseInt of unsigned digits: their value when it fits in an int, else null.
      Together with the shape that TryParseInteger's contract gives, this and
      TryParseIntegerSigned say exactly what every string parses to. */
  lemma TryParseIntegerOfDigits(s: string)
    requires s != [] && AllDigits(s)
    ensures TryParseInteger(s) == if DigitsValue(s) <= MAX_INT then Some(DigitsValue(s)) else None
  {
  }

  /** parseInt of digits after a sign: '+' reads as the plain digits, '-' as
      their negation, which reaches down to -2^31. */
  lemma TryParseIntegerSigned(s: string)
    requires s != [] && AllDigits(s)
    ensures TryParseInteger("+" + s) == TryParseInteger(s)
    ensures TryParseInteger("-" + s) ==
      if DigitsValue(s) <= -MIN_INT then Some(-(DigitsValue(s) as int)) else None
  {
    assert ("+" + s)[1..] == s;
    assert ("-" + s)[1..] == s;
  }

  /** Leading zeros are ignored: "02" parses as "2" and "00" as "0". */
  lemma TryParseIntegerLeadingZero(s: string)
    requires s != [] && AllDigits(s)
    ensures TryParseInteger("0" + s) == TryParseInteger(s)
  {
    DigitsValueLeadingZero(s);
    TryParseIntegerOfDigits(s);
    TryParseIntegerOfDigits("0" + s);
  }
}
