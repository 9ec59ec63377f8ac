/** The password rule shared by the signup, login and profile-edit routes:
    `/^(?=.*[a-z])(?=.*[A-Z])(?=.*[!@#$%^&*()_=;:,.?])(?=.{8,64}).*$/`, an ECMAScript
    regular expression without flags. Without the `u` flag it reads UTF-16 code units;
    without the `s` flag `.` matches no line terminator; without the `m` flag `^` and `$`
    only match at the ends of the input (section 22.2 of ECMA-262). */
module Password {

  /** A UTF-16 code unit. */
  newtype CodeUnit = x: int | 0 <= x < 0x1_0000

  /** LF, CR, LINE SEPARATOR and PARAGRAPH SEPARATOR. */
  predicate IsLineTerminator(c: CodeUnit) {
    c == 0x0A || c == 0x0D || c == 0x2028 || c == 0x2029
  }

  /** `.` without the `s` flag. */
  predicate Dot(c: CodeUnit) {
    !IsLineTerminator(c)
  }

  /** `[a-z]`. */
  predicate IsLower(c: CodeUnit) {
    'a' as CodeUnit <= c <= 'z' as CodeUnit
  }

  /** `[A-Z]`. */
  predicate IsUpper(c: CodeUnit) {
    'A' as CodeUnit <= c <= 'Z' as CodeUnit
  }

  /** `[!@#$%^&*()_=;:,.?]`. */
  predicate IsSpecial(c: CodeUnit) {
    c in {'!' as CodeUnit, '@' as CodeUnit, '#' as CodeUnit, '$' as CodeUnit, '%' as CodeUnit,
          '^' as CodeUnit, '&' as CodeUnit, '*' as CodeUnit, '(' as CodeUnit, ')' as CodeUnit,
          '_' as CodeUnit, '=' as CodeUnit, ';' as CodeUnit, ':' as CodeUnit, ',' as CodeUnit,
          '.' as CodeUnit, '?' as CodeUnit}
  }

  // ---------------------------------------------------------------------------
  // The expression as written: each construct at the only position `^` allows, 0.

  /** The first `n` code units all match `.`. */
  predicate DotsPrefix(s: seq<CodeUnit>, n: int) {
    0 <= n <= |s| && forall j :: 0 <= j < n ==> Dot(s[j])
  }

  /** `(?=.*[class])` at position 0: some number of `.` followed by a unit of the class. */
  predicate DotStarThen(s: seq<CodeUnit>, inClass: CodeUnit -> bool) {
    exists k :: 0 <= k < |s| && DotsPrefix(s, k) && inClass(s[k])
  }

  /** `(?=.{lo,hi})` at position 0: between `lo` and `hi` units matching `.`. */
  predicate DotsBetween(s: seq<CodeUnit>, lo: int, hi: int) {
    exists m :: lo <= m <= hi && DotsPrefix(s, m)
  }

  /** `.*$` at position 0: some number of `.` reaching the end of the input. */
  predicate DotStarToEnd(s: seq<CodeUnit>) {
    exists k :: DotsPrefix(s, k) && k == |s|
  }

  /** The whole expression, as written. Whatever else it asks, it never accepts fewer
      than 8 code units or a line terminator anywhere. */
  predicate RegexPassword(s: seq<CodeUnit>): (ok: bool)
    ensures ok ==> |s| >= 8
    ensures ok ==> forall i :: 0 <= i < |s| ==> !IsLineTerminator(s[i])
  {
    && DotStarThen(s, IsLower)
    && DotStarThen(s, IsUpper)
    && DotStarThen(s, IsSpecial)
    && DotsBetween(s, 8, 64)
    && DotStarToEnd(s)
  }

  // ---------------------------------------------------------------------------
  // What it means

  /** No line terminator, at least one lower-case letter, one upper-case letter and one
      special character, and at least 8 code units, with no upper bound. */
  predicate PasswordRule(s: seq<CodeUnit>) {
    && (forall i :: 0 <= i < |s| ==> !IsLineTerminator(s[i]))
    && (exists i :: 0 <= i < |s| && IsLower(s[i]))
    && (exists i :: 0 <= i < |s| && IsUpper(s[i]))
    && (exists i :: 0 <= i < |s| && IsSpecial(s[i]))
    && |s| >= 8
  }

  /** The expression accepts exactly the strings the rule describes: `.*$` forbids every
      line terminator, so the lookaheads see the whole input, and `.{8,64}` only asks for
      8 units since nothing after it requires the input to end there. */
  lemma RegexMeansRule(s: seq<CodeUnit>)
    ensures RegexPassword(s) <==> PasswordRule(s)
  {
    if RegexPassword(s) {
      var k :| DotsPrefix(s, k) && k == |s|;
      var m :| 8 <= m <= 64 && DotsPrefix(s, m);
    }
    if PasswordRule(s) {
      assert DotsPrefix(s, |s|);
      var lo :| 0 <= lo < |s| && IsLower(s[lo]);
      assert DotsPrefix(s, lo);
      var up :| 0 <= up < |s| && IsUpper(s[up]);
      assert DotsPrefix(s, up);
      var sp :| 0 <= sp < |s| && IsSpecial(s[sp]);
      assert DotsPrefix(s, sp);
      var m := if |s| < 64 then |s| else 64;
      assert DotsPrefix(s, m);
    }
  }

  /** Fewer than 8 code units never pass. */
  lemma ShortRejected(s: seq<CodeUnit>)
    requires |s| < 8
    ensures !RegexPassword(s)
  {
    RegexMeansRule(s);
  }

  /** A line terminator anywhere fails the whole expression. */
  lemma LineTerminatorRejected(s: seq<CodeUnit>, i: int)
    requires 0 <= i < |s| && IsLineTerminator(s[i])
    ensures !RegexPassword(s)
  {
    RegexMeansRule(s);
  }

  /** There is no upper bound: appending a letter to an accepted password keeps it
      accepted, however long it grows. */
  lemma LongerStillAccepted(s: seq<CodeUnit>)
    requires RegexPassword(s)
    ensures RegexPassword(s + ['a' as CodeUnit])
  {
    RegexMeansRule(s);
    var t := s + ['a' as CodeUnit];
    var lo :| 0 <= lo < |s| && IsLower(s[lo]);
    assert t[lo] == s[lo];
    var up :| 0 <= up < |s| && IsUpper(s[up]);
    assert t[up] == s[up];
    var sp :| 0 <= sp < |s| && IsSpecial(s[sp]);
    assert t[sp] == s[sp];
    RegexMeansRule(t);
  }

  /** The rule, decided in one pass over the code units. */
  method CheckPassword(s: seq<CodeUnit>) returns (ok: bool)
    ensures ok <==> RegexPassword(s)
  {
    var lower, upper, special, clean := false, false, false, true;
    var i := 0;
    while i < |s|
      invariant 0 <= i <= |s|
      invariant lower <==> exists j :: 0 <= j < i && IsLower(s[j])
      invariant upper <==> exists j :: 0 <= j < i && IsUpper(s[j])
      invariant special <==> exists j :: 0 <= j < i && IsSpecial(s[j])
      invariant clean <==> forall j :: 0 <= j < i ==> !IsLineTerminator(s[j])
    {
      var c := s[i];
      lower := lower || IsLower(c);
      upper := upper || IsUpper(c);
      special := special || IsSpecial(c);
      clean := clean && !IsLineTerminator(c);
      i := i + 1;
    }
    ok := lower && upper && special && clean && |s| >= 8;
    RegexMeansRule(s);
  }

  // ---------------------------------------------------------------------------
  // From characters to code units

  /** The UTF-16 encoding of a string of Unicode scalar values: one unit below U+10000,
      a surrogate pair above. */
  function Utf16(s: string): (r: seq<CodeUnit>)
    ensures |r| >= |s|
    decreases |s|
  {
    if |s| == 0 then []
    else
      var c := s[0] as int;
      var head: seq<CodeUnit> :=
        if c < 0x1_0000 then [c as CodeUnit]
        else [(0xD800 + (c - 0x1_0000) / 0x400) as CodeUnit, (0xDC00 + (c - 0x1_0000) % 0x400) as CodeUnit];
      head + Utf16(s[1..])
  }

  /** The number of characters at or above U+10000. */
  function AstralCount(s: string): nat
    decreases |s|
  {
    if |s| == 0 then 0 else (if s[0] as int >= 0x1_0000 then 1 else 0) + AstralCount(s[1..])
  }

  /** The length the expression sees is the number of characters plus one for every
      character outside the Basic Multilingual Plane. */
  lemma {:induction false} Utf16Length(s: string)
    ensures |Utf16(s)| == |s| + AstralCount(s)
    decreases |s|
  {
    if |s| > 0 {
      Utf16Length(s[1..]);
    }
  }

  /** Characters below U+10000 are their own code units. */
  lemma {:induction false} Utf16Bmp(s: string)
    requires forall i :: 0 <= i < |s| ==> s[i] as int < 0x1_0000
    ensures |Utf16(s)| == |s|
    ensures forall i :: 0 <= i < |s| ==> Utf16(s)[i] == s[i] as CodeUnit
    decreases |s|
  {
    if |s| > 0 {
      Utf16Bmp(s[1..]);
    }
  }

  /** A password of seven characters can pass, because one of them lies outside the
      Basic Multilingual Plane and counts as two code units. */
  lemma SevenCharactersCanPass()
    ensures var s := "aA!aaa\U{1F600}";
            |s| == 7 && RegexPassword(Utf16(s))
  {
    var s := "aA!aaa\U{1F600}";
    var prefix := "aA!aaa";
    assert s == prefix + ['\U{1F600}'];
    Utf16Bmp(prefix);
    assert Utf16(prefix) == [97 as CodeUnit, 65, 33, 97, 97, 97];
    assert Utf16(['\U{1F600}']) == [0xD83D as CodeUnit, 0xDE00];
    Utf16Concat(prefix, ['\U{1F600}']);
    var u := Utf16(s);
    assert u == [97 as CodeUnit, 65, 33, 97, 97, 97, 0xD83D, 0xDE00];
    assert PasswordRule(u) by {
      assert IsLower(u[0]) && IsUpper(u[1]) && IsSpecial(u[2]);
      forall i | 0 <= i < |u|
        ensures !IsLineTerminator(u[i])
      {
      }
    }
    RegexMeansRule(u);
  }

  lemma {:induction false} Utf16Concat(a: string, b: string)
    ensures Utf16(a + b) == Utf16(a) + Utf16(b)
    decreases |a|
  {
    if |a| == 0 {
      assert a + b == b;
    } else {
      assert (a + b)[0] == a[0];
      assert (a + b)[1..] == a[1..] + b;
      Utf16Concat(a[1..], b);
    }
  }
}
