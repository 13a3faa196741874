/** JavaScript strings as sequences of UTF-16 code units, and the few string
    operations the routes rely on: `split` on one separator, decimal rendering
    of a non-negative integer, and reading a run of decimal digits back. */
module Text {

  datatype Option<+T> = None | Some(value: T)

  /** One element of a JavaScript string. */
  type CodeUnit = u: int | 0 <= u < 0x1_0000

  type Utf16 = seq<CodeUnit>

  const Dash: CodeUnit := 0x2D        // '-'
  const Dot: CodeUnit := 0x2E         // '.'
  const Slash: CodeUnit := 0x2F       // '/'
  const Underscore: CodeUnit := 0x5F  // '_'
  const Zero: CodeUnit := 0x30        // '0'

  predicate IsDigit(u: CodeUnit) { 0x30 <= u <= 0x39 }
  predicate IsUpper(u: CodeUnit) { 0x41 <= u <= 0x5A }
  predicate IsLower(u: CodeUnit) { 0x61 <= u <= 0x7A }

  predicate AllDigits(s: Utf16) { forall i :: 0 <= i < |s| ==> IsDigit(s[i]) }

  /** ASCII-only upper-casing: a regular expression with the `i` flag and no
      `u` flag identifies exactly these pairs among ASCII letters. */
  function ToUpper(u: CodeUnit): (r: CodeUnit)
    ensures !IsLower(r)
    ensures IsLower(u) ==> IsUpper(r) && r + 0x20 == u
    ensures !IsLower(u) ==> r == u
  {
    if IsLower(u) then u - 0x20 else u
  }

  /** ASCII-only lower-casing, the counterpart of `ToUpper`. */
  function ToLower(u: CodeUnit): (r: CodeUnit)
    ensures !IsUpper(r)
    ensures IsUpper(u) ==> IsLower(r) && r == u + 0x20
    ensures !IsUpper(u) ==> r == u
  {
    if IsUpper(u) then u + 0x20 else u
  }

  /** `s` and `t` differ at most in the letter case of ASCII letters. */
  predicate SameUpToCase(s: Utf16, t: Utf16)
  {
    |s| == |t| && forall i :: 0 <= i < |s| ==> ToUpper(s[i]) == ToUpper(t[i])
  }

  /** Folding to upper or to lower case identifies the same pairs. */
  lemma CaseFoldsAgree(a: CodeUnit, b: CodeUnit)
    ensures ToUpper(a) == ToUpper(b) <==> ToLower(a) == ToLower(b)
  {
  }

  /** Case folding leaves digits alone and makes no digit out of a non-digit. */
  lemma CaseFoldKeepsDigits(u: CodeUnit)
    ensures IsDigit(ToUpper(u)) <==> IsDigit(u)
    ensures IsDigit(u) ==> ToUpper(u) == u
  {
  }

  /** The code units of one Unicode scalar value: itself when it lies in the
      Basic Multilingual Plane, a surrogate pair otherwise. */
  function CodeUnitsOf(c: char): (r: Utf16)
    ensures 1 <= |r| <= 2
    ensures |r| == 1 <==> c as int < 0x1_0000
    ensures |r| == 1 ==> r[0] == c as int
    ensures |r| == 2 ==> 0xD800 <= r[0] < 0xDC00 <= r[1] < 0xE000
    ensures |r| == 2 ==> 0x1_0000 + (r[0] as int - 0xD800) * 0x400 + (r[1] as int - 0xDC00) == c as int
  {
    var v := c as int;
    if v < 0x1_0000 then [v]
    else [0xD800 + (v - 0x1_0000) / 0x400, 0xDC00 + (v - 0x1_0000) % 0x400]
  }

  /** The JavaScript string holding the Dafny string `s`. */
  function Utf16Of(s: string): Utf16
  {
    if s == [] then [] else CodeUnitsOf(s[0]) + Utf16Of(s[1..])
  }

  /** A string of Basic Multilingual Plane characters, one code unit each:
      how the routes' fixed texts are held. */
  function FromBmp(s: string): (r: Utf16)
    requires forall i :: 0 <= i < |s| ==> s[i] as int < 0x1_0000
    ensures |r| == |s|
  {
    seq(|s|, i requires 0 <= i < |s| => s[i] as int)
  }

  /** For such strings the two encodings agree. */
  lemma {:induction false} FromBmpIsUtf16Of(s: string)
    requires forall i :: 0 <= i < |s| ==> s[i] as int < 0x1_0000
    ensures FromBmp(s) == Utf16Of(s)
  {
    if s != [] {
      FromBmpIsUtf16Of(s[1..]);
      assert FromBmp(s) == [s[0] as int] + FromBmp(s[1..]);
    }
  }

  /** Joins `parts` with `sep` between consecutive parts (`Array.prototype.join`). */
  function Join(parts: seq<Utf16>, sep: CodeUnit): Utf16
  {
    if |parts| == 0 then []
    else if |parts| == 1 then parts[0]
    else parts[0] + [sep] + Join(parts[1..], sep)
  }

  /** `String.prototype.split` with a one-unit separator: the pieces between
      separators, in order; an empty string gives one empty piece. */
  function Split(s: Utf16, sep: CodeUnit): (parts: seq<Utf16>)
    ensures |parts| >= 1
  {
    if s == [] then [[]]
    else if s[0] == sep then [[]] + Split(s[1..], sep)
    else
      var rest := Split(s[1..], sep);
      [[s[0]] + rest[0]] + rest[1..]
  }

  /** A split has one more piece than the string has separators. */
  lemma {:induction false} SplitCount(s: Utf16, sep: CodeUnit)
    ensures |Split(s, sep)| == multiset(s)[sep] + 1
  {
    if s != [] {
      SplitCount(s[1..], sep);
      assert s == [s[0]] + s[1..];
    }
  }

  /** Joining the pieces of a split with the same separator restores the string. */
  lemma {:induction false} JoinSplit(s: Utf16, sep: CodeUnit)
    ensures Join(Split(s, sep), sep) == s
  {
    if s != [] {
      JoinSplit(s[1..], sep);
      var rest := Split(s[1..], sep);
      if s[0] != sep {
        if |rest| == 1 {
          assert Split(s, sep) == [[s[0]] + rest[0]];
        } else {
          var parts := Split(s, sep);
          assert parts[1..] == rest[1..];
          assert Join(rest, sep) == rest[0] + [sep] + Join(rest[1..], sep);
        }
      }
    }
  }

  /** No piece of a split contains the separator. */
  lemma {:induction false} SplitPiecesAvoidSeparator(s: Utf16, sep: CodeUnit)
    ensures forall k :: 0 <= k < |Split(s, sep)| ==> sep !in Split(s, sep)[k]
  {
    if s != [] {
      SplitPiecesAvoidSeparator(s[1..], sep);
    }
  }

  /** A separator-free prefix followed by the separator becomes the first piece,
      whatever comes after it. */
  lemma {:induction false} SplitAfterField(field: Utf16, sep: CodeUnit, rest: Utf16)
    requires sep !in field
    ensures Split(field + [sep] + rest, sep) == [field] + Split(rest, sep)
  {
    if field == [] {
      assert field + [sep] + rest == [sep] + rest;
    } else {
      assert (field + [sep] + rest)[1..] == field[1..] + [sep] + rest;
      SplitAfterField(field[1..], sep, rest);
      assert [field[0]] + field[1..] == field;
    }
  }

  /** The value of one decimal digit. */
  function DigitValue(u: CodeUnit): (d: nat)
    requires IsDigit(u)
    ensures d < 10
  {
    u - Zero
  }

  /** The value of a run of decimal digits, read most significant first; the
      empty run reads as 0. */
  function DigitsValue(s: Utf16): nat
    requires AllDigits(s)
  {
    if s == [] then 0 else DigitsValue(s[..|s| - 1]) * 10 + DigitValue(s[|s| - 1])
  }

  /** The decimal rendering of `n` (`String(n)` for a safe integer): at least
      one digit, and digits only, so never a `-`. */
  function Decimal(n: nat): (r: Utf16)
    ensures |r| >= 1
    ensures AllDigits(r)
    ensures Dash !in r
  {
    if n < 10 then [Zero + n] else Decimal(n / 10) + [Zero + n % 10]
  }

  /** Reading a decimal rendering back gives the number rendered. */
  lemma {:induction false} DecimalRoundTrip(n: nat)
    ensures DigitsValue(Decimal(n)) == n
  {
    var r := Decimal(n);
    if n >= 10 {
      DecimalRoundTrip(n / 10);
      assert r[..|r| - 1] == Decimal(n / 10);
    }
  }

  /** The number of leading decimal digits of `s`: the run that `^\d+` would
      match greedily. */
  function LeadingDigits(s: Utf16): (k: nat)
    ensures k <= |s|
    ensures AllDigits(s[..k])
    ensures k < |s| ==> !IsDigit(s[k])
  {
    if s == [] || !IsDigit(s[0]) then 0
    else
      var k := 1 + LeadingDigits(s[1..]);
      assert s[..k] == [s[0]] + s[1..][..k - 1];
      k
  }

  /** A digit run followed by nothing or by a non-digit is exactly the leading
      digit run. */
  lemma {:induction false} LeadingDigitsOf(digits: Utf16, rest: Utf16)
    requires AllDigits(digits)
    requires rest == [] || !IsDigit(rest[0])
    ensures LeadingDigits(digits + rest) == |digits|
  {
    if digits != [] {
      assert (digits + rest)[1..] == digits[1..] + rest;
      LeadingDigitsOf(digits[1..], rest);
    }
  }

  /** Strings equal up to letter case have the same leading digit run. */
  lemma {:induction false} LeadingDigitsUpToCase(s: Utf16, t: Utf16)
    requires SameUpToCase(s, t)
    ensures LeadingDigits(s) == LeadingDigits(t)
    ensures s[..LeadingDigits(s)] == t[..LeadingDigits(t)]
  {
    if s != [] {
      CaseFoldKeepsDigits(s[0]);
      CaseFoldKeepsDigits(t[0]);
      if IsDigit(s[0]) {
        assert SameUpToCase(s[1..], t[1..]) by {
          forall i | 0 <= i < |s| - 1 ensures ToUpper(s[1..][i]) == ToUpper(t[1..][i]) {
            assert s[1..][i] == s[i + 1];
          }
        }
        LeadingDigitsUpToCase(s[1..], t[1..]);
        var k := LeadingDigits(s);
        assert s[..k] == [s[0]] + s[1..][..k - 1];
        assert t[..k] == [t[0]] + t[1..][..k - 1];
      }
    }
  }
}
