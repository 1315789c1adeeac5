/** The string operations the backend leans on, as Python defines them:
    `str.strip()`, `str.lower()`, `<=` on `str`, `int(str)` and `str(int)`. */
module Text {
  import opened Wrappers

  /** Python's `str.isspace()`: the characters `str.strip()` removes. */
  predicate IsSpace(c: char) {
    ('\t' <= c <= '\r') || ('\U{1C}' <= c <= ' ') || c == '\U{85}' || c == '\U{A0}'
    || c == '\U{1680}' || ('\U{2000}' <= c <= '\U{200A}') || c == '\U{2028}' || c == '\U{2029}'
    || c == '\U{202F}' || c == '\U{205F}' || c == '\U{3000}'
  }

  predicate AllSpace(s: string) {
    forall i :: 0 <= i < |s| ==> IsSpace(s[i])
  }

  /** `s` with its leading whitespace removed (Python `lstrip()`). */
  function StripLeading(s: string): (r: string)
    ensures |r| <= |s|
    ensures r == [] || !IsSpace(r[0])
  {
    if s != [] && IsSpace(s[0]) then StripLeading(s[1..]) else s
  }

  /** `s` with its trailing whitespace removed (Python `rstrip()`). */
  function StripTrailing(s: string): (r: string)
    ensures |r| <= |s|
    ensures r == [] || !IsSpace(r[|r| - 1])
  {
    if s != [] && IsSpace(s[|s| - 1]) then StripTrailing(s[..|s| - 1]) else s
  }

  /** Python `str.strip()`: whitespace dropped at both ends. */
  function Strip(s: string): (r: string)
    ensures |r| <= |s|
    ensures r == [] || (!IsSpace(r[0]) && !IsSpace(r[|r| - 1]))
  {
    var l := StripLeading(s);
    var r := StripTrailing(l);
    StripTrailingKeepsStart(l);
    r
  }

  lemma {:induction false} StripTrailingKeepsStart(s: string)
    ensures StripTrailing(s) == [] || StripTrailing(s)[0] == s[0]
    decreases |s|
  {
    if s != [] && IsSpace(s[|s| - 1]) {
      StripTrailingKeepsStart(s[..|s| - 1]);
    }
  }

  /** All `lstrip()` drops is a whitespace prefix. */
  lemma {:induction false} StripLeadingSplit(s: string) returns (pre: string)
    ensures s == pre + StripLeading(s) && AllSpace(pre)
    decreases |s|
  {
    if s != [] && IsSpace(s[0]) {
      var p := StripLeadingSplit(s[1..]);
      pre := [s[0]] + p;
      assert s == [s[0]] + s[1..];
    } else {
      pre := [];
    }
  }

  /** All `rstrip()` drops is a whitespace suffix. */
  lemma {:induction false} StripTrailingSplit(s: string) returns (post: string)
    ensures s == StripTrailing(s) + post && AllSpace(post)
    decreases |s|
  {
    if s != [] && IsSpace(s[|s| - 1]) {
      var p := StripTrailingSplit(s[..|s| - 1]);
      post := p + [s[|s| - 1]];
      assert s == s[..|s| - 1] + [s[|s| - 1]];
    } else {
      post := [];
    }
  }

  /** All `strip()` drops is whitespace: its input is the result padded on both sides. */
  lemma StripSplit(s: string) returns (pre: string, post: string)
    ensures s == pre + Strip(s) + post
    ensures AllSpace(pre) && AllSpace(post)
  {
    pre := StripLeadingSplit(s);
    post := StripTrailingSplit(StripLeading(s));
  }

  lemma {:induction false} StripLeadingSpaces(pre: string, s: string)
    requires AllSpace(pre)
    ensures StripLeading(pre + s) == StripLeading(s)
    decreases |pre|
  {
    if pre != [] {
      assert (pre + s)[1..] == pre[1..] + s;
      StripLeadingSpaces(pre[1..], s);
    } else {
      assert pre + s == s;
    }
  }

  lemma {:induction false} StripTrailingSpaces(s: string, post: string)
    requires AllSpace(post)
    ensures StripTrailing(s + post) == StripTrailing(s)
    decreases |post|
  {
    if post != [] {
      assert (s + post)[..|s + post| - 1] == s + post[..|post| - 1];
      StripTrailingSpaces(s, post[..|post| - 1]);
    } else {
      assert s + post == s;
    }
  }

  /** Leading whitespace never reaches past the first non-space character. */
  lemma {:induction false} StripLeadingAppend(s: string, post: string)
    requires !AllSpace(s)
    ensures StripLeading(s + post) == StripLeading(s) + post
    decreases |s|
  {
    if IsSpace(s[0]) {
      assert (s + post)[1..] == s[1..] + post;
      assert !AllSpace(s[1..]) by {
        var k :| 0 <= k < |s| && !IsSpace(s[k]);
        assert s[1..][k - 1] == s[k];
      }
      StripLeadingAppend(s[1..], post);
    }
  }

  /** Whitespace padding on either side of an input does not change what `strip()` gives. */
  lemma StripIgnoresPadding(pre: string, s: string, post: string)
    requires AllSpace(pre) && AllSpace(post)
    ensures Strip(pre + s + post) == Strip(s)
  {
    assert pre + s + post == pre + (s + post);
    StripLeadingSpaces(pre, s + post);
    if AllSpace(s) {
      AllSpaceStripsToEmpty(s + post);
      AllSpaceStripsToEmpty(s);
    } else {
      StripLeadingAppend(s, post);
      StripTrailingSpaces(StripLeading(s), post);
    }
  }

  lemma AllSpaceStripsToEmpty(s: string)
    requires AllSpace(s)
    ensures StripLeading(s) == []
  {
    StripLeadingSpaces(s, []);
    assert s + [] == s;
  }

  /** Stripping twice is stripping once. */
  lemma StripIdempotent(s: string)
    ensures Strip(Strip(s)) == Strip(s)
  {
    var r := Strip(s);
    if r != [] {
      assert StripLeading(r) == r;
      assert StripTrailing(r) == r;
    }
  }

  /** A string that neither starts nor ends in whitespace is its own strip. */
  lemma StripOfTrimmed(s: string)
    requires s == [] || (!IsSpace(s[0]) && !IsSpace(s[|s| - 1]))
    ensures Strip(s) == s
  {
  }

  /** Python `str.lower()` on one character; only ASCII letters are mapped. */
  function LowerChar(c: char): (d: char)
    ensures IsSpace(d) == IsSpace(c)
    ensures 'A' <= c <= 'Z' ==> 'a' <= d <= 'z'
    ensures !('A' <= d <= 'Z')
  {
    if 'A' <= c <= 'Z' then (c as int + 32) as char else c
  }

  /** Python `str.lower()`, character by character. */
  function Lower(s: string): (r: string)
    ensures |r| == |s|
    ensures forall i :: 0 <= i < |s| ==> r[i] == LowerChar(s[i])
  {
    seq(|s|, i requires 0 <= i < |s| => LowerChar(s[i]))
  }

  /** Lower-casing is idempotent. */
  lemma LowerIdempotent(s: string)
    ensures Lower(Lower(s)) == Lower(s)
  {
  }

  lemma LowerAppend(a: string, b: string)
    ensures Lower(a + b) == Lower(a) + Lower(b)
  {
  }

  /** Stripping and lower-casing can be done in either order. */
  lemma StripCommutesWithLower(x: string)
    ensures Strip(Lower(x)) == Lower(Strip(x))
  {
    var s := Strip(x);
    var pre, post := StripSplit(x);
    LowerOfPadded(x, pre, s, post);
    StripIgnoresPadding(Lower(pre), Lower(s), Lower(post));
    StripOfTrimmed(Lower(s));
  }

  lemma LowerOfPadded(x: string, pre: string, s: string, post: string)
    requires x == pre + s + post && AllSpace(pre) && AllSpace(post)
    requires s == [] || (!IsSpace(s[0]) && !IsSpace(s[|s| - 1]))
    ensures Lower(x) == Lower(pre) + Lower(s) + Lower(post)
    ensures AllSpace(Lower(pre)) && AllSpace(Lower(post))
    ensures Lower(s) == [] || (!IsSpace(Lower(s)[0]) && !IsSpace(Lower(s)[|s| - 1]))
  {
    LowerAppend(pre, s);
    LowerAppend(pre + s, post);
  }

  /** Python's `a <= b` on strings: code point by code point, a proper prefix first. */
  predicate LexLe(a: string, b: string) {
    if a == [] then true
    else if b == [] then false
    else if a[0] != b[0] then a[0] < b[0]
    else LexLe(a[1..], b[1..])
  }

  lemma {:induction false} LexLeReflexive(a: string)
    ensures LexLe(a, a)
  {
    if a != [] {
      LexLeReflexive(a[1..]);
    }
  }

  lemma {:induction false} LexLeTotal(a: string, b: string)
    ensures LexLe(a, b) || LexLe(b, a)
  {
    if a != [] && b != [] && a[0] == b[0] {
      LexLeTotal(a[1..], b[1..]);
    }
  }

  lemma {:induction false} LexLeTransitive(a: string, b: string, c: string)
    requires LexLe(a, b) && LexLe(b, c)
    ensures LexLe(a, c)
  {
    if a != [] && b != [] && c != [] && a[0] == b[0] && b[0] == c[0] {
      LexLeTransitive(a[1..], b[1..], c[1..]);
    }
  }

  lemma {:induction false} LexLeAntisymmetric(a: string, b: string)
    requires LexLe(a, b) && LexLe(b, a)
    ensures a == b
  {
    if a != [] && b != [] {
      LexLeAntisymmetric(a[1..], b[1..]);
      assert a == [a[0]] + a[1..];
      assert b == [b[0]] + b[1..];
    }
  }

  predicate IsDigit(c: char) {
    '0' <= c <= '9'
  }

  function DigitValue(c: char): (d: nat)
    requires IsDigit(c)
    ensures d < 10
  {
    c as int - '0' as int
  }

  function DigitChar(d: nat): (c: char)
    requires d < 10
    ensures IsDigit(c) && DigitValue(c) == d
  {
    ('0' as int + d) as char
  }

  /** What Python's `int()` accepts after an optional sign: decimal digits, with single
      underscores allowed between two digits (`"1_000"`). */
  predicate WellFormedDigits(s: string) {
    && |s| > 0
    && IsDigit(s[0])
    && IsDigit(s[|s| - 1])
    && (forall i :: 0 <= i < |s| ==> IsDigit(s[i]) || s[i] == '_')
    && (forall i :: 0 <= i < |s| - 1 ==> s[i] != '_' || s[i + 1] != '_')
  }

  /** The number the digits of `s` spell, underscores skipped. */
  function DigitsValue(s: string): nat
    requires forall i :: 0 <= i < |s| ==> IsDigit(s[i]) || s[i] == '_'
  {
    if s == [] then 0
    else if s[|s| - 1] == '_' then DigitsValue(s[..|s| - 1])
    else DigitsValue(s[..|s| - 1]) * 10 + DigitValue(s[|s| - 1])
  }

  /** Python `int(s)` for base 10 on an already stripped `s`; `None` where Python raises `ValueError`. */
  function ParseInt(s: string): (r: Option<int>)
    ensures s == [] ==> r == None
    ensures r.Some? <==> (WellFormedDigits(s) || (|s| > 0 && s[0] in "+-" && WellFormedDigits(s[1..])))
    ensures WellFormedDigits(s) ==> r == Some(DigitsValue(s))
    ensures |s| > 0 && s[0] == '+' && WellFormedDigits(s[1..]) ==> r == Some(DigitsValue(s[1..]))
    ensures |s| > 0 && s[0] == '-' && WellFormedDigits(s[1..]) ==> r == Some(-(DigitsValue(s[1..]) as int))
  {
    if |s| > 0 && (s[0] == '+' || s[0] == '-') then
      if WellFormedDigits(s[1..]) then
        var n: int := DigitsValue(s[1..]);
        Some(if s[0] == '-' then -n else n)
      else None
    else if WellFormedDigits(s) then Some(DigitsValue(s))
    else None
  }

  /** Python `str(n)` for a natural number: its decimal digits, most significant first. */
  function NatToString(n: nat): (s: string)
    ensures |s| > 0
    ensures forall i :: 0 <= i < |s| ==> IsDigit(s[i])
  {
    if n < 10 then [DigitChar(n)] else NatToString(n / 10) + [DigitChar(n % 10)]
  }

  /** Python `str(i)` for any integer. */
  function IntToString(i: int): (s: string)
    ensures |s| > 0
  {
    if i < 0 then "-" + NatToString(-i) else NatToString(i)
  }

  lemma {:induction false} NatToStringValue(n: nat)
    ensures WellFormedDigits(NatToString(n))
    ensures DigitsValue(NatToString(n)) == n
  {
    var s := NatToString(n);
    if n >= 10 {
      NatToStringValue(n / 10);
      assert s[..|s| - 1] == NatToString(n / 10);
    }
  }

  /** `int(str(i)) == i`: formatting a number and parsing it back gives the number, and
      `int()` lets it through as long as it has no more digits than the conversion limit. */
  lemma IntRoundTrip(i: int)
    ensures ParseInt(IntToString(i)) == Some(i)
    ensures DigitCount(IntToString(i)) <= MaxStrDigits ==> ConvertInt(IntToString(i)) == Success(i)
  {
    if i < 0 {
      NatToStringValue(-i);
      assert IntToString(i)[1..] == NatToString(-i);
    } else {
      NatToStringValue(i);
    }
  }

  /** `int()` also takes texts `str()` never produces: leading zeros, underscores between
      digits and a plus sign; doubled, leading or trailing underscores and other letters
      are refused. */
  lemma ParseIntExamples()
    ensures ParseInt("007") == Some(7)
    ensures ParseInt("1_000") == Some(1000)
    ensures ParseInt("+5") == Some(5)
    ensures ParseInt("-0") == Some(0)
    ensures ParseInt("1__0") == None
    ensures ParseInt("_1") == None
    ensures ParseInt("1_") == None
    ensures ParseInt("12a") == None
    ensures ParseInt("-") == None
  {
    assert "007"[..2] == "00" && "00"[..1] == "0" && "0"[..0] == [];
    assert DigitsValue("0") == 0 && DigitsValue("00") == 0;
    assert WellFormedDigits("007");
    assert "1_000"[..4] == "1_00" && "1_00"[..3] == "1_0" && "1_0"[..2] == "1_" && "1_"[..1] == "1";
    assert "+5"[1..] == "5";
    assert "-0"[1..] == "0";
    assert "1__0"[1] == '_' && "1__0"[2] == '_';
  }

  /** CPython's default for `sys.get_int_max_str_digits()`: `int()` refuses a decimal text
      with more digits than this. */
  const MaxStrDigits: nat := 4300

  /** The two `ValueError`s of `int(s)` on a decimal text. */
  datatype IntError =
    | InvalidLiteral              // "invalid literal for int() with base 10: ..."
    | TooManyDigits(digits: nat)  // "Exceeds the limit (4300 digits) ..."

  /** How many decimal digits `s` holds. */
  function DigitCount(s: string): (n: nat)
    ensures n <= |s|
  {
    if s == [] then 0 else (if IsDigit(s[0]) then 1 else 0) + DigitCount(s[1..])
  }

  /** Python `int(s)` for base 10 on an already stripped `s`, with the limit on digits.
      The whole text is checked against the grammar first, so a text the grammar refuses is
      an invalid literal however many digits it holds; only an accepted text with more than
      `MaxStrDigits` digits is refused for its length. */
  function ConvertInt(s: string): (r: Result<int, IntError>)
    ensures r.Success? <==> ParseInt(s).Some? && DigitCount(s) <= MaxStrDigits
    ensures r.Success? ==> ParseInt(s) == Some(r.value)
    ensures ParseInt(s).None? ==> r == Failure(InvalidLiteral)
    ensures ParseInt(s).Some? && DigitCount(s) > MaxStrDigits ==> r == Failure(TooManyDigits(DigitCount(s)))
    ensures r.Failure? && r.error.TooManyDigits? ==> r.error.digits > MaxStrDigits
  {
    match ParseInt(s)
    case None => Failure(InvalidLiteral)
    case Some(v) =>
      if DigitCount(s) > MaxStrDigits then Failure(TooManyDigits(DigitCount(s))) else Success(v)
  }

  /** `"1" * n`. */
  function Ones(n: nat): (r: string)
    ensures |r| == n && forall i :: 0 <= i < n ==> r[i] == '1'
  {
    seq(n, _ => '1')
  }

  lemma {:induction false} OnesDigitCount(n: nat)
    ensures DigitCount(Ones(n)) == n
  {
    if n > 0 {
      OnesDigitCount(n - 1);
      assert Ones(n)[1..] == Ones(n - 1);
    }
  }

  /** The limit at its edge: 4300 ones convert and 4301 do not, while 4301 ones followed
      by a letter are an invalid literal, not a text over the limit. */
  lemma DigitLimitExamples()
    ensures ConvertInt(Ones(MaxStrDigits)).Success?
    ensures ConvertInt(Ones(MaxStrDigits + 1)) == Failure(TooManyDigits(MaxStrDigits + 1))
    ensures ConvertInt(Ones(MaxStrDigits + 1) + "x") == Failure(InvalidLiteral)
  {
    OnesDigitCount(MaxStrDigits);
    OnesDigitCount(MaxStrDigits + 1);
    assert WellFormedDigits(Ones(MaxStrDigits));
    assert WellFormedDigits(Ones(MaxStrDigits + 1));
    var s := Ones(MaxStrDigits + 1) + "x";
    assert s[0] == '1' && s[|s| - 1] == 'x';
  }

}
