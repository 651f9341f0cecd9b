/** Python's `int(text)` for base-10 strings, as Flask's `request.args.get(..., type=int)`
    applies it to the `page` query parameter: surrounding white space is skipped, one optional
    sign is allowed, the digits may be grouped by single underscores, and at most 4300 digits
    are accepted (the default of `sys.set_int_max_str_digits`, Python 3.11 and later). */
module PyInt {
  import opened Wrappers

  /** The characters below U+0080 that `int()` skips around a number: space, tab, line feed,
      vertical tab, form feed and carriage return. An ASCII string reaches the C parser as it
      is, and that parser does not skip U+001C to U+001F. */
  predicate IsSpace(c: char)
  {
    c == ' ' || '\t' <= c <= '\r'
  }

  predicate IsDigit(c: char)
  {
    '0' <= c <= '9'
  }

  function DigitValue(c: char): (d: nat)
    requires IsDigit(c)
    ensures d < 10
  {
    c as int - '0' as int
  }

  predicate AllDigits(ds: string)
  {
    forall i :: 0 <= i < |ds| ==> IsDigit(ds[i])
  }

  /** Every character of `s` from index `lo` up to `hi` is white space. */
  predicate SpaceBetween(s: string, lo: int, hi: int)
    requires 0 <= lo <= hi <= |s|
  {
    forall k :: lo <= k < hi ==> IsSpace(s[k])
  }

  /** The index of the first character at or after `i` that is not white space (`|s|` if none). */
  function SkipSpace(s: string, i: nat): (k: nat)
    requires i <= |s|
    ensures i <= k <= |s| && SpaceBetween(s, i, k)
    ensures k == |s| || !IsSpace(s[k])
    decreases |s| - i
  {
    if i < |s| && IsSpace(s[i]) then SkipSpace(s, i + 1) else i
  }

  /** The end of `s[lo..j]` once its trailing white space is cut off. */
  function SkipSpaceBack(s: string, lo: nat, j: nat): (k: nat)
    requires lo <= j <= |s|
    ensures lo <= k <= j && SpaceBetween(s, k, j)
    ensures k == lo || !IsSpace(s[k - 1])
    decreases j - lo
  {
    if lo < j && IsSpace(s[j - 1]) then SkipSpaceBack(s, lo, j - 1) else j
  }

  /** Python's `s.strip()` for the white space `int()` skips: `s` is the result framed by
      white space only, and the result neither starts nor ends with white space. */
  function Strip(s: string): (t: string)
    ensures var a := SkipSpace(s, 0);
            && a + |t| <= |s| && t == s[a..a + |t|]
            && SpaceBetween(s, 0, a) && SpaceBetween(s, a + |t|, |s|)
    ensures t == [] || (!IsSpace(t[0]) && !IsSpace(t[|t| - 1]))
  {
    var a := SkipSpace(s, 0);
    var b := SkipSpaceBack(s, a, |s|);
    assert SpaceBetween(s, b, |s|);
    s[a..b]
  }

  /** A run of decimal digits in which single underscores may separate two digits. */
  predicate IsDigitRun(s: string)
  {
    && |s| > 0
    && IsDigit(s[0])
    && IsDigit(s[|s| - 1])
    && (forall i :: 0 <= i < |s| ==> IsDigit(s[i]) || s[i] == '_')
    && (forall i :: 0 <= i < |s| - 1 && s[i] == '_' ==> IsDigit(s[i + 1]))
  }

  /** The digits of a digit run, with the grouping underscores left out. */
  function Digits(s: string): (ds: string)
    requires forall i :: 0 <= i < |s| ==> IsDigit(s[i]) || s[i] == '_'
    ensures AllDigits(ds)
    ensures |ds| <= |s|
  {
    if s == [] then []
    else (if s[0] == '_' then [] else [s[0]]) + Digits(s[1..])
  }

  /** The number a string of decimal digits denotes, most significant digit first. */
  function Value(ds: string): nat
    requires AllDigits(ds)
  {
    if ds == [] then 0 else Value(ds[..|ds| - 1]) * 10 + DigitValue(ds[|ds| - 1])
  }

  /** `sys.get_int_max_str_digits()` by default: `int()` refuses a longer run of digits. */
  const MaxStrDigits: nat := 4300

  /** A digit run that `int()` accepts: grouped correctly, and not longer than the limit
      (the grouping underscores are not counted). */
  predicate IsNumeral(run: string)
  {
    IsDigitRun(run) && |Digits(run)| <= MaxStrDigits
  }

  /** The number that stripped text spells: one optional sign, then a digit run. */
  function ReadSigned(t: string): (r: Option<int>)
    ensures r.Some? ==> exists i :: 0 <= i < |t| && IsDigit(t[i])
  {
    if |t| > 0 && (t[0] == '-' || t[0] == '+') then
      var run := t[1..];
      if IsNumeral(run) then
        assert IsDigit(t[1]);
        var n: int := Value(Digits(run));
        Some(if t[0] == '-' then -n else n)
      else None
    else if IsNumeral(t) then
      assert IsDigit(t[0]);
      Some(Value(Digits(t)))
    else None
  }

  /** `int(s)`: `None` where Python raises `ValueError`. */
  function ParseInt(s: string): (r: Option<int>)
    ensures r.Some? ==> exists i :: 0 <= i < |s| && IsDigit(s[i])
  {
    var t := Strip(s);
    var r := ReadSigned(t);
    assert r.Some? ==> exists i :: 0 <= i < |s| && IsDigit(s[i]) by {
      if r.Some? {
        var i :| 0 <= i < |t| && IsDigit(t[i]);
        var a := SkipSpace(s, 0);
        assert s[a + i] == t[i];
      }
    }
    r
  }

  function DigitChar(d: nat): (c: char)
    requires d < 10
    ensures IsDigit(c) && DigitValue(c) == d
  {
    ('0' as int + d) as char
  }

  /** `str(n)` for a natural number: its decimal digits, without leading zeros. */
  function ShowNat(n: nat): (s: string)
    ensures |s| > 0 && AllDigits(s)
    ensures |s| > 1 ==> s[0] != '0'
  {
    if n < 10 then [DigitChar(n)] else ShowNat(n / 10) + [DigitChar(n % 10)]
  }

  /** `str(n)` for any integer. */
  function ShowInt(n: int): (s: string)
  {
    if n < 0 then "-" + ShowNat(-n) else ShowNat(n)
  }

  /** `n` has at most `MaxStrDigits` decimal digits, so `int()` can read it back. */
  predicate WithinDigitLimit(n: int)
  {
    |ShowNat(if n < 0 then -n else n)| <= MaxStrDigits
  }

  function Pow10(k: nat): nat
  {
    if k == 0 then 1 else 10 * Pow10(k - 1)
  }

  /** A number below `10^k` is written with at most `k` digits. */
  lemma {:induction false} ShowNatLength(n: nat, k: nat)
    requires 1 <= k && n < Pow10(k)
    ensures |ShowNat(n)| <= k
  {
    if n >= 10 {
      assert k >= 2;
      assert n / 10 < Pow10(k - 1);
      ShowNatLength(n / 10, k - 1);
    }
  }

  lemma {:induction false} ValueOfShowNat(n: nat)
    ensures Value(ShowNat(n)) == n
  {
    if n >= 10 {
      var s := ShowNat(n);
      assert s[..|s| - 1] == ShowNat(n / 10);
      ValueOfShowNat(n / 10);
    }
  }

  lemma {:induction false} DigitsOfPlainDigits(ds: string)
    requires AllDigits(ds)
    ensures Digits(ds) == ds
  {
    if ds != [] {
      DigitsOfPlainDigits(ds[1..]);
    }
  }

  /** The digits `str` writes form a digit run that reads back as the number. */
  lemma ShowNatReadsBack(n: nat)
    ensures IsDigitRun(ShowNat(n))
    ensures Digits(ShowNat(n)) == ShowNat(n)
    ensures Value(Digits(ShowNat(n))) == n
  {
    DigitsOfPlainDigits(ShowNat(n));
    ValueOfShowNat(n);
  }

  /** `str(n)` has no white space at either end. */
  lemma ShowIntIsStripped(n: int)
    ensures Strip(ShowInt(n)) == ShowInt(n)
  {
    var s := ShowInt(n);
    assert IsDigit(s[|s| - 1]);
    assert s[0] == '-' || IsDigit(s[0]);
    assert SkipSpace(s, 0) == 0;
    assert SkipSpaceBack(s, 0, |s|) == |s|;
    assert s[0..|s|] == s;
  }

  lemma ReadUnsigned(t: string)
    requires IsNumeral(t)
    ensures ReadSigned(t) == Some(Value(Digits(t)))
  {
  }

  lemma ReadNegative(d: string, m: nat)
    requires IsNumeral(d) && Value(Digits(d)) == m
    ensures ReadSigned("-" + d) == Some(-(m as int))
  {
    assert ("-" + d)[1..] == d;
  }

  /** Reading back what `str` writes gives the number: `int(str(n)) == n` for every number
      within the digit limit. */
  lemma ParseShowInt(n: int)
    requires WithinDigitLimit(n)
    ensures ParseInt(ShowInt(n)) == Some(n)
  {
    ShowIntIsStripped(n);
    ReadShowInt(n);
  }

  lemma ReadShowInt(n: int)
    requires WithinDigitLimit(n)
    ensures ReadSigned(ShowInt(n)) == Some(n)
  {
    if n < 0 {
      ReadShowNegative(n);
    } else {
      ReadShowNat(n);
    }
  }

  lemma ReadShowNat(n: nat)
    requires |ShowNat(n)| <= MaxStrDigits
    ensures ReadSigned(ShowNat(n)) == Some(n)
  {
    ShowNatReadsBack(n);
    ReadUnsigned(ShowNat(n));
  }

  lemma ReadShowNegative(n: int)
    requires n < 0 && |ShowNat(-n)| <= MaxStrDigits
    ensures ReadSigned(ShowInt(n)) == Some(n)
  {
    ShowNatReadsBack(-n);
    ReadNegative(ShowNat(-n), -n);
  }

  /** More than `MaxStrDigits` digits are refused, however they are grouped or signed. */
  lemma TooManyDigits(s: string)
    requires forall i :: 0 <= i < |s| ==> IsDigit(s[i]) || s[i] == '_'
    requires |Digits(s)| > MaxStrDigits
    ensures ParseInt(s) == None
    ensures ParseInt("-" + s) == None
  {
    assert s != [] && IsDigit(Digits(s)[0]);
    assert Strip(s) == s;
    var t := "-" + s;
    assert Strip(t) == t;
    assert t[1..] == s;
  }

  /** Text without any digit is never a number, so Flask falls back to the default. */
  lemma NoDigitNoNumber(s: string)
    requires forall i :: 0 <= i < |s| ==> !IsDigit(s[i])
    ensures ParseInt(s) == None
  {
  }
}
