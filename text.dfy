/** Text helpers the tool relies on from Rust's standard library: `Option`,
    `str::trim`, `Display` for `i64` and `str::parse::<i64>`. Integers are
    unbounded here; the 64-bit range check of `parse` is not modelled. */
module Text {

  datatype Option<T> = None | Some(value: T)

  /** `char::is_whitespace`: the Unicode White_Space property. */
  predicate IsWhitespace(c: char) {
    var n := c as int;
    (9 <= n <= 13) || n == 0x20 || n == 0x85 || n == 0xA0 || n == 0x1680 ||
    (0x2000 <= n <= 0x200A) || n == 0x2028 || n == 0x2029 || n == 0x202F ||
    n == 0x205F || n == 0x3000
  }

  predicate AllWhitespace(s: string) {
    forall k :: 0 <= k < |s| ==> IsWhitespace(s[k])
  }

  /** `str::trim_start`: drops the longest whitespace prefix. */
  function TrimStart(s: string): string {
    if s != [] && IsWhitespace(s[0]) then TrimStart(s[1..]) else s
  }

  /** `str::trim_end`: drops the longest whitespace suffix. */
  function TrimEnd(s: string): string {
    if s != [] && IsWhitespace(s[|s| - 1]) then TrimEnd(s[..|s| - 1]) else s
  }

  /** `str::trim`: the text between the leading and the trailing whitespace. */
  function Trim(s: string): string {
    TrimEnd(TrimStart(s))
  }

  /** `trim_start` keeps a suffix, cuts only whitespace, and cuts all of it. */
  lemma {:induction false} TrimStartShape(s: string)
    ensures var r := TrimStart(s);
      |r| <= |s| && r == s[|s| - |r|..] && AllWhitespace(s[..|s| - |r|])
    ensures var r := TrimStart(s); r == [] || !IsWhitespace(r[0])
    decreases |s|
  {
    if s != [] && IsWhitespace(s[0]) {
      TrimStartShape(s[1..]);
      var r := TrimStart(s);
      assert s[..|s| - |r|] == [s[0]] + s[1..][..|s| - 1 - |r|];
    }
  }

  /** `trim_end` keeps a prefix, cuts only whitespace, and cuts all of it. */
  lemma {:induction false} TrimEndShape(s: string)
    ensures var r := TrimEnd(s);
      |r| <= |s| && r == s[..|r|] && AllWhitespace(s[|r|..])
    ensures var r := TrimEnd(s); r == [] || !IsWhitespace(r[|r| - 1])
    decreases |s|
  {
    if s != [] && IsWhitespace(s[|s| - 1]) {
      TrimEndShape(s[..|s| - 1]);
      var r := TrimEnd(s);
      assert s[|r|..] == s[..|s| - 1][|r|..] + [s[|s| - 1]];
    }
  }

  /** What `str::trim` promises: the result is an infix of `s` with only
      whitespace cut away on either side, and it neither starts nor ends
      with whitespace. */
  lemma TrimIsInfix(s: string)
    ensures var r := Trim(s);
      exists i :: 0 <= i <= |s| - |r| && r == s[i..i + |r|] &&
        AllWhitespace(s[..i]) && AllWhitespace(s[i + |r|..])
    ensures var r := Trim(s); r == [] || (!IsWhitespace(r[0]) && !IsWhitespace(r[|r| - 1]))
  {
    var t := TrimStart(s);
    TrimStartShape(s);
    var r := TrimEnd(t);
    TrimEndShape(t);
    var i := |s| - |t|;
    calc {
      s[i..i + |r|];
      s[i..][..|r|];
      t[..|r|];
      r;
    }
    assert s[i + |r|..] == t[|r|..];
    if r != [] {
      assert r[0] == t[0];
    }
  }

  /** Text with no whitespace at either end is left as it is by `trim`. */
  lemma {:induction false} TrimKeepsBare(s: string)
    requires s == [] || (!IsWhitespace(s[0]) && !IsWhitespace(s[|s| - 1]))
    ensures Trim(s) == s
  {
    if s != [] {
      assert TrimStart(s) == s;
    }
  }

  /** Trailing whitespace (the newline a save writes) is removed by `trim`. */
  lemma {:induction false} TrimDropsTrailing(s: string, w: string)
    requires s != [] && !IsWhitespace(s[0]) && !IsWhitespace(s[|s| - 1])
    requires AllWhitespace(w)
    ensures Trim(s + w) == s
  {
    assert TrimStart(s + w) == s + w;
    TrimEndDrops(s, w);
  }

  lemma {:induction false} TrimEndDrops(s: string, w: string)
    requires s != [] && !IsWhitespace(s[|s| - 1])
    requires AllWhitespace(w)
    ensures TrimEnd(s + w) == s
    decreases |w|
  {
    if w == [] {
      assert s + w == s;
    } else {
      var w' := w[..|w| - 1];
      assert (s + w)[..|s + w| - 1] == s + w';
      TrimEndDrops(s, w');
    }
  }

  predicate IsDigit(c: char) {
    '0' <= c <= '9'
  }

  predicate AllDigits(s: string) {
    forall k :: 0 <= k < |s| ==> IsDigit(s[k])
  }

  function DigitChar(d: int): (c: char)
    requires 0 <= d < 10
    ensures IsDigit(c) && c as int - '0' as int == d
  {
    ('0' as int + d) as char
  }

  /** Decimal digits of a natural number, most significant first, no leading zero. */
  function Digits(n: nat): (s: string)
    ensures s != [] && AllDigits(s)
    ensures |s| > 1 ==> s[0] != '0'
    decreases n
  {
    if n < 10 then [DigitChar(n)] else Digits(n / 10) + [DigitChar(n % 10)]
  }

  /** `format!("{}", v)` for an integer: a minus sign for negatives, then the digits. */
  function ToDecimal(v: int): string {
    if v < 0 then "-" + Digits(-v) else Digits(v)
  }

  /** Value of a run of decimal digits (leading zeros allowed). */
  function DigitsValue(s: string): nat
    requires AllDigits(s)
  {
    if s == [] then 0
    else DigitsValue(s[..|s| - 1]) * 10 + (s[|s| - 1] as int - '0' as int)
  }

  /** The integer literals `str::parse::<i64>` accepts: ASCII digits, or a
      `+` or `-` sign followed by at least one ASCII digit. */
  predicate IsIntLiteral(s: string) {
    (s != [] && AllDigits(s)) ||
    (|s| >= 2 && (s[0] == '+' || s[0] == '-') && AllDigits(s[1..]))
  }

  /** `str::parse::<i64>`: an optional `+` or `-`, then one or more ASCII
      digits and nothing else; anything else (the empty text, a lone sign,
      whitespace, other characters) is an error. */
  function ParseInt(s: string): (r: Option<int>)
    ensures r.Some? <==> IsIntLiteral(s)
    ensures r.Some? ==> s != [] && s != "+" && s != "-"
    ensures r.Some? ==> forall k :: 0 <= k < |s| ==> !IsWhitespace(s[k])
    ensures r.Some? ==> (r.value < 0 ==> s[0] == '-') && (s[0] == '-' ==> r.value <= 0)
  {
    if s == [] then None
    else
      var signed := s[0] == '+' || s[0] == '-';
      var body := if signed then s[1..] else s;
      if body == [] || !AllDigits(body) then None
      else
        assert forall k :: 0 <= k < |s| ==> k == 0 || IsDigit(s[k]) by {
          forall k | 0 <= k < |s| && k != 0 ensures IsDigit(s[k]) {
            if signed { assert s[k] == body[k - 1]; } else { assert s[k] == body[k]; }
          }
        }
        Some(if s[0] == '-' then -(DigitsValue(body) as int) else DigitsValue(body))
  }

  lemma {:induction false} DigitsRoundTrip(n: nat)
    ensures DigitsValue(Digits(n)) == n
    decreases n
  {
    if n >= 10 {
      var s := Digits(n);
      assert s[..|s| - 1] == Digits(n / 10);
      DigitsRoundTrip(n / 10);
    }
  }

  /** Printing an integer in decimal and parsing it back gives it back. */
  lemma ParseToDecimal(v: int)
    ensures ParseInt(ToDecimal(v)) == Some(v)
  {
    var s := ToDecimal(v);
    if v < 0 {
      var d := Digits(-v);
      assert s == "-" + d && s[0] == '-' && s[1..] == d;
      DigitsRoundTrip(-v);
      assert ParseInt(s) == Some(-(DigitsValue(d) as int));
    } else {
      var d := Digits(v);
      assert s == d && IsDigit(s[0]);
      DigitsRoundTrip(v);
      assert ParseInt(s) == Some(DigitsValue(d) as int);
    }
  }

  /** The decimal text of an integer has no whitespace at either end. */
  lemma ToDecimalBare(v: int)
    ensures var s := ToDecimal(v);
      s != [] && !IsWhitespace(s[0]) && !IsWhitespace(s[|s| - 1])
  {
    var s := ToDecimal(v);
    assert IsDigit(s[|s| - 1]);
  }
}
