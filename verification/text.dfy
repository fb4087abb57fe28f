/** String helpers the cleaning script gets from Python: decimal digits,
    `str(n)` for naturals, `int(...)` and `float(...)` on plain decimal text,
    `sub in s`, and `s.split(c)` when exactly two parts are expected. */
module Text {
  import opened Basics

  predicate IsDigit(c: char) {
    '0' <= c <= '9'
  }

  predicate AllDigits(s: string) {
    forall i :: 0 <= i < |s| ==> IsDigit(s[i])
  }

  function DigitValue(c: char): (d: nat)
    requires IsDigit(c)
    ensures d < 10
  {
    (c as int) - ('0' as int)
  }

  function DigitChar(d: nat): (c: char)
    requires d < 10
    ensures IsDigit(c) && DigitValue(c) == d
  {
    (('0' as int) + d) as char
  }

  /** The number a string of decimal digits denotes (the empty string denotes 0). */
  function DigitsValue(s: string): nat
    requires AllDigits(s)
  {
    if |s| == 0 then 0 else 10 * DigitsValue(s[..|s| - 1]) + DigitValue(s[|s| - 1])
  }

  /** `str(n)` for a natural number: its shortest decimal spelling. */
  function NatToString(n: nat): (s: string)
    ensures |s| >= 1 && AllDigits(s)
    ensures |s| > 1 ==> s[0] != '0'
    decreases n
  {
    if n < 10 then [DigitChar(n)] else NatToString(n / 10) + [DigitChar(n % 10)]
  }

  /** `int(s)` restricted to plain digit strings; anything else raises. */
  function ParseNat(s: string): (r: Option<nat>)
    ensures r.Some? <==> |s| > 0 && AllDigits(s)
  {
    if |s| > 0 && AllDigits(s) then Some(DigitsValue(s)) else None
  }

  lemma {:induction false} ParseNatToString(n: nat)
    ensures ParseNat(NatToString(n)) == Some(n)
    decreases n
  {
    var s := NatToString(n);
    if n >= 10 {
      ParseNatToString(n / 10);
      assert s[..|s| - 1] == NatToString(n / 10);
      assert DigitsValue(s) == 10 * (n / 10) + n % 10;
    }
  }

  /** The first position of `c` in `s`. */
  function FirstIndex(s: string, c: char): (i: nat)
    requires c in s
    ensures i < |s| && s[i] == c && c !in s[..i]
  {
    if s[0] == c then 0 else
      assert s == [s[0]] + s[1..];
      1 + FirstIndex(s[1..], c)
  }

  /** `a, b = s.split(c)`: succeeds exactly when `c` occurs once in `s`. */
  function SplitOnce(s: string, c: char): (r: Option<(string, string)>)
    ensures r.Some? ==> s == r.value.0 + [c] + r.value.1 && c !in r.value.0 && c !in r.value.1
    ensures r.None? ==> c !in s || exists i, j :: 0 <= i < j < |s| && s[i] == c && s[j] == c
  {
    if c !in s then None
    else
      var i := FirstIndex(s, c);
      if c in s[i + 1..] then
        var j := FirstIndex(s[i + 1..], c);
        assert s[i + 1 + j] == c;
        None
      else
        assert s == s[..i] + [c] + s[i + 1..];
        Some((s[..i], s[i + 1..]))
  }

  /** Splitting a joined pair at a separator neither half contains gives the pair back. */
  lemma SplitOnceJoin(a: string, b: string, c: char)
    requires c !in a && c !in b
    ensures SplitOnce(a + [c] + b, c) == Some((a, b))
  {
    var s := a + [c] + b;
    assert s[|a|] == c;
    var i := FirstIndex(s, c);
    assert s[..|a|] == a;
    assert i == |a|;
    assert s[..i] == a;
    assert s[i + 1..] == b;
  }

  predicate OccursAt(s: string, sub: string, i: int) {
    0 <= i <= |s| - |sub| && s[i..i + |sub|] == sub
  }

  /** `sub in s` for strings: `sub` occurs in `s` at some position. */
  predicate Contains(s: string, sub: string) {
    exists i | 0 <= i <= |s| - |sub| :: OccursAt(s, sub, i)
  }

  /** `float(s)` restricted to unsigned decimal text: digits, optionally one
      point, at least one digit (`"25"`, `".500"`, `"5."`). */
  function ParseDecimal(s: string): (r: Option<real>)
    ensures r.Some? ==> r.value >= 0.0
    ensures r.Some? ==> |s| > 0 && forall i :: 0 <= i < |s| ==> IsDigit(s[i]) || s[i] == '.'
  {
    if '.' !in s then
      if |s| > 0 && AllDigits(s) then Some(DigitsValue(s) as real) else None
    else
      var p := FirstIndex(s, '.');
      var whole, frac := s[..p], s[p + 1..];
      if '.' in frac || !AllDigits(whole) || !AllDigits(frac) || |whole| + |frac| == 0 then None
      else
        assert s == whole + ['.'] + frac;
        Some(PointValue(whole, frac))
  }

  /** The number "W.F" denotes: W plus F tenths, hundredths, ... as F's length says. */
  function PointValue(whole: string, frac: string): real
    requires AllDigits(whole) && AllDigits(frac)
  {
    DigitsValue(whole) as real + DigitsValue(frac) as real / Pow10(|frac|) as real
  }

  /** Unsigned decimal text: non-empty, only digits and at most one point,
      and not the bare point. */
  predicate DecimalText(s: string) {
    |s| > 0 && s != "."
    && (forall i :: 0 <= i < |s| ==> IsDigit(s[i]) || s[i] == '.')
    && (forall i, j :: 0 <= i < j < |s| && s[i] == '.' ==> s[j] != '.')
  }

  /** `float(s)` accepts exactly the unsigned decimal texts. */
  lemma ParseDecimalAccepts(s: string)
    ensures ParseDecimal(s).Some? <==> DecimalText(s)
  {
    if '.' in s {
      var p := FirstIndex(s, '.');
      var whole, frac := s[..p], s[p + 1..];
      assert forall i :: 0 <= i < p ==> s[i] == whole[i];
      assert forall i :: p < i < |s| ==> s[i] == frac[i - p - 1];
      if ParseDecimal(s).Some? {
        assert '.' !in frac && AllDigits(whole) && AllDigits(frac);
        forall i, j | 0 <= i < j < |s| && s[i] == '.'
          ensures s[j] != '.'
        {
          assert i == p;
          assert IsDigit(frac[j - p - 1]);
        }
      }
      if DecimalText(s) {
        assert '.' !in frac by {
          forall j | 0 <= j < |frac|
            ensures frac[j] != '.'
          {
            assert s[p + 1 + j] == frac[j];
          }
        }
        assert AllDigits(whole) by {
          forall i | 0 <= i < |whole|
            ensures IsDigit(whole[i])
          {
            assert whole[i] in whole;
          }
        }
        assert AllDigits(frac) by {
          forall j | 0 <= j < |frac|
            ensures IsDigit(frac[j])
          {
            assert frac[j] in frac;
          }
        }
        assert |whole| + |frac| == |s| - 1;
      }
    }
  }

  /** `float` of "W.F" is the number it denotes. */
  lemma ParseDecimalValue(w: string, f: string)
    requires AllDigits(w) && AllDigits(f) && |w| + |f| > 0
    ensures ParseDecimal(w + ['.'] + f) == Some(PointValue(w, f))
  {
    var s := w + ['.'] + f;
    assert '.' !in w by { assert forall i :: 0 <= i < |w| ==> IsDigit(w[i]); }
    assert '.' !in f by { assert forall i :: 0 <= i < |f| ==> IsDigit(f[i]); }
    SplitOnceJoin(w, f, '.');
    assert s[..FirstIndex(s, '.')] == w && s[FirstIndex(s, '.') + 1..] == f;
  }

  /** `float("5.5")` is 5.5. */
  lemma ParseDecimalExample()
    ensures ParseDecimal("5.5") == Some(5.5)
  {
    assert AllDigits("5");
    assert "5"[..0] == "";
    assert DigitsValue("5") == 5;
    ParseDecimalValue("5", "5");
    assert "5" + ['.'] + "5" == "5.5";
    assert Pow10(1) == 10;
    assert PointValue("5", "5") == 5.0 + 5.0 / 10.0;
  }

  /** `float` of a digit text without a point, leading zeros allowed ("05",
      "00"), is the number the digits spell. */
  lemma ParseDecimalOfDigits(s: string)
    requires |s| > 0 && AllDigits(s)
    ensures ParseDecimal(s) == Some(DigitsValue(s) as real)
  {
    assert '.' !in s;
  }

  lemma ParseDecimalOfNat(n: nat)
    ensures ParseDecimal(NatToString(n)) == Some(n as real)
  {
    ParseNatToString(n);
  }
}
