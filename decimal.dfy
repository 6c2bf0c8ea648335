/** An abstraction of `decimal.TryParse`: digits with at most one decimal point and at
    least one digit, with an optional sign before or after them. Values are exact (`real`). */
module Decimal {
  import opened Wrappers
  import opened Text

  predicate IsDigit(c: char) {
    '0' <= c <= '9'
  }

  predicate AllDigits(s: string) {
    forall i :: 0 <= i < |s| ==> IsDigit(s[i])
  }

  function DigitValue(c: char): nat
    requires IsDigit(c)
  {
    (c as int - '0' as int) as nat
  }

  function Pow10(n: nat): (r: nat)
    ensures r >= 1
  {
    if n == 0 then 1 else 10 * Pow10(n - 1)
  }

  /** The value of a run of decimal digits, most significant first. */
  function DigitsValue(s: string): nat
    requires AllDigits(s)
  {
    if s == [] then 0 else 10 * DigitsValue(s[..|s| - 1]) + DigitValue(s[|s| - 1])
  }

  /** Position of the first `c` in `s`, or `|s|` when there is none. */
  function IndexOf(s: string, c: char): (r: nat)
    ensures r <= |s|
    ensures forall j :: 0 <= j < r ==> s[j] != c
    ensures r < |s| ==> s[r] == c
  {
    if s == [] then 0 else if s[0] == c then 0 else 1 + IndexOf(s[1..], c)
  }

  /** An unsigned decimal literal "ddd", "ddd.", ".ddd" or "ddd.ddd" and its value. */
  function ParseUnsigned(s: string): Option<real> {
    var i := IndexOf(s, '.');
    var whole := s[..i];
    var frac := if i < |s| then s[i + 1..] else [];
    if AllDigits(whole) && AllDigits(frac) && |whole| + |frac| > 0 then
      Some(LiteralValue(whole, frac))
    else
      None
  }

  predicate IsSign(c: char) {
    c == '-' || c == '+'
  }

  /** The value of an unsigned reading under a sign. */
  function Signed(sign: char, u: Option<real>): Option<real> {
    match u
    case None => None
    case Some(v) => Some(if sign == '-' then -v else v)
  }

  /** `decimal.TryParse` with its default number style: one sign, either leading or
      trailing, around an unsigned literal. */
  function ParseDecimal(s: string): (r: Option<real>)
    ensures s == [] ==> r.None?
  {
    if |s| > 0 && IsSign(s[0]) then Signed(s[0], ParseUnsigned(s[1..]))
    else if |s| > 0 && IsSign(s[|s| - 1]) then Signed(s[|s| - 1], ParseUnsigned(s[..|s| - 1]))
    else ParseUnsigned(s)
  }

  /** Text made of digits and points has no sign to read. */
  lemma UnsignedOnly(s: string)
    requires forall i :: 0 <= i < |s| ==> IsDigit(s[i]) || s[i] == '.'
    ensures ParseDecimal(s) == ParseUnsigned(s)
  {
    if |s| > 0 {
      assert IsDigit(s[0]) || s[0] == '.';
      assert IsDigit(s[|s| - 1]) || s[|s| - 1] == '.';
    }
  }

  /** A literal without a sign never denotes a negative number. */
  lemma UnsignedNonNegative(s: string)
    ensures ParseUnsigned(s).Some? ==> ParseUnsigned(s).value >= 0.0
  {
  }

  /** Over digits and points only, the literal is accepted exactly when it holds
      at most one point and at least one digit. */
  lemma {:induction false} UnsignedAcceptsIff(s: string)
    requires forall i :: 0 <= i < |s| ==> IsDigit(s[i]) || s[i] == '.'
    ensures ParseUnsigned(s).Some? <==> Count(s, '.') <= 1 && Count(s, '.') < |s|
  {
    var i := IndexOf(s, '.');
    var whole := s[..i];
    assert AllDigits(whole);
    CountNoPoint(whole);
    if i < |s| {
      var frac := s[i + 1..];
      CountAroundPoint(s, i);
      CountNoPoint(frac);
      if !AllDigits(frac) {
        var j :| 0 <= j < |frac| && !IsDigit(frac[j]);
        CountPositive(frac, j);
      }
    } else {
      assert whole == s;
    }
  }

  /** The points of a string are those before its point at `i`, that one, and those after. */
  lemma CountAroundPoint(s: string, i: nat)
    requires i < |s| && s[i] == '.'
    ensures Count(s, '.') == Count(s[..i], '.') + 1 + Count(s[i + 1..], '.')
  {
    var whole, frac := s[..i], s[i + 1..];
    assert s == whole + ['.'] + frac;
    CountAppend(whole + ['.'], frac, '.');
    CountAppend(whole, ['.'], '.');
  }

  lemma {:induction false} CountNoPoint(s: string)
    requires forall i :: 0 <= i < |s| ==> IsDigit(s[i]) || s[i] == '.'
    ensures AllDigits(s) <==> Count(s, '.') == 0
  {
    if s != [] {
      CountNoPoint(s[1..]);
      if !IsDigit(s[0]) {
        assert s[0] == '.';
      }
      assert AllDigits(s) <==> IsDigit(s[0]) && AllDigits(s[1..]) by {
        if IsDigit(s[0]) && AllDigits(s[1..]) {
          forall k | 0 <= k < |s| ensures IsDigit(s[k]) {
            if k > 0 { assert s[k] == s[1..][k - 1]; }
          }
        }
      }
    }
  }

  lemma {:induction false} CountPositive(s: string, j: nat)
    requires j < |s| && s[j] == '.'
    ensures Count(s, '.') > 0
  {
    if j > 0 {
      CountPositive(s[1..], j - 1);
    }
  }

  // ---- printing, the inverse direction ----

  function DigitChar(d: nat): (c: char)
    requires d < 10
    ensures IsDigit(c) && DigitValue(c) == d
  {
    ('0' as int + d) as char
  }

  /** The shortest decimal numeral of `n`. */
  function NatToDigits(n: nat): (s: string)
    ensures |s| >= 1 && AllDigits(s)
  {
    if n < 10 then [DigitChar(n)] else NatToDigits(n / 10) + [DigitChar(n % 10)]
  }

  /** Reading back a printed natural gives that natural. */
  lemma {:induction false} DigitsValueOfNat(n: nat)
    ensures DigitsValue(NatToDigits(n)) == n
  {
    var s := NatToDigits(n);
    if n >= 10 {
      DigitsValueOfNat(n / 10);
      assert s[..|s| - 1] == NatToDigits(n / 10);
    } else {
      assert s[..0] == [];
    }
  }

  /** `TryParse` of a printed natural succeeds with that natural. */
  lemma ParseNat(n: nat)
    ensures ParseDecimal(NatToDigits(n)) == Some(n as real)
  {
    var s := NatToDigits(n);
    var i := IndexOf(s, '.');
    assert s[..i] == s;
    DigitsValueOfNat(n);
    UnsignedOnly(s);
  }

  /** `TryParse` of "w.f", with `f` printed on `d` digits, gives w + f / 10^d. */
  lemma ParseFraction(w: nat, f: nat)
    ensures ParseDecimal(NatToDigits(w) + "." + NatToDigits(f))
         == Some(w as real + f as real / Pow10(|NatToDigits(f)|) as real)
  {
    var a, b := NatToDigits(w), NatToDigits(f);
    ParsePointLiteral(a, b);
    DigitsValueOfNat(w);
    DigitsValueOfNat(f);
  }

  /** `TryParse` of "a.b" for digit runs `a` and `b`, not both empty. */
  lemma ParsePointLiteral(a: string, b: string)
    requires AllDigits(a) && AllDigits(b) && |a| + |b| > 0
    ensures ParseDecimal(a + "." + b) == Some(LiteralValue(a, b))
  {
    var s := a + "." + b;
    PointAfterDigits(a, b);
    var i := IndexOf(s, '.');
    assert i < |s|;
    var whole, frac := s[..i], s[i + 1..];
    assert whole == a;
    assert frac == b;
    assert s[0] == '.' || IsDigit(s[0]);
    assert s[|s| - 1] == '.' || IsDigit(s[|s| - 1]);
    assert ParseDecimal(s) == ParseUnsigned(s);
    assert ParseUnsigned(s) == Some(LiteralValue(whole, frac));
  }

  /** `TryParse` of a digit run without a point gives its value. */
  lemma ParseDigitRun(a: string)
    requires AllDigits(a) && |a| > 0
    ensures ParseDecimal(a) == Some(DigitsValue(a) as real)
  {
    UnsignedDigitRun(a);
    assert IsDigit(a[0]) && IsDigit(a[|a| - 1]);
  }

  lemma UnsignedDigitRun(a: string)
    requires AllDigits(a) && |a| > 0
    ensures ParseUnsigned(a) == Some(DigitsValue(a) as real)
  {
    NoPointInDigits(a);
    assert a[..|a|] == a;
    assert LiteralValue(a, []) == DigitsValue(a) as real by {
      assert DigitsValue([]) == 0;
    }
  }

  lemma NoPointInDigits(a: string)
    requires AllDigits(a)
    ensures IndexOf(a, '.') == |a|
  {
  }

  /** A leading '-' negates a literal that carries no sign of its own, and accepts
      exactly what it accepts. */
  lemma ParseNegated(u: string)
    requires |u| > 0 && !IsSign(u[0]) && !IsSign(u[|u| - 1])
    ensures ParseDecimal("-" + u).Some? <==> ParseDecimal(u).Some?
    ensures ParseDecimal(u).Some? ==> ParseDecimal("-" + u).value == -ParseDecimal(u).value
  {
    assert ("-" + u)[1..] == u;
  }

  /** A trailing sign reads like the same sign in front. */
  lemma TrailingSign(u: string, c: char)
    requires |u| > 0 && !IsSign(u[0]) && IsSign(c)
    ensures ParseDecimal(u + [c]) == ParseDecimal([c] + u)
  {
    assert (u + [c])[0] == u[0];
    assert (u + [c])[..|u|] == u;
    assert ([c] + u)[1..] == u;
  }

  /** A sign on both ends is rejected. */
  lemma TwoSigns(u: string, c: char, d: char)
    requires IsSign(c) && IsSign(d)
    ensures ParseDecimal([c] + u + [d]) == None
  {
    var s := [c] + u + [d];
    assert s[1..] == u + [d];
    UnsignedRejectsSign(u + [d]);
  }

  lemma UnsignedRejectsSign(s: string)
    requires |s| > 0 && IsSign(s[|s| - 1])
    ensures ParseUnsigned(s) == None
  {
    var i := IndexOf(s, '.');
    if i < |s| {
      assert s[i + 1..][|s| - i - 2] == s[|s| - 1];
    } else {
      assert s[..i][|s| - 1] == s[|s| - 1];
    }
  }

  /** The value of the literal "whole.frac". */
  function LiteralValue(whole: string, frac: string): real
    requires AllDigits(whole) && AllDigits(frac)
  {
    DigitsValue(whole) as real + DigitsValue(frac) as real / Pow10(|frac|) as real
  }

  lemma PointAfterDigits(a: string, b: string)
    requires AllDigits(a)
    ensures IndexOf(a + "." + b, '.') == |a|
  {
    var s := a + "." + b;
    var i := IndexOf(s, '.');
    assert s[|a|] == '.';
  }
}
