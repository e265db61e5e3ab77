/** The pricing rules of shared.py: the commission tier table
    (shared.py:119-131), promotion codes (shared.py:133-152) and the
    distance fare (shared.py:173-177). All are pure. */
module Pricing {
  import opened Rounding
  import opened Records

  // ---------------------------------------------------------------------
  // Commission tiers
  // ---------------------------------------------------------------------

  /** `get_commission_pct`: the platform's percentage for a driver with
      `weeklyTrips` trips in the trailing week. */
  function GetCommissionPct(weeklyTrips: int): (pct: int)
    ensures pct == 8 || pct == 10 || pct == 12 || pct == 14
    ensures 0 < pct < 100
  {
    if weeklyTrips >= 60 then 8
    else if weeklyTrips >= 40 then 10
    else if weeklyTrips >= 20 then 12
    else 14
  }

  /** The tier boundaries, on both sides of each step. */
  lemma CommissionTierBoundaries()
    ensures GetCommissionPct(0) == 14 && GetCommissionPct(19) == 14
    ensures GetCommissionPct(20) == 12 && GetCommissionPct(39) == 12
    ensures GetCommissionPct(40) == 10 && GetCommissionPct(59) == 10
    ensures GetCommissionPct(60) == 8 && GetCommissionPct(1000) == 8
  {
  }

  /** More trips never raise the commission. */
  lemma CommissionNonIncreasing(a: int, b: int)
    requires a <= b
    ensures GetCommissionPct(b) <= GetCommissionPct(a)
  {
  }

  /** One more trip changes the tier exactly when it crosses 20, 40 or 60. */
  lemma CommissionStepsAt(n: int)
    ensures GetCommissionPct(n + 1) != GetCommissionPct(n) <==> (n == 19 || n == 39 || n == 59)
  {
  }

  // ---------------------------------------------------------------------
  // Whitespace stripping and upper-casing, as Python's str methods
  // ---------------------------------------------------------------------

  /** The characters for which Python's `str.isspace()` holds. */
  predicate IsSpace(c: char)
  {
    || ('\t' <= c <= '\r') || ('\U{001C}' <= c <= ' ')
    || c == '\U{0085}' || c == '\U{00A0}' || c == '\U{1680}'
    || ('\U{2000}' <= c <= '\U{200A}') || c == '\U{2028}' || c == '\U{2029}'
    || c == '\U{202F}' || c == '\U{205F}' || c == '\U{3000}'
  }

  predicate AllSpace(s: string)
  {
    forall k :: 0 <= k < |s| ==> IsSpace(s[k])
  }

  /** `s.lstrip()`: drops the leading whitespace, and nothing else. */
  function StripStart(s: string): (r: string)
    ensures |r| <= |s| && r == s[|s| - |r|..]
    ensures AllSpace(s[..|s| - |r|])
    ensures r == [] || !IsSpace(r[0])
  {
    if s != [] && IsSpace(s[0]) then
      var r := StripStart(s[1..]);
      assert s[..|s| - |r|] == [s[0]] + s[1..][..|s| - 1 - |r|];
      r
    else s
  }

  /** `s.rstrip()`: drops the trailing whitespace, and nothing else. */
  function StripEnd(s: string): (r: string)
    ensures |r| <= |s| && r == s[..|r|]
    ensures AllSpace(s[|r|..])
    ensures r == [] || !IsSpace(r[|r| - 1])
  {
    if s != [] && IsSpace(s[|s| - 1]) then
      var r := StripEnd(s[..|s| - 1]);
      assert s[|r|..] == s[..|s| - 1][|r|..] + [s[|s| - 1]];
      r
    else s
  }

  /** `s.strip()`. */
  function Strip(s: string): (r: string)
    ensures |r| <= |s|
    ensures r == [] || (!IsSpace(r[0]) && !IsSpace(r[|r| - 1]))
  {
    StripEnd(StripStart(s))
  }

  lemma {:induction false} StripStartSkipsSpace(p: string, t: string)
    requires AllSpace(p)
    ensures StripStart(p + t) == StripStart(t)
  {
    if p == [] {
      assert p + t == t;
    } else {
      assert (p + t)[0] == p[0];
      assert (p + t)[1..] == p[1..] + t;
      StripStartSkipsSpace(p[1..], t);
    }
  }

  lemma {:induction false} StripEndSkipsSpace(t: string, q: string)
    requires AllSpace(q)
    ensures StripEnd(t + q) == StripEnd(t)
  {
    if q == [] {
      assert t + q == t;
    } else {
      assert (t + q)[|t + q| - 1] == q[|q| - 1];
      assert (t + q)[..|t + q| - 1] == t + q[..|q| - 1];
      StripEndSkipsSpace(t, q[..|q| - 1]);
    }
  }

  /** Stripping removes exactly the surrounding whitespace: a text with
      non-blank ends comes back from any amount of padding unchanged, and
      padding alone strips to the empty text. */
  lemma {:induction false} StripPadding(p: string, s: string, q: string)
    requires AllSpace(p) && AllSpace(q)
    requires s == [] || (!IsSpace(s[0]) && !IsSpace(s[|s| - 1]))
    ensures Strip(p + s + q) == s
  {
    assert p + s + q == p + (s + q);
    StripStartSkipsSpace(p, s + q);
    if s == [] {
      assert s + q == q;
      assert StripStart(q) == [];
    } else {
      assert (s + q)[0] == s[0];
    }
    StripEndSkipsSpace(s, q);
  }

  /** A text that has no blank at either end is left as it is. */
  lemma {:induction false} StripKeepsTrimmed(s: string)
    requires s == [] || (!IsSpace(s[0]) && !IsSpace(s[|s| - 1]))
    ensures Strip(s) == s
  {
    var none := "";
    assert none + s + none == s;
    StripPadding(none, s, none);
  }

  /** Stripping twice is stripping once. */
  lemma {:induction false} StripIdempotent(s: string)
    ensures Strip(Strip(s)) == Strip(s)
  {
    StripKeepsTrimmed(Strip(s));
  }

  lemma StripStartParts(s: string) returns (p: string)
    ensures s == p + StripStart(s) && AllSpace(p)
  {
    var n := |s| - |StripStart(s)|;
    p := s[..n];
    assert s == s[..n] + s[n..];
  }

  lemma StripEndParts(s: string) returns (q: string)
    ensures s == StripEnd(s) + q && AllSpace(q)
  {
    var n := |StripEnd(s)|;
    q := s[n..];
    assert s == s[..n] + s[n..];
  }

  /** What stripping removes is blank: the text is the stripped text with
      blank padding on both sides. */
  lemma {:induction false} StripParts(s: string) returns (p: string, q: string)
    ensures s == p + Strip(s) + q
    ensures AllSpace(p) && AllSpace(q)
  {
    p := StripStartParts(s);
    q := StripEndParts(StripStart(s));
  }

  /** `str.upper()` on one character: ASCII and Latin-1 letters, the
      dotless i, the long s, the micro sign and y-diaeresis. */
  function UpperChar(c: char): char
  {
    if 'a' <= c <= 'z' then (c as int - 32) as char
    else if '\U{00E0}' <= c <= '\U{00FE}' && c != '\U{00F7}' then (c as int - 32) as char
    else if c == '\U{00FF}' then '\U{0178}'
    else if c == '\U{00B5}' then '\U{039C}'
    else if c == '\U{0131}' then 'I'
    else if c == '\U{017F}' then 'S'
    else c
  }

  /** `s.upper()`, one character at a time: the result has no lower-case
      ASCII letter left, and whitespace stays exactly where it was. */
  function Upper(s: string): (r: string)
    ensures |r| == |s|
    ensures forall k :: 0 <= k < |s| ==> r[k] == UpperChar(s[k])
    ensures forall k :: 0 <= k < |r| ==> !('a' <= r[k] <= 'z') && (IsSpace(r[k]) <==> IsSpace(s[k]))
  {
    seq(|s|, k requires 0 <= k < |s| => UpperChar(s[k]))
  }

  /** Upper-casing leaves no lower-case ASCII letter, is idempotent, and
      neither creates nor removes whitespace. */
  lemma UpperCharFacts(c: char)
    ensures !('a' <= UpperChar(c) <= 'z')
    ensures UpperChar(UpperChar(c)) == UpperChar(c)
    ensures IsSpace(UpperChar(c)) <==> IsSpace(c)
  {
  }

  lemma UpperIdempotent(s: string)
    ensures Upper(Upper(s)) == Upper(s)
  {
    forall k | 0 <= k < |s| ensures Upper(Upper(s))[k] == Upper(s)[k] {
      UpperCharFacts(s[k]);
    }
  }

  lemma UpperConcat(a: string, b: string)
    ensures Upper(a + b) == Upper(a) + Upper(b)
  {
  }

  lemma UpperAllSpace(s: string)
    requires AllSpace(s)
    ensures Upper(s) == s
  {
  }

  /** Upper-casing and stripping commute. */
  lemma {:induction false} StripUpperCommute(s: string)
    ensures Strip(Upper(s)) == Upper(Strip(s))
  {
    var p, q := StripParts(s);
    var r := Strip(s);
    UpperConcat(p + r, q);
    UpperConcat(p, r);
    UpperAllSpace(p);
    UpperAllSpace(q);
    forall k | 0 <= k < |r| ensures IsSpace(Upper(r)[k]) <==> IsSpace(r[k]) {
      UpperCharFacts(r[k]);
    }
    StripPadding(p, Upper(r), q);
  }

  // ---------------------------------------------------------------------
  // Promotions
  // ---------------------------------------------------------------------

  /** `PROMO_CODES.get(c)`: the discount fraction of a code, as an exact
      rational, or None for a code not in the table. */
  function PromoCodes(c: string): (rate: Option<real>)
    ensures rate.Some? ==> 0.0 < rate.value <= 0.5
  {
    if c == "WELCOME50" then Some(0.50)
    else if c == "MALI10" then Some(0.10)
    else if c == "EVENING15" then Some(0.15)
    else if c == "STUDENT20" then Some(0.20)
    else None
  }

  /** The lookup key a typed code is reduced to: `code.strip().upper()`. */
  function NormalizeCode(code: string): string
  {
    Upper(Strip(code))
  }

  /** `(final, discount)` as returned by `apply_promo`. */
  datatype PromoResult = PromoResult(final: int, discount: int)

  /** `fare * disc`: the share of an amount a fraction stands for. */
  function Share(amount: int, rate: real): real
  {
    amount as real * rate
  }

  /** The tail of `apply_promo` once the code has been looked up: no
      fraction (or a zero one) leaves the fare alone, otherwise the rounded
      fraction of the fare is taken off and the result clamped at zero. */
  function Discount(disc: Option<real>, fare: int): (r: PromoResult)
    ensures (disc.None? || disc.value == 0.0) ==> r == PromoResult(fare, 0)
    ensures disc.Some? && disc.value != 0.0 ==>
      && r.discount == Round(Share(fare, disc.value))
      && r.final >= 0
      && (r.final == 0 || r.final + r.discount == fare)
  {
    if disc.None? || disc.value == 0.0 then PromoResult(fare, 0)
    else
      var discount := Round(Share(fare, disc.value));
      var final := if 0 > fare - discount then 0 else fare - discount;
      PromoResult(final, discount)
  }

  /** `apply_promo(code, fare)`. */
  function ApplyPromo(code: string, fare: int): (r: PromoResult)
    ensures code == "" ==> r == PromoResult(fare, 0)
  {
    if code == "" then PromoResult(fare, 0)
    else Discount(PromoCodes(NormalizeCode(code)), fare)
  }

  /** A fraction between zero and one of a non-negative amount lies
      between zero and the amount. */
  lemma ShareWithin(amount: int, rate: real)
    requires 0 <= amount && 0.0 <= rate <= 1.0
    ensures 0.0 <= Share(amount, rate) <= amount as real
  {
    var x := amount as real;
    assert x * rate <= x * 1.0 by {
      assert x * (1.0 - rate) >= 0.0;
    }
  }

  /** For a non-negative fare and a fraction of at most one, the discount
      is the fare times the fraction to within one half, never more than
      the fare, and discount and final price add up to the fare. */
  lemma DiscountSplitsFare(disc: Option<real>, fare: int)
    requires fare >= 0
    requires disc.Some? ==> 0.0 <= disc.value <= 1.0
    ensures var r := Discount(disc, fare);
      && 0 <= r.discount <= fare
      && r.final >= 0
      && r.final + r.discount == fare
      && (disc.Some? ==>
            Share(fare, disc.value) - 0.5 <= r.discount as real <= Share(fare, disc.value) + 0.5)
  {
    if disc.Some? {
      ShareWithin(fare, disc.value);
      if disc.value != 0.0 {
        RoundBetween(Share(fare, disc.value), 0, fare);
      } else {
        assert Share(fare, disc.value) == 0.0;
      }
    }
  }

  /** An empty code, or one whose normal form is not in the table, leaves
      the fare unchanged with a zero discount. */
  lemma PromoUnknownIsNoOp(code: string, fare: int)
    requires code == "" || PromoCodes(NormalizeCode(code)).None?
    ensures ApplyPromo(code, fare) == PromoResult(fare, 0)
  {
  }

  /** A known code takes its rounded fraction off the fare; for a
      non-negative fare nothing is lost and nothing goes negative. */
  lemma PromoSplitsFare(code: string, fare: int, rate: real)
    requires fare >= 0
    requires code != "" && PromoCodes(NormalizeCode(code)) == Some(rate)
    ensures var r := ApplyPromo(code, fare);
      && 0 <= r.discount <= fare
      && r.final >= 0
      && r.final + r.discount == fare
      && r.discount == Round(Share(fare, rate))
      && Share(fare, rate) - 0.5 <= r.discount as real <= Share(fare, rate) + 0.5
  {
    DiscountSplitsFare(Some(rate), fare);
  }

  /** Whatever the code, a non-negative fare is split into a final price
      and a discount that add up to it. */
  lemma PromoConservesFare(code: string, fare: int)
    requires fare >= 0
    ensures ApplyPromo(code, fare).final + ApplyPromo(code, fare).discount == fare
    ensures 0 <= ApplyPromo(code, fare).final <= fare
  {
    if code != "" {
      DiscountSplitsFare(PromoCodes(NormalizeCode(code)), fare);
    }
  }

  /** The lookup ignores surrounding whitespace and letter case: a code and
      its normal form are worth the same. */
  lemma PromoNormalizes(code: string, fare: int)
    ensures ApplyPromo(code, fare) == ApplyPromo(NormalizeCode(code), fare)
  {
    var n := NormalizeCode(code);
    if n == "" {
      assert PromoCodes(n) == None;
    } else {
      StripUpperCommute(Strip(code));
      StripIdempotent(code);
      UpperIdempotent(Strip(code));
      assert NormalizeCode(n) == n;
    }
  }

  /** Any code that normalises to `WELCOME50` halves a fare of 1000. */
  lemma Welcome50Half(code: string)
    requires code != "" && NormalizeCode(code) == "WELCOME50"
    ensures ApplyPromo(code, 1000) == PromoResult(500, 500)
  {
    assert Share(1000, 0.50) == 500 as real;
    RoundInt(500);
  }

  /** `apply_promo("welcome50", 1000) == (500, 500)`. */
  lemma Welcome50Example()
    ensures ApplyPromo("welcome50", 1000) == PromoResult(500, 500)
  {
    StripKeepsTrimmed("welcome50");
    UpperWelcome50();
    Welcome50Half("welcome50");
  }

  /** The same code with blanks around it is worth the same. */
  lemma Welcome50PaddedExample()
    ensures ApplyPromo(" welcome50 ", 1000) == PromoResult(500, 500)
  {
    assert " welcome50 " == " " + "welcome50" + " ";
    StripPadding(" ", "welcome50", " ");
    UpperWelcome50();
    Welcome50Half(" welcome50 ");
  }

  lemma UpperWelcome50()
    ensures Upper("welcome50") == "WELCOME50"
  {
    var u := Upper("welcome50");
    assert u[0] == 'W' && u[1] == 'E' && u[2] == 'L' && u[3] == 'C' && u[4] == 'O';
    assert u[5] == 'M' && u[6] == 'E' && u[7] == '5' && u[8] == '0';
  }

  // ---------------------------------------------------------------------
  // Distance fare
  // ---------------------------------------------------------------------

  const BaseFareXof: int := 500
  const PerMileXof: int := 300

  /** `compute_fare(distance_miles)`: base plus per-mile rate on the
      distance clamped at zero, rounded half to even. */
  function ComputeFare(distanceMiles: real): (fare: int)
    ensures fare >= BaseFareXof
    ensures distanceMiles <= 0.0 ==> fare == BaseFareXof
    ensures distanceMiles >= 0.0 ==>
      BaseFareXof as real + PerMileXof as real * distanceMiles - 0.5 <= fare as real
        <= BaseFareXof as real + PerMileXof as real * distanceMiles + 0.5
  {
    var clamped := if distanceMiles > 0.0 then distanceMiles else 0.0;
    var fare := Round(BaseFareXof as real + PerMileXof as real * clamped);
    RoundMonotone(BaseFareXof as real, BaseFareXof as real + PerMileXof as real * clamped);
    RoundInt(BaseFareXof);
    fare
  }

  /** A longer trip never costs less. */
  lemma FareNonDecreasing(d1: real, d2: real)
    requires d1 <= d2
    ensures ComputeFare(d1) <= ComputeFare(d2)
  {
    var c1 := if d1 > 0.0 then d1 else 0.0;
    var c2 := if d2 > 0.0 then d2 else 0.0;
    RoundMonotone(BaseFareXof as real + PerMileXof as real * c1, BaseFareXof as real + PerMileXof as real * c2);
  }
}
