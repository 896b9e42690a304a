// Canonical price keys (norm, research/run836a_clob_reconstruct.py, lines 39-45):
// a decimal is normalised and written out, and books compare the strings.
module PriceKeys {

  type Digit = d: nat | d < 10

  /** A non-negative decimal as Python's decimal module holds it: its coefficient's
      digits and an exponent. */
  datatype Raw = Raw(digits: seq<Digit>, exp: int)

  predicate WellFormed(d: Raw) {
    d.digits != [] && (|d.digits| > 1 ==> d.digits[0] != 0)
  }

  type Dec = d: Raw | WellFormed(d) witness Raw([0], 0)

  function Weight(e: int): (w: real)
    ensures w > 0.0
    decreases if e >= 0 then e else -e
  {
    if e == 0 then 1.0 else if e > 0 then 10.0 * Weight(e - 1) else Weight(e + 1) / 10.0
  }

  lemma WeightStep(e: int)
    ensures Weight(e - 1) == Weight(e) / 10.0
  {
  }

  /** d times w */
  function Times(d: Digit, w: real): real {
    if d == 0 then 0.0 else Times(d - 1, w) + w
  }

  /** The number the digits stand for when the first of them weighs `w`. */
  function Positional(ds: seq<Digit>, w: real): real {
    if ds == [] then 0.0 else Times(ds[0], w) + Positional(ds[1..], w / 10.0)
  }

  function Value(d: Dec): real {
    Positional(d.digits, Weight(d.exp + |d.digits| - 1))
  }

  // ---- normalize and format -----------------------------------------------

  function Normalize(d: Dec): Dec
    decreases |d.digits|
  {
    var n := |d.digits|;
    if d.digits[n - 1] != 0 then d
    else if n == 1 then Raw([0], 0)
    else Normalize(Raw(d.digits[..n - 1], d.exp + 1))
  }

  function Zeros(n: nat): (z: seq<Digit>)
    ensures |z| == n && forall i :: 0 <= i < n ==> z[i] == 0
  {
    if n == 0 then [] else [0] + Zeros(n - 1)
  }

  /** Digits before and after the point. */
  function Parts(d: Dec): (seq<Digit>, seq<Digit>) {
    var n := |d.digits|;
    if d.exp >= 0 then (d.digits + Zeros(d.exp), [])
    else if n + d.exp > 0 then (d.digits[..n + d.exp], d.digits[n + d.exp..])
    else ([0], Zeros(-(n + d.exp)) + d.digits)
  }

  function Char(d: Digit): char {
    '0' + d as char
  }

  function Chars(ds: seq<Digit>): string {
    if ds == [] then "" else [Char(ds[0])] + Chars(ds[1..])
  }

  function Render(whole: seq<Digit>, fraction: seq<Digit>): string {
    Chars(whole) + (if fraction == [] then "" else "." + Chars(fraction))
  }

  function Norm(d: Dec): string {
    var p := Parts(Normalize(d));
    Render(p.0, p.1)
  }

  /** Python's order on strings. */
  predicate Less(s: string, t: string) {
    t != "" && (s == "" || s[0] < t[0] || (s[0] == t[0] && Less(s[1..], t[1..])))
  }

  lemma {:induction false} LessIsTotal(s: string, t: string)
    ensures s == t <==> !Less(s, t) && !Less(t, s)
  {
    if s != "" && t != "" && s[0] == t[0] {
      LessIsTotal(s[1..], t[1..]);
      assert s == [s[0]] + s[1..] && t == [t[0]] + t[1..];
    }
    if s == t && s != "" {
      LessIsTotal(s[1..], t[1..]);
    }
  }

  // ---- digit sequences ----------------------------------------------------

  ghost predicate NoTrailingZero(ds: seq<Digit>) {
    ds != [] ==> ds[|ds| - 1] != 0
  }

  predicate DigitsLess(ds: seq<Digit>, es: seq<Digit>) {
    es != [] && (ds == [] || ds[0] < es[0] || (ds[0] == es[0] && DigitsLess(ds[1..], es[1..])))
  }

  lemma {:induction false} TimesIsProduct(d: Digit, w: real)
    ensures Times(d, w) == d as real * w
  {
    if d > 0 {
      TimesIsProduct(d - 1, w);
      assert d as real == (d - 1) as real + 1.0;
    }
  }

  lemma {:induction false} DigitBounds(d: Digit, w: real)
    requires w > 0.0
    ensures 0.0 <= Times(d, w) <= 9.0 * w
    ensures d > 0 ==> Times(d, w) >= w
    ensures forall e: Digit :: d < e ==> Times(d, w) + w <= Times(e, w)
    decreases 9 - d
  {
    TimesNonnegative(d, w);
    if d < 9 {
      DigitBounds(d + 1, w);
      assert Times(d + 1, w) == Times(d, w) + w;
    } else {
      TimesIsProduct(9, w);
    }
  }

  lemma {:induction false} TimesNonnegative(d: Digit, w: real)
    requires w > 0.0
    ensures 0.0 <= Times(d, w)
    ensures d > 0 ==> Times(d, w) >= w
  {
    if d > 0 {
      TimesNonnegative(d - 1, w);
    }
  }

  lemma {:induction false} PositionalBounds(ds: seq<Digit>, w: real)
    requires w > 0.0
    ensures 0.0 <= Positional(ds, w) < 10.0 * w
    ensures ds != [] && NoTrailingZero(ds) ==> Positional(ds, w) > 0.0
    ensures ds != [] && ds[0] > 0 ==> Positional(ds, w) >= w
  {
    if ds != [] {
      DigitBounds(ds[0], w);
      PositionalBounds(ds[1..], w / 10.0);
      assert 10.0 * (w / 10.0) == w;
      assert ds[1..] != [] ==> ds[1..][|ds| - 2] == ds[|ds| - 1];
    }
  }

  /** Lexicographic order is numeric order on digit sequences without trailing zeros. */
  lemma {:induction false} DigitOrderIsNumeric(ds: seq<Digit>, es: seq<Digit>, w: real)
    requires w > 0.0 && NoTrailingZero(ds) && NoTrailingZero(es)
    ensures DigitsLess(ds, es) <==> Positional(ds, w) < Positional(es, w)
  {
    PositionalBounds(ds, w);
    PositionalBounds(es, w);
    if ds != [] && es != [] {
      PositionalBounds(ds[1..], w / 10.0);
      PositionalBounds(es[1..], w / 10.0);
      assert Positional(ds, w) == Times(ds[0], w) + Positional(ds[1..], w / 10.0);
      assert Positional(es, w) == Times(es[0], w) + Positional(es[1..], w / 10.0);
      assert 10.0 * (w / 10.0) == w;
      if ds[0] == es[0] {
        DigitOrderIsNumeric(ds[1..], es[1..], w / 10.0);
      } else {
        DigitBounds(ds[0], w);
        DigitBounds(es[0], w);
      }
    }
  }

  lemma {:induction false} TrailingZeroAddsNothing(ds: seq<Digit>, w: real)
    ensures Positional(ds + [0], w) == Positional(ds, w)
  {
    if ds != [] {
      TrailingZeroAddsNothing(ds[1..], w / 10.0);
      assert (ds + [0])[1..] == ds[1..] + [0];
    }
  }

  lemma {:induction false} LeadingZerosShift(n: nat, ds: seq<Digit>, e: int)
    ensures Positional(Zeros(n) + ds, Weight(e)) == Positional(ds, Weight(e - n))
  {
    if n > 0 {
      LeadingZerosShift(n - 1, ds, e - 1);
      WeightStep(e);
      assert (Zeros(n) + ds)[1..] == Zeros(n - 1) + ds;
    } else {
      assert Zeros(0) + ds == ds;
    }
  }

  // ---- keys ---------------------------------------------------------------

  lemma ZeroIsZero(e: int)
    ensures Value(Raw([0], e)) == 0.0
  {
    assert Times(0, Weight(e)) == 0.0;
    assert Positional([0], Weight(e)) == Times(0, Weight(e)) + Positional([], Weight(e) / 10.0);
  }

  lemma {:induction false} NormalizeKeepsValue(d: Dec)
    ensures Value(Normalize(d)) == Value(d)
    ensures var m := Normalize(d); m == Raw([0], 0) || m.digits[|m.digits| - 1] != 0
    decreases |d.digits|
  {
    var n := |d.digits|;
    if n == 1 {
      ZeroIsZero(d.exp);
      ZeroIsZero(0);
      assert d.digits[0] == 0 ==> d == Raw([0], d.exp);
    } else if d.digits[n - 1] == 0 {
      var c := Raw(d.digits[..n - 1], d.exp + 1);
      NormalizeKeepsValue(c);
      assert d.digits == c.digits + [0];
      TrailingZeroAddsNothing(c.digits, Weight(d.exp + n - 1));
    }
  }

  /** The digits before the point of a price's key. */
  function Whole(d: Dec): (whole: seq<Digit>)
    ensures whole != []
  {
    Parts(Normalize(d)).0
  }

  function Fraction(d: Dec): seq<Digit> {
    Parts(Normalize(d)).1
  }

  lemma {:induction false} TrailingZerosAddNothing(ds: seq<Digit>, n: nat, w: real)
    ensures Positional(ds + Zeros(n), w) == Positional(ds, w)
    decreases n
  {
    if n > 0 {
      TrailingZerosAddNothing(ds + [0], n - 1, w);
      assert ds + Zeros(n) == ds + [0] + Zeros(n - 1);
      TrailingZeroAddsNothing(ds, w);
    } else {
      assert ds + Zeros(0) == ds;
    }
  }

  /** Digits before the point without a leading zero, digits after it without a
      trailing one, and together they are the price. */
  ghost predicate IsKeyForm(whole: seq<Digit>, fraction: seq<Digit>, v: real) {
    && whole != [] && (|whole| > 1 ==> whole[0] != 0) && NoTrailingZero(fraction)
    && v == Positional(whole + fraction, Weight(|whole| - 1))
  }

  lemma WholeNumberForm(m: Dec)
    requires m.exp >= 0 && (m == Raw([0], 0) || m.digits[|m.digits| - 1] != 0)
    ensures IsKeyForm(m.digits + Zeros(m.exp), [], Value(m))
  {
    var whole := m.digits + Zeros(m.exp);
    TrailingZerosAddNothing(m.digits, m.exp, Weight(m.exp + |m.digits| - 1));
    assert whole + [] == whole && whole[0] == m.digits[0];
  }

  lemma MixedForm(m: Dec)
    requires m.exp < 0 < |m.digits| + m.exp && m.digits[|m.digits| - 1] != 0
    ensures var n := |m.digits| + m.exp; IsKeyForm(m.digits[..n], m.digits[n..], Value(m))
  {
    var n := |m.digits| + m.exp;
    assert m.digits[..n] + m.digits[n..] == m.digits;
  }

  lemma FractionForm(m: Dec)
    requires |m.digits| + m.exp <= 0 && m.digits[|m.digits| - 1] != 0
    ensures IsKeyForm([0], Zeros(-(|m.digits| + m.exp)) + m.digits, Value(m))
  {
    var k := -(|m.digits| + m.exp);
    LeadingZerosShift(k + 1, m.digits, 0);
    assert [0] + (Zeros(k) + m.digits) == Zeros(k + 1) + m.digits;
  }

  lemma PartsAreKeyForm(m: Dec)
    requires m == Raw([0], 0) || m.digits[|m.digits| - 1] != 0
    ensures IsKeyForm(Parts(m).0, Parts(m).1, Value(m))
  {
    if m.exp >= 0 {
      WholeNumberForm(m);
    } else if |m.digits| + m.exp > 0 {
      MixedForm(m);
    } else {
      FractionForm(m);
    }
  }

  lemma KeyForm(d: Dec)
    ensures IsKeyForm(Whole(d), Fraction(d), Value(d))
  {
    NormalizeKeepsValue(d);
    PartsAreKeyForm(Normalize(d));
  }

  /** The text shows these digits from position k on. */
  ghost predicate ShowsDigits(text: string, k: nat, ds: seq<Digit>) {
    k + |ds| <= |text| && forall i :: 0 <= i < |ds| ==> text[k + i] as int == '0' as int + ds[i]
  }

  lemma {:induction false} CharsShow(ds: seq<Digit>)
    ensures |Chars(ds)| == |ds| && ShowsDigits(Chars(ds), 0, ds)
  {
    if ds != [] {
      CharsShow(ds[1..]);
      assert forall i :: 0 < i < |ds| ==> Chars(ds)[i] == Chars(ds[1..])[i - 1] && ds[i] == ds[1..][i - 1];
    }
  }

  /** The key is the price written out, without redundant zeros: whole digits, and
      only for a fraction a point and the fraction's digits. */
  lemma KeyText(d: Dec) returns (whole: seq<Digit>, fraction: seq<Digit>)
    ensures IsKeyForm(whole, fraction, Value(d))
    ensures ShowsDigits(Norm(d), 0, whole)
    ensures fraction == [] ==> |Norm(d)| == |whole|
    ensures fraction != [] ==> |Norm(d)| == |whole| + 1 + |fraction| && Norm(d)[|whole|] == '.'
    ensures fraction != [] ==> ShowsDigits(Norm(d), |whole| + 1, fraction)
  {
    whole, fraction := Whole(d), Fraction(d);
    KeyForm(d);
    CharsShow(whole);
    CharsShow(fraction);
  }

  lemma {:induction false} WeightGrows(e: int, f: int)
    requires e <= f
    ensures Weight(e) <= Weight(f)
    decreases f - e
  {
    if e < f {
      WeightGrows(e, f - 1);
      WeightStep(f);
    }
  }

  /** The whole digits bound the price from both sides. */
  lemma WidthBounds(d: Dec)
    ensures Value(d) < Weight(|Whole(d)|)
    ensures |Whole(d)| > 1 ==> Value(d) >= Weight(|Whole(d)| - 1)
  {
    KeyForm(d);
    var n := |Whole(d)|;
    PositionalBounds(Whole(d) + Fraction(d), Weight(n - 1));
    WeightStep(n);
  }

  lemma FewerDigitsIsLess(a: Dec, b: Dec)
    requires |Whole(a)| < |Whole(b)|
    ensures Value(a) < Value(b)
  {
    WidthBounds(a);
    WidthBounds(b);
    WeightGrows(|Whole(a)|, |Whole(b)| - 1);
  }

  /** What follows the first digit decides only between equal first digits. */
  lemma FirstDigitDecides(x: Digit, u: real, y: Digit, v: real, w: real)
    requires w > 0.0 && 0.0 <= u < w && 0.0 <= v < w
    ensures Times(x, w) + u < Times(y, w) + v <==> x < y || (x == y && u < v)
  {
    DigitBounds(x, w);
    DigitBounds(y, w);
  }

  lemma SameFirst(p: seq<Digit>, q: seq<Digit>)
    requires p != [] && q != []
    ensures p == q <==> p[0] == q[0] && p[1..] == q[1..]
  {
    assert p == [p[0]] + p[1..] && q == [q[0]] + q[1..];
  }

  lemma RestIsSmall(ds: seq<Digit>, w: real)
    requires w > 0.0
    ensures 0.0 <= Positional(ds, w / 10.0) < w
  {
    PositionalBounds(ds, w / 10.0);
    assert 10.0 * (w / 10.0) == w;
  }

  /** Prices written with equally many whole digits compare digit by digit. */
  lemma {:induction false} SameWidthOrder(p: seq<Digit>, fs: seq<Digit>, q: seq<Digit>, gs: seq<Digit>, w: real)
    requires w > 0.0 && |p| == |q| && NoTrailingZero(fs) && NoTrailingZero(gs)
    ensures Positional(p + fs, w) < Positional(q + gs, w) <==> DigitsLess(p, q) || (p == q && DigitsLess(fs, gs))
  {
    if p == [] {
      assert p + fs == fs && q + gs == gs;
      DigitOrderIsNumeric(fs, gs, w);
    } else {
      var ps, qs := p[1..] + fs, q[1..] + gs;
      assert (p + fs)[1..] == ps && (q + gs)[1..] == qs;
      RestIsSmall(ps, w);
      RestIsSmall(qs, w);
      SameWidthOrder(p[1..], fs, q[1..], gs, w / 10.0);
      SameFirst(p, q);
      FirstDigitDecides(p[0], Positional(ps, w / 10.0), q[0], Positional(qs, w / 10.0), w);
    }
  }

  lemma {:induction false} DigitsTotal(p: seq<Digit>, q: seq<Digit>)
    requires |p| == |q|
    ensures !DigitsLess(q, p) <==> DigitsLess(p, q) || p == q
  {
    if p != [] {
      DigitsTotal(p[1..], q[1..]);
      assert p == [p[0]] + p[1..] && q == [q[0]] + q[1..];
    }
  }

  lemma {:induction false} CharsOrder(ds: seq<Digit>, es: seq<Digit>)
    ensures Less(Chars(ds), Chars(es)) <==> DigitsLess(ds, es)
  {
    if ds != [] && es != [] {
      CharsOrder(ds[1..], es[1..]);
      assert Chars(ds)[1..] == Chars(ds[1..]) && Chars(es)[1..] == Chars(es[1..]);
    }
  }

  lemma FirstCharDecides(c: char, s: string, d: char, t: string)
    ensures Less([c] + s, [d] + t) <==> c < d || (c == d && Less(s, t))
  {
    assert ([c] + s)[1..] == s && ([d] + t)[1..] == t;
  }

  lemma CharsBegin(p: seq<Digit>, s: string)
    requires p != []
    ensures Chars(p) + s == [Char(p[0])] + (Chars(p[1..]) + s)
  {
  }

  /** After equally many digits, what follows them decides. */
  lemma {:induction false} TailsDecide(p: seq<Digit>, s: string, q: seq<Digit>, t: string)
    requires |p| == |q|
    ensures Less(Chars(p) + s, Chars(q) + t) <==> DigitsLess(p, q) || (p == q && Less(s, t))
  {
    if p == [] {
      assert Chars(p) + s == s && Chars(q) + t == t;
    } else {
      CharsBegin(p, s);
      CharsBegin(q, t);
      FirstCharDecides(Char(p[0]), Chars(p[1..]) + s, Char(q[0]), Chars(q[1..]) + t);
      TailsDecide(p[1..], s, q[1..], t);
      SameFirst(p, q);
    }
  }

  /** How a key goes on after its whole digits. */
  function Tail(fraction: seq<Digit>): string {
    if fraction == [] then "" else "." + Chars(fraction)
  }

  lemma TailsOrder(fs: seq<Digit>, gs: seq<Digit>)
    ensures Less(Tail(fs), Tail(gs)) <==> DigitsLess(fs, gs)
  {
    CharsOrder(fs, gs);
    if fs != [] && gs != [] {
      assert Tail(fs)[1..] == Chars(fs) && Tail(gs)[1..] == Chars(gs);
    }
  }

  lemma {:induction false} CharsConcat(p: seq<Digit>, q: seq<Digit>, s: string)
    ensures Chars(p + q) + s == Chars(p) + (Chars(q) + s)
  {
    if p == [] {
      assert p + q == q;
    } else {
      CharsConcat(p[1..], q, s);
      assert (p + q)[1..] == p[1..] + q && (p + q)[0] == p[0];
      CharsBegin(p + q, s);
      CharsBegin(p, Chars(q) + s);
    }
  }

  /** A point or the end comes before any further whole digit. */
  lemma EndsBeforeDigit(fs: seq<Digit>, more: seq<Digit>, t: string)
    requires more != []
    ensures Less(Tail(fs), Chars(more) + t) && !Less(Chars(more) + t, Tail(fs))
  {
    assert (Chars(more) + t)[0] == Char(more[0]);
  }

  /** With equally many whole digits the keys order as the prices do. */
  lemma SameWidthKeys(a: Dec, b: Dec)
    requires |Whole(a)| == |Whole(b)|
    ensures Less(Norm(a), Norm(b)) <==> Value(a) < Value(b)
  {
    KeyForm(a);
    KeyForm(b);
    SameWidthOrder(Whole(a), Fraction(a), Whole(b), Fraction(b), Weight(|Whole(a)| - 1));
    TailsDecide(Whole(a), Tail(Fraction(a)), Whole(b), Tail(Fraction(b)));
    TailsOrder(Fraction(a), Fraction(b));
  }

  lemma NarrowerString(p: seq<Digit>, fs: seq<Digit>, q: seq<Digit>, gs: seq<Digit>)
    requires |p| < |q|
    ensures Less(Chars(p) + Tail(fs), Chars(q) + Tail(gs)) <==> !DigitsLess(q[..|p|], p)
    ensures Less(Chars(q) + Tail(gs), Chars(p) + Tail(fs)) <==> DigitsLess(q[..|p|], p)
  {
    var lead, more := q[..|p|], q[|p|..];
    assert lead + more == q;
    CharsConcat(lead, more, Tail(gs));
    var rest := Chars(more) + Tail(gs);
    EndsBeforeDigit(fs, more, Tail(gs));
    TailsDecide(p, Tail(fs), lead, rest);
    TailsDecide(lead, rest, p, Tail(fs));
    DigitsTotal(p, lead);
  }

  /** With fewer in a, the price of a is the lower one, and its key the lower one
      exactly when its whole digits come no later than the leading ones of b. */
  lemma NarrowerKey(a: Dec, b: Dec)
    requires |Whole(a)| < |Whole(b)|
    ensures Value(a) < Value(b)
    ensures Less(Norm(a), Norm(b)) <==> !DigitsLess(Whole(b)[..|Whole(a)|], Whole(a))
    ensures Less(Norm(b), Norm(a)) <==> DigitsLess(Whole(b)[..|Whole(a)|], Whole(a))
  {
    FewerDigitsIsLess(a, b);
    NarrowerString(Whole(a), Fraction(a), Whole(b), Fraction(b));
  }

  /** Two prices share a key exactly when they are equal, whatever their size. */
  lemma KeysAreInjective(a: Dec, b: Dec)
    ensures Norm(a) == Norm(b) <==> Value(a) == Value(b)
  {
    LessIsTotal(Norm(a), Norm(b));
    if |Whole(a)| < |Whole(b)| {
      NarrowerKey(a, b);
    } else if |Whole(b)| < |Whole(a)| {
      NarrowerKey(b, a);
    } else {
      SameWidthKeys(a, b);
      SameWidthKeys(b, a);
    }
  }

  /** The keys of two prices order them as their values do. */
  ghost predicate KeysAgree(a: Dec, b: Dec) {
    (Less(Norm(a), Norm(b)) <==> Value(a) < Value(b)) && (Less(Norm(b), Norm(a)) <==> Value(b) < Value(a))
  }

  /** The narrower price's whole digits come no later than the other's leading ones. */
  predicate LeadsInOrder(a: Dec, b: Dec)
    requires |Whole(a)| <= |Whole(b)|
  {
    !DigitsLess(Whole(b)[..|Whole(a)|], Whole(a))
  }

  /** Exactly when: equally many whole digits, or the narrower one's in order. */
  lemma KeysAgreeIff(a: Dec, b: Dec)
    requires |Whole(a)| <= |Whole(b)|
    ensures KeysAgree(a, b) <==> |Whole(a)| == |Whole(b)| || LeadsInOrder(a, b)
  {
    if |Whole(a)| < |Whole(b)| {
      NarrowerKey(a, b);
    } else {
      SameWidthKeys(a, b);
      SameWidthKeys(b, a);
    }
  }

  lemma BelowTenIsOneWide(d: Dec)
    requires Value(d) < 10.0
    ensures |Whole(d)| == 1
  {
    WidthBounds(d);
    assert Weight(1) == 10.0;
    if |Whole(d)| > 1 {
      WeightGrows(1, |Whole(d)| - 1);
    }
  }

  /** So below ten the order of canonical keys is the order of the prices. */
  lemma KeyOrderIsPriceOrder(a: Dec, b: Dec)
    requires Value(a) < 10.0 && Value(b) < 10.0
    ensures Less(Norm(a), Norm(b)) <==> Value(a) < Value(b)
    ensures Norm(a) == Norm(b) <==> Value(a) == Value(b)
  {
    BelowTenIsOneWide(a);
    BelowTenIsOneWide(b);
    SameWidthKeys(a, b);
    KeysAreInjective(a, b);
  }

  /** Ten is the threshold for whole books: the key of 10 sorts before the key of 9. */
  lemma KeyOrderFailsAtTen()
    ensures Value(Raw([9], 0)) == 9.0 && Value(Raw([1, 0], 0)) == 10.0
    ensures !KeysAgree(Raw([9], 0), Raw([1, 0], 0)) && Less(Norm(Raw([1, 0], 0)), Norm(Raw([9], 0)))
  {
    assert Weight(1) == 10.0;
    assert Positional([0], 1.0) == 0.0;
    assert [1, 0][1..] == [0];
    var ten := Normalize(Raw([1, 0], 0));
    assert [1, 0][..1] == [1];
    assert ten == Raw([1], 1);
    assert Zeros(1) == [0];
    assert Norm(Raw([1, 0], 0))[0] == '1' && Norm(Raw([9], 0))[0] == '9';
  }
}
