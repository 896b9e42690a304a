// The equivalence gate (research/run85_phasex_economics.py, lines 298-375).
module EquivalenceGate {
  import opened Wrappers
  import opened PyText

  /** A Python float. */
  datatype Float = Finite(value: real) | Infinite(negative: bool) | NotANumber

  predicate FloatEqual(x: Float, y: Float) {
    !x.NotANumber? && x == y
  }

  /** What one venue published for one dimension: nothing (None or an empty
      container), a string, a number, or a non-empty container known by its identity. */
  datatype Value = Missing | Str(text: string) | Num(number: Float) | Other(id: nat)

  /** The two string facilities the comparison calls: lower() and float(). */
  datatype Runtime = Runtime(low: char -> char, parse: string -> Option<Float>)

  datatype Verdict = Match | Mismatch | Unresolved

  predicate IsMissing(v: Value) {
    v == Missing || v == Str("")
  }

  function ToFloat(py: Runtime, v: Value): Option<Float> {
    match v
    case Str(s) => py.parse(s)
    case Num(f) => Some(f)
    case Missing => None
    case Other(_) => None
  }

  function CompareDimension(py: Runtime, a: Value, b: Value): Verdict {
    if IsMissing(a) || IsMissing(b) then Unresolved
    else if a.Str? && b.Str? then
      if Lower(py.low, Strip(a.text)) == Lower(py.low, Strip(b.text)) then Match else Mismatch
    else
      match (ToFloat(py, a), ToFloat(py, b))
      case (Some(x), Some(y)) => if FloatEqual(x, y) then Match else Mismatch
      case _ => if a == b then Match else Mismatch
  }

  datatype Dim =
    | Sport | League | UnderlyingEvent | Participants | Proposition | Line | Period | StartTime | CloseTime
    | SettlementSource | SettlementRule | Overtime | ExtraTime | Postponement | Cancellation | DrawTie | Void
    | OtherMaterialConditions

  const MATERIAL_DIMENSIONS: seq<Dim> :=
    [Sport, League, UnderlyingEvent, Participants, Proposition, Line, Period, StartTime, CloseTime,
     SettlementSource, SettlementRule, Overtime, ExtraTime, Postponement, Cancellation, DrawTie, Void,
     OtherMaterialConditions]

  /** The place of a dimension in the table. */
  function Place(d: Dim): nat {
    match d
    case Sport => 0
    case League => 1
    case UnderlyingEvent => 2
    case Participants => 3
    case Proposition => 4
    case Line => 5
    case Period => 6
    case StartTime => 7
    case CloseTime => 8
    case SettlementSource => 9
    case SettlementRule => 10
    case Overtime => 11
    case ExtraTime => 12
    case Postponement => 13
    case Cancellation => 14
    case DrawTie => 15
    case Void => 16
    case OtherMaterialConditions => 17
  }

  lemma TableHoldsAll(d: Dim)
    ensures Place(d) < |MATERIAL_DIMENSIONS| && MATERIAL_DIMENSIONS[Place(d)] == d
  {
  }

  lemma EveryDimensionIsMaterial(d: Dim)
    ensures d in MATERIAL_DIMENSIONS
  {
    TableHoldsAll(d);
  }

  /** One venue's side of a pair: whether its payoff direction is verified, and the
      value of every dimension. */
  datatype Contract = Contract(directionVerified: bool, half: Dim -> Value)

  function Result(py: Runtime, p: Contract, k: Contract, d: Dim): Verdict {
    CompareDimension(py, p.half(d), k.half(d))
  }

  /** The dimensions that scored `v`, in the order of the table. */
  function Scoring(py: Runtime, p: Contract, k: Contract, v: Verdict, dims: seq<Dim>): seq<Dim> {
    if dims == [] then []
    else (if Result(py, p, k, dims[0]) == v then [dims[0]] else []) + Scoring(py, p, k, v, dims[1..])
  }

  datatype Status = EquivalenceVerified | EquivalenceRejected | EquivalenceNotIdentified

  datatype DirectionBlocker = PmusDirectionNotIdentified | KalshiDirectionNotIdentified

  datatype Gate = Gate(status: Status, mismatched: seq<Dim>, unresolved: seq<Dim>, blockers: seq<DirectionBlocker>)

  function Equivalence(py: Runtime, p: Contract, k: Contract): Gate {
    var blockers := (if p.directionVerified then [] else [PmusDirectionNotIdentified])
                    + (if k.directionVerified then [] else [KalshiDirectionNotIdentified]);
    var mismatched := Scoring(py, p, k, Mismatch, MATERIAL_DIMENSIONS);
    var unresolved := Scoring(py, p, k, Unresolved, MATERIAL_DIMENSIONS);
    var status :=
      if mismatched != [] then EquivalenceRejected
      else if blockers != [] || unresolved != [] then EquivalenceNotIdentified
      else EquivalenceVerified;
    Gate(status, mismatched, unresolved, blockers)
  }

  lemma {:induction false} ScoringMembers(py: Runtime, p: Contract, k: Contract, v: Verdict, dims: seq<Dim>)
    ensures forall d :: d in Scoring(py, p, k, v, dims) <==> d in dims && Result(py, p, k, d) == v
  {
    if dims != [] {
      ScoringMembers(py, p, k, v, dims[1..]);
      assert forall d :: d in dims <==> d == dims[0] || d in dims[1..];
    }
  }

  /** Dimensions in the order of the table, none twice. */
  ghost predicate InTableOrder(dims: seq<Dim>) {
    forall a, b :: 0 <= a < b < |dims| ==> Place(dims[a]) < Place(dims[b])
  }

  lemma TableInOrder()
    ensures InTableOrder(MATERIAL_DIMENSIONS)
  {
    forall a | 0 <= a < |MATERIAL_DIMENSIONS|
      ensures Place(MATERIAL_DIMENSIONS[a]) == a
    {
    }
  }

  lemma {:induction false} ScoringInOrder(py: Runtime, p: Contract, k: Contract, v: Verdict, dims: seq<Dim>)
    requires InTableOrder(dims)
    ensures InTableOrder(Scoring(py, p, k, v, dims))
  {
    if dims != [] {
      ScoringInOrder(py, p, k, v, dims[1..]);
      ScoringMembers(py, p, k, v, dims[1..]);
      var rest := Scoring(py, p, k, v, dims[1..]);
      forall b | 0 <= b < |rest|
        ensures Place(dims[0]) < Place(rest[b])
      {
        assert rest[b] in rest;
        var t :| 0 <= t < |dims[1..]| && dims[1..][t] == rest[b];
        assert dims[t + 1] == rest[b];
      }
    }
  }

  /** Exactly the dimensions that compare as `v`, in the order of the table. */
  ghost predicate ListsDimensions(dims: seq<Dim>, py: Runtime, p: Contract, k: Contract, v: Verdict) {
    InTableOrder(dims) && forall d :: d in dims <==> CompareDimension(py, p.half(d), k.half(d)) == v
  }

  /** There is only one such list. */
  lemma {:induction false} ListedOnce(x: seq<Dim>, y: seq<Dim>)
    requires InTableOrder(x) && InTableOrder(y) && forall d :: d in x <==> d in y
    ensures x == y
  {
    if x == [] && y != [] {
      HasFirst(y);
    } else if y == [] && x != [] {
      HasFirst(x);
    } else if x != [] {
      assert x[0] in y && y[0] in x;
      forall d
        ensures d in x[1..] <==> d in y[1..]
      {
        assert d in x <==> d == x[0] || d in x[1..];
        assert d in y <==> d == y[0] || d in y[1..];
      }
      ListedOnce(x[1..], y[1..]);
    }
  }

  lemma HasFirst(dims: seq<Dim>)
    requires dims != []
    ensures dims[0] in dims
  {
  }

  /** Everything a gate record lists. */
  lemma GateLists(py: Runtime, p: Contract, k: Contract)
    ensures var g := Equivalence(py, p, k);
      && ListsDimensions(g.mismatched, py, p, k, Mismatch) && ListsDimensions(g.unresolved, py, p, k, Unresolved)
      && (PmusDirectionNotIdentified in g.blockers <==> !p.directionVerified)
      && (KalshiDirectionNotIdentified in g.blockers <==> !k.directionVerified)
      && |g.blockers| == (if p.directionVerified then 0 else 1) + (if k.directionVerified then 0 else 1)
  {
    TableInOrder();
    ScoringInOrder(py, p, k, Mismatch, MATERIAL_DIMENSIONS);
    ScoringInOrder(py, p, k, Unresolved, MATERIAL_DIMENSIONS);
    ScoringMembers(py, p, k, Mismatch, MATERIAL_DIMENSIONS);
    ScoringMembers(py, p, k, Unresolved, MATERIAL_DIMENSIONS);
    forall d: Dim
      ensures d in MATERIAL_DIMENSIONS
    {
      EveryDimensionIsMaterial(d);
    }
  }

  /** The three outcomes: one mismatch settles rejection whatever else is known;
      verification needs both directions and agreement everywhere. */
  lemma GateMeaning(py: Runtime, p: Contract, k: Contract)
    ensures var s := Equivalence(py, p, k).status;
      && (s == EquivalenceRejected <==> exists d :: Result(py, p, k, d) == Mismatch)
      && (s == EquivalenceVerified <==>
          p.directionVerified && k.directionVerified && forall d :: Result(py, p, k, d) == Match)
  {
    var g := Equivalence(py, p, k);
    ScoringMembers(py, p, k, Mismatch, MATERIAL_DIMENSIONS);
    ScoringMembers(py, p, k, Unresolved, MATERIAL_DIMENSIONS);
    forall d: Dim
      ensures d in g.mismatched <==> Result(py, p, k, d) == Mismatch
      ensures d in g.unresolved <==> Result(py, p, k, d) == Unresolved
    {
      EveryDimensionIsMaterial(d);
    }
    if g.mismatched != [] {
      assert g.mismatched[0] in g.mismatched;
    }
    if g.unresolved != [] {
      assert g.unresolved[0] in g.unresolved;
    }
  }

  /** What agreement is. Two texts agree by their folded, stripped forms; any other
      two values by number, if both read as one; and what does not read as a number
      agrees only with itself. Two present values that do not agree disagree. */
  lemma ComparisonMeaning(py: Runtime, a: Value, b: Value)
    requires !IsMissing(a) && !IsMissing(b)
    ensures CompareDimension(py, a, b) == Match || CompareDimension(py, a, b) == Mismatch
    ensures forall s, t :: a == Str(s) && b == Str(t) ==>
      (CompareDimension(py, a, b) == Match <==> SameText(py, Strip(s), Strip(t)))
    ensures forall x, y :: a == Num(x) && b == Num(y) ==>
      (CompareDimension(py, a, b) == Match <==> x == y && x != NotANumber)
    ensures forall s, y :: a == Str(s) && b == Num(y) ==>
      (CompareDimension(py, a, b) == Match <==> py.parse(s) == Some(y) && y != NotANumber)
    ensures forall s, x :: a == Num(x) && b == Str(s) ==>
      (CompareDimension(py, a, b) == Match <==> py.parse(s) == Some(x) && x != NotANumber)
    ensures a.Other? || b.Other? ==> (CompareDimension(py, a, b) == Match <==> a == b)
  {
    forall s, t | a == Str(s) && b == Str(t)
      ensures CompareDimension(py, a, b) == Match <==> SameText(py, Strip(s), Strip(t))
    {
      SameTextFolds(py, Strip(s), Strip(t));
    }
  }

  /** Equal letter for letter once each letter is folded. */
  ghost predicate SameText(py: Runtime, s: string, t: string) {
    |s| == |t| && forall i :: 0 <= i < |s| ==> py.low(s[i]) == py.low(t[i])
  }

  lemma SameTextFolds(py: Runtime, s: string, t: string)
    ensures SameText(py, s, t) <==> Lower(py.low, s) == Lower(py.low, t)
  {
    if Lower(py.low, s) == Lower(py.low, t) {
      forall i | 0 <= i < |s|
        ensures py.low(s[i]) == py.low(t[i])
      {
        assert Lower(py.low, s)[i] == Lower(py.low, t)[i];
      }
    }
  }

  /** The verdict never depends on which venue is named first. */
  lemma ComparisonSymmetric(py: Runtime, a: Value, b: Value)
    ensures CompareDimension(py, a, b) == CompareDimension(py, b, a)
  {
  }

  /** A silence on either side is never agreement and never a disagreement. */
  lemma UnresolvedIffSilent(py: Runtime, a: Value, b: Value)
    ensures CompareDimension(py, a, b) == Unresolved <==> IsMissing(a) || IsMissing(b)
  {
  }

  /** Surrounding white space never changes how two texts compare, except that a text
      of nothing else is present where an empty one is silent. */
  lemma BlanksDoNotMatter(py: Runtime, s: string, t: string)
    ensures CompareDimension(py, Str(s), Str(t)) == CompareDimension(py, Str(Strip(s)), Str(t))
       <==> Strip(s) != "" || s == "" || t == ""
  {
    var i, j := StripIsSlice(s);
    TrimmedStrips(Strip(s));
  }

  /** A published value agrees with itself, except a NaN. */
  lemma AgreesWithItselfIff(py: Runtime, v: Value)
    ensures CompareDimension(py, v, v) == Match <==> !IsMissing(v) && v != Num(NotANumber)
  {
  }

  /** Agreement does not carry over: a number agrees with every spelling of it,
      and two spellings need not agree with each other. */
  lemma AgreementIsNotTransitive(py: Runtime)
    requires py.parse("5") == Some(Finite(5.0)) && py.parse("5.0") == Some(Finite(5.0))
    ensures var n := Num(Finite(5.0));
      && CompareDimension(py, Str("5"), n) == Match && CompareDimension(py, n, Str("5.0")) == Match
      && CompareDimension(py, Str("5"), Str("5.0")) == Mismatch
  {
    TrimmedStrips("5");
    TrimmedStrips("5.0");
    assert |Lower(py.low, "5")| == 1 && |Lower(py.low, "5.0")| == 3;
  }
}
