/** Rewriting constant expressions (handleConstExpr in toolchain/llvm-support/OmpHostPointerLegalizer).

    Equal constants are one object in the compiler, so replacing a cast replaces it everywhere: in
    every operand of the module and inside every other constant.  `Plan` is the list of casts that a
    walk replaces one after the other; `LegalizeC` is what it comes to for one expression. */
module ConstExprs {
  import opened MiniIR

  /** The expression with every cast converted through an integer. */
  function LegalizeC(e: CExpr): CExpr {
    match e
    case Num(_) => e
    case CastC(e1, to) => ToPtrC(ToIntC(LegalizeC(e1), PtrBits(to)), to)
    case ToIntC(e1, bits) => ToIntC(LegalizeC(e1), bits)
    case ToPtrC(e1, to) => ToPtrC(LegalizeC(e1), to)
    case SumC(l, r, bits) => SumC(LegalizeC(l), LegalizeC(r), bits)
  }

  predicate HasCast(e: CExpr) {
    match e
    case Num(_) => false
    case CastC(_, _) => true
    case ToIntC(e1, _) => HasCast(e1)
    case ToPtrC(e1, _) => HasCast(e1)
    case SumC(l, r, _) => HasCast(l) || HasCast(r)
  }

  /** Rewriting never changes the value of a constant expression, however nested. */
  lemma {:induction false} LegalizeCValue(e: CExpr)
    ensures EvalC(LegalizeC(e)) == EvalC(e)
  {
    match e {
      case Num(_) =>
      case CastC(e1, to) => LegalizeCValue(e1);
      case ToIntC(e1, _) => LegalizeCValue(e1);
      case ToPtrC(e1, _) => LegalizeCValue(e1);
      case SumC(l, r, _) => LegalizeCValue(l); LegalizeCValue(r);
    }
  }

  lemma {:induction false} LegalizeCClean(e: CExpr)
    ensures !HasCast(LegalizeC(e))
  {
    match e {
      case Num(_) =>
      case CastC(e1, _) => LegalizeCClean(e1);
      case ToIntC(e1, _) => LegalizeCClean(e1);
      case ToPtrC(e1, _) => LegalizeCClean(e1);
      case SumC(l, r, _) => LegalizeCClean(l); LegalizeCClean(r);
    }
  }

  lemma {:induction false} CleanStays(e: CExpr)
    requires !HasCast(e)
    ensures LegalizeC(e) == e
  {
    match e {
      case Num(_) =>
      case ToIntC(e1, _) => CleanStays(e1);
      case ToPtrC(e1, _) => CleanStays(e1);
      case SumC(l, r, _) => CleanStays(l); CleanStays(r);
    }
  }

  // ---- replacing one constant everywhere

  /** What takes the place of a cast: its operand, converted, and not yet looked into. */
  function Converted(x: CExpr): CExpr
    requires x.CastC?
  {
    ToPtrC(ToIntC(x.e, PtrBits(x.dest)), x.dest)
  }

  /** replaceAllUsesWith inside one expression. */
  function Subst(e: CExpr, x: CExpr, y: CExpr): CExpr {
    if e == x then y
    else
      match e
      case Num(_) => e
      case CastC(e1, to) => CastC(Subst(e1, x, y), to)
      case ToIntC(e1, bits) => ToIntC(Subst(e1, x, y), bits)
      case ToPtrC(e1, to) => ToPtrC(Subst(e1, x, y), to)
      case SumC(l, r, bits) => SumC(Subst(l, x, y), Subst(r, x, y), bits)
  }

  lemma {:induction false} SubstLegalizes(e: CExpr, x: CExpr)
    requires x.CastC?
    ensures LegalizeC(Subst(e, x, Converted(x))) == LegalizeC(e)
  {
    if e != x {
      match e {
        case Num(_) =>
        case CastC(e1, _) => SubstLegalizes(e1, x);
        case ToIntC(e1, _) => SubstLegalizes(e1, x);
        case ToPtrC(e1, _) => SubstLegalizes(e1, x);
        case SumC(l, r, _) => SubstLegalizes(l, x); SubstLegalizes(r, x);
      }
    }
  }

  lemma {:induction false} SubstClean(e: CExpr, x: CExpr)
    requires x.CastC? && !HasCast(e)
    ensures Subst(e, x, Converted(x)) == e
  {
    match e {
      case Num(_) =>
      case ToIntC(e1, _) => SubstClean(e1, x);
      case ToPtrC(e1, _) => SubstClean(e1, x);
      case SumC(l, r, _) => SubstClean(l, x); SubstClean(r, x);
    }
  }

  /** A cast weighs more than what takes its place. */
  function Weight(e: CExpr): (w: nat)
    ensures w > 0
  {
    match e
    case Num(_) => 1
    case CastC(e1, _) => Weight(e1) + 3
    case ToIntC(e1, _) => Weight(e1) + 1
    case ToPtrC(e1, _) => Weight(e1) + 1
    case SumC(l, r, _) => Weight(l) + Weight(r) + 1
  }

  lemma {:induction false} SubstWeight(e: CExpr, x: CExpr)
    requires x.CastC?
    ensures Weight(Subst(e, x, Converted(x))) <= Weight(e)
  {
    if e != x {
      match e {
        case Num(_) =>
        case CastC(e1, _) => SubstWeight(e1, x);
        case ToIntC(e1, _) => SubstWeight(e1, x);
        case ToPtrC(e1, _) => SubstWeight(e1, x);
        case SumC(l, r, _) => SubstWeight(l, x); SubstWeight(r, x);
      }
    }
  }

  // ---- a walk, as the casts it replaces

  type Cast = x: CExpr | x.CastC? witness CastC(Num(0), Host)

  /** An expression after the casts of `xs` were replaced, one after the other. */
  function Replaced(xs: seq<Cast>, e: CExpr): CExpr
    decreases |xs|
  {
    if xs == [] then e else Replaced(xs[1..], Subst(e, xs[0], Converted(xs[0])))
  }

  lemma {:induction false} ReplacedWeight(xs: seq<Cast>, e: CExpr)
    ensures Weight(Replaced(xs, e)) <= Weight(e)
    decreases |xs|
  {
    if xs != [] {
      SubstWeight(e, xs[0]);
      ReplacedWeight(xs[1..], Subst(e, xs[0], Converted(xs[0])));
    }
  }

  /** handleConstExpr: a cast is replaced before the walk goes on to its operand, and a second operand
      is walked as the first left it. */
  function Plan(e: CExpr): seq<Cast>
    decreases Weight(e)
  {
    match e
    case Num(_) => []
    case CastC(e1, _) => [e] + Plan(e1)
    case ToIntC(e1, _) => Plan(e1)
    case ToPtrC(e1, _) => Plan(e1)
    case SumC(l, r, _) =>
      ReplacedWeight(Plan(l), r);
      Plan(l) + Plan(Replaced(Plan(l), r))
  }

  lemma {:induction false} ReplacedClean(xs: seq<Cast>, e: CExpr)
    requires !HasCast(e)
    ensures Replaced(xs, e) == e
    decreases |xs|
  {
    if xs != [] {
      SubstClean(e, xs[0]);
      ReplacedClean(xs[1..], e);
    }
  }

  lemma {:induction false} ReplacedTwice(xs: seq<Cast>, ys: seq<Cast>, e: CExpr)
    ensures Replaced(xs + ys, e) == Replaced(ys, Replaced(xs, e))
    decreases |xs|
  {
    if xs == [] {
      assert xs + ys == ys;
    } else {
      assert (xs + ys)[0] == xs[0] && (xs + ys)[1..] == xs[1..] + ys;
      ReplacedTwice(xs[1..], ys, Subst(e, xs[0], Converted(xs[0])));
    }
  }

  /** Replacement goes through everything that is not itself a cast. */
  lemma {:induction false} ReplacedInside(xs: seq<Cast>, e: CExpr)
    requires !e.CastC?
    ensures match e
            case Num(_) => Replaced(xs, e) == e
            case ToIntC(e1, bits) => Replaced(xs, e) == ToIntC(Replaced(xs, e1), bits)
            case ToPtrC(e1, to) => Replaced(xs, e) == ToPtrC(Replaced(xs, e1), to)
            case SumC(l, r, bits) => Replaced(xs, e) == SumC(Replaced(xs, l), Replaced(xs, r), bits)
    decreases |xs|
  {
    if xs != [] {
      ReplacedInside(xs[1..], Subst(e, xs[0], Converted(xs[0])));
    }
  }

  /** A walk leaves no cast in the expression it walks, although it looks into it only once. */
  lemma {:induction false} WalkCleans(e: CExpr)
    ensures !HasCast(Replaced(Plan(e), e))
    decreases Weight(e)
  {
    match e {
      case Num(_) =>
      case CastC(e1, to) =>
        WalkCleans(e1);
        var xs := Plan(e1);
        assert ([e] + xs)[1..] == xs;
        ReplacedInside(xs, Converted(e));
        ReplacedInside(xs, ToIntC(e1, PtrBits(to)));
      case ToIntC(e1, _) => WalkCleans(e1); ReplacedInside(Plan(e1), e);
      case ToPtrC(e1, _) => WalkCleans(e1); ReplacedInside(Plan(e1), e);
      case SumC(l, r, _) =>
        var xs := Plan(l);
        var r1 := Replaced(xs, r);
        ReplacedWeight(xs, r);
        WalkCleans(l);
        WalkCleans(r1);
        ReplacedInside(xs + Plan(r1), e);
        ReplacedTwice(xs, Plan(r1), l);
        ReplacedTwice(xs, Plan(r1), r);
        ReplacedClean(Plan(r1), Replaced(xs, l));
    }
  }

  lemma {:induction false} ReplacedLegalizes(xs: seq<Cast>, e: CExpr)
    ensures LegalizeC(Replaced(xs, e)) == LegalizeC(e)
    decreases |xs|
  {
    if xs != [] {
      SubstLegalizes(e, xs[0]);
      ReplacedLegalizes(xs[1..], Subst(e, xs[0], Converted(xs[0])));
    }
  }

  /** What a walk makes of the expression it walks is the expression with every cast converted. */
  lemma WalkLegalizes(e: CExpr)
    ensures Replaced(Plan(e), e) == LegalizeC(e)
  {
    WalkCleans(e);
    CleanStays(Replaced(Plan(e), e));
    ReplacedLegalizes(Plan(e), e);
  }
}
