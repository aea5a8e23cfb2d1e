/**
 Constrained functions: the text key that decides whether two constraints are the same, and the syntactic
 subsumption test that orders overloads. A constraint is a disjunction of sets of atoms.
 */
module Concepts {
  import opened Wrappers
  import Decimal
  import opened Printer

  type Atom = string
  type Terms = seq<set<Atom>>

  /** A function definition; bounds are listed in the order of the type parameters' names. */
  datatype Function = Function(
    requiresClause: Option<Expr>,
    bounds: seq<(string, string)>,
    constraintTerms: Terms,
    genericOrigin: Option<Function>)

  // Subsumption.

  /** A set of true atoms makes a disjunction of conjunctions true. */
  ghost predicate Holds(terms: Terms, truth: iset<Atom>) {
    exists term :: term in terms && AllTrue(term, truth)
  }

  ghost predicate AllTrue(term: set<Atom>, truth: iset<Atom>) {
    forall a :: a in term ==> a in truth
  }

  ghost function Exactly(term: set<Atom>): iset<Atom> { iset a | a in term }

  /** Whatever makes `left` true makes `right` true. */
  ghost predicate Entails(left: Terms, right: Terms) {
    forall truth: iset<Atom> :: Holds(left, truth) ==> Holds(right, truth)
  }

  predicate Implied(left: Terms, right: Terms) {
    forall term | term in left :: exists weaker | weaker in right :: weaker <= term
  }

  lemma ImpliedIsEntailed(left: Terms, right: Terms)
    ensures Implied(left, right) <==> Entails(left, right)
  {
    if Implied(left, right) {
      forall truth: iset<Atom> | Holds(left, truth)
        ensures Holds(right, truth)
      {
        var term :| term in left && AllTrue(term, truth);
        var weaker :| weaker in right && weaker <= term;
      }
    }
    if Entails(left, right) {
      forall term | term in left
        ensures exists weaker :: weaker in right && weaker <= term
      {
        assert AllTrue(term, Exactly(term));
        assert Holds(left, Exactly(term));
        var weaker :| weaker in right && AllTrue(weaker, Exactly(term));
      }
    }
  }

  /** The nested loops decide semantic entailment, in both directions. */
  method Implies(left: Terms, right: Terms) returns (r: bool)
    ensures r <==> Entails(left, right)
  {
    ImpliedIsEntailed(left, right);
    for i := 0 to |left|
      invariant forall k :: 0 <= k < i ==> exists weaker :: weaker in right && weaker <= left[k]
    {
      var term, found := left[i], false;
      for j := 0 to |right|
        invariant !found
        invariant forall k :: 0 <= k < j ==> !(right[k] <= term)
      {
        if right[j] <= term {
          found := true;
          break;
        }
      }
      if !found {
        assert term in left;
        return false;
      }
    }
    return true;
  }

  const UNCONSTRAINED: Terms := [{}]

  function EffectiveTerms(f: Function): Terms {
    if f.constraintTerms == [] then UNCONSTRAINED else f.constraintTerms
  }

  /** An ordinary function beats a generic instance; within a tier the strictly stronger constraint wins. */
  predicate MoreConstrained(left: Option<Function>, right: Option<Function>) {
    if left.None? || right.None? then false
    else if left.value.genericOrigin.Some? != right.value.genericOrigin.Some? then left.value.genericOrigin.None?
    else
      && Implied(EffectiveTerms(left.value), EffectiveTerms(right.value))
      && !Implied(EffectiveTerms(right.value), EffectiveTerms(left.value))
  }

  method IsMoreConstrained(left: Option<Function>, right: Option<Function>) returns (r: bool)
    ensures r == MoreConstrained(left, right)
  {
    if left.None? || right.None? { return false; }
    if left.value.genericOrigin.Some? != right.value.genericOrigin.Some? {
      return left.value.genericOrigin.None?;
    }
    var l, m := EffectiveTerms(left.value), EffectiveTerms(right.value);
    ImpliedIsEntailed(l, m);
    ImpliedIsEntailed(m, l);
    r := Implies(l, m);
    if r {
      var back := Implies(m, l);
      r := !back;
    }
  }

  /** Within a tier, `left` wins exactly when its constraint entails the other's and not the other way round. */
  lemma StrictlyStronger(left: Function, right: Function)
    requires left.genericOrigin.Some? == right.genericOrigin.Some?
    ensures MoreConstrained(Some(left), Some(right)) <==>
              && Entails(EffectiveTerms(left), EffectiveTerms(right))
              && exists truth: iset<Atom> :: Holds(EffectiveTerms(right), truth) && !Holds(EffectiveTerms(left), truth)
  {
    ImpliedIsEntailed(EffectiveTerms(left), EffectiveTerms(right));
    ImpliedIsEntailed(EffectiveTerms(right), EffectiveTerms(left));
  }

  /** A strict partial order on all functions, the null pointer included, across both tiers. */
  lemma StrictPartialOrder(a: Option<Function>, b: Option<Function>, c: Option<Function>)
    ensures !MoreConstrained(a, a)
    ensures MoreConstrained(a, b) ==> !MoreConstrained(b, a)
    ensures MoreConstrained(a, b) && MoreConstrained(b, c) ==> MoreConstrained(a, c)
  {
    if a.Some? && b.Some? && c.Some? {
      var x, y, z := EffectiveTerms(a.value), EffectiveTerms(b.value), EffectiveTerms(c.value);
      ImpliedTransitive(x, y, z);
      ImpliedTransitive(y, z, x);
      ImpliedTransitive(z, x, y);
    }
  }

  lemma ImpliedTransitive(x: Terms, y: Terms, z: Terms)
    ensures Implied(x, y) && Implied(y, z) ==> Implied(x, z)
  {
    forall term | Implied(x, y) && Implied(y, z) && term in x
      ensures exists weaker :: weaker in z && weaker <= term
    {
      var middle :| middle in y && middle <= term;
      var weaker :| weaker in z && weaker <= middle;
    }
  }

  // Constraint keys.

  function Origin(f: Function): Function {
    if f.genericOrigin.Some? then f.genericOrigin.value else f
  }

  function ClauseText(f: Function): string {
    if f.requiresClause.Some? then "requires:" + Print(f.requiresClause.value) else ""
  }

  function BoundsText(bounds: seq<(string, string)>): string {
    if bounds == [] then ""
    else ";" + (bounds[0].0 + (":" + (bounds[0].1 + BoundsText(bounds[1..]))))
  }

  function ConstraintKey(f: Function): string {
    ClauseText(Origin(f)) + BoundsText(Origin(f).bounds)
  }

  lemma BoundRegrouped(key: string, param: string, bound: string, rest: string)
    ensures key + (";" + (param + (":" + (bound + rest)))) == key + (";" + param + ":" + bound) + rest
  {
  }

  method ComputeConstraintKey(given: Function) returns (key: string)
    ensures key == ConstraintKey(given)
  {
    var f := given;
    if f.genericOrigin.Some? { f := f.genericOrigin.value; }
    key := "";
    if f.requiresClause.Some? {
      var text := ToString(f.requiresClause.value);
      key := "requires:" + text;
    }
    for i := 0 to |f.bounds|
      invariant key + BoundsText(f.bounds[i..]) == ClauseText(f) + BoundsText(f.bounds)
    {
      assert f.bounds[i..][1..] == f.bounds[i + 1..];
      BoundRegrouped(key, f.bounds[i].0, f.bounds[i].1, BoundsText(f.bounds[i + 1..]));
      key := key + (";" + f.bounds[i].0 + ":" + f.bounds[i].1);
    }
  }

  predicate NotSemicolon(c: char) { c != ';' }
  predicate NotColon(c: char) { c != ':' }

  /** Clauses in the printer's fragment, bounds with names that hold no separator. */
  ghost predicate Keyable(f: Function) {
    && (f.requiresClause.Some? ==> Readable(f.requiresClause.value))
    && forall b :: b in f.bounds ==>
         Decimal.All(b.0, NotColon) && Decimal.All(b.0, NotSemicolon) && Decimal.All(b.1, NotSemicolon)
  }

  /** What the key identifies. */
  ghost function Constraint(f: Function): (Option<Expr>, seq<(string, string)>) {
    (if f.requiresClause.Some? then Some(Erase(f.requiresClause.value)) else None, f.bounds)
  }

  /** Two functions have the same key exactly when their origins carry the same constraint. */
  lemma ConstraintKeyIdentifies(f: Function, g: Function)
    requires Keyable(Origin(f)) && Keyable(Origin(g))
    ensures ConstraintKey(f) == ConstraintKey(g) <==> Constraint(Origin(f)) == Constraint(Origin(g))
  {
    var a, b := Origin(f), Origin(g);
    if a.requiresClause.Some? && b.requiresClause.Some? {
      UniquelyReadable(a.requiresClause.value, b.requiresClause.value);
    }
    if ConstraintKey(f) == ConstraintKey(g) {
      ClauseHasNoSemicolon(a);
      ClauseHasNoSemicolon(b);
      Decimal.SplitUnique(NotSemicolon, ClauseText(a), BoundsText(a.bounds), ClauseText(b), BoundsText(b.bounds));
      BoundsTextInjective(a.bounds, b.bounds);
      if a.requiresClause.Some? && b.requiresClause.Some? {
        Cancel("requires:", Print(a.requiresClause.value), Print(b.requiresClause.value));
      }
    }
  }

  lemma ClauseHasNoSemicolon(f: Function)
    requires Keyable(f)
    ensures Decimal.All(ClauseText(f), NotSemicolon)
  {
    if f.requiresClause.Some? { PrintHasNoSemicolon(f.requiresClause.value); }
  }

  lemma OperatorsHaveNoSemicolon(op: UnaryOp, op': BinaryOp)
    ensures ';' !in UnaryText(op) && ';' !in BinaryText(op')
  {
  }

  lemma InfixHasNoSemicolon(a: string, op: string, b: string)
    requires ';' !in a && ';' !in op && ';' !in b
    ensures ';' !in "(" + a + " " + op + " " + b + ")"
  {
  }

  lemma {:induction false} PrintHasNoSemicolon(e: Expr)
    requires Readable(e)
    ensures ';' !in Print(e)
    decreases e, 1
  {
    match e
    case IntLiteral(value, _) => Decimal.TextFacts(value);
    case BoolLiteral(_) =>
    case Identifier(_) =>
    case Unary(op, operand) =>
      PrintHasNoSemicolon(operand);
      OperatorsHaveNoSemicolon(op, Plus);
    case Binary(op, left, right) =>
      PrintHasNoSemicolon(left);
      PrintHasNoSemicolon(right);
      OperatorsHaveNoSemicolon(Neg, op);
      InfixHasNoSemicolon(Print(left), BinaryText(op), Print(right));
    case Ternary(c, t, f) =>
      PrintHasNoSemicolon(c);
      PrintHasNoSemicolon(t);
      PrintHasNoSemicolon(f);
      TernaryHasNoSemicolon(Print(c), Print(t), Print(f));
    case Call(_, arguments) => ArgumentsHaveNoSemicolon(arguments);
  }

  lemma TernaryHasNoSemicolon(c: string, t: string, f: string)
    requires ';' !in c && ';' !in t && ';' !in f
    ensures ';' !in "(" + c + " ? " + t + " : " + f + ")"
  {
  }

  lemma {:induction false} ArgumentsHaveNoSemicolon(list: seq<Expr>)
    requires forall e :: e in list ==> Readable(e)
    ensures ';' !in PrintArguments(list)
    decreases list, 0
  {
    if list != [] {
      PrintHasNoSemicolon(list[|list| - 1]);
      ArgumentsHaveNoSemicolon(list[..|list| - 1]);
    }
  }

  lemma {:induction false} BoundsTextInjective(a: seq<(string, string)>, b: seq<(string, string)>)
    requires forall x :: x in a || x in b ==> Decimal.All(x.0, NotColon) && Decimal.All(x.1, NotSemicolon)
    requires BoundsText(a) == BoundsText(b)
    ensures a == b
    decreases |a|
  {
    if a != [] {
      assert b != [];
      var s, t := a[0].1 + BoundsText(a[1..]), b[0].1 + BoundsText(b[1..]);
      assert a[0] in a && b[0] in b;
      Cancel(";", a[0].0 + (":" + s), b[0].0 + (":" + t));
      Decimal.SplitUnique(NotColon, a[0].0, ":" + s, b[0].0, ":" + t);
      Cancel(":", s, t);
      Decimal.SplitUnique(NotSemicolon, a[0].1, BoundsText(a[1..]), b[0].1, BoundsText(b[1..]));
      BoundsTextInjective(a[1..], b[1..]);
      assert a == [a[0]] + a[1..] && b == [b[0]] + b[1..];
    }
  }
}
