/**
 The expression printer and the constraint key built from it. Equal text means equal expressions, up to the
 type suffix of integer literals, which is not printed.
 */
module Printer {
  import Decimal

  datatype UnaryOp = Neg | Not | BitNot | Addr | AddrMut | Deref

  datatype BinaryOp =
    | Plus | Minus | Multiply | Divide | Modulo | Lt | Gt | Le | Ge | Eq | Ne | Spaceship
    | BitAnd | BitOr | BitXor | Shl | Shr | Comma | And | Or

  datatype LiteralType = Untyped | I8 | I16 | I32 | I64 | U8 | U16 | U32 | U64

  datatype Expr =
    | IntLiteral(value: int, explicitType: LiteralType)
    | BoolLiteral(truth: bool)
    | Identifier(name: string)
    | Unary(unaryOp: UnaryOp, operand: Expr)
    | Binary(binaryOp: BinaryOp, left: Expr, right: Expr)
    | Ternary(condition: Expr, trueExpr: Expr, falseExpr: Expr)
    | Call(callee: string, arguments: seq<Expr>)

  function UnaryText(op: UnaryOp): string {
    match op
    case Neg => "-" case Not => "!" case BitNot => "~" case Addr => "&" case AddrMut => "&mut " case Deref => "*"
  }

  function BinaryText(op: BinaryOp): string {
    match op
    case Plus => "+" case Minus => "-" case Multiply => "*" case Divide => "/" case Modulo => "%"
    case Lt => "<" case Gt => ">" case Le => "<=" case Ge => ">=" case Eq => "==" case Ne => "!="
    case Spaceship => "<=>" case BitAnd => "&" case BitOr => "|" case BitXor => "^"
    case Shl => "<<" case Shr => ">>" case And => "&&" case Or => "||" case Comma => ","
  }

  function BoolText(b: bool): string { if b then "true" else "false" }

  function Print(e: Expr): string {
    match e
    case IntLiteral(value, _) => Decimal.Text(value)
    case BoolLiteral(truth) => BoolText(truth)
    case Identifier(name) => name
    case Unary(op, operand) => "(" + UnaryText(op) + Print(operand) + ")"
    case Binary(op, left, right) => "(" + Print(left) + " " + BinaryText(op) + " " + Print(right) + ")"
    case Ternary(c, t, f) => "(" + Print(c) + " ? " + Print(t) + " : " + Print(f) + ")"
    case Call(name, arguments) => name + "(" + PrintArguments(arguments) + ")"
  }

  function PrintArguments(arguments: seq<Expr>): string {
    if arguments == [] then ""
    else if |arguments| == 1 then Print(arguments[0])
    else PrintArguments(arguments[..|arguments| - 1]) + ", " + Print(arguments[|arguments| - 1])
  }

  method ToString(e: Expr) returns (s: string)
    ensures s == Print(e)
    decreases e
  {
    match e {
      case IntLiteral(value, _) => s := Decimal.Text(value);
      case BoolLiteral(truth) => s := BoolText(truth);
      case Identifier(name) => s := name;
      case Unary(op, operand) =>
        var inner := ToString(operand);
        s := "(" + UnaryText(op) + inner + ")";
      case Binary(op, left, right) =>
        var l := ToString(left);
        var r := ToString(right);
        s := "(" + l + " " + BinaryText(op) + " " + r + ")";
      case Ternary(condition, trueExpr, falseExpr) =>
        var c := ToString(condition);
        var t := ToString(trueExpr);
        var f := ToString(falseExpr);
        s := "(" + c + " ? " + t + " : " + f + ")";
      case Call(name, arguments) =>
        s := name + "(";
        for i := 0 to |arguments|
          invariant s == name + "(" + PrintArguments(arguments[..i])
        {
          assert arguments[..i + 1][..i] == arguments[..i];
          if i > 0 { s := s + ", "; }
          var a := ToString(arguments[i]);
          s := s + a;
        }
        assert arguments[..|arguments|] == arguments;
        s := s + ")";
    }
  }

  // The fragment: names of any shape the lexer produces, and more.

  predicate NameChar(c: char) { c !in " (),;" }

  predicate IsName(s: string) {
    s != "" && (forall c | c in s :: NameChar(c)) && !Decimal.IsDigit(s[0]) && s[0] !in "-!~&*"
  }

  ghost predicate Readable(e: Expr) {
    match e
    case IntLiteral(_, _) => true
    case BoolLiteral(_) => true
    case Identifier(name) => IsName(name) && name != "true" && name != "false"
    case Unary(_, operand) => Readable(operand)
    case Binary(_, left, right) => Readable(left) && Readable(right)
    case Ternary(c, t, f) => Readable(c) && Readable(t) && Readable(f)
    case Call(name, arguments) => IsName(name) && forall a :: a in arguments ==> Readable(a)
  }

  /** The expression without the literal suffixes, which the text does not show. */
  function Erase(e: Expr): Expr {
    match e
    case IntLiteral(value, _) => IntLiteral(value, Untyped)
    case BoolLiteral(_) => e
    case Identifier(_) => e
    case Unary(op, operand) => Unary(op, Erase(operand))
    case Binary(op, left, right) => Binary(op, Erase(left), Erase(right))
    case Ternary(c, t, f) => Ternary(Erase(c), Erase(t), Erase(f))
    case Call(name, arguments) => Call(name, EraseAll(arguments))
  }

  function EraseAll(list: seq<Expr>): (r: seq<Expr>)
    ensures |r| == |list|
  {
    if list == [] then [] else [Erase(list[0])] + EraseAll(list[1..])
  }

  // The same text with what follows it, built from the front.

  ghost function Emit(e: Expr, k: string): string {
    match e
    case IntLiteral(value, _) => Decimal.Text(value) + k
    case BoolLiteral(truth) => BoolText(truth) + k
    case Identifier(name) => name + k
    case Unary(op, operand) => "(" + (UnaryText(op) + Emit(operand, ")" + k))
    case Binary(op, left, right) => "(" + Emit(left, " " + (BinaryText(op) + (" " + Emit(right, ")" + k))))
    case Ternary(c, t, f) => "(" + Emit(c, " " + ("?" + (" " + Emit(t, " : " + Emit(f, ")" + k)))))
    case Call(name, arguments) => name + ("(" + EmitArguments(arguments, ")" + k))
  }

  ghost function EmitArguments(list: seq<Expr>, k: string): string {
    if list == [] then k else Emit(list[0], EmitMore(list[1..], k))
  }

  /** Further arguments, each behind its separator. */
  ghost function EmitMore(list: seq<Expr>, k: string): string {
    if list == [] then k else ", " + Emit(list[0], EmitMore(list[1..], k))
  }

  lemma {:induction false} EmitIsPrint(e: Expr, k: string)
    ensures Emit(e, k) == Print(e) + k
    decreases e, 1
  {
    match e
    case IntLiteral(_, _) =>
    case BoolLiteral(_) =>
    case Identifier(_) =>
    case Unary(op, operand) =>
      EmitIsPrint(operand, ")" + k);
      UnaryRegrouped(UnaryText(op), Print(operand), k);
    case Binary(op, left, right) =>
      EmitIsPrint(right, ")" + k);
      EmitIsPrint(left, " " + (BinaryText(op) + (" " + Emit(right, ")" + k))));
      BinaryRegrouped(Print(left), BinaryText(op), Print(right), k);
    case Ternary(c, t, f) =>
      EmitIsPrint(f, ")" + k);
      EmitIsPrint(t, " : " + Emit(f, ")" + k));
      EmitIsPrint(c, " " + ("?" + (" " + Emit(t, " : " + Emit(f, ")" + k)))));
      TernaryRegrouped(Print(c), Print(t), Print(f), k);
    case Call(name, arguments) =>
      EmitArgumentsIsPrint(arguments, ")" + k);
      CallRegrouped(name, PrintArguments(arguments), k);
  }

  lemma UnaryRegrouped(op: string, a: string, k: string)
    ensures "(" + (op + (a + (")" + k))) == "(" + op + a + ")" + k
  {
  }

  lemma CallRegrouped(name: string, arguments: string, k: string)
    ensures name + ("(" + (arguments + (")" + k))) == name + "(" + arguments + ")" + k
  {
  }

  lemma ArgumentsRegrouped(front: string, last: string, k: string)
    ensures front + (", " + (last + k)) == front + ", " + last + k
  {
  }

  lemma BinaryRegrouped(a: string, op: string, b: string, k: string)
    ensures "(" + (a + (" " + (op + (" " + (b + (")" + k)))))) == "(" + a + " " + op + " " + b + ")" + k
  {
  }

  lemma TernaryRegrouped(c: string, t: string, f: string, k: string)
    ensures "(" + (c + (" " + ("?" + (" " + (t + (" : " + (f + (")" + k)))))))) ==
            "(" + c + " ? " + t + " : " + f + ")" + k
  {
    var x := t + (" : " + (f + (")" + k)));
    assert " " + ("?" + (" " + x)) == " ? " + x;
  }

  lemma {:induction false} EmitArgumentsIsPrint(list: seq<Expr>, k: string)
    ensures EmitArguments(list, k) == PrintArguments(list) + k
    decreases list, 0
  {
    if |list| == 1 {
      EmitIsPrint(list[0], k);
    } else if |list| > 1 {
      var front, last := list[..|list| - 1], list[|list| - 1];
      EmitIsPrint(last, k);
      EmitArgumentsIsPrint(front, ", " + Emit(last, k));
      assert list[1..] == front[1..] + [last];
      EmitMoreSplits(front[1..], last, k);
      ArgumentsRegrouped(PrintArguments(front), Print(last), k);
    }
  }

  lemma {:induction false} EmitMoreSplits(front: seq<Expr>, last: Expr, k: string)
    ensures EmitMore(front + [last], k) == EmitMore(front, ", " + Emit(last, k))
  {
    if front == [] {
      assert [last][1..] == [];
    } else {
      EmitMoreSplits(front[1..], last, k);
      assert (front + [last])[1..] == front[1..] + [last];
    }
  }

  // Unique readability.

  /** What may follow an expression inside another one. */
  ghost predicate Stops(k: string) { k == "" || k[0] in " )," }

  ghost function Size(e: Expr): nat {
    match e
    case Unary(_, operand) => 2 + Size(operand)
    case Binary(_, left, right) => 2 + Size(left) + Size(right)
    case Ternary(c, t, f) => 2 + Size(c) + Size(t) + Size(f)
    case Call(_, arguments) => 2 + SizeAll(arguments)
    case _ => 1
  }

  ghost function SizeAll(list: seq<Expr>): nat {
    if list == [] then 0 else 1 + Size(list[0]) + SizeAll(list[1..])
  }

  ghost predicate Bracketed(e: Expr) { e.Unary? || e.Binary? || e.Ternary? }

  /** The leading word of an expression without brackets. */
  ghost function Word(e: Expr): string
    requires !Bracketed(e)
  {
    match e
    case IntLiteral(value, _) => Decimal.Text(value)
    case BoolLiteral(truth) => BoolText(truth)
    case Identifier(name) => name
    case Call(name, _) => name
  }

  ghost function AfterWord(e: Expr, k: string): string
    requires !Bracketed(e)
  {
    if e.Call? then "(" + EmitArguments(e.arguments, ")" + k) else k
  }

  lemma NumberWord(n: int)
    ensures Decimal.Text(n) != "" && Decimal.All(Decimal.Text(n), NameChar)
    ensures Decimal.Text(n)[0] == '-' || Decimal.IsDigit(Decimal.Text(n)[0])
    ensures Decimal.Text(n)[0] == '-' <==> n < 0
  {
    Decimal.TextFacts(n);
  }

  lemma BoolWord(truth: bool)
    ensures BoolText(truth) != "" && Decimal.All(BoolText(truth), NameChar)
    ensures BoolText(truth)[0] in "tf"
  {
  }

  lemma AfterWordFacts(e: Expr, k: string)
    requires !Bracketed(e) && Stops(k)
    ensures Emit(e, k) == Word(e) + AfterWord(e, k)
    ensures Decimal.Outside(AfterWord(e, k), NameChar)
  {
    if e.Call? { assert AfterWord(e, k)[0] == '('; }
  }

  lemma WordFacts(e: Expr, k: string)
    requires Readable(e) && !Bracketed(e) && Stops(k)
    ensures Emit(e, k) == Word(e) + AfterWord(e, k)
    ensures Word(e) != "" && Decimal.All(Word(e), NameChar) && Decimal.Outside(AfterWord(e, k), NameChar)
    ensures Word(e)[0] !in "!~&*"
    ensures e.IntLiteral? <==> Word(e)[0] == '-' || Decimal.IsDigit(Word(e)[0])
    ensures Word(e)[0] == '-' <==> e.IntLiteral? && e.value < 0
  {
    AfterWordFacts(e, k);
    match e
    case IntLiteral(value, _) => NumberWord(value);
    case BoolLiteral(truth) => BoolWord(truth);
    case Identifier(_) =>
    case Call(_, _) =>
  }

  lemma FirstChar(e: Expr, k: string)
    requires Readable(e) && Stops(k)
    ensures Emit(e, k) != ""
    ensures Emit(e, k)[0] == '(' <==> Bracketed(e)
    ensures Emit(e, k)[0] !in "!~&* ),"
    ensures Emit(e, k)[0] == '-' <==> e.IntLiteral? && e.value < 0
  {
    if !Bracketed(e) { WordFacts(e, k); }
  }

  /** Two texts with a common front have a common back. */
  lemma Cancel(front: string, a: string, b: string)
    requires front + a == front + b
    ensures a == b
  {
    assert a == (front + a)[|front|..];
    assert b == (front + b)[|front|..];
  }

  ghost predicate Token(s: string) { forall c :: c in s ==> c != ' ' }

  /** A word and the blank behind it are determined by the text. */
  lemma TokenUnique(s: string, a: string, t: string, b: string)
    requires Token(s) && Token(t)
    requires s + (" " + a) == t + (" " + b)
    ensures s == t && a == b
  {
    var blankFree := (c: char) => c != ' ';
    Decimal.SplitUnique(blankFree, s, " " + a, t, " " + b);
    Cancel(" ", a, b);
  }

  lemma BinaryTextFacts(op: BinaryOp, other: BinaryOp)
    ensures Token(BinaryText(op)) && BinaryText(op) != "?"
    ensures BinaryText(op) == BinaryText(other) ==> op == other
  {
    var s, t := BinaryText(op), BinaryText(other);
    assert s == t ==> |s| == |t| && s[0] == t[0] && s[|s| - 1] == t[|t| - 1];
  }

  /** What stands between the first operand of an infix expression and the rest: the operator, or `?`. */
  ghost function Connective(e: Expr): string
    requires e.Binary? || e.Ternary?
  {
    if e.Binary? then BinaryText(e.binaryOp) else "?"
  }

  ghost function First(e: Expr): Expr
    requires e.Binary? || e.Ternary?
  {
    if e.Binary? then e.left else e.condition
  }

  ghost function Later(e: Expr, k: string): string
    requires e.Binary? || e.Ternary?
  {
    if e.Binary? then Emit(e.right, ")" + k) else Emit(e.trueExpr, " : " + Emit(e.falseExpr, ")" + k))
  }

  lemma InfixEmit(e: Expr, k: string)
    requires e.Binary? || e.Ternary?
    ensures Emit(e, k) == "(" + Emit(First(e), " " + (Connective(e) + (" " + Later(e, k))))
    ensures Token(Connective(e))
    ensures Stops(" " + (Connective(e) + (" " + Later(e, k))))
  {
    if e.Binary? { BinaryTextFacts(e.binaryOp, e.binaryOp); }
  }

  /**
   The key of the whole file: an expression and what follows it can be told apart in their joint text.
   By induction on the size of the two expressions.
   */
  lemma {:induction false} ReadsBack(a: Expr, k: string, b: Expr, l: string)
    requires Readable(a) && Readable(b) && Stops(k) && Stops(l)
    requires Emit(a, k) == Emit(b, l)
    ensures Erase(a) == Erase(b) && k == l
    decreases Size(a) + Size(b), 1
  {
    FirstChar(a, k);
    FirstChar(b, l);
    if !Bracketed(a) {
      WordsReadBack(a, k, b, l);
    } else if a.Unary? && b.Unary? {
      UnariesReadBack(a, k, b, l);
    } else if a.Unary? {
      UnaryIsNotInfix(a, k, b, l);
    } else if b.Unary? {
      UnaryIsNotInfix(b, l, a, k);
    } else {
      InfixesReadBack(a, k, b, l);
    }
  }

  lemma {:induction false} WordsReadBack(a: Expr, k: string, b: Expr, l: string)
    requires Readable(a) && Readable(b) && Stops(k) && Stops(l) && !Bracketed(a) && !Bracketed(b)
    requires Emit(a, k) == Emit(b, l)
    ensures Erase(a) == Erase(b) && k == l
    decreases Size(a) + Size(b), 0
  {
    WordFacts(a, k);
    WordFacts(b, l);
    Decimal.SplitUnique(NameChar, Word(a), AfterWord(a, k), Word(b), AfterWord(b, l));
    if a.Call? && b.Call? {
      Cancel("(", EmitArguments(a.arguments, ")" + k), EmitArguments(b.arguments, ")" + l));
      ArgumentsReadBack(a.arguments, k, b.arguments, l);
    } else if a.IntLiteral? {
      Decimal.TextInjective(a.value, b.value);
    }
  }

  lemma {:induction false} UnariesReadBack(a: Expr, k: string, b: Expr, l: string)
    requires Readable(a) && Readable(b) && Stops(k) && Stops(l) && a.Unary? && b.Unary?
    requires Emit(a, k) == Emit(b, l)
    ensures Erase(a) == Erase(b) && k == l
    decreases Size(a) + Size(b), 0
  {
    var x, y := Emit(a.operand, ")" + k), Emit(b.operand, ")" + l);
    var s, t := UnaryText(a.unaryOp), UnaryText(b.unaryOp);
    Cancel("(", s + x, t + y);
    assert (s + x)[0] == s[0] && (t + y)[0] == t[0];
    if a.unaryOp == b.unaryOp {
      Cancel(s, x, y);
      ReadsBack(a.operand, ")" + k, b.operand, ")" + l);
      Cancel(")", k, l);
    } else if a.unaryOp == Addr {
      AddrIsNotAddrMut(a.operand, k, y);
    } else {
      AddrIsNotAddrMut(b.operand, l, x);
    }
  }

  /** `(&` before an operand never reads as `(&mut `. */
  lemma {:induction false} AddrIsNotAddrMut(operand: Expr, k: string, y: string)
    requires Readable(operand)
    ensures "&" + Emit(operand, ")" + k) != "&mut " + y
    decreases Size(operand) + 1, 2
  {
    if "&" + Emit(operand, ")" + k) == "&mut " + y {
      assert "&mut " + y == "&" + ("mut" + (" " + y));
      Cancel("&", Emit(operand, ")" + k), "mut" + (" " + y));
      FirstChar(operand, ")" + k);
      ReadsBack(operand, ")" + k, Identifier("mut"), " " + y);
    }
  }

  lemma NegativeEmit(e: Expr, k: string, digits: string)
    requires e.IntLiteral? && e.value < 0 && digits == Decimal.Text(-e.value)
    ensures Emit(e, k) == "-" + (digits + k)
  {
    Decimal.NegativeText(e.value);
  }

  lemma UnaryFirstChar(op: UnaryOp, x: string)
    ensures UnaryText(op) != "" && (UnaryText(op) + x)[0] == UnaryText(op)[0]
    ensures if op == Neg then UnaryText(op) == "-" else UnaryText(op)[0] in "!~&*"
  {
  }

  /** An operator in front of a text starts an expression only if that is a negative literal. */
  lemma NegatedLiteral(op: UnaryOp, x: string, first: Expr, behind: string) returns (n: nat, digits: string)
    requires Readable(first) && Stops(behind)
    requires UnaryText(op) + x == Emit(first, behind)
    ensures digits == Decimal.Text(n) && x == digits + behind
  {
    UnaryFirstChar(op, x);
    FirstChar(first, behind);
    assert op == Neg;
    n, digits := -first.value, Decimal.Text(-first.value);
    NegativeEmit(first, behind, digits);
    Cancel("-", x, digits + behind);
  }

  /** So an operator and its operand never read as an expression followed by something else. */
  lemma {:induction false} OperatorIsNotOperand(op: UnaryOp, operand: Expr, k: string, first: Expr, behind: string)
    requires Readable(operand) && Readable(first) && Stops(k) && Stops(behind) && k != behind
    ensures UnaryText(op) + Emit(operand, k) != Emit(first, behind)
    decreases Size(operand) + 1, 3
  {
    var x := Emit(operand, k);
    if UnaryText(op) + x == Emit(first, behind) {
      var n, digits := NegatedLiteral(op, x, first, behind);
      LiteralRead(operand, k, n, digits, behind);
    }
  }

  lemma {:induction false} UnaryIsNotInfix(a: Expr, k: string, b: Expr, l: string)
    requires Readable(a) && Readable(b) && Stops(k) && Stops(l) && a.Unary? && (b.Binary? || b.Ternary?)
    ensures Emit(a, k) != Emit(b, l)
    decreases Size(a) + Size(b), 0
  {
    InfixEmit(b, l);
    var behind := " " + (Connective(b) + (" " + Later(b, l)));
    var x, y := UnaryText(a.unaryOp) + Emit(a.operand, ")" + k), Emit(First(b), behind);
    assert behind[0] == ' ' && (")" + k)[0] == ')';
    OperatorIsNotOperand(a.unaryOp, a.operand, ")" + k, First(b), behind);
    if "(" + x == "(" + y { Cancel("(", x, y); }
  }

  /** An operand whose text starts like a literal is that literal. */
  lemma {:induction false} LiteralRead(operand: Expr, k: string, n: nat, digits: string, behind: string)
    requires Readable(operand) && Stops(k) && Stops(behind)
    requires digits == Decimal.Text(n) && Emit(operand, k) == digits + behind
    ensures k == behind
    decreases Size(operand) + 1, 2
  {
    ReadsBack(operand, k, IntLiteral(n, Untyped), behind);
  }

  lemma {:induction false} InfixesReadBack(a: Expr, k: string, b: Expr, l: string)
    requires Readable(a) && Readable(b) && Stops(k) && Stops(l)
    requires (a.Binary? || a.Ternary?) && (b.Binary? || b.Ternary?)
    requires Emit(a, k) == Emit(b, l)
    ensures Erase(a) == Erase(b) && k == l
    decreases Size(a) + Size(b), 0
  {
    InfixEmit(a, k);
    InfixEmit(b, l);
    var s, t := Connective(a) + (" " + Later(a, k)), Connective(b) + (" " + Later(b, l));
    Cancel("(", Emit(First(a), " " + s), Emit(First(b), " " + t));
    ReadsBack(First(a), " " + s, First(b), " " + t);
    Cancel(" ", s, t);
    TokenUnique(Connective(a), Later(a, k), Connective(b), Later(b, l));
    if a.Binary? { BinaryTextFacts(a.binaryOp, if b.Binary? then b.binaryOp else a.binaryOp); }
    if b.Binary? {
      BinaryTextFacts(b.binaryOp, b.binaryOp);
      ReadsBack(a.right, ")" + k, b.right, ")" + l);
      Cancel(")", k, l);
    } else {
      var f, g := Emit(a.falseExpr, ")" + k), Emit(b.falseExpr, ")" + l);
      ReadsBack(a.trueExpr, " : " + f, b.trueExpr, " : " + g);
      Cancel(" : ", f, g);
      ReadsBack(a.falseExpr, ")" + k, b.falseExpr, ")" + l);
      Cancel(")", k, l);
    }
  }

  lemma {:induction false} ArgumentsReadBack(a: seq<Expr>, k: string, b: seq<Expr>, l: string)
    requires (forall e :: e in a ==> Readable(e)) && (forall e :: e in b ==> Readable(e))
    requires EmitArguments(a, ")" + k) == EmitArguments(b, ")" + l)
    ensures EraseAll(a) == EraseAll(b) && k == l
    decreases SizeAll(a) + SizeAll(b), 3
  {
    if a == [] && b == [] {
      Cancel(")", k, l);
    } else {
      if a != [] { FirstChar(a[0], EmitMore(a[1..], ")" + k)); }
      if b != [] { FirstChar(b[0], EmitMore(b[1..], ")" + l)); }
      ReadsBack(a[0], EmitMore(a[1..], ")" + k), b[0], EmitMore(b[1..], ")" + l));
      MoreReadBack(a[1..], k, b[1..], l);
    }
  }

  lemma {:induction false} MoreReadBack(a: seq<Expr>, k: string, b: seq<Expr>, l: string)
    requires (forall e :: e in a ==> Readable(e)) && (forall e :: e in b ==> Readable(e))
    requires EmitMore(a, ")" + k) == EmitMore(b, ")" + l)
    ensures EraseAll(a) == EraseAll(b) && k == l
    decreases SizeAll(a) + SizeAll(b), 2
  {
    if a == [] && b == [] {
      Cancel(")", k, l);
    } else {
      assert EmitMore(a, ")" + k)[0] == if a == [] then ')' else ',';
      assert EmitMore(b, ")" + l)[0] == if b == [] then ')' else ',';
      Cancel(", ", Emit(a[0], EmitMore(a[1..], ")" + k)), Emit(b[0], EmitMore(b[1..], ")" + l)));
      ReadsBack(a[0], EmitMore(a[1..], ")" + k), b[0], EmitMore(b[1..], ")" + l));
      MoreReadBack(a[1..], k, b[1..], l);
    }
  }

  lemma {:induction false} ErasedPrint(e: Expr)
    ensures Print(Erase(e)) == Print(e)
    decreases e, 1
  {
    match e
    case Unary(_, operand) => ErasedPrint(operand);
    case Binary(_, left, right) =>
      ErasedPrint(left);
      ErasedPrint(right);
    case Ternary(c, t, f) =>
      ErasedPrint(c);
      ErasedPrint(t);
      ErasedPrint(f);
    case Call(_, arguments) => ErasedArguments(arguments);
    case _ =>
  }

  lemma {:induction false} ErasedArguments(list: seq<Expr>)
    ensures PrintArguments(EraseAll(list)) == PrintArguments(list)
    decreases list, 0
  {
    if |list| > 0 {
      var front, last := list[..|list| - 1], list[|list| - 1];
      EraseSplits(front, last);
      assert list == front + [last];
      ErasedPrint(last);
      ErasedArguments(front);
      assert EraseAll(list)[..|list| - 1] == EraseAll(front);
    }
  }

  lemma {:induction false} EraseSplits(front: seq<Expr>, last: Expr)
    ensures EraseAll(front + [last]) == EraseAll(front) + [Erase(last)]
  {
    if front != [] {
      EraseSplits(front[1..], last);
      assert (front + [last])[1..] == front[1..] + [last];
    }
  }

  /** The suffix really is lost: two different literals with one text. */
  lemma SuffixLost()
    ensures IntLiteral(1, I32) != IntLiteral(1, U8)
    ensures Print(IntLiteral(1, I32)) == Print(IntLiteral(1, U8)) == "1"
  {
    assert Decimal.Digits(1) == "1";
  }

  /** Equal text exactly when the expressions are equal up to literal suffixes. */
  lemma UniquelyReadable(a: Expr, b: Expr)
    requires Readable(a) && Readable(b)
    ensures Print(a) == Print(b) <==> Erase(a) == Erase(b)
  {
    if Print(a) == Print(b) {
      EmitIsPrint(a, "");
      EmitIsPrint(b, "");
      ReadsBack(a, "", b, "");
    }
    if Erase(a) == Erase(b) {
      ErasedPrint(a);
      ErasedPrint(b);
    }
  }
}
