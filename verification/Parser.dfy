/** The expression part of the SQL parser: a Pratt parser over a token list. */
module Parser {

  /** Only tokens whose text the parser reads carry it; token types it never tells apart are `Other`. */
  datatype Token =
    | Eof
    | IntegerLiteral(text: string) | StringLiteral(text: string) | True | False
    | Identifier(text: string) | Parameter(text: string)
    | Or | And | Not | Is | In | Like | Distinct
    | Equal | NotEqual | Less | LessEqual | Greater | GreaterEqual
    | Plus | Minus | Concat | Star | Slash | Percent
    | LeftParen | RightParen | Comma
    | Other(code: nat)

  datatype Expr =
    | Literal(token: Token)
    | Name(name: string)
    | Param(name: string)
    | Call(name: string, args: seq<Expr>, distinct: bool)
    | Unary(op: Token, operand: Expr)
    | Binary(left: Expr, op: Token, right: Expr)

  const NO_PRECEDENCE := 0
  const ASSIGNMENT := 1
  const UNARY := 8
  const PRIMARY := 10

  function Precedence(t: Token): (p: nat)
    ensures p == NO_PRECEDENCE || ASSIGNMENT < p < UNARY
  {
    match t
    case Or => 2
    case And => 3
    case Equal => 4
    case NotEqual => 4
    case Is => 4
    case In => 4
    case Like => 4
    case Less => 5
    case LessEqual => 5
    case Greater => 5
    case GreaterEqual => 5
    case Plus => 6
    case Minus => 6
    case Concat => 6
    case Star => 7
    case Slash => 7
    case Percent => 7
    case _ => NO_PRECEDENCE
  }

  // ---------- parsing as functions of the remaining tokens ----------

  datatype Parse<+T> = Done(value: T, rest: seq<Token>) | Failed

  function Peek(toks: seq<Token>): (t: Token)
    ensures t != Eof ==> toks != []
  {
    if toks == [] then Eof else toks[0]
  }

  function Expression(p: nat, toks: seq<Token>): (r: Parse<Expr>)
    ensures r.Done? ==> |r.rest| < |toks|
    decreases |toks|, 2
  {
    if Peek(toks) == Eof then Failed
    else
      match Prefix(toks)
      case Failed => Failed
      case Done(left, rest) => Climb(p, left, rest)
  }

  function Climb(p: nat, left: Expr, toks: seq<Token>): (r: Parse<Expr>)
    ensures r.Done? ==> |r.rest| <= |toks|
    decreases |toks|, 0
  {
    var op := Peek(toks);
    if p < Precedence(op) then
      match Expression(Precedence(op), toks[1..])
      case Failed => Failed
      case Done(right, rest) => Climb(p, Binary(left, op, right), rest)
    else
      Done(left, toks)
  }

  function Prefix(toks: seq<Token>): (r: Parse<Expr>)
    requires toks != []
    ensures r.Done? ==> |r.rest| < |toks|
    decreases |toks|, 1
  {
    var t, rest := toks[0], toks[1..];
    match t
    case IntegerLiteral(_) => Done(Literal(t), rest)
    case StringLiteral(_) => Done(Literal(t), rest)
    case True => Done(Literal(t), rest)
    case False => Done(Literal(t), rest)
    case Parameter(text) => Done(Param(text), rest)
    case Identifier(text) => if Peek(rest) == LeftParen then CallTail(text, rest[1..]) else Done(Name(text), rest)
    case Minus => UnaryTail(t, Expression(UNARY, rest))
    case Not => UnaryTail(t, Expression(UNARY, rest))
    case _ => Failed
  }

  function UnaryTail(op: Token, operand: Parse<Expr>): (r: Parse<Expr>)
    ensures r.Done? ==> operand.Done? && r.rest == operand.rest
  {
    if operand.Done? then Done(Unary(op, operand.value), operand.rest) else Failed
  }

  /** The rest of a call, after its opening parenthesis. */
  function CallTail(name: string, toks: seq<Token>): (r: Parse<Expr>)
    ensures r.Done? ==> |r.rest| < |toks|
    decreases |toks|, 4
  {
    var distinct := Peek(toks) == Distinct;
    var inside := if distinct then toks[1..] else toks;
    var args := if Peek(inside) == RightParen then Done([], inside) else Arguments(inside);
    if args.Done? && Peek(args.rest) == RightParen then Done(Call(name, args.value, distinct), args.rest[1..])
    else Failed
  }

  /** A comma-separated list; a star ends it without adding an argument. */
  function Arguments(toks: seq<Token>): (r: Parse<seq<Expr>>)
    ensures r.Done? ==> |r.rest| < |toks|
    decreases |toks|, 3
  {
    if Peek(toks) == Star then Done([], toks[1..])
    else
      match Expression(ASSIGNMENT, toks)
      case Failed => Failed
      case Done(e, rest) =>
        if Peek(rest) != Comma then Done([e], rest)
        else
          match Arguments(rest[1..])
          case Failed => Failed
          case Done(es, after) => Done([e] + es, after)
  }

  // ---------- trees and their tokens ----------

  function Level(e: Expr): (p: nat) {
    if e.Binary? then Precedence(e.op) else PRIMARY
  }

  /** Left children bind at least as tightly as their operator, right children strictly tighter. */
  predicate Proper(e: Expr)
    decreases e
  {
    match e
    case Literal(t) => t.IntegerLiteral? || t.StringLiteral? || t.True? || t.False?
    case Name(_) => true
    case Param(_) => true
    case Call(_, args, _) => AllProper(args)
    case Unary(op, x) => (op == Minus || op == Not) && Proper(x) && Level(x) > UNARY
    case Binary(l, op, r) =>
      Precedence(op) > NO_PRECEDENCE && Proper(l) && Proper(r)
      && Level(l) >= Precedence(op) && Level(r) > Precedence(op)
  }

  predicate AllProper(es: seq<Expr>)
    decreases es
  {
    es == [] || (Proper(es[0]) && AllProper(es[1..]))
  }

  function Tokens(e: Expr): (s: seq<Token>)
    decreases e
  {
    match e
    case Literal(t) => [t]
    case Name(n) => [Identifier(n)]
    case Param(n) => [Parameter(n)]
    case Call(n, args, distinct) =>
      [Identifier(n), LeftParen] + (if distinct then [Distinct] else []) + ArgTokens(args) + [RightParen]
    case Unary(op, x) => [op] + Tokens(x)
    case Binary(l, op, r) => Tokens(l) + [op] + Tokens(r)
  }

  function ArgTokens(es: seq<Expr>): (s: seq<Token>)
    decreases es
  {
    if es == [] then []
    else if |es| == 1 then Tokens(es[0])
    else Tokens(es[0]) + [Comma] + ArgTokens(es[1..])
  }

  /** The tree's last token is a name that an opening parenthesis would turn into a call. */
  predicate EndsInName(e: Expr) {
    match e
    case Name(_) => true
    case Unary(_, x) => EndsInName(x)
    case Binary(_, _, r) => EndsInName(r)
    case _ => false
  }

  ghost predicate Closed(e: Expr, rest: seq<Token>) {
    EndsInName(e) ==> Peek(rest) != LeftParen
  }

  predicate StartsExpression(t: Token) {
    t.IntegerLiteral? || t.StringLiteral? || t.True? || t.False? || t.Identifier? || t.Parameter? || t.Minus? || t.Not?
  }

  lemma {:induction false} FirstToken(e: Expr)
    requires Proper(e)
    ensures Tokens(e) != [] && StartsExpression(Tokens(e)[0])
  {
    if e.Binary? { FirstToken(e.left); }
  }

  // ---------- every proper tree is parsed back ----------

  /** Parsing the tokens of a proper tree reaches the climbing loop with exactly that tree. */
  lemma {:induction false} ParsesToItself(p: nat, e: Expr, rest: seq<Token>)
    requires Proper(e) && p < Level(e) && Precedence(Peek(rest)) <= Level(e) && Closed(e, rest)
    ensures Expression(p, Tokens(e) + rest) == Climb(p, e, rest)
    decreases e, 1
  {
    match e
    case Literal(t) => assert (Tokens(e) + rest)[1..] == rest;
    case Name(n) => assert (Tokens(e) + rest)[1..] == rest;
    case Param(n) => assert (Tokens(e) + rest)[1..] == rest;
    case Unary(op, x) => UnaryParses(p, e, rest);
    case Binary(l, op, r) => BinaryParses(p, e, rest);
    case Call(n, args, distinct) => CallParses(p, e, rest);
  }

  lemma {:induction false} UnaryParses(p: nat, e: Expr, rest: seq<Token>)
    requires e.Unary? && Proper(e) && Closed(e, rest)
    ensures Expression(p, Tokens(e) + rest) == Climb(p, e, rest)
    decreases e, 0
  {
    hide Arguments, CallTail, Precedence, Climb;
    var x := e.operand;
    PrecedenceRange(Peek(rest));
    ParsesToItself(UNARY, x, rest);
    assert (Tokens(e) + rest)[1..] == Tokens(x) + rest;
    UnaryStops(x, rest);
  }

  lemma UnaryStops(x: Expr, rest: seq<Token>)
    ensures Climb(UNARY, x, rest) == Done(x, rest)
  {
    PrecedenceRange(Peek(rest));
  }

  lemma {:induction false} BinaryParses(p: nat, e: Expr, rest: seq<Token>)
    requires e.Binary? && Proper(e) && p < Level(e) && Precedence(Peek(rest)) <= Level(e) && Closed(e, rest)
    ensures Expression(p, Tokens(e) + rest) == Climb(p, e, rest)
    decreases e, 0
  {
    hide Proper, Tokens, Expression;
    var l, op, r := e.left, e.op, e.right;
    BinaryParts(e);
    var after := [op] + (Tokens(r) + rest);
    ParsesToItself(p, l, after);
    assert Tokens(e) + rest == Tokens(l) + after;
    assert after[1..] == Tokens(r) + rest;
    ParsesToItself(Precedence(op), r, rest);
    assert Climb(Precedence(op), r, rest) == Done(r, rest);
  }

  lemma BinaryParts(e: Expr)
    requires e.Binary? && Proper(e)
    ensures Tokens(e) == Tokens(e.left) + [e.op] + Tokens(e.right)
    ensures Proper(e.left) && Proper(e.right) && Level(e.left) >= Precedence(e.op) && Level(e.right) > Precedence(e.op)
    ensures Precedence(e.op) > NO_PRECEDENCE
  {
  }

  lemma {:induction false} CallParses(p: nat, e: Expr, rest: seq<Token>)
    requires e.Call? && Proper(e)
    ensures Expression(p, Tokens(e) + rest) == Climb(p, e, rest)
    decreases e, 0
  {
    hide Proper, CallTail, Climb, ArgTokens;
    var after := [RightParen] + rest;
    var d := if e.distinct then [Distinct] else [];
    var toks := Tokens(e) + rest;
    ProperArguments(e);
    assert toks[1..] == [LeftParen] + (d + (ArgTokens(e.args) + after));
    assert toks[1..][1..] == d + (ArgTokens(e.args) + after);
    CallTailParses(e.name, e.args, e.distinct, rest);
  }

  lemma ProperArguments(e: Expr)
    requires e.Call? && Proper(e)
    ensures AllProper(e.args)
  {
  }

  lemma {:induction false} CallTailParses(name: string, args: seq<Expr>, distinct: bool, rest: seq<Token>)
    requires AllProper(args)
    ensures var d := if distinct then [Distinct] else [];
            CallTail(name, d + (ArgTokens(args) + ([RightParen] + rest))) == Done(Call(name, args, distinct), rest)
    decreases args, 2
  {
    hide Arguments, AllProper;
    var after := [RightParen] + rest;
    assert after[1..] == rest;
    var inside := ArgTokens(args) + after;
    if distinct {
      assert ([Distinct] + inside)[1..] == inside;
    } else {
      assert [] + inside == inside;
    }
    if args == [] {
      assert inside == after;
    } else {
      ArgumentsParse(args, after);
    }
  }

  lemma ClimbStops(e: Expr, rest: seq<Token>)
    requires Peek(rest) == Comma || Peek(rest) == RightParen
    ensures Climb(ASSIGNMENT, e, rest) == Done(e, rest)
  {
  }

  lemma {:induction false} ArgumentsParse(args: seq<Expr>, after: seq<Token>)
    requires args != [] && AllProper(args) && Peek(after) == RightParen
    ensures Arguments(ArgTokens(args) + after) == Done(args, after)
    ensures StartsExpression(Peek(ArgTokens(args) + after))
    decreases args, 1
  {
    hide Expression, Proper, Tokens, Climb, Arguments;
    var e := args[0];
    FirstToken(e);
    LevelAboveAssignment(e);
    if |args| == 1 {
      ParsesToItself(ASSIGNMENT, e, after);
      ClimbStops(e, after);
      ArgumentFirst(Tokens(e) + after, e, after);
      assert args == [e];
    } else {
      var more := ArgTokens(args[1..]) + after;
      ParsesToItself(ASSIGNMENT, e, [Comma] + more);
      assert ArgTokens(args) + after == Tokens(e) + ([Comma] + more);
      ClimbStops(e, [Comma] + more);
      assert ([Comma] + more)[1..] == more;
      ArgumentsParse(args[1..], after);
      ArgumentFirst(Tokens(e) + ([Comma] + more), e, [Comma] + more);
      assert args == [e] + args[1..];
    }
  }

  lemma ArgumentFirst(toks: seq<Token>, e: Expr, rest: seq<Token>)
    requires Peek(toks) != Star && Expression(ASSIGNMENT, toks) == Done(e, rest)
    ensures Peek(rest) != Comma ==> Arguments(toks) == Done([e], rest)
    ensures Peek(rest) == Comma && Arguments(rest[1..]).Done? ==>
              Arguments(toks) == Done([e] + Arguments(rest[1..]).value, Arguments(rest[1..]).rest)
  {
    hide Expression;
  }

  // ---------- every parse is a proper tree ----------

  /** An argument may start right after this token. */
  predicate Opens(t: Token) {
    t == LeftParen || t == Comma || t == Distinct
  }

  /** No star where an argument would start, as in `COUNT(*)`; such a star leaves no trace in the tree. */
  predicate NoBareStar(toks: seq<Token>) {
    forall i :: 0 < i < |toks| && Opens(toks[i - 1]) ==> toks[i] != Star
  }

  lemma PartNoBareStar(a: seq<Token>, b: seq<Token>, c: seq<Token>)
    requires NoBareStar(a + b + c)
    ensures NoBareStar(b)
  {
    var s := a + b + c;
    forall i | 0 < i < |b| && Opens(b[i - 1])
      ensures b[i] != Star
    {
      var j := |a| + i;
      assert s[j] == b[i] && s[j - 1] == b[i - 1];
    }
  }

  /** `toks` is `used`, which spells `written` unless it has a bare star, then `rest`. */
  ghost predicate Reads(toks: seq<Token>, used: seq<Token>, written: seq<Token>, rest: seq<Token>) {
    toks == used + rest && (NoBareStar(used) ==> used == written)
  }

  /** What a successful parse at precedence `p` guarantees about its tree and where it stopped. */
  ghost predicate Parsed(p: nat, e: Expr, rest: seq<Token>) {
    Proper(e) && Level(e) > p && Precedence(Peek(rest)) <= p && Closed(e, rest)
  }

  lemma {:induction false} ExpressionSound(p: nat, toks: seq<Token>) returns (used: seq<Token>)
    requires p <= UNARY && Expression(p, toks).Done?
    ensures var r := Expression(p, toks); Parsed(p, r.value, r.rest) && Reads(toks, used, Tokens(r.value), r.rest)
    decreases |toks|, 2
  {
    hide Prefix, Climb, Proper, Tokens, NoBareStar;
    var left := Prefix(toks);
    var first := PrefixSound(toks);
    var more := ClimbSound(p, left.value, left.rest);
    var r := Climb(p, left.value, left.rest);
    used := first + more;
    assert toks == used + r.rest;
    if NoBareStar(used) {
      assert [] + first + more == used && first + more + [] == used;
      PartNoBareStar([], first, more);
      PartNoBareStar(first, more, []);
    }
  }

  lemma {:induction false} ClimbSound(p: nat, left: Expr, toks: seq<Token>) returns (used: seq<Token>)
    requires p <= UNARY && Climb(p, left, toks).Done?
    requires Proper(left) && Level(left) > p && Precedence(Peek(toks)) <= Level(left) && Closed(left, toks)
    ensures var r := Climb(p, left, toks);
            Parsed(p, r.value, r.rest) && toks == used + r.rest
            && (NoBareStar(used) ==> Tokens(left) + used == Tokens(r.value))
    decreases |toks|, 0
  {
    hide Expression, NoBareStar, Proper, Tokens, Precedence;
    var op := Peek(toks);
    PrecedenceRange(op);
    if p < Precedence(op) {
      var right := Expression(Precedence(op), toks[1..]);
      var first := ExpressionSound(Precedence(op), toks[1..]);
      var e := Binary(left, op, right.value);
      BinaryProper(e, right.rest);
      var more := ClimbSound(p, e, right.rest);
      used := [op] + first + more;
      Spliced(toks, op, first, more, right.rest, Climb(p, e, right.rest).rest);
      if NoBareStar(used) {
        assert ([op] + first) + more + [] == used;
        PartNoBareStar([op], first, more);
        PartNoBareStar([op] + first, more, []);
        assert Tokens(left) + used == Tokens(left) + [op] + first + more;
      }
    } else {
      used := [];
      assert Tokens(left) + [] == Tokens(left);
    }
  }

  lemma Spliced(toks: seq<Token>, t: Token, first: seq<Token>, more: seq<Token>, mid: seq<Token>, rest: seq<Token>)
    requires toks != [] && toks[0] == t && toks[1..] == first + mid && mid == more + rest
    ensures toks == [t] + first + more + rest
  {
  }

  lemma PrecedenceRange(t: Token)
    ensures if Precedence(t) == NO_PRECEDENCE then !t.Minus? else t != Eof && ASSIGNMENT < Precedence(t) < UNARY
  {
  }

  lemma BinaryProper(e: Expr, rest: seq<Token>)
    requires e.Binary? && Proper(e.left) && Level(e.left) >= Precedence(e.op) > NO_PRECEDENCE
    requires Parsed(Precedence(e.op), e.right, rest)
    ensures Proper(e) && Closed(e, rest) && Tokens(e) == Tokens(e.left) + [e.op] + Tokens(e.right)
  {
  }

  lemma {:induction false} PrefixSound(toks: seq<Token>) returns (used: seq<Token>)
    requires toks != [] && Prefix(toks).Done?
    ensures var r := Prefix(toks);
            Proper(r.value) && Level(r.value) > UNARY && Closed(r.value, r.rest)
            && Reads(toks, used, Tokens(r.value), r.rest)
    decreases |toks|, 1
  {
    hide NoBareStar, Expression, CallTail, Proper, Tokens, Precedence;
    var t, rest := toks[0], toks[1..];
    assert toks == [t] + rest;
    if t == Minus || t == Not {
      var x := Expression(UNARY, rest);
      var more := ExpressionSound(UNARY, rest);
      used := [t] + more;
      UnaryProper(t, x.value, x.rest);
      assert toks == used + x.rest;
      if NoBareStar(used) {
        assert used == [t] + more + [];
        PartNoBareStar([t], more, []);
      }
    } else if t.Identifier? && Peek(rest) == LeftParen {
      var more := CallTailSound(t.text, rest[1..]);
      var r := CallTail(t.text, rest[1..]);
      used := [t, LeftParen] + more;
      assert toks == [t, LeftParen] + rest[1..];
      assert toks == used + r.rest;
      if NoBareStar(used) {
        assert used == [t] + ([LeftParen] + more) + [];
        PartNoBareStar([t], [LeftParen] + more, []);
      }
    } else {
      used := [t];
      OneTokenProper(toks);
    }
  }

  lemma UnaryProper(op: Token, x: Expr, rest: seq<Token>)
    requires (op == Minus || op == Not) && Parsed(UNARY, x, rest)
    ensures var e := Unary(op, x); Proper(e) && Closed(e, rest) && Tokens(e) == [op] + Tokens(x)
  {
  }

  lemma OneTokenProper(toks: seq<Token>)
    requires toks != [] && StartsExpression(toks[0]) && toks[0] != Minus && toks[0] != Not
    requires toks[0].Identifier? ==> Peek(toks[1..]) != LeftParen
    ensures var r := Prefix(toks);
            r.Done? && Proper(r.value) && Level(r.value) > UNARY && Closed(r.value, r.rest)
            && Tokens(r.value) == [toks[0]] && r.rest == toks[1..]
  {
    hide Expression, CallTail;
  }

  lemma {:induction false} CallTailSound(name: string, toks: seq<Token>) returns (used: seq<Token>)
    requires CallTail(name, toks).Done?
    ensures var r := CallTail(name, toks);
            r.value.Call? && Proper(r.value) && toks == used + r.rest
            && (NoBareStar([LeftParen] + used) ==> [Identifier(name), LeftParen] + used == Tokens(r.value))
    decreases |toks|, 4
  {
    hide NoBareStar, Arguments, Expression, Tokens, ArgTokens;
    var distinct := Peek(toks) == Distinct;
    var d := if distinct then [Distinct] else [];
    var inside := if distinct then toks[1..] else toks;
    assert toks == d + inside;
    var middle: seq<Token> := [];
    var args := if Peek(inside) == RightParen then Done([], inside) else Arguments(inside);
    if Peek(inside) != RightParen {
      middle := ArgumentsSound(inside);
    }
    used := d + middle + [RightParen];
    assert inside == middle + args.rest;
    Bracketed(toks, d, inside, middle, args.rest);
    NoArguments();
    if NoBareStar([LeftParen] + used) {
      OpenedPart(d, middle);
      CallWritten(name, args.value, distinct, middle);
    }
  }

  lemma Bracketed(toks: seq<Token>, d: seq<Token>, inside: seq<Token>, middle: seq<Token>, rest: seq<Token>)
    requires toks == d + inside && inside == middle + rest && Peek(rest) == RightParen
    ensures toks == d + middle + [RightParen] + rest[1..]
  {
  }

  lemma NoArguments()
    ensures ArgTokens([]) == []
  {
  }

  /** After the parenthesis or the keyword, the arguments are preceded by a token that opens them. */
  lemma OpenedPart(d: seq<Token>, middle: seq<Token>)
    requires (d == [] || d == [Distinct]) && NoBareStar([LeftParen] + (d + middle + [RightParen]))
    ensures NoBareStar([Comma] + middle)
  {
    var s, q := [LeftParen] + (d + middle + [RightParen]), [Comma] + middle;
    forall i | 0 < i < |q| && Opens(q[i - 1])
      ensures q[i] != Star
    {
      var j := |d| + i;
      assert s[j] == q[i] && Opens(s[j - 1]);
    }
  }

  lemma CallWritten(name: string, args: seq<Expr>, distinct: bool, middle: seq<Token>)
    requires middle == ArgTokens(args)
    ensures var d := if distinct then [Distinct] else [];
            [Identifier(name), LeftParen] + (d + middle + [RightParen]) == Tokens(Call(name, args, distinct))
  {
    hide ArgTokens;
  }

  lemma {:induction false} ArgumentsSound(toks: seq<Token>) returns (used: seq<Token>)
    requires Arguments(toks).Done?
    ensures var r := Arguments(toks);
            AllProper(r.value) && toks == used + r.rest
            && (NoBareStar([Comma] + used) ==> r.value != [] && used == ArgTokens(r.value))
    decreases |toks|, 3
  {
    hide Expression, Proper, Tokens, NoBareStar;
    if Peek(toks) == Star {
      used := [Star];
      assert toks == [Star] + toks[1..];
      BareStar();
    } else {
      var first := Expression(ASSIGNMENT, toks);
      var head := ExpressionSound(ASSIGNMENT, toks);
      used := head;
      if Peek(first.rest) == Comma {
        var more := ArgumentsSound(first.rest[1..]);
        var es := Arguments(first.rest[1..]).value;
        assert ([first.value] + es)[1..] == es;
        used := head + [Comma] + more;
        Listed(toks, head, first.rest, more, Arguments(first.rest[1..]).rest);
        ArgumentParts(head, more);
      } else {
        ArgumentParts(head, []);
      }
    }
  }

  lemma Listed(toks: seq<Token>, head: seq<Token>, mid: seq<Token>, more: seq<Token>, rest: seq<Token>)
    requires toks == head + mid && Peek(mid) == Comma && mid[1..] == more + rest
    ensures toks == head + [Comma] + more + rest
  {
  }

  lemma BareStar()
    ensures !NoBareStar([Comma] + [Star])
  {
    var s := [Comma] + [Star];
    assert Opens(s[1 - 1]) && s[1] == Star;
  }

  lemma ArgumentParts(head: seq<Token>, more: seq<Token>)
    ensures NoBareStar([Comma] + (head + [Comma] + more)) ==> NoBareStar(head) && NoBareStar([Comma] + more)
    ensures NoBareStar([Comma] + head) ==> NoBareStar(head)
  {
    var s := [Comma] + (head + [Comma] + more);
    assert s == [Comma] + head + ([Comma] + more) && s == ([Comma] + head) + ([Comma] + more) + [];
    if NoBareStar(s) {
      PartNoBareStar([Comma], head, [Comma] + more);
      PartNoBareStar([Comma] + head, [Comma] + more, []);
    }
    assert [Comma] + head == [Comma] + head + [];
    if NoBareStar([Comma] + head) { PartNoBareStar([Comma], head, []); }
  }

  // ---------- trees are written without bare stars ----------

  predicate EndsClosed(toks: seq<Token>) {
    toks != [] && !Opens(toks[|toks| - 1])
  }

  lemma JoinNoBareStar(a: seq<Token>, b: seq<Token>)
    requires NoBareStar(a) && NoBareStar(b) && b != [] && (EndsClosed(a) || b[0] != Star || a == [])
    ensures NoBareStar(a + b)
  {
    var s := a + b;
    forall i | 0 < i < |s| && Opens(s[i - 1])
      ensures s[i] != Star
    {
      if i < |a| {
        assert s[i] == a[i] && s[i - 1] == a[i - 1];
      } else if i > |a| {
        assert s[i] == b[i - |a|] && s[i - 1] == b[i - |a| - 1];
      }
    }
  }

  lemma {:induction false} TokensNoBareStar(e: Expr)
    requires Proper(e)
    ensures NoBareStar(Tokens(e)) && EndsClosed(Tokens(e))
    decreases e, 1
  {
    hide NoBareStar, Precedence;
    match e
    case Unary(op, x) => UnaryNoBareStar(e);
    case Binary(l, op, r) => BinaryNoBareStar(e);
    case Call(n, args, distinct) => CallNoBareStar(e);
    case _ => OneNoBareStar(Tokens(e)[0]);
  }

  lemma {:induction false} UnaryNoBareStar(e: Expr)
    requires e.Unary? && Proper(e)
    ensures NoBareStar(Tokens(e)) && EndsClosed(Tokens(e))
    decreases e, 0
  {
    hide NoBareStar, Precedence;
    TokensNoBareStar(e.operand);
    OneNoBareStar(e.op);
    JoinNoBareStar([e.op], Tokens(e.operand));
  }

  lemma {:induction false} BinaryNoBareStar(e: Expr)
    requires e.Binary? && Proper(e)
    ensures NoBareStar(Tokens(e)) && EndsClosed(Tokens(e))
    decreases e, 0
  {
    hide NoBareStar, Precedence, Tokens, Proper;
    var l, op, r := e.left, e.op, e.right;
    BinaryParts(e);
    TokensNoBareStar(l);
    TokensNoBareStar(r);
    FirstToken(r);
    OneNoBareStar(op);
    OperatorCloses(op);
    JoinNoBareStar(Tokens(l), [op]);
    JoinNoBareStar(Tokens(l) + [op], Tokens(r));
  }

  lemma OneNoBareStar(t: Token)
    ensures NoBareStar([t])
  {
  }

  lemma OperatorCloses(op: Token)
    requires Precedence(op) > NO_PRECEDENCE
    ensures !Opens(op)
  {
  }

  lemma {:induction false} CallNoBareStar(e: Expr)
    requires e.Call? && Proper(e)
    ensures NoBareStar(Tokens(e)) && EndsClosed(Tokens(e))
    decreases e, 0
  {
    hide ArgTokens, NoBareStar, AllProper;
    var front := [Identifier(e.name), LeftParen] + if e.distinct then [Distinct] else [];
    FrontNoBareStar(e.name, e.distinct);
    var inside := front;
    if e.args == [] {
      NoArguments();
      assert front + [] == front;
    } else {
      ArgTokensNoBareStar(e.args);
      JoinNoBareStar(front, ArgTokens(e.args));
      inside := front + ArgTokens(e.args);
    }
    CloseNoBareStar(inside);
    assert Tokens(e) == inside + [RightParen];
  }

  lemma FrontNoBareStar(name: string, distinct: bool)
    ensures NoBareStar([Identifier(name), LeftParen] + if distinct then [Distinct] else [])
  {
  }

  lemma CloseNoBareStar(inside: seq<Token>)
    requires NoBareStar(inside)
    ensures NoBareStar(inside + [RightParen]) && EndsClosed(inside + [RightParen])
  {
    JoinNoBareStar(inside, [RightParen]);
  }

  lemma {:induction false} ArgTokensNoBareStar(es: seq<Expr>)
    requires es != [] && AllProper(es)
    ensures NoBareStar(ArgTokens(es)) && ArgTokens(es) != [] && ArgTokens(es)[0] != Star
    decreases es
  {
    hide Tokens, Proper, NoBareStar;
    TokensNoBareStar(es[0]);
    FirstToken(es[0]);
    if |es| > 1 {
      ArgTokensNoBareStar(es[1..]);
      OneNoBareStar(Comma);
      JoinNoBareStar(Tokens(es[0]), [Comma]);
      JoinNoBareStar(Tokens(es[0]) + [Comma], ArgTokens(es[1..]));
    }
  }

  /** A parse consumed exactly the tokens of its tree if and only if it consumed no bare star. */
  lemma ConsumedExact(p: nat, toks: seq<Token>)
    requires p <= UNARY && Expression(p, toks).Done?
    ensures var r := Expression(p, toks);
            var consumed := toks[..|toks| - |r.rest|];
            toks == consumed + r.rest && (toks == Tokens(r.value) + r.rest <==> NoBareStar(consumed))
  {
    hide Expression, Tokens, Proper, NoBareStar;
    var used := ExpressionSound(p, toks);
    var r := Expression(p, toks);
    assert toks[..|toks| - |r.rest|] == used;
    TokensNoBareStar(r.value);
    if toks == Tokens(r.value) + r.rest {
      assert toks[..|toks| - |r.rest|] == Tokens(r.value);
    }
  }

  /**
   * The tokens of a proper tree, followed by anything, parse at precedence `p`
   * to exactly that tree and those tokens if and only if what follows does not continue it.
   */
  lemma TreeReadBack(p: nat, e: Expr, rest: seq<Token>)
    requires Proper(e) && p < Level(e) && p <= UNARY
    ensures Expression(p, Tokens(e) + rest) == Done(e, rest) <==>
            Precedence(Peek(rest)) <= p && Closed(e, rest)
  {
    hide Expression, Tokens, Proper;
    if Precedence(Peek(rest)) <= p && Closed(e, rest) {
      ParsesToItself(p, e, rest);
    }
    if Expression(p, Tokens(e) + rest) == Done(e, rest) {
      var used := ExpressionSound(p, Tokens(e) + rest);
    }
  }

  /** No token list is the writing of two different proper trees. */
  lemma Unambiguous(a: Expr, b: Expr)
    requires Proper(a) && Proper(b) && Tokens(a) == Tokens(b)
    ensures a == b
  {
    hide Expression, Tokens, Proper;
    LevelAboveAssignment(a);
    LevelAboveAssignment(b);
    TreeReadBack(ASSIGNMENT, a, [Eof]);
    TreeReadBack(ASSIGNMENT, b, [Eof]);
  }

  /**
   * A parse is the proper tree written at the front of the tokens: one that consumed no bare star always is,
   * and whatever proper tree is written there, followed by nothing that continues it, is the parse.
   */
  lemma ParseIsTheTree(toks: seq<Token>, e: Expr, rest: seq<Token>)
    ensures (Expression(ASSIGNMENT, toks) == Done(e, rest) && NoBareStar(toks[..|toks| - |rest|])) <==>
            (Proper(e) && toks == Tokens(e) + rest && Precedence(Peek(rest)) <= ASSIGNMENT && Closed(e, rest))
  {
    hide Expression, Tokens, Proper, NoBareStar;
    if Expression(ASSIGNMENT, toks) == Done(e, rest) {
      var used := ExpressionSound(ASSIGNMENT, toks);
      ConsumedExact(ASSIGNMENT, toks);
    }
    if Proper(e) && toks == Tokens(e) + rest && Precedence(Peek(rest)) <= ASSIGNMENT && Closed(e, rest) {
      LevelAboveAssignment(e);
      TreeReadBack(ASSIGNMENT, e, rest);
      ConsumedExact(ASSIGNMENT, toks);
    }
  }

  lemma LevelAboveAssignment(e: Expr)
    requires Proper(e)
    ensures Level(e) > ASSIGNMENT
  {
  }

  /** A bare star is consumed and forgotten: `f(*)` parses to the tree of `f()`. */
  lemma BareStarForgotten(f: string, rest: seq<Token>)
    ensures var toks := [Identifier(f), LeftParen, Star, RightParen];
            Prefix(toks + rest) == Done(Call(f, [], false), rest)
            && Tokens(Call(f, [], false)) != toks
  {
    var toks := [Identifier(f), LeftParen, Star, RightParen] + rest;
    assert toks[1..][0] == LeftParen;
    assert toks[1..][1..] == [Star, RightParen] + rest;
    var inside := [Star, RightParen] + rest;
    assert inside[1..] == [RightParen] + rest;
    assert ([RightParen] + rest)[1..] == rest;
    assert Arguments(inside) == Done([], inside[1..]);
    assert |Tokens(Call(f, [], false))| == 3;
  }

  // ---------- the grammar ----------

  /** The infix operators, loosest first; those of one class associate to the left. */
  const OPERATORS: seq<set<Token>> := [
    {Or},
    {And},
    {Equal, NotEqual, Is, In, Like},
    {Less, LessEqual, Greater, GreaterEqual},
    {Plus, Minus, Concat},
    {Star, Slash, Percent}]

  /**
   * The trees of the layered grammar. Layer `k` is a tree of layer `k`, an operator of class `k` and a tree of
   * layer `k + 1`, or just a tree of layer `k + 1`; the last layer holds operands and prefixed operands.
   */
  ghost predicate Derives(e: Expr, k: nat)
    requires k <= |OPERATORS|
    decreases e, |OPERATORS| - k
  {
    if k < |OPERATORS| then
      Derives(e, k + 1)
      || (e.Binary? && e.op in OPERATORS[k] && Derives(e.left, k) && Derives(e.right, k + 1))
    else
      match e
      case Literal(t) => t.IntegerLiteral? || t.StringLiteral? || t.True? || t.False?
      case Name(_) => true
      case Param(_) => true
      case Call(_, args, _) => forall i :: 0 <= i < |args| ==> Derives(args[i], 0)
      case Unary(op, x) => op in {Minus, Not} && Derives(x, |OPERATORS|)
      case Binary(_, _, _) => false
  }

  lemma OperatorClass(op: Token, k: nat)
    requires k < |OPERATORS|
    ensures op in OPERATORS[k] <==> Precedence(op) == k + 2
  {
    if k == 0 {
      assert OPERATORS[k] == {Or};
    } else if k == 1 {
      assert OPERATORS[k] == {And};
    } else if k == 2 {
      assert OPERATORS[k] == {Equal, NotEqual, Is, In, Like};
    } else if k == 3 {
      assert OPERATORS[k] == {Less, LessEqual, Greater, GreaterEqual};
    } else if k == 4 {
      assert OPERATORS[k] == {Plus, Minus, Concat};
    } else {
      assert OPERATORS[k] == {Star, Slash, Percent};
    }
  }

  lemma {:induction false} LayerExact(e: Expr, k: nat)
    requires k <= |OPERATORS|
    ensures Derives(e, k) <==> Proper(e) && Level(e) >= k + 2
    decreases e, |OPERATORS| - k, 1
  {
    hide Precedence;
    if k < |OPERATORS| {
      LayerExact(e, k + 1);
      if e.Binary? {
        OperatorClass(e.op, k);
        LayerExact(e.left, k);
        LayerExact(e.right, k + 1);
      }
    } else {
      OperandExact(e);
    }
  }

  lemma {:induction false} OperandExact(e: Expr)
    ensures Derives(e, |OPERATORS|) <==> Proper(e) && Level(e) >= |OPERATORS| + 2
    decreases e, 0, 0
  {
    match e
    case Call(_, args, _) =>
      AllProperEach(args);
      forall i | 0 <= i < |args|
        ensures Derives(args[i], 0) <==> Proper(args[i])
      {
        LayerExact(args[i], 0);
        if Proper(args[i]) { LevelAboveAssignment(args[i]); }
      }
    case Unary(op, x) =>
      LayerExact(x, |OPERATORS|);
      PrecedenceRange(if x.Binary? then x.op else Eof);
    case Binary(_, op, _) => PrecedenceRange(op);
    case _ =>
  }

  lemma {:induction false} AllProperEach(es: seq<Expr>)
    ensures AllProper(es) <==> forall i :: 0 <= i < |es| ==> Proper(es[i])
  {
    hide Proper;
    if es != [] {
      AllProperEach(es[1..]);
      assert forall i :: 0 <= i < |es| - 1 ==> es[1..][i] == es[i + 1];
      assert es == [es[0]] + es[1..];
    }
  }

  /** The trees that the parser can return are exactly those of the grammar. */
  lemma ProperIsDerived(e: Expr)
    ensures Proper(e) <==> Derives(e, 0)
  {
    hide Proper, Derives;
    LayerExact(e, 0);
    if Proper(e) { LevelAboveAssignment(e); }
  }

  /** For all tokens: without bare stars, a parse is the grammar's tree written at the front of the tokens. */
  lemma ParseIsTheDerivation(toks: seq<Token>, e: Expr, rest: seq<Token>)
    ensures (Expression(ASSIGNMENT, toks) == Done(e, rest) && NoBareStar(toks[..|toks| - |rest|])) <==>
            (Derives(e, 0) && toks == Tokens(e) + rest && Closed(e, rest)
             && forall k :: 0 <= k < |OPERATORS| ==> Peek(rest) !in OPERATORS[k])
  {
    hide Expression, Tokens, Proper, NoBareStar, Derives, Precedence;
    ProperIsDerived(e);
    ParseIsTheTree(toks, e, rest);
    PrecedenceRange(Peek(rest));
    forall k | 0 <= k < |OPERATORS|
      ensures Peek(rest) in OPERATORS[k] <==> Precedence(Peek(rest)) == k + 2
    {
      OperatorClass(Peek(rest), k);
    }
    if Precedence(Peek(rest)) > ASSIGNMENT {
      assert Peek(rest) in OPERATORS[Precedence(Peek(rest)) - 2];
    }
  }

  /** The token is an infix operator of class `k` or a tighter one. */
  ghost predicate BindsFrom(t: Token, k: nat) {
    exists j :: k <= j < |OPERATORS| && t in OPERATORS[j]
  }

  lemma BindsExact(t: Token, k: nat)
    ensures BindsFrom(t, k) <==> Precedence(t) > k + 1
  {
    hide Precedence;
    PrecedenceRange(t);
    forall j | 0 <= j < |OPERATORS|
      ensures t in OPERATORS[j] <==> Precedence(t) == j + 2
    {
      OperatorClass(t, j);
    }
    if Precedence(t) > k + 1 {
      assert t in OPERATORS[Precedence(t) - 2];
    }
  }

  /**
   * The precedence theorem. A tree of layer `k`, written out and followed by anything, is read back with what
   * follows it left over if and only if that does not continue it.
   */
  lemma PrecedenceTheorem(k: nat, e: Expr, rest: seq<Token>)
    requires k <= |OPERATORS| && Derives(e, k)
    ensures Expression(k + 1, Tokens(e) + rest) == Done(e, rest) <==> !BindsFrom(Peek(rest), k) && Closed(e, rest)
  {
    hide Expression, Tokens, Proper, Derives, Precedence, BindsFrom;
    LayerExact(e, k);
    BindsExact(Peek(rest), k);
    TreeReadBack(k + 1, e, rest);
  }

  /**
   * What a parse at precedence `k + 1` returns: a tree of layer `k`, which what is left over does not continue,
   * and whose tokens are those consumed if and only if there is no bare star among these.
   */
  ghost predicate ReadsLayer(k: nat, toks: seq<Token>, e: Expr, rest: seq<Token>)
    requires k <= |OPERATORS|
  {
    Derives(e, k) && !BindsFrom(Peek(rest), k) && Closed(e, rest) && |rest| <= |toks|
    && var consumed := toks[..|toks| - |rest|];
       toks == consumed + rest && (consumed == Tokens(e) <==> NoBareStar(consumed))
  }

  lemma ParseReadsLayer(k: nat, toks: seq<Token>)
    requires k <= |OPERATORS| && Expression(k + 1, toks).Done?
    ensures var r := Expression(k + 1, toks); ReadsLayer(k, toks, r.value, r.rest)
  {
    hide Expression, Tokens, Proper, Derives, Precedence, BindsFrom, NoBareStar;
    var r := Expression(k + 1, toks);
    var used := ExpressionSound(k + 1, toks);
    ConsumedExact(k + 1, toks);
    LayerExact(r.value, k);
    BindsExact(Peek(r.rest), k);
    SamePrefix(toks, Tokens(r.value), r.rest);
  }

  lemma SamePrefix(toks: seq<Token>, written: seq<Token>, rest: seq<Token>)
    requires |rest| <= |toks| && toks == toks[..|toks| - |rest|] + rest
    ensures toks == written + rest <==> toks[..|toks| - |rest|] == written
  {
    if toks == written + rest { assert toks[..|toks| - |rest|] == written; }
  }

  predicate IsAtom(e: Expr) {
    e.Name? || e.Param?
    || (e.Literal? && (e.token.IntegerLiteral? || e.token.StringLiteral? || e.token.True? || e.token.False?))
  }

  /** Of two operators in a row the first groups first exactly when its class is the second's or a tighter one. */
  lemma TwoOperators(x: Expr, f: Token, y: Expr, g: Token, z: Expr, i: nat, j: nat)
    requires IsAtom(x) && IsAtom(y) && IsAtom(z)
    requires i < |OPERATORS| && f in OPERATORS[i] && j < |OPERATORS| && g in OPERATORS[j]
    ensures Expression(ASSIGNMENT, Tokens(x) + [f] + Tokens(y) + [g] + Tokens(z) + [Eof])
            == Done(if i >= j then Binary(Binary(x, f, y), g, z) else Binary(x, f, Binary(y, g, z)), [Eof])
  {
    hide Expression, Precedence, Tokens;
    OperatorClass(f, i);
    OperatorClass(g, j);
    if i >= j { GroupsLeft(x, f, y, g, z); } else { GroupsRight(x, f, y, g, z); }
  }

  lemma WrittenParses(e: Expr)
    requires Proper(e)
    ensures Expression(ASSIGNMENT, Tokens(e) + [Eof]) == Done(e, [Eof])
  {
    hide Expression, Tokens, Proper;
    LevelAboveAssignment(e);
    TreeReadBack(ASSIGNMENT, e, [Eof]);
  }

  lemma GroupsLeft(x: Expr, f: Token, y: Expr, g: Token, z: Expr)
    requires IsAtom(x) && IsAtom(y) && IsAtom(z) && NO_PRECEDENCE < Precedence(g) <= Precedence(f)
    ensures Expression(ASSIGNMENT, Tokens(x) + [f] + Tokens(y) + [g] + Tokens(z) + [Eof])
            == Done(Binary(Binary(x, f, y), g, z), [Eof])
  {
    hide Expression, Precedence, Tokens, Proper;
    AtomIsProper(x);
    AtomIsProper(y);
    AtomIsProper(z);
    PrecedenceRange(f);
    PrecedenceRange(g);
    JoinProper(x, f, y);
    JoinProper(Binary(x, f, y), g, z);
    WrittenParses(Binary(Binary(x, f, y), g, z));
  }

  lemma GroupsRight(x: Expr, f: Token, y: Expr, g: Token, z: Expr)
    requires IsAtom(x) && IsAtom(y) && IsAtom(z) && NO_PRECEDENCE < Precedence(f) < Precedence(g)
    ensures Expression(ASSIGNMENT, Tokens(x) + [f] + Tokens(y) + [g] + Tokens(z) + [Eof])
            == Done(Binary(x, f, Binary(y, g, z)), [Eof])
  {
    hide Expression, Precedence, Tokens, Proper;
    AtomIsProper(x);
    AtomIsProper(y);
    AtomIsProper(z);
    PrecedenceRange(g);
    JoinProper(y, g, z);
    JoinProper(x, f, Binary(y, g, z));
    WrittenParses(Binary(x, f, Binary(y, g, z)));
    Regrouped(Tokens(x), [f], Tokens(y), [g], Tokens(z));
  }

  lemma Regrouped(a: seq<Token>, b: seq<Token>, c: seq<Token>, d: seq<Token>, e: seq<Token>)
    ensures a + b + (c + d + e) == a + b + c + d + e
  {
  }

  lemma AtomIsProper(e: Expr)
    requires IsAtom(e)
    ensures Proper(e) && Level(e) == PRIMARY
  {
  }

  lemma JoinProper(l: Expr, op: Token, r: Expr)
    requires Proper(l) && Proper(r) && NO_PRECEDENCE < Precedence(op) <= Level(l) && Precedence(op) < Level(r)
    ensures Proper(Binary(l, op, r)) && Level(Binary(l, op, r)) == Precedence(op)
    ensures Tokens(Binary(l, op, r)) == Tokens(l) + [op] + Tokens(r)
  {
    hide Precedence;
  }

  /** What single tokens, prefixed operands and calls of two arguments mean. */
  lemma OperandForms(n: string, op: Token, x: Expr, a: Expr, b: Expr)
    requires (op == Minus || op == Not) && Derives(x, |OPERATORS|) && Derives(a, 0) && Derives(b, 0)
    ensures Expression(ASSIGNMENT, [IntegerLiteral(n), Eof]) == Done(Literal(IntegerLiteral(n)), [Eof])
    ensures Expression(ASSIGNMENT, [StringLiteral(n), Eof]) == Done(Literal(StringLiteral(n)), [Eof])
    ensures Expression(ASSIGNMENT, [Identifier(n), Eof]) == Done(Name(n), [Eof])
    ensures Expression(ASSIGNMENT, [Parameter(n), Eof]) == Done(Param(n), [Eof])
    ensures Expression(ASSIGNMENT, [op] + Tokens(x) + [Eof]) == Done(Unary(op, x), [Eof])
    ensures Expression(ASSIGNMENT, [Identifier(n), LeftParen] + Tokens(a) + [Comma] + Tokens(b) + [RightParen, Eof])
            == Done(Call(n, [a, b], false), [Eof])
  {
    hide Expression, Precedence, Derives;
    AtomParses(Literal(IntegerLiteral(n)), IntegerLiteral(n));
    AtomParses(Literal(StringLiteral(n)), StringLiteral(n));
    AtomParses(Name(n), Identifier(n));
    AtomParses(Param(n), Parameter(n));
    PrefixedParses(op, x);
    CallOfTwoParses(n, a, b);
  }

  lemma AtomParses(e: Expr, t: Token)
    requires IsAtom(e) && Tokens(e) == [t]
    ensures Expression(ASSIGNMENT, [t, Eof]) == Done(e, [Eof])
  {
    hide Expression, Tokens, Precedence;
    WrittenParses(e);
    assert [t] + [Eof] == [t, Eof];
  }

  lemma PrefixedParses(op: Token, x: Expr)
    requires (op == Minus || op == Not) && Derives(x, |OPERATORS|)
    ensures Expression(ASSIGNMENT, [op] + Tokens(x) + [Eof]) == Done(Unary(op, x), [Eof])
  {
    hide Expression, Precedence;
    LayerExact(x, |OPERATORS|);
    if x.Binary? { PrecedenceRange(x.op); }
    WrittenParses(Unary(op, x));
  }

  lemma CallOfTwoParses(n: string, a: Expr, b: Expr)
    requires Derives(a, 0) && Derives(b, 0)
    ensures Expression(ASSIGNMENT, [Identifier(n), LeftParen] + Tokens(a) + [Comma] + Tokens(b) + [RightParen, Eof])
            == Done(Call(n, [a, b], false), [Eof])
  {
    hide Expression, Precedence, Derives, Proper;
    ProperIsDerived(a);
    ProperIsDerived(b);
    TwoProper(n, a, b);
    TwoWritten(n, a, b);
    WrittenParses(Call(n, [a, b], false));
    assert [Identifier(n), LeftParen] + Tokens(a) + [Comma] + Tokens(b) + [RightParen] + [Eof]
        == [Identifier(n), LeftParen] + Tokens(a) + [Comma] + Tokens(b) + [RightParen, Eof];
  }

  lemma TwoProper(n: string, a: Expr, b: Expr)
    requires Proper(a) && Proper(b)
    ensures Proper(Call(n, [a, b], false))
  {
    AllProperEach([a, b]);
  }

  lemma TwoWritten(n: string, a: Expr, b: Expr)
    ensures Tokens(Call(n, [a, b], false))
            == [Identifier(n), LeftParen] + Tokens(a) + [Comma] + Tokens(b) + [RightParen]
  {
    assert [a, b][1..] == [b];
    assert ArgTokens([b]) == Tokens(b);
    assert ArgTokens([a, b]) == Tokens(a) + [Comma] + Tokens(b);
  }

  // ---------- the parser object ----------

  class SqlParser {
    const tokens: seq<Token>
    var current: nat

    /** The lexer always ends its list with an end marker, and the cursor never passes it. */
    ghost predicate Valid()
      reads this
    {
      current < |tokens| && tokens[|tokens| - 1] == Eof
    }

    ghost function Rest(): (s: seq<Token>)
      requires current <= |tokens|
      reads this
    {
      tokens[current..]
    }

    constructor (tokens: seq<Token>)
      requires tokens != [] && tokens[|tokens| - 1] == Eof
      ensures Valid() && this.tokens == tokens && current == 0
    {
      this.tokens := tokens;
      current := 0;
    }

    method Check(t: Token) returns (b: bool)
      requires Valid()
      ensures b == (t != Eof && Peek(Rest()) == t)
    {
      b := tokens[current] != Eof && tokens[current] == t;
    }

    method Advance() returns (t: Token)
      requires Valid() && Peek(Rest()) != Eof
      modifies this
      ensures Valid() && t == old(Peek(Rest())) && Rest() == old(Rest())[1..] && current == old(current) + 1
    {
      t := tokens[current];
      current := current + 1;
    }

    method Match(t: Token) returns (b: bool)
      requires Valid() && t != Eof
      modifies this
      ensures Valid() && b == (old(Peek(Rest())) == t)
      ensures Rest() == if b then old(Rest())[1..] else old(Rest())
      ensures current == old(current) + if b then 1 else 0
    {
      b := Check(t);
      if b { var _ := Advance(); }
    }

    method ParseExpression(p: nat) returns (r: Parse<Expr>)
      requires Valid()
      modifies this
      ensures Valid() && old(current) <= current && r == Expression(p, old(Rest()))
      ensures r.Done? ==> r.rest == Rest()
      ensures r.Done? && ASSIGNMENT <= p < UNARY ==> ReadsLayer(p - 1, old(Rest()), r.value, r.rest)
      decreases |tokens| - current, 2
    {
      hide Prefix, Precedence, ReadsLayer;
      if tokens[current] == Eof { return Failed; }
      ghost var start := Rest();
      var token := Advance();
      var left := ParsePrefix(token, start);
      if left.Failed? { return Failed; }
      var e := left.value;
      while p < Precedence(tokens[current])
        invariant Valid() && old(current) < current
        invariant Expression(p, start) == Climb(p, e, Rest())
        decreases |tokens| - current
      {
        PrecedenceRange(tokens[current]);
        var infix := Advance();
        var joined := ParseInfix(infix, e);
        if joined.Failed? { return Failed; }
        e := joined.value;
      }
      r := Done(e, tokens[current..]);
      if ASSIGNMENT <= p < UNARY { ParseReadsLayer(p - 1, start); }
    }

    /** `token` has just been consumed; `start` is the token list that began with it. */
    method ParsePrefix(token: Token, ghost start: seq<Token>) returns (r: Parse<Expr>)
      requires Valid() && start != [] && token == start[0] && Rest() == start[1..]
      modifies this
      ensures Valid() && old(current) <= current && r == Prefix(start)
      ensures r.Done? ==> r.rest == Rest()
      decreases |tokens| - current, 3
    {
      hide Expression, CallTail;
      match token {
        case IntegerLiteral(_) => return Done(Literal(token), tokens[current..]);
        case StringLiteral(_) => return Done(Literal(token), tokens[current..]);
        case True => return Done(Literal(token), tokens[current..]);
        case False => return Done(Literal(token), tokens[current..]);
        case Parameter(text) => return Done(Param(text), tokens[current..]);
        case Identifier(text) =>
          var call := Check(LeftParen);
          if !call { return Done(Name(text), tokens[current..]); }
          var _ := Advance();
          r := ParseCallTail(text);
        case Minus =>
          var x := ParseExpression(UNARY);
          r := if x.Done? then Done(Unary(token, x.value), x.rest) else Failed;
        case Not =>
          var x := ParseExpression(UNARY);
          r := if x.Done? then Done(Unary(token, x.value), x.rest) else Failed;
        case _ => return Failed;
      }
    }

    method ParseCallTail(name: string) returns (r: Parse<Expr>)
      requires Valid()
      modifies this
      ensures Valid() && old(current) <= current && r == CallTail(name, old(Rest()))
      ensures r.Done? ==> r.rest == Rest()
      decreases |tokens| - current, 4
    {
      hide Arguments, CallTail;
      ghost var start := Rest();
      var distinct := Match(Distinct);
      CallTailParts(name, start, distinct, Rest());
      var args: seq<Expr> := [];
      var empty := Check(RightParen);
      if !empty {
        var parsed := ParseArguments();
        if parsed.Failed? { return Failed; }
        args := parsed.value;
      }
      var closed := Match(RightParen);
      if !closed { return Failed; }
      r := Done(Call(name, args, distinct), tokens[current..]);
    }

    method ParseArguments() returns (r: Parse<seq<Expr>>)
      requires Valid()
      modifies this
      ensures Valid() && old(current) <= current && r == Arguments(old(Rest()))
      ensures r.Done? ==> r.rest == Rest()
      decreases |tokens| - current, 3
    {
      hide Expression;
      ghost var start := Rest();
      var args: seq<Expr> := [];
      var more := true;
      PrependNothing(Arguments(start));
      while more
        invariant Valid() && old(current) <= current && (args != [] ==> old(current) < current)
        invariant more ==> Arguments(start) == Prepend(args, Arguments(Rest()))
        invariant !more ==> Arguments(start) == Done(args, Rest())
        decreases more, |tokens| - current
      {
        ghost var before := Rest();
        var star := Match(Star);
        if star {
          assert args + [] == args;
          more := false;
        } else {
          var arg := ParseExpression(ASSIGNMENT);
          if arg.Failed? { return Failed; }
          PrependStep(args, arg.value, before, arg.rest);
          args := args + [arg.value];
          more := Match(Comma);
        }
      }
      r := Done(args, tokens[current..]);
    }

    method ParseInfix(token: Token, left: Expr) returns (r: Parse<Expr>)
      requires Valid()
      modifies this
      ensures Valid() && old(current) <= current
      ensures var right := Expression(Precedence(token), old(Rest()));
              r == if right.Done? then Done(Binary(left, token, right.value), right.rest) else Failed
      ensures r.Done? ==> r.rest == Rest()
      decreases |tokens| - current, 3
    {
      var right := ParseExpression(Precedence(token));
      r := if right.Done? then Done(Binary(left, token, right.value), right.rest) else Failed;
    }
  }

  lemma CallTailParts(name: string, toks: seq<Token>, distinct: bool, inside: seq<Token>)
    requires distinct == (Peek(toks) == Distinct) && inside == if distinct then toks[1..] else toks
    ensures var args := if Peek(inside) == RightParen then Done([], inside) else Arguments(inside);
            CallTail(name, toks) ==
              if args.Done? && Peek(args.rest) == RightParen then Done(Call(name, args.value, distinct), args.rest[1..])
              else Failed
  {
  }

  function Prepend(args: seq<Expr>, r: Parse<seq<Expr>>): (q: Parse<seq<Expr>>) {
    if r.Done? then Done(args + r.value, r.rest) else Failed
  }

  lemma PrependNothing(r: Parse<seq<Expr>>)
    ensures Prepend([], r) == r
  {
    if r.Done? { assert [] + r.value == r.value; }
  }

  lemma PrependStep(args: seq<Expr>, e: Expr, before: seq<Token>, rest: seq<Token>)
    requires Peek(before) != Star && Expression(ASSIGNMENT, before) == Done(e, rest)
    ensures Prepend(args, Arguments(before)) ==
            if Peek(rest) == Comma then Prepend(args + [e], Arguments(rest[1..])) else Done(args + [e], rest)
  {
    hide Expression;
    if Peek(rest) == Comma {
      var r := Arguments(rest[1..]);
      if r.Done? { assert args + ([e] + r.value) == args + [e] + r.value; }
    }
  }
}
