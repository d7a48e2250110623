/**
 * The recursive-descent parser for
 *
 *   expr   -> term   (('+' | '-') term)*
 *   term   -> factor (('*' | '/') factor)*
 *   factor -> NUMBER | '(' expr ')'
 *
 * Each production is first a function over the list of tokens still to be
 * delivered, then a method of the Parser class that pulls those tokens from
 * a TokenStream with peek and next and is proved to do what the function
 * says. The first error sets a flag that every production checks on entry.
 */
module Parser {
  import opened Util
  import opened Ast
  import opened Lexer

  /** What a production yields: the tree (None once an error is reported) and the tokens left. */
  datatype Parsed = Parsed(tree: Option<Expr>, rest: seq<Token>)

  predicate IsAddOp(k: TokenType)
  {
    k == TokPlus || k == TokMinus
  }

  predicate IsMulOp(k: TokenType)
  {
    k == TokMul || k == TokDiv
  }

  /** factor -> NUMBER | '(' expr ')'; any other token is consumed and reported. */
  function Factor(ts: seq<Token>): (r: Parsed)
    requires TokenList(ts)
    ensures TokenList(r.rest) && |r.rest| <= |ts|
    decreases |ts|, 0
  {
    var t := ts[0];
    if t.kind == TokNumber then Parsed(Some(Number(t.value)), Advance(ts))
    else if t.kind == TokLParen then
      var inner := Expression(Advance(ts));
      if inner.tree.None? then inner
      else if inner.rest[0].kind != TokRParen then Parsed(None, Advance(inner.rest))
      else Parsed(inner.tree, Advance(inner.rest))
    else Parsed(None, Advance(ts))
  }

  /** The loop of term: while a '*' or '/' comes next, fold one more factor in on the right. */
  function TermRest(left: Expr, ts: seq<Token>): (r: Parsed)
    requires TokenList(ts)
    ensures TokenList(r.rest) && |r.rest| <= |ts|
    decreases |ts|, 1
  {
    if !IsMulOp(ts[0].kind) then Parsed(Some(left), ts)
    else
      var op := if ts[0].kind == TokMul then OpMul else OpDiv;
      var right := Factor(Advance(ts));
      if right.tree.None? then right
      else TermRest(Binary(op, left, right.tree.value), right.rest)
  }

  /** term -> factor (('*' | '/') factor)* */
  function Term(ts: seq<Token>): (r: Parsed)
    requires TokenList(ts)
    ensures TokenList(r.rest) && |r.rest| <= |ts|
    decreases |ts|, 2
  {
    var first := Factor(ts);
    if first.tree.None? then first else TermRest(first.tree.value, first.rest)
  }

  /** The loop of expr: while a '+' or '-' comes next, fold one more term in on the right. */
  function ExprRest(left: Expr, ts: seq<Token>): (r: Parsed)
    requires TokenList(ts)
    ensures TokenList(r.rest) && |r.rest| <= |ts|
    decreases |ts|, 3
  {
    if !IsAddOp(ts[0].kind) then Parsed(Some(left), ts)
    else
      var op := if ts[0].kind == TokPlus then OpAdd else OpSub;
      var right := Term(Advance(ts));
      if right.tree.None? then right
      else ExprRest(Binary(op, left, right.tree.value), right.rest)
  }

  /** expr -> term (('+' | '-') term)* */
  function Expression(ts: seq<Token>): (r: Parsed)
    requires TokenList(ts)
    ensures TokenList(r.rest) && |r.rest| <= |ts|
    decreases |ts|, 4
  {
    var first := Term(ts);
    if first.tree.None? then first else ExprRest(first.tree.value, first.rest)
  }

  /** parser_parse: an expression that must be followed by EOF. */
  function Parse(ts: seq<Token>): (r: Parsed)
    requires TokenList(ts)
    ensures TokenList(r.rest)
    ensures r.tree.Some? ==> r.rest[0].kind == TokEof
  {
    var e := Expression(ts);
    if e.tree.Some? && e.rest[0].kind != TokEof then Parsed(None, e.rest) else e
  }

  // ---------------------------------------------------------------------------
  // Errors
  // ---------------------------------------------------------------------------

  /**
   * A factor that starts with anything but a number or '(' is an error that
   * consumes the offending token; a parenthesised expression without its ')'
   * is an error too. An expression followed by anything but EOF is refused.
   */
  lemma SyntaxErrors(ts: seq<Token>)
    requires TokenList(ts)
    ensures ts[0].kind != TokNumber && ts[0].kind != TokLParen ==> Factor(ts) == Parsed(None, Advance(ts))
    ensures ts[0].kind == TokLParen ==>
              var inner := Expression(Advance(ts));
              inner.tree.Some? && inner.rest[0].kind != TokRParen ==> Factor(ts).tree.None?
    ensures Expression(ts).tree.Some? && Expression(ts).rest[0].kind != TokEof ==> Parse(ts).tree.None?
  {
  }

  /** Empty input (nothing but EOF) does not parse. */
  lemma EmptyInputRejected(eof: Token)
    requires eof.kind == TokEof
    ensures Parse([eof]) == Parsed(None, [eof])
  {
    assert TokenList([eof]) && Advance([eof]) == [eof];
    assert Factor([eof]) == Parsed(None, [eof]);
    assert Term([eof]) == Parsed(None, [eof]);
    assert Expression([eof]) == Parsed(None, [eof]);
  }

  // ---------------------------------------------------------------------------
  // Round trip: printing with minimal parentheses, then parsing, gives the tree back
  // ---------------------------------------------------------------------------

  function OpToken(op: BinaryOp): Token
  {
    match op
    case OpAdd => Token(TokPlus, 0, 0)
    case OpSub => Token(TokMinus, 0, 0)
    case OpMul => Token(TokMul, 0, 0)
    case OpDiv => Token(TokDiv, 0, 0)
  }

  /** The token printed for an operator reads back as that operator, at the right precedence level. */
  lemma OpTokenReadsBack(op: BinaryOp)
    ensures OpToken(op).kind != TokEof
    ensures IsAdditive(op) ==> IsAddOp(OpToken(op).kind) && op == (if OpToken(op).kind == TokPlus then OpAdd else OpSub)
    ensures !IsAdditive(op) ==> IsMulOp(OpToken(op).kind) && op == (if OpToken(op).kind == TokMul then OpMul else OpDiv)
  {
  }

  function TermRank(e: Expr): nat
  {
    if e.Binary? && IsAdditive(e.op) then 5 else 1
  }

  function FactorRank(e: Expr): nat
  {
    if e.Number? then 0 else 4
  }

  /** The tokens of e at expression level: a sum or difference is written without parentheses. */
  function PrintExpr(e: Expr): (ts: seq<Token>)
    ensures |ts| > 0 && forall k :: 0 <= k < |ts| ==> ts[k].kind != TokEof
    decreases e, 3
  {
    if e.Binary? && IsAdditive(e.op) then PrintExpr(e.left) + [OpToken(e.op)] + PrintTerm(e.right)
    else PrintTerm(e)
  }

  /** The tokens of e at term level: a sum or difference needs parentheses. */
  function PrintTerm(e: Expr): (ts: seq<Token>)
    ensures |ts| > 0 && forall k :: 0 <= k < |ts| ==> ts[k].kind != TokEof
    decreases e, TermRank(e)
  {
    if e.Binary? && !IsAdditive(e.op) then PrintTerm(e.left) + [OpToken(e.op)] + PrintFactor(e.right)
    else PrintFactor(e)
  }

  /** The tokens of e at factor level: any operator node needs parentheses. */
  function PrintFactor(e: Expr): (ts: seq<Token>)
    ensures |ts| > 0 && forall k :: 0 <= k < |ts| ==> ts[k].kind != TokEof
    decreases e, FactorRank(e)
  {
    if e.Number? then [Token(TokNumber, e.value, 0)]
    else [Token(TokLParen, 0, 0)] + PrintExpr(e) + [Token(TokRParen, 0, 0)]
  }

  lemma PrintedList(ts: seq<Token>, rest: seq<Token>)
    requires forall k :: 0 <= k < |ts| ==> ts[k].kind != TokEof
    requires TokenList(rest) && |ts| > 0
    ensures TokenList(ts + rest) && Advance(ts + rest) == ts[1..] + rest
  {
  }

  lemma ConsAdvance(t: Token, ts: seq<Token>)
    requires t.kind != TokEof && TokenList(ts)
    ensures TokenList([t] + ts) && Advance([t] + ts) == ts
  {
    assert ([t] + ts)[1..] == ts;
  }

  /** A printed factor parses back as itself, whatever follows it. */
  lemma {:induction false} FactorRoundTrip(e: Expr, rest: seq<Token>)
    requires TokenList(rest)
    ensures TokenList(PrintFactor(e) + rest)
    ensures Factor(PrintFactor(e) + rest) == Parsed(Some(e), rest)
    decreases e, FactorRank(e)
  {
    var ts := PrintFactor(e) + rest;
    PrintedList(PrintFactor(e), rest);
    if e.Binary? {
      var close := [Token(TokRParen, 0, 0)] + rest;
      assert TokenList(close);
      assert Advance(ts) == PrintExpr(e) + close;
      ExprRoundTrip(e, close);
    }
  }

  /** One turn of the term loop: an operator token, then tokens that parse as the factor r. */
  lemma TermLoopStep(op: BinaryOp, l: Expr, r: Expr, after: seq<Token>, rest: seq<Token>)
    requires !IsAdditive(op) && TokenList(after) && TokenList(rest)
    requires Factor(after) == Parsed(Some(r), rest)
    ensures TokenList([OpToken(op)] + after)
    ensures TermRest(l, [OpToken(op)] + after) == TermRest(Binary(op, l, r), rest)
  {
    OpTokenReadsBack(op);
    ConsAdvance(OpToken(op), after);
    assert ([OpToken(op)] + after)[0] == OpToken(op);
  }

  /** One turn of the expression loop: an operator token, then tokens that parse as the term r. */
  lemma ExprLoopStep(op: BinaryOp, l: Expr, r: Expr, after: seq<Token>, rest: seq<Token>)
    requires IsAdditive(op) && TokenList(after) && TokenList(rest)
    requires Term(after) == Parsed(Some(r), rest)
    ensures TokenList([OpToken(op)] + after)
    ensures ExprRest(l, [OpToken(op)] + after) == ExprRest(Binary(op, l, r), rest)
  {
    OpTokenReadsBack(op);
    ConsAdvance(OpToken(op), after);
    assert ([OpToken(op)] + after)[0] == OpToken(op);
  }

  /** A printed term followed by anything parses as the term loop continuing from that tree. */
  lemma {:induction false} TermPrefix(e: Expr, rest: seq<Token>)
    requires TokenList(rest)
    ensures TokenList(PrintTerm(e) + rest)
    ensures Term(PrintTerm(e) + rest) == TermRest(e, rest)
    decreases e, TermRank(e)
  {
    if e.Binary? && !IsAdditive(e.op) {
      TermPrefixBinary(e.op, e.left, e.right, rest);
    } else {
      PrintedList(PrintTerm(e), rest);
      FactorRoundTrip(e, rest);
    }
  }

  /** TermPrefix for a product or quotient: the left operand's term, the operator, the right factor. */
  lemma {:induction false} TermPrefixBinary(op: BinaryOp, l: Expr, r: Expr, rest: seq<Token>)
    requires !IsAdditive(op) && TokenList(rest)
    ensures TokenList(PrintTerm(Binary(op, l, r)) + rest)
    ensures Term(PrintTerm(Binary(op, l, r)) + rest) == TermRest(Binary(op, l, r), rest)
    decreases Binary(op, l, r), 0
  {
    var e := Binary(op, l, r);
    var after := PrintFactor(r) + rest;
    var tail := [OpToken(op)] + after;
    assert Factor(after) == Parsed(Some(r), rest) by {
      FactorRoundTrip(r, rest);
    }
    TermLoopStep(op, l, r, after, rest);
    assert PrintTerm(e) + rest == PrintTerm(l) + tail by {
      assert PrintTerm(e) == PrintTerm(l) + [OpToken(op)] + PrintFactor(r);
      Regroup(PrintTerm(l), [OpToken(op)], PrintFactor(r), rest);
    }
    TermPrefix(l, tail);
  }

  /** A printed expression followed by anything but '*' or '/' parses as the expression loop continuing from that tree. */
  lemma {:induction false} ExprPrefix(e: Expr, rest: seq<Token>)
    requires TokenList(rest) && !IsMulOp(rest[0].kind)
    ensures TokenList(PrintExpr(e) + rest)
    ensures Expression(PrintExpr(e) + rest) == ExprRest(e, rest)
    decreases e, 2
  {
    if e.Binary? && IsAdditive(e.op) {
      ExprPrefixBinary(e.op, e.left, e.right, rest);
    } else {
      PrintedList(PrintExpr(e), rest);
      TermPrefix(e, rest);
    }
  }

  /** ExprPrefix for a sum or difference: the left operand's expression, the operator, the right term. */
  lemma {:induction false} ExprPrefixBinary(op: BinaryOp, l: Expr, r: Expr, rest: seq<Token>)
    requires IsAdditive(op) && TokenList(rest) && !IsMulOp(rest[0].kind)
    ensures TokenList(PrintExpr(Binary(op, l, r)) + rest)
    ensures Expression(PrintExpr(Binary(op, l, r)) + rest) == ExprRest(Binary(op, l, r), rest)
    decreases Binary(op, l, r), 0
  {
    var e := Binary(op, l, r);
    var after := PrintTerm(r) + rest;
    var tail := [OpToken(op)] + after;
    assert Term(after) == Parsed(Some(r), rest) by {
      TermPrefix(r, rest);
    }
    ExprLoopStep(op, l, r, after, rest);
    assert PrintExpr(e) + rest == PrintExpr(l) + tail by {
      assert PrintExpr(e) == PrintExpr(l) + [OpToken(op)] + PrintTerm(r);
      Regroup(PrintExpr(l), [OpToken(op)], PrintTerm(r), rest);
    }
    OpTokenReadsBack(op);
    ExprPrefix(l, tail);
  }

  /** A printed expression followed by a token that cannot continue it parses back as itself. */
  lemma {:induction false} ExprRoundTrip(e: Expr, rest: seq<Token>)
    requires TokenList(rest) && !IsMulOp(rest[0].kind) && !IsAddOp(rest[0].kind)
    ensures TokenList(PrintExpr(e) + rest)
    ensures Expression(PrintExpr(e) + rest) == Parsed(Some(e), rest)
    decreases e, 3
  {
    ExprPrefix(e, rest);
  }

  /**
   * parser_parse inverts printing: every tree, printed with only the
   * parentheses precedence and left associativity require, parses back to
   * the same tree.
   */
  lemma ParseRoundTrip(e: Expr)
    ensures var eof := [Token(TokEof, 0, 0)];
            TokenList(PrintExpr(e) + eof) && Parse(PrintExpr(e) + eof) == Parsed(Some(e), eof)
  {
    ExprRoundTrip(e, [Token(TokEof, 0, 0)]);
  }

  function Num(v: int): Token
  {
    Token(TokNumber, v, 0)
  }

  lemma PrintNumber(v: int)
    ensures PrintExpr(Number(v)) == PrintTerm(Number(v)) == PrintFactor(Number(v)) == [Num(v)]
  {
  }

  /** Left associativity: a - b - c is (a - b) - c, and a / b / c is (a / b) / c. */
  lemma LeftAssociative(a: int, b: int, c: int)
    ensures var minus, eof := Token(TokMinus, 0, 0), Token(TokEof, 0, 0);
            Parse([Num(a), minus, Num(b), minus, Num(c), eof]).tree ==
              Some(Binary(OpSub, Binary(OpSub, Number(a), Number(b)), Number(c)))
    ensures var div, eof := Token(TokDiv, 0, 0), Token(TokEof, 0, 0);
            Parse([Num(a), div, Num(b), div, Num(c), eof]).tree ==
              Some(Binary(OpDiv, Binary(OpDiv, Number(a), Number(b)), Number(c)))
  {
    var e1 := Binary(OpSub, Binary(OpSub, Number(a), Number(b)), Number(c));
    var e2 := Binary(OpDiv, Binary(OpDiv, Number(a), Number(b)), Number(c));
    PrintNumber(a);
    PrintNumber(b);
    PrintNumber(c);
    assert PrintExpr(e1.left) == [Num(a), Token(TokMinus, 0, 0), Num(b)];
    assert PrintExpr(e1) == [Num(a), Token(TokMinus, 0, 0), Num(b), Token(TokMinus, 0, 0), Num(c)];
    assert PrintTerm(e2.left) == [Num(a), Token(TokDiv, 0, 0), Num(b)];
    assert PrintExpr(e2) == PrintTerm(e2) == [Num(a), Token(TokDiv, 0, 0), Num(b), Token(TokDiv, 0, 0), Num(c)];
    var eof := [Token(TokEof, 0, 0)];
    ParseRoundTrip(e1);
    assert PrintExpr(e1) + eof == [Num(a), Token(TokMinus, 0, 0), Num(b), Token(TokMinus, 0, 0), Num(c), Token(TokEof, 0, 0)];
    ParseRoundTrip(e2);
    assert PrintExpr(e2) + eof == [Num(a), Token(TokDiv, 0, 0), Num(b), Token(TokDiv, 0, 0), Num(c), Token(TokEof, 0, 0)];
  }

  /** Precedence: '*' binds tighter than '+' on either side, and parentheses override it. */
  lemma Precedence(a: int, b: int, c: int)
    ensures var plus, times, eof := Token(TokPlus, 0, 0), Token(TokMul, 0, 0), Token(TokEof, 0, 0);
            Parse([Num(a), plus, Num(b), times, Num(c), eof]).tree ==
              Some(Binary(OpAdd, Number(a), Binary(OpMul, Number(b), Number(c))))
    ensures var plus, times, eof := Token(TokPlus, 0, 0), Token(TokMul, 0, 0), Token(TokEof, 0, 0);
            Parse([Num(a), times, Num(b), plus, Num(c), eof]).tree ==
              Some(Binary(OpAdd, Binary(OpMul, Number(a), Number(b)), Number(c)))
    ensures var plus, times, eof := Token(TokPlus, 0, 0), Token(TokMul, 0, 0), Token(TokEof, 0, 0);
            var lp, rp := Token(TokLParen, 0, 0), Token(TokRParen, 0, 0);
            Parse([lp, Num(a), plus, Num(b), rp, times, Num(c), eof]).tree ==
              Some(Binary(OpMul, Binary(OpAdd, Number(a), Number(b)), Number(c)))
  {
    var plus, times := Token(TokPlus, 0, 0), Token(TokMul, 0, 0);
    var e1 := Binary(OpAdd, Number(a), Binary(OpMul, Number(b), Number(c)));
    var e2 := Binary(OpAdd, Binary(OpMul, Number(a), Number(b)), Number(c));
    var e3 := Binary(OpMul, Binary(OpAdd, Number(a), Number(b)), Number(c));
    PrintNumber(a);
    PrintNumber(b);
    PrintNumber(c);
    assert PrintTerm(e1.right) == [Num(b), times, Num(c)];
    assert PrintExpr(e1) == [Num(a), plus, Num(b), times, Num(c)];
    assert PrintExpr(e2.left) == PrintTerm(e2.left) == [Num(a), times, Num(b)];
    assert PrintExpr(e2) == [Num(a), times, Num(b), plus, Num(c)];
    assert PrintExpr(e3.left) == [Num(a), plus, Num(b)];
    assert PrintTerm(e3.left) == PrintFactor(e3.left) == [Token(TokLParen, 0, 0), Num(a), plus, Num(b), Token(TokRParen, 0, 0)];
    assert PrintExpr(e3) == PrintTerm(e3) == [Token(TokLParen, 0, 0), Num(a), plus, Num(b), Token(TokRParen, 0, 0), times, Num(c)];
    var eof := [Token(TokEof, 0, 0)];
    ParseRoundTrip(e1);
    assert PrintExpr(e1) + eof == [Num(a), plus, Num(b), times, Num(c), Token(TokEof, 0, 0)];
    ParseRoundTrip(e2);
    assert PrintExpr(e2) + eof == [Num(a), times, Num(b), plus, Num(c), Token(TokEof, 0, 0)];
    ParseRoundTrip(e3);
    assert PrintExpr(e3) + eof == [Token(TokLParen, 0, 0), Num(a), plus, Num(b), Token(TokRParen, 0, 0), times, Num(c), Token(TokEof, 0, 0)];
  }

  // ---------------------------------------------------------------------------
  // The parser itself
  // ---------------------------------------------------------------------------

  /** Parser: the token stream it reads and the sticky error flag. */
  class Parser {
    const ts: TokenStream
    var error: bool

    /** parser_init */
    constructor Init(stream: TokenStream)
      ensures ts == stream && !error
    {
      ts := stream;
      error := false;
    }

    /**
     * expect: consumes the next token whatever it is, and reports an error
     * when it is not of the expected type.
     */
    method Expect(expected: TokenType) returns (t: Token)
      requires ts.Valid()
      modifies this, ts
      ensures ts.Valid()
      ensures t == old(ts.Remaining())[0] && ts.Remaining() == Advance(old(ts.Remaining()))
      ensures error == (old(error) || t.kind != expected)
    {
      t := ts.Next();
      if t.kind != expected {
        error := true;
      }
    }

    /** parse_factor */
    method ParseFactor() returns (node: Option<Expr>)
      requires ts.Valid()
      modifies this, ts
      ensures ts.Valid()
      ensures old(error) ==> node.None? && error && unchanged(ts)
      ensures !old(error) ==> Parsed(node, ts.Remaining()) == Factor(old(ts.Remaining())) && error == node.None?
      decreases |ts.Remaining()|, 0
    {
      if error {
        return None;
      }
      var t := ts.Peek();
      if t.kind == TokNumber {
        var _ := ts.Next();
        return Some(Number(t.value));
      }
      if t.kind == TokLParen {
        var _ := ts.Next();
        var inner := ParseExpr();
        if error {
          return None;
        }
        var _ := Expect(TokRParen);
        if error {
          return None;
        }
        return inner;
      }
      var _ := ts.Next();
      error := true;
      return None;
    }

    /** parse_term */
    method ParseTerm() returns (node: Option<Expr>)
      requires ts.Valid()
      modifies this, ts
      ensures ts.Valid()
      ensures old(error) ==> node.None? && error && unchanged(ts)
      ensures !old(error) ==> Parsed(node, ts.Remaining()) == Term(old(ts.Remaining())) && error == node.None?
      decreases |ts.Remaining()|, 3
    {
      if error {
        return None;
      }
      var first := ParseFactor();
      if error {
        return None;
      }
      node := TermLoop(first.value);
    }

    /** The loop of parse_term: folds factors into left while '*' or '/' comes next. */
    method TermLoop(left: Expr) returns (node: Option<Expr>)
      requires ts.Valid() && !error
      modifies this, ts
      ensures ts.Valid()
      ensures Parsed(node, ts.Remaining()) == TermRest(left, old(ts.Remaining())) && error == node.None?
      decreases |ts.Remaining()|, 2
    {
      var acc := left;
      while true
        invariant ts.Valid() && !error
        invariant |ts.Remaining()| <= |old(ts.Remaining())|
        invariant TermRest(acc, ts.Remaining()) == TermRest(left, old(ts.Remaining()))
        decreases |ts.Remaining()|
      {
        var t := ts.Peek();
        if !IsMulOp(t.kind) {
          break;
        }
        var _ := ts.Next();
        var op := if t.kind == TokMul then OpMul else OpDiv;
        var right := ParseFactor();
        if error {
          return None;
        }
        acc := Binary(op, acc, right.value);
      }
      return Some(acc);
    }

    /** parse_expr */
    method ParseExpr() returns (node: Option<Expr>)
      requires ts.Valid()
      modifies this, ts
      ensures ts.Valid()
      ensures old(error) ==> node.None? && error && unchanged(ts)
      ensures !old(error) ==> Parsed(node, ts.Remaining()) == Expression(old(ts.Remaining())) && error == node.None?
      decreases |ts.Remaining()|, 5
    {
      if error {
        return None;
      }
      var first := ParseTerm();
      if error {
        return None;
      }
      node := ExprLoop(first.value);
    }

    /** The loop of parse_expr: folds terms into left while '+' or '-' comes next. */
    method ExprLoop(left: Expr) returns (node: Option<Expr>)
      requires ts.Valid() && !error
      modifies this, ts
      ensures ts.Valid()
      ensures Parsed(node, ts.Remaining()) == ExprRest(left, old(ts.Remaining())) && error == node.None?
      decreases |ts.Remaining()|, 4
    {
      var acc := left;
      while true
        invariant ts.Valid() && !error
        invariant |ts.Remaining()| <= |old(ts.Remaining())|
        invariant ExprRest(acc, ts.Remaining()) == ExprRest(left, old(ts.Remaining()))
        decreases |ts.Remaining()|
      {
        var t := ts.Peek();
        if !IsAddOp(t.kind) {
          break;
        }
        var _ := ts.Next();
        var op := if t.kind == TokPlus then OpAdd else OpSub;
        var right := ParseTerm();
        if error {
          return None;
        }
        acc := Binary(op, acc, right.value);
      }
      return Some(acc);
    }

    /**
     * parser_parse: the tree exactly when the tokens form one expression
     * followed by EOF, and then the error flag is clear.
     */
    method ParseAll() returns (root: Option<Expr>)
      requires ts.Valid()
      modifies this, ts
      ensures ts.Valid()
      ensures old(error) ==> root.None? && error && unchanged(ts)
      ensures !old(error) ==> Parsed(root, ts.Remaining()) == Parse(old(ts.Remaining())) && error == root.None?
    {
      root := ParseExpr();
      if error {
        return None;
      }
      var t := ts.Peek();
      if t.kind != TokEof {
        error := true;
        return None;
      }
    }
  }
}
