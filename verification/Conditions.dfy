/**
 The scan for a top-level `||` in a workflow condition (magefile.go), against the
 expression trees such conditions are written from. Spaces are already stripped.
 */
module Conditions {
  /** The depth after a character; a stray closing parenthesis stays at zero. */
  function Deeper(depth: nat, c: char): (d: nat) {
    if c == '(' then depth + 1
    else if c == ')' then (if depth > 0 then depth - 1 else 0)
    else depth
  }

  function DepthAfter(s: string, depth: nat): (d: nat) {
    if s == "" then depth else DepthAfter(s[1..], Deeper(depth, s[0]))
  }

  /** A `||` at depth zero, scanning from the given depth. */
  predicate OrAtTop(s: string, depth: nat) {
    s != "" &&
    ((s[0] == '|' && depth == 0 && |s| > 1 && s[1] == '|') || OrAtTop(s[1..], Deeper(depth, s[0])))
  }

  /** The scanner's loop. */
  method TopLevelOr(cond: string) returns (r: bool)
    ensures r == OrAtTop(cond, 0)
  {
    var depth: nat := 0;
    for i := 0 to |cond|
      invariant OrAtTop(cond, 0) == OrAtTop(cond[i..], depth)
    {
      assert cond[i..][1..] == cond[i + 1..];
      match cond[i] {
        case '(' =>
          depth := depth + 1;
        case ')' =>
          if depth > 0 {
            depth := depth - 1;
          }
        case '|' =>
          if depth == 0 && i + 1 < |cond| && cond[i + 1] == '|' {
            return true;
          }
        case _ =>
      }
    }
    r := false;
  }

  // ----- Expression trees

  datatype Expr = Atom(text: string) | And(left: Expr, right: Expr) | Or(left: Expr, right: Expr)

  /** The text never closes a parenthesis it did not open, and closes all it opened. */
  ghost predicate Balanced(s: string) { NeverBelow(s, 0) && DepthAfter(s, 0) == 0 }

  ghost predicate NeverBelow(s: string, depth: nat) {
    s != "" ==> (s[0] == ')' ==> depth > 0) && NeverBelow(s[1..], Deeper(depth, s[0]))
  }

  /** Atoms are balanced, and their only `||` sit inside parentheses. */
  ghost predicate WellFormed(e: Expr) {
    match e
    case Atom(text) => Balanced(text) && !OrAtTop(text, 0)
    case And(l, r) => WellFormed(l) && WellFormed(r)
    case Or(l, r) => WellFormed(l) && WellFormed(r)
  }

  /** Printed as an operand: an `||` node is parenthesised. */
  function Operand(e: Expr): (s: string) {
    match e
    case Atom(text) => text
    case And(l, r) => Operand(l) + "&&" + Operand(r)
    case Or(l, r) => "(" + Operand(l) + "||" + Operand(r) + ")"
  }

  /** Printed at the root: its own `||` needs no parentheses. */
  function Print(e: Expr): (s: string) {
    match e
    case Or(l, r) => Operand(l) + "||" + Operand(r)
    case _ => Operand(e)
  }

  // ----- Scanning a concatenation

  lemma {:induction false} DepthAppend(a: string, b: string, depth: nat)
    ensures DepthAfter(a + b, depth) == DepthAfter(b, DepthAfter(a, depth))
    decreases |a|
  {
    if a == "" {
      assert a + b == b;
    } else {
      assert (a + b)[1..] == a[1..] + b;
      DepthAppend(a[1..], b, Deeper(depth, a[0]));
    }
  }

  lemma {:induction false} NeverBelowAppend(a: string, b: string, depth: nat)
    requires NeverBelow(a, depth) && NeverBelow(b, DepthAfter(a, depth))
    ensures NeverBelow(a + b, depth)
    decreases |a|
  {
    if a == "" {
      assert a + b == b;
    } else {
      assert (a + b)[1..] == a[1..] + b;
      NeverBelowAppend(a[1..], b, Deeper(depth, a[0]));
    }
  }

  /** Where no `|` starts the second part, the two parts are scanned independently. */
  lemma {:induction false} OrAppend(a: string, b: string, depth: nat)
    requires b == "" || b[0] != '|'
    ensures OrAtTop(a + b, depth) <==> OrAtTop(a, depth) || OrAtTop(b, DepthAfter(a, depth))
    decreases |a|
  {
    if a == "" {
      assert a + b == b;
    } else {
      assert (a + b)[1..] == a[1..] + b;
      OrAppend(a[1..], b, Deeper(depth, a[0]));
    }
  }

  /** A `||` right after a balanced part is found, whatever follows. */
  lemma {:induction false} OrFound(a: string, b: string, depth: nat)
    requires DepthAfter(a, depth) == 0 && |b| >= 2 && b[0] == '|' && b[1] == '|'
    ensures OrAtTop(a + b, depth)
    decreases |a|
  {
    if a == "" {
      assert a + b == b;
    } else {
      assert (a + b)[1..] == a[1..] + b;
      OrFound(a[1..], b, Deeper(depth, a[0]));
    }
  }

  /** Balanced text comes back to the depth it started from. */
  lemma {:induction false} BalancedReturns(s: string, low: nat, depth: nat)
    requires NeverBelow(s, low)
    ensures DepthAfter(s, low + depth) == DepthAfter(s, low) + depth
    ensures NeverBelow(s, low + depth)
    decreases |s|
  {
    if s == "" {
    } else {
      BalancedReturns(s[1..], Deeper(low, s[0]), depth);
      assert Deeper(low + depth, s[0]) == Deeper(low, s[0]) + depth;
    }
  }

  /** Inside parentheses nothing is at the top. */
  lemma {:induction false} NothingInside(s: string, low: nat, depth: nat)
    requires NeverBelow(s, low) && depth > 0
    ensures !OrAtTop(s, low + depth)
    decreases |s|
  {
    if s == "" {
    } else {
      NothingInside(s[1..], Deeper(low, s[0]), depth);
      assert Deeper(low + depth, s[0]) == Deeper(low, s[0]) + depth;
    }
  }

  lemma OperatorBalanced(op: string)
    requires op == "&&" || op == "||"
    ensures Balanced(op)
  {
    assert op[1..] == [op[1]] && op[1..][1..] == "";
    assert DepthAfter(op[1..], 0) == DepthAfter(op[1..][1..], 0) == 0;
  }

  lemma JoinBalanced(a: string, op: string, b: string)
    requires Balanced(a) && Balanced(b) && (op == "&&" || op == "||")
    ensures Balanced(a + op + b)
  {
    OperatorBalanced(op);
    DepthAppend(a, op, 0);
    NeverBelowAppend(a, op, 0);
    DepthAppend(a + op, b, 0);
    NeverBelowAppend(a + op, b, 0);
  }

  lemma Parenthesised(s: string)
    requires Balanced(s)
    ensures Balanced("(" + s + ")") && !OrAtTop("(" + s + ")", 0)
  {
    BalancedReturns(s, 0, 1);
    NothingInside(s, 0, 1);
    DepthAppend(s, ")", 1);
    NeverBelowAppend(s, ")", 1);
    OrAppend(s, ")", 1);
    assert ")"[1..] == "";
    assert ("(" + s + ")")[1..] == s + ")";
  }

  lemma ConjunctionIsClosed(l: string, r: string)
    requires Balanced(l) && Balanced(r) && !OrAtTop(l, 0) && !OrAtTop(r, 0)
    ensures Balanced(l + "&&" + r) && !OrAtTop(l + "&&" + r, 0)
  {
    JoinBalanced(l, "&&", r);
    var tail := "&&" + r;
    assert tail[1..][1..] == r;
    assert tail[1..][0] == '&';
    OrAppend(l, tail, 0);
    assert l + "&&" + r == l + tail;
  }

  /** As an operand every well-formed tree is balanced and shows no top-level `||`. */
  lemma {:induction false} OperandIsClosed(e: Expr)
    requires WellFormed(e)
    ensures Balanced(Operand(e)) && !OrAtTop(Operand(e), 0)
  {
    match e
    case Atom(_) =>
    case And(l, r) =>
      OperandIsClosed(l);
      OperandIsClosed(r);
      ConjunctionIsClosed(Operand(l), Operand(r));
    case Or(l, r) =>
      OperandIsClosed(l);
      OperandIsClosed(r);
      JoinBalanced(Operand(l), "||", Operand(r));
      Parenthesised(Operand(l) + "||" + Operand(r));
      assert "(" + (Operand(l) + "||" + Operand(r)) + ")" == Operand(e);
  }

  /**
   The scanner decides the root: for every tree, printed with each `||` node
   parenthesised except at the root, a top-level `||` is seen exactly when the
   root is a disjunction.
   */
  lemma ScanDecidesRoot(e: Expr)
    requires WellFormed(e)
    ensures OrAtTop(Print(e), 0) <==> e.Or?
  {
    if e.Or? {
      OperandIsClosed(e.left);
      RootIsFound(Operand(e.left), Operand(e.right));
    } else {
      OperandIsClosed(e);
    }
  }

  lemma RootIsFound(l: string, r: string)
    requires Balanced(l)
    ensures OrAtTop(l + "||" + r, 0)
  {
    OrFound(l, "||" + r, 0);
    assert l + ("||" + r) == l + "||" + r;
  }

  // ----- Quoted literals

  const QUOTE := '\''

  /** The same scan, blind inside quoted literals: what a reader of the condition means by top level. */
  predicate OrUnquoted(s: string, depth: nat, quoted: bool) {
    s != "" &&
    if s[0] == QUOTE then OrUnquoted(s[1..], depth, !quoted)
    else if quoted then OrUnquoted(s[1..], depth, true)
    else (s[0] == '|' && depth == 0 && |s| > 1 && s[1] == '|') || OrUnquoted(s[1..], Deeper(depth, s[0]), false)
  }

  /** A condition cut at its quotes: code, and literals between code. */
  datatype Quoted = End(code: string) | Then(code: string, literal: string, rest: Quoted)

  function Text(q: Quoted): (s: string) {
    match q
    case End(code) => code
    case Then(code, literal, rest) => code + Literal(literal) + Text(rest)
  }

  function Literal(content: string): (s: string) { [QUOTE] + content + [QUOTE] }

  /** A literal the scan passes over without effect: balanced, and with no `||` of its own at the top. */
  ghost predicate Harmless(content: string) { Balanced(content) && !OrAtTop(content, 0) }

  /** The quotes in the text are the cuts, and every literal is harmless. */
  ghost predicate HarmlesslyQuoted(q: Quoted) {
    && QUOTE !in q.code
    && (q.Then? ==> QUOTE !in q.literal && Harmless(q.literal) && HarmlesslyQuoted(q.rest))
  }

  /** Scanning up to the next quote, both readings see the same. */
  lemma {:induction false} UnquotedAppend(a: string, b: string, depth: nat)
    requires QUOTE !in a && (b == "" || b[0] == QUOTE)
    ensures OrUnquoted(a + b, depth, false) <==> OrAtTop(a, depth) || OrUnquoted(b, DepthAfter(a, depth), false)
    decreases |a|
  {
    if a == "" {
      assert a + b == b;
    } else {
      assert (a + b)[1..] == a[1..] + b;
      UnquotedAppend(a[1..], b, Deeper(depth, a[0]));
    }
  }

  /** The rest of a literal is skipped. */
  lemma {:induction false} SkipLiteral(content: string, b: string, depth: nat)
    requires QUOTE !in content
    ensures OrUnquoted(content + [QUOTE] + b, depth, true) == OrUnquoted(b, depth, false)
    decreases |content|
  {
    if content == "" {
      assert content + [QUOTE] + b == [QUOTE] + b;
      assert ([QUOTE] + b)[1..] == b;
    } else {
      assert (content + [QUOTE] + b)[1..] == content[1..] + [QUOTE] + b;
      SkipLiteral(content[1..], b, depth);
    }
  }

  /** The plain scan of a literal and what follows: its content counts like any text. */
  lemma {:induction false} ScanLiteral(content: string, b: string, depth: nat)
    ensures OrAtTop(Literal(content) + b, depth) <==> OrAtTop(content, depth) || OrAtTop(b, DepthAfter(content, depth))
  {
    var tail := [QUOTE] + b;
    assert tail[1..] == b;
    assert (Literal(content) + b)[1..] == content + tail;
    OrAppend(content, tail, depth);
    assert OrAtTop(tail, DepthAfter(content, depth)) == OrAtTop(b, DepthAfter(content, depth));
  }

  lemma HarmlessAtDepth(content: string, depth: nat)
    requires Harmless(content)
    ensures DepthAfter(content, depth) == depth && !OrAtTop(content, depth)
  {
    BalancedReturns(content, 0, depth);
    if depth > 0 {
      NothingInside(content, 0, depth);
    }
  }

  /** Where every literal is harmless the scan agrees with the quote-aware reading. */
  lemma {:induction false} HarmlessQuotesAgree(q: Quoted, depth: nat)
    requires HarmlesslyQuoted(q)
    ensures OrAtTop(Text(q), depth) == OrUnquoted(Text(q), depth, false)
    decreases q
  {
    match q
    case End(code) =>
      UnquotedAppend(code, "", depth);
      assert code + "" == code;
    case Then(code, literal, rest) =>
      var tail := Literal(literal) + Text(rest);
      var after := DepthAfter(code, depth);
      assert Text(q) == code + tail;
      OrAppend(code, tail, depth);
      UnquotedAppend(code, tail, depth);
      ScanLiteral(literal, Text(rest), after);
      HarmlessAtDepth(literal, after);
      assert tail[1..] == literal + [QUOTE] + Text(rest);
      SkipLiteral(literal, Text(rest), after);
      HarmlessQuotesAgree(rest, after);
  }

  /** Below a stray closing parenthesis one more level makes no difference. */
  lemma {:induction false} StrayCloseForgets(s: string, low: nat)
    requires !NeverBelow(s, low)
    ensures DepthAfter(s, low + 1) == DepthAfter(s, low)
    decreases |s|
  {
    if s[0] == ')' && low == 0 {
    } else {
      StrayCloseForgets(s[1..], Deeper(low, s[0]));
      assert Deeper(low + 1, s[0]) == Deeper(low, s[0]) + 1;
    }
  }

  /** Code around a single literal. */
  function Around(before: string, literal: string, after: string): (s: string) { before + Literal(literal) + after }

  ghost predicate AgreesAround(before: string, literal: string, after: string) {
    OrAtTop(Around(before, literal, after), 0) == OrUnquoted(Around(before, literal, after), 0, false)
  }

  lemma AroundReadings(before: string, literal: string, after: string)
    requires QUOTE !in before && QUOTE !in literal
    ensures var d := DepthAfter(before, 0);
            && (OrAtTop(Around(before, literal, after), 0) <==>
                  OrAtTop(before, 0) || OrAtTop(literal, d) || OrAtTop(after, DepthAfter(literal, d)))
            && (OrUnquoted(Around(before, literal, after), 0, false) <==>
                  OrAtTop(before, 0) || OrUnquoted(after, d, false))
  {
    var tail, d := Literal(literal) + after, DepthAfter(before, 0);
    assert Around(before, literal, after) == before + tail;
    OrAppend(before, tail, 0);
    UnquotedAppend(before, tail, 0);
    ScanLiteral(literal, after, d);
    assert tail[1..] == literal + [QUOTE] + after;
    SkipLiteral(literal, after, d);
  }

  lemma OrAlone(depth: nat)
    ensures OrAtTop("||", depth) == OrUnquoted("||", depth, false) == (depth == 0)
    ensures !OrAtTop("", depth) && !OrUnquoted("", depth, false)
  {
    assert "||"[1..] == "|" && "|"[1..] == "";
    assert !OrAtTop("|", depth) && !OrUnquoted("|", depth, false);
  }

  lemma OpenAlone()
    ensures DepthAfter("(", 0) == 1 && !OrAtTop("(", 0) && DepthAfter("", 0) == 0
  {
    assert "("[1..] == "";
    assert DepthAfter("(", 0) == DepthAfter("", 1) == 1;
  }

  /** For a literal that is not harmless there is code around it on which the two readings part. */
  lemma HarmIsVisible(literal: string) returns (before: string, after: string)
    requires QUOTE !in literal && !Harmless(literal)
    ensures QUOTE !in before && QUOTE !in after && !AgreesAround(before, literal, after)
  {
    OpenAlone();
    before, after := "", "";
    if OrAtTop(literal, 0) {
      OrAlone(DepthAfter(literal, 0));
    } else if DepthAfter(literal, 0) > 0 {
      after := "||";
      OrAlone(DepthAfter(literal, 0));
      OrAlone(0);
    } else {
      StrayCloseForgets(literal, 0);
      before, after := "(", "||";
      OrAlone(0);
      OrAlone(1);
    }
    AroundReadings(before, literal, after);
    OrAlone(0);
  }

  /**
   Exactly which literals the scan can be trusted over: it agrees with the
   quote-aware reading whatever code surrounds the literal if and only if the
   literal is balanced and shows no top-level `||` of its own.
   */
  lemma LiteralIsHarmlessIff(literal: string)
    requires QUOTE !in literal
    ensures (forall before, after :: QUOTE !in before && QUOTE !in after ==> AgreesAround(before, literal, after))
            <==> Harmless(literal)
  {
    if Harmless(literal) {
      forall before, after | QUOTE !in before && QUOTE !in after ensures AgreesAround(before, literal, after) {
        HarmlessQuotesAgree(Then(before, literal, End(after)), 0);
      }
    } else {
      var before, after := HarmIsVisible(literal);
    }
  }

  /** A parenthesis in a literal hides the disjunction after it. */
  lemma QuotedParenthesisHides()
    ensures !OrAtTop("x=='('||y", 0) && OrUnquoted("x=='('||y", 0, false)
  {
    assert "x=='('||y" == Around("x==", "(", "||y");
    AroundReadings("x==", "(", "||y");
    OpenAlone();
    assert "x=="[1..] == "==" && "=="[1..] == "=" && "="[1..] == "";
    assert DepthAfter("x==", 0) == DepthAfter("==", 0) == DepthAfter("=", 0) == 0;
    assert "||y"[1..] == "|y" && "|y"[1..] == "y" && "y"[1..] == "";
    assert !OrAtTop("==", 0) && !OrAtTop("|y", 1);
  }
}
