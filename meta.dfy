// The statement-list rewrite behind the owner's eval command: make the body of
// the wrapper function return the value of its last expression statement.

module Meta {
  import opened Wrappers

  /** An expression, kept as its source text. */
  type Expr = string

  /**
   * The statements the rewrite distinguishes. Every other statement (an
   * assignment, a loop, an async with, ...) is Other.
   */
  datatype Stmt =
    | ExprStmt(value: Expr)
    | Return(result: Option<Expr>)
    | If(test: Expr, body: seq<Stmt>, orelse: seq<Stmt>)
    | With(items: seq<Expr>, body: seq<Stmt>)
    | Other(kind: string)

  /** body[-1] on an empty list. */
  datatype RewriteError = IndexError

  /**
   * The rewrite as written: a trailing expression statement becomes a return
   * of the same value; a trailing if is rewritten in both branches, a
   * trailing with in its body; anything else is left alone. Every list it
   * visits must be non-empty.
   */
  function InsertReturns(body: seq<Stmt>): Result<seq<Stmt>, RewriteError>
    decreases body
  {
    if body == [] then Err(IndexError)
    else
      var n := |body| - 1;
      match body[n]
      case ExprStmt(v) => Ok(body[..n] + [Return(Some(v))])
      case If(t, b, e) =>
        (match InsertReturns(b)
         case Err(x) => Err(x)
         case Ok(b2) =>
           match InsertReturns(e)
           case Err(x) => Err(x)
           case Ok(e2) => Ok(body[..n] + [If(t, b2, e2)]))
      case With(items, b) =>
        (match InsertReturns(b)
         case Err(x) => Err(x)
         case Ok(b2) => Ok(body[..n] + [With(items, b2)]))
      case _ => Ok(body)
  }

  /** Every list the rewrite visits (the list, then the branches of a trailing if or with) is non-empty. */
  predicate Rewritable(body: seq<Stmt>)
    decreases body
  {
    body != []
    && match body[|body| - 1]
       case If(_, b, e) => Rewritable(b) && Rewritable(e)
       case With(_, b) => Rewritable(b)
       case _ => true
  }

  /** No visited list ends in a bare expression statement; empty lists are allowed. */
  predicate NoTrailingExpr(body: seq<Stmt>)
    decreases body
  {
    body == []
    || match body[|body| - 1]
       case ExprStmt(_) => false
       case If(_, b, e) => NoTrailingExpr(b) && NoTrailingExpr(e)
       case With(_, b) => NoTrailingExpr(b)
       case _ => true
  }

  /**
   * t is s with its last statement rewritten: same length, the same leading
   * statements, and the last ones related by RewrittenLast. The empty list
   * is related to the empty list only.
   */
  predicate RewrittenList(s: seq<Stmt>, t: seq<Stmt>)
    decreases s
  {
    |t| == |s|
    && (s != [] ==> t[..|s| - 1] == s[..|s| - 1] && RewrittenLast(s[|s| - 1], t[|s| - 1]))
  }

  /**
   * How a trailing statement is rewritten: an expression statement becomes a
   * return of its value, an if keeps its test and has both branches
   * rewritten, a with keeps its items and has its body rewritten, and any
   * other statement stays as it is.
   */
  predicate RewrittenLast(x: Stmt, y: Stmt)
    decreases x
  {
    match x
    case ExprStmt(v) => y == Return(Some(v))
    case If(c, b, e) => y.If? && y.test == c && RewrittenList(b, y.body) && RewrittenList(e, y.orelse)
    case With(items, b) => y.With? && y.items == items && RewrittenList(b, y.body)
    case _ => y == x
  }

  /**
   * The rewrite fails exactly when a visited list is empty. Otherwise the
   * result is the body rewritten at every visited level (RewrittenList), and
   * no visited list ends in an expression.
   */
  lemma {:induction false} InsertReturnsSpec(body: seq<Stmt>)
    ensures InsertReturns(body).Err? <==> !Rewritable(body)
    ensures var r := InsertReturns(body);
            r.Ok? ==> RewrittenList(body, r.value) && NoTrailingExpr(r.value) && Rewritable(r.value)
    decreases body
  {
    if body != [] {
      var n := |body| - 1;
      match body[n]
      case ExprStmt(v) =>
        var r := body[..n] + [Return(Some(v))];
        assert r[..n] == body[..n];
      case If(t, b, e) =>
        InsertReturnsSpec(b);
        InsertReturnsSpec(e);
        if InsertReturns(b).Ok? && InsertReturns(e).Ok? {
          var r := body[..n] + [If(t, InsertReturns(b).value, InsertReturns(e).value)];
          assert r[..n] == body[..n];
        }
      case With(items, b) =>
        InsertReturnsSpec(b);
        if InsertReturns(b).Ok? {
          var r := body[..n] + [With(items, InsertReturns(b).value)];
          assert r[..n] == body[..n];
        }
      case _ =>
    }
  }

  /** A list that already ends in values at every visited level is left as it is, and only such a list is. */
  lemma {:induction false} InsertReturnsFixedPoint(body: seq<Stmt>)
    requires Rewritable(body)
    ensures InsertReturns(body) == Ok(body) <==> NoTrailingExpr(body)
    decreases body
  {
    InsertReturnsSpec(body);
    var n := |body| - 1;
    match body[n]
    case ExprStmt(v) =>
    case If(t, b, e) =>
      InsertReturnsFixedPoint(b);
      InsertReturnsFixedPoint(e);
      var r := InsertReturns(body).value;
      assert r == body[..n] + [If(t, InsertReturns(b).value, InsertReturns(e).value)];
      assert r[n] == If(t, InsertReturns(b).value, InsertReturns(e).value);
      if NoTrailingExpr(body) {
        assert body[..n] + [If(t, b, e)] == body;
      }
    case With(items, b) =>
      InsertReturnsFixedPoint(b);
      var r := InsertReturns(body).value;
      assert r == body[..n] + [With(items, InsertReturns(b).value)];
      assert r[n] == With(items, InsertReturns(b).value);
      if NoTrailingExpr(body) {
        assert body[..n] + [With(items, b)] == body;
      }
    case _ =>
  }

  /** Rewriting twice is rewriting once: a return is never rewritten again. */
  lemma InsertReturnsIdempotent(body: seq<Stmt>)
    requires InsertReturns(body).Ok?
    ensures InsertReturns(InsertReturns(body).value) == InsertReturns(body)
  {
    InsertReturnsSpec(body);
    InsertReturnsFixedPoint(InsertReturns(body).value);
  }

  /** A trailing if without an else: its then-branch is fine, but the empty else-branch raises IndexError. */
  lemma TrailingIfWithoutElseFails(c: Expr, v: Expr)
    ensures InsertReturns([If(c, [ExprStmt(v)], [])]) == Err(IndexError)
  {
    assert [If(c, [ExprStmt(v)], [])][0] == If(c, [ExprStmt(v)], []);
  }

  /** The rewrite with empty lists skipped, as the eval command evidently intends. */
  function InsertReturnsGuarded(body: seq<Stmt>): seq<Stmt>
    decreases body
  {
    if body == [] then []
    else
      var n := |body| - 1;
      match body[n]
      case ExprStmt(v) => body[..n] + [Return(Some(v))]
      case If(t, b, e) => body[..n] + [If(t, InsertReturnsGuarded(b), InsertReturnsGuarded(e))]
      case With(items, b) => body[..n] + [With(items, InsertReturnsGuarded(b))]
      case _ => body
  }

  /**
   * The guarded rewrite never fails: it rewrites the body at every visited
   * level, an empty list staying empty, leaves no visited list ending in an
   * expression, and agrees with the rewrite as written wherever that succeeds.
   */
  lemma {:induction false} InsertReturnsGuardedSpec(body: seq<Stmt>)
    ensures var g := InsertReturnsGuarded(body);
            RewrittenList(body, g)
            && NoTrailingExpr(g)
            && (InsertReturns(body).Ok? ==> InsertReturns(body).value == g)
    decreases body
  {
    if body != [] {
      var n := |body| - 1;
      match body[n]
      case ExprStmt(v) =>
        assert (body[..n] + [Return(Some(v))])[..n] == body[..n];
      case If(t, b, e) =>
        InsertReturnsGuardedSpec(b);
        InsertReturnsGuardedSpec(e);
        assert (body[..n] + [If(t, InsertReturnsGuarded(b), InsertReturnsGuarded(e))])[..n] == body[..n];
      case With(items, b) =>
        InsertReturnsGuardedSpec(b);
        assert (body[..n] + [With(items, InsertReturnsGuarded(b))])[..n] == body[..n];
      case _ =>
    }
  }

  /** The relation leaves no choice: a list rewritten from body is the guarded rewrite of body. */
  lemma {:induction false} RewrittenListUnique(body: seq<Stmt>, t: seq<Stmt>)
    requires RewrittenList(body, t)
    ensures t == InsertReturnsGuarded(body)
    decreases body
  {
    if body != [] {
      var n := |body| - 1;
      var y := t[n];
      assert t == t[..n] + [y];
      match body[n]
      case ExprStmt(v) =>
      case If(c, b, e) =>
        RewrittenListUnique(b, y.body);
        RewrittenListUnique(e, y.orelse);
      case With(items, b) =>
        RewrittenListUnique(b, y.body);
      case _ =>
        assert t == body;
    }
  }

  /** The corrected rewrite on the failing input: the then-branch returns its value, the missing else stays empty. */
  lemma TrailingIfWithoutElseGuarded(c: Expr, v: Expr)
    ensures InsertReturnsGuarded([If(c, [ExprStmt(v)], [])]) == [If(c, [Return(Some(v))], [])]
  {
    var inner := InsertReturnsGuarded([ExprStmt(v)]);
    assert [ExprStmt(v)][..0] == [];
    assert inner == [] + [Return(Some(v))];
    var body := [If(c, [ExprStmt(v)], [])];
    assert body[0] == If(c, [ExprStmt(v)], []) && body[..0] == [];
    assert InsertReturnsGuarded(body) == [] + [If(c, inner, InsertReturnsGuarded([]))];
    assert InsertReturnsGuarded([]) == [];
    assert [] + [Return(Some(v))] == [Return(Some(v))];
    assert [] + [If(c, [Return(Some(v))], [])] == [If(c, [Return(Some(v))], [])];
  }

  /**
   * The rewrite applied in place to the top-level statement list, as the
   * command does on the parsed wrapper function. Nested lists are values
   * here, so the last statement is replaced as a whole. On failure the list
   * is left unchanged.
   */
  method InsertReturnsInPlace(a: array<Stmt>) returns (ok: bool)
    modifies a
    ensures ok <==> Rewritable(old(a[..]))
    ensures ok ==> InsertReturns(old(a[..])) == Ok(a[..])
    ensures !ok ==> a[..] == old(a[..])
  {
    ghost var s := a[..];
    InsertReturnsSpec(s);
    ok := a.Length > 0;
    if !ok {
      return;
    }
    var n := a.Length - 1;
    assert s[n] == a[n];
    match a[n]
    case ExprStmt(v) =>
      a[n] := Return(Some(v));
      assert a[..] == s[..n] + [Return(Some(v))];
    case If(t, b, e) =>
      var b2 := InsertReturns(b);
      var e2 := InsertReturns(e);
      if b2.Err? || e2.Err? {
        return false;
      }
      a[n] := If(t, b2.value, e2.value);
      assert a[..] == s[..n] + [If(t, b2.value, e2.value)];
    case With(items, b) =>
      var b2 := InsertReturns(b);
      if b2.Err? {
        return false;
      }
      a[n] := With(items, b2.value);
      assert a[..] == s[..n] + [With(items, b2.value)];
    case _ =>
  }
}
