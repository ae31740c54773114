/** The expressions allowed inside a `{{ ... }}` placeholder. The source hands
    the expression to the JavaScript engine; this model evaluates a bounded
    subset of it instead: identifiers bound by the render bindings, the
    literals `true`, `false`, `null`, `undefined`, decimal integers and quoted
    strings without escapes, member access `a.b`, `+`, `===`, `!==`, the
    conditional `c ? a : b` and parentheses. Anything else is refused with
    `Unsupported`. */
module Expression {
  import opened Wrappers
  import opened JsString
  import opened JsValue

  datatype Token =
    | TIdent(name: string)
    | TString(text: string)
    | TNumber(n: nat)
    | TDot | TPlus | TQuestion | TColon | TOpen | TClose | TStrictEq | TStrictNe

  predicate IsIdentStart(c: char) {
    ('a' <= c <= 'z') || ('A' <= c <= 'Z') || c == '_' || c == '$'
  }

  predicate IsIdentPart(c: char) {
    IsIdentStart(c) || IsDigit(c)
  }

  /** The length of the longest prefix of `s` made of identifier characters. */
  function IdentLength(s: string): (n: nat)
    ensures n <= |s|
    ensures forall i :: 0 <= i < n ==> IsIdentPart(s[i])
    ensures n < |s| ==> !IsIdentPart(s[n])
  {
    if s == [] || !IsIdentPart(s[0]) then 0 else 1 + IdentLength(s[1..])
  }

  /** The length of the longest prefix of `s` made of decimal digits. */
  function DigitsLength(s: string): (n: nat)
    ensures n <= |s|
    ensures forall i :: 0 <= i < n ==> IsDigit(s[i])
    ensures n < |s| ==> !IsDigit(s[n])
  {
    if s == [] || !IsDigit(s[0]) then 0 else 1 + DigitsLength(s[1..])
  }

  predicate IsLineTerminator(c: char) {
    c == '\n' || c == '\r' || c == '\U{2028}' || c == '\U{2029}'
  }

  /** The index of the quote `q` that closes a string literal whose body starts
      `s`, or None when the literal does not close or holds an escape or a line
      break before it closes. */
  function QuoteEnd(s: string, q: char): (r: Option<nat>)
    ensures r.Some? ==> r.value < |s| && s[r.value] == q
    ensures r.Some? ==> forall i :: 0 <= i < r.value ==> s[i] != q && s[i] != '\\' && !IsLineTerminator(s[i])
  {
    if s == [] || s[0] == '\\' || IsLineTerminator(s[0]) then None
    else if s[0] == q then Some(0)
    else match QuoteEnd(s[1..], q)
      case None => None
      case Some(i) => Some(i + 1)
  }

  /** Words the model does not read as a binding name: the reserved words of
      sloppy-mode code (the function body the source builds), among them
      `this`, and `arguments`, which names the function's own arguments.
      The literals `true`, `false` and `null` are read by KeywordValue. */
  const Refused: set<string> := {
    "break", "case", "catch", "class", "const", "continue", "debugger", "default",
    "delete", "do", "else", "enum", "export", "extends", "finally", "for",
    "function", "if", "import", "in", "instanceof", "new", "return", "super",
    "switch", "this", "throw", "try", "typeof", "var", "void", "while", "with",
    "arguments"}

  /** The tokens of an expression text. A numeral of two or more digits that
      starts with `0` is a legacy octal (or decimal) literal and is refused. A
      numeral directly followed by `.` is refused too: JavaScript reads the `.`
      as the numeral's decimal point, so `5.5` is a fraction and `5.x` a
      syntax error, never the member access `(5).x`. */
  function Tokenize(s: string): Result<seq<Token>, JsError>
    decreases |s|
  {
    if s == [] then Success([])
    else if IsSpace(s[0]) then Tokenize(s[1..])
    else if IsIdentStart(s[0]) then
      var n := IdentLength(s);
      if s[..n] in Refused then Failure(Unsupported(s[..n]))
      else
        var rest :- Tokenize(s[n..]);
        Success([TIdent(s[..n])] + rest)
    else if IsDigit(s[0]) then
      var n := DigitsLength(s);
      if n > 1 && s[0] == '0' then Failure(Unsupported("legacy octal literal"))
      else if n < |s| && s[n] == '.' then Failure(Unsupported("decimal point"))
      else
        var rest :- Tokenize(s[n..]);
        match ParseNat(s[..n])
        case Some(v) => Success([TNumber(v)] + rest)
        case None => Failure(Unsupported("number"))
    else if s[0] == '"' || s[0] == '\'' then
      match QuoteEnd(s[1..], s[0])
      case None => Failure(Unsupported("string literal"))
      case Some(i) =>
        var rest :- Tokenize(s[i + 2..]);
        Success([TString(s[1..i + 1])] + rest)
    else if |s| >= 3 && s[..3] == "===" then
      var rest :- Tokenize(s[3..]);
      Success([TStrictEq] + rest)
    else if |s| >= 3 && s[..3] == "!==" then
      var rest :- Tokenize(s[3..]);
      Success([TStrictNe] + rest)
    else
      var t :=
        if s[0] == '.' then Some(TDot) else if s[0] == '+' then Some(TPlus)
        else if s[0] == '?' then Some(TQuestion) else if s[0] == ':' then Some(TColon)
        else if s[0] == '(' then Some(TOpen) else if s[0] == ')' then Some(TClose)
        else None;
      match t
      case None => Failure(Unsupported([s[0]]))
      case Some(tok) =>
        var rest :- Tokenize(s[1..]);
        Success([tok] + rest)
  }

  datatype Expr =
    | Var(name: string)
    | Literal(value: Value)
    | Dot(target: Expr, name: string)
    | Plus(left: Expr, right: Expr)
    | StrictEq(left: Expr, right: Expr, negated: bool)
    | Cond(test: Expr, ifTrue: Expr, ifFalse: Expr)

  /** A parsed expression and the tokens after it. */
  datatype Parse = Parse(expr: Expr, rest: seq<Token>)

  /** The identifiers that denote a literal value rather than a binding. */
  function KeywordValue(x: string): Option<Value> {
    if x == "true" then Some(Bool(true))
    else if x == "false" then Some(Bool(false))
    else if x == "null" then Some(Null)
    else if x == "undefined" then Some(Undefined)
    else None
  }

  // Recursive descent, lowest precedence first: conditional, equality,
  // additive, member access, primary. Every successful parse consumes at
  // least one token, which is what makes the descent terminate.

  function ParseConditional(ts: seq<Token>): (r: Result<Parse, JsError>)
    ensures r.Success? ==> |r.value.rest| < |ts|
    decreases |ts|, 4
  {
    var test :- ParseEquality(ts);
    if test.rest != [] && test.rest[0] == TQuestion then
      var yes :- ParseConditional(test.rest[1..]);
      if yes.rest != [] && yes.rest[0] == TColon then
        var no :- ParseConditional(yes.rest[1..]);
        Success(Parse(Cond(test.expr, yes.expr, no.expr), no.rest))
      else Failure(Unsupported("conditional without ':'"))
    else Success(test)
  }

  function ParseEquality(ts: seq<Token>): (r: Result<Parse, JsError>)
    ensures r.Success? ==> |r.value.rest| < |ts|
    decreases |ts|, 3
  {
    var left :- ParseAdditive(ts);
    EqualityTail(left.expr, left.rest)
  }

  function EqualityTail(left: Expr, ts: seq<Token>): (r: Result<Parse, JsError>)
    ensures r.Success? ==> |r.value.rest| <= |ts|
    decreases |ts|, 3
  {
    if ts != [] && (ts[0] == TStrictEq || ts[0] == TStrictNe) then
      var right :- ParseAdditive(ts[1..]);
      EqualityTail(StrictEq(left, right.expr, ts[0] == TStrictNe), right.rest)
    else Success(Parse(left, ts))
  }

  function ParseAdditive(ts: seq<Token>): (r: Result<Parse, JsError>)
    ensures r.Success? ==> |r.value.rest| < |ts|
    decreases |ts|, 2
  {
    var left :- ParseMember(ts);
    AdditiveTail(left.expr, left.rest)
  }

  function AdditiveTail(left: Expr, ts: seq<Token>): (r: Result<Parse, JsError>)
    ensures r.Success? ==> |r.value.rest| <= |ts|
    decreases |ts|, 2
  {
    if ts != [] && ts[0] == TPlus then
      var right :- ParseMember(ts[1..]);
      AdditiveTail(Plus(left, right.expr), right.rest)
    else Success(Parse(left, ts))
  }

  function ParseMember(ts: seq<Token>): (r: Result<Parse, JsError>)
    ensures r.Success? ==> |r.value.rest| < |ts|
    decreases |ts|, 1
  {
    var target :- ParsePrimary(ts);
    Success(MemberTail(target.expr, target.rest))
  }

  function MemberTail(target: Expr, ts: seq<Token>): (r: Parse)
    ensures |r.rest| <= |ts|
    decreases |ts|
  {
    if |ts| >= 2 && ts[0] == TDot && ts[1].TIdent? then MemberTail(Dot(target, ts[1].name), ts[2..])
    else Parse(target, ts)
  }

  function ParsePrimary(ts: seq<Token>): (r: Result<Parse, JsError>)
    ensures r.Success? ==> |r.value.rest| < |ts|
    decreases |ts|, 0
  {
    if ts == [] then Failure(Unsupported("missing operand"))
    else match ts[0]
      case TIdent(x) =>
        var e := match KeywordValue(x) case Some(v) => Literal(v) case None => Var(x);
        Success(Parse(e, ts[1..]))
      case TString(text) => Success(Parse(Literal(Str(text)), ts[1..]))
      case TNumber(n) => Success(Parse(Literal(Num(n)), ts[1..]))
      case TOpen =>
        var inner :- ParseConditional(ts[1..]);
        if inner.rest != [] && inner.rest[0] == TClose then Success(Parse(inner.expr, inner.rest[1..]))
        else Failure(Unsupported("unbalanced parenthesis"))
      case _ => Failure(Unsupported("operand"))
  }

  /** Strings, arrays and objects turn `+` into concatenation. */
  predicate StringLike(v: Value) {
    v.Str? || v.Arr? || v.Obj?
  }

  /** `a + b`: concatenation when either side converts to a string, numeric
      addition of numbers, booleans and null otherwise. A sum involving
      undefined is NaN, which the model does not represent. */
  function Add(a: Value, b: Value): Result<Value, JsError> {
    if StringLike(a) || StringLike(b) then Success(Str(ToStr(a) + ToStr(b)))
    else if a.Undefined? || b.Undefined? then Failure(Unsupported("NaN"))
    else Success(Num(ToNumeric(a) + ToNumeric(b)))
  }

  function ToNumeric(v: Value): int
    requires v.Num? || v.Bool? || v.Null?
  {
    match v
    case Num(n) => n
    case Bool(b) => if b then 1 else 0
    case Null => 0
  }

  /** Evaluation in the scope of the bindings, left operand first; the
      conditional evaluates only the branch it takes. */
  function Eval(e: Expr, vars: map<string, Value>): Result<Value, JsError> {
    match e
    case Var(x) => if x in vars then Success(vars[x]) else Failure(ReferenceError(x))
    case Literal(v) => Success(v)
    case Dot(target, name) =>
      var v :- Eval(target, vars);
      Member(v, name)
    case Plus(l, r) =>
      var a :- Eval(l, vars);
      var b :- Eval(r, vars);
      Add(a, b)
    case StrictEq(l, r, negated) =>
      var a :- Eval(l, vars);
      var b :- Eval(r, vars);
      var same :- StrictEquals(a, b);
      Success(Bool(same != negated))
    case Cond(test, ifTrue, ifFalse) =>
      var c :- Eval(test, vars);
      if Truthy(c) then Eval(ifTrue, vars) else Eval(ifFalse, vars)
  }

  /** The syntax tree of the expression text `code`; a syntax error is found
      before anything is evaluated. */
  function CompileExpr(code: string): Result<Expr, JsError> {
    var tokens :- Tokenize(code);
    var parsed :- ParseConditional(tokens);
    if parsed.rest != [] then Failure(Unsupported("trailing tokens"))
    else Success(parsed.expr)
  }

  /** The value of the expression text `code` under `vars`. */
  function Evaluate(code: string, vars: map<string, Value>): Result<Value, JsError> {
    var e :- CompileExpr(code);
    Eval(e, vars)
  }

  /** A name a template can use to refer to a binding. */
  predicate IsIdentifier(x: string) {
    && |x| >= 1 && IsIdentStart(x[0])
    && (forall i :: 0 <= i < |x| ==> IsIdentPart(x[i]))
    && KeywordValue(x).None?
    && x !in Refused
  }

  lemma TokenizeIdentifier(x: string)
    requires IsIdentifier(x)
    ensures Tokenize(x) == Success([TIdent(x)])
  {
    var n := IdentLength(x);
    assert n == |x|;
    assert x[n..] == [] && x[..n] == x;
    assert !IsSpace(x[0]);
    assert Tokenize(x[n..]) == Success([]);
    assert !IsDigit(x[0]) && x[0] != '"' && x[0] != '\'';
    assert [TIdent(x[..n])] + [] == [TIdent(x)];
  }

  /** An identifier compiles to a reference to the binding of that name ... */
  lemma CompileIdentifier(x: string)
    requires IsIdentifier(x)
    ensures CompileExpr(x) == Success(Var(x))
  {
    TokenizeIdentifier(x);
    var ts := [TIdent(x)];
    assert ts[1..] == [];
    assert ParsePrimary(ts) == Success(Parse(Var(x), []));
    assert ParseMember(ts) == Success(Parse(Var(x), []));
    assert ParseAdditive(ts) == Success(Parse(Var(x), []));
    assert ParseEquality(ts) == Success(Parse(Var(x), []));
    assert ParseConditional(ts) == Success(Parse(Var(x), []));
  }

  /** ... so it evaluates to its binding, and raises a ReferenceError when it
      has none. */
  lemma EvaluateIdentifier(x: string, vars: map<string, Value>)
    requires IsIdentifier(x)
    ensures x in vars ==> Evaluate(x, vars) == Success(vars[x])
    ensures x !in vars ==> Evaluate(x, vars) == Failure(ReferenceError(x))
  {
    CompileIdentifier(x);
  }

  /** A reserved word, `this` or `arguments` is refused, not read as an
      unbound name. */
  lemma RefusedWordIsRefused(x: string, vars: map<string, Value>)
    requires |x| >= 1 && IsIdentStart(x[0]) && (forall i :: 0 <= i < |x| ==> IsIdentPart(x[i]))
    requires x in Refused
    ensures Evaluate(x, vars) == Failure(Unsupported(x))
  {
    var n := IdentLength(x);
    assert n == |x|;
    assert x[..n] == x;
    assert !IsSpace(x[0]);
    assert Tokenize(x) == Failure(Unsupported(x));
  }

  lemma RefusedExamples(vars: map<string, Value>)
    ensures Evaluate("this", vars) == Failure(Unsupported("this"))
    ensures Evaluate("arguments", vars) == Failure(Unsupported("arguments"))
  {
    RefusedWordIsRefused("this", vars);
    RefusedWordIsRefused("arguments", vars);
  }

  /** A numeral of two or more digits with a leading zero is refused, not
      read as a decimal number. */
  lemma LeadingZeroRefused(s: string, vars: map<string, Value>)
    requires |s| >= 2 && s[0] == '0' && IsDigit(s[1])
    ensures Evaluate(s, vars) == Failure(Unsupported("legacy octal literal"))
  {
    assert DigitsLength(s) == 1 + DigitsLength(s[1..]);
    assert s[1..][0] == s[1];
    assert DigitsLength(s[1..]) >= 1;
    assert !IsSpace(s[0]) && !IsIdentStart(s[0]);
  }

  /** The digit run of `d + t` is `d` when `t` does not start with a digit. */
  lemma {:induction false} DigitsLengthOf(d: string, t: string)
    requires forall i :: 0 <= i < |d| ==> IsDigit(d[i])
    requires t == [] || !IsDigit(t[0])
    ensures DigitsLength(d + t) == |d|
    decreases |d|
  {
    if d != [] {
      assert (d + t)[0] == d[0] && (d + t)[1..] == d[1..] + t;
      DigitsLengthOf(d[1..], t);
    } else {
      assert d + t == t;
    }
  }

  /** A numeral directly followed by `.` is refused, whatever follows the
      point: a fraction such as `5.5` is not modelled, and `5.x` or `5. x` is a
      syntax error in JavaScript. A numeral with a leading zero is refused
      before its point is looked at. */
  lemma NumeralPointRefused(d: string, t: string, vars: map<string, Value>)
    requires |d| >= 1 && (forall i :: 0 <= i < |d| ==> IsDigit(d[i]))
    requires |d| == 1 || d[0] != '0'
    ensures Evaluate(d + "." + t, vars) == Failure(Unsupported("decimal point"))
  {
    var s := d + "." + t;
    assert s == d + ("." + t);
    DigitsLengthOf(d, "." + t);
    assert s[0] == d[0] && s[|d|] == '.';
    assert !IsSpace(s[0]) && !IsIdentStart(s[0]);
    assert Tokenize(s) == Failure(Unsupported("decimal point"));
  }

  lemma NumeralPointExamples(vars: map<string, Value>)
    ensures Evaluate("5.x", vars) == Failure(Unsupported("decimal point"))
    ensures Evaluate("5. x", vars) == Failure(Unsupported("decimal point"))
  {
    assert IsDigit('5');
    assert "5.x" == "5" + "." + "x" && "5. x" == "5" + "." + " x";
    NumeralPointRefused("5", "x", vars);
    NumeralPointRefused("5", " x", vars);
  }

  /** A sum of three operands groups to the left: `(x + y) + z`. */
  lemma SumAssociatesLeft(x: string, y: string, z: string)
    requires IsIdentifier(x) && IsIdentifier(y) && IsIdentifier(z)
    ensures ParseConditional([TIdent(x), TPlus, TIdent(y), TPlus, TIdent(z)])
         == Success(Parse(Plus(Plus(Var(x), Var(y)), Var(z)), []))
  {
    var ts := [TIdent(x), TPlus, TIdent(y), TPlus, TIdent(z)];
    assert ParseMember(ts) == Success(Parse(Var(x), ts[1..]));
    assert ParseMember(ts[2..]) == Success(Parse(Var(y), ts[3..]));
    assert ParseMember(ts[4..]) == Success(Parse(Var(z), []));
    assert AdditiveTail(Plus(Plus(Var(x), Var(y)), Var(z)), []) == Success(Parse(Plus(Plus(Var(x), Var(y)), Var(z)), []));
    assert AdditiveTail(Plus(Var(x), Var(y)), ts[3..]) == Success(Parse(Plus(Plus(Var(x), Var(y)), Var(z)), []));
    assert AdditiveTail(Var(x), ts[1..]) == Success(Parse(Plus(Plus(Var(x), Var(y)), Var(z)), []));
    assert ParseEquality(ts) == Success(Parse(Plus(Plus(Var(x), Var(y)), Var(z)), []));
  }

  /** Left to right: numbers add until a string is met, and from then on the
      sum is a concatenation. */
  lemma MixedSum(vars: map<string, Value>)
    requires vars == map["a" := Num(1), "b" := Num(2), "c" := Str("x")]
    ensures Eval(Plus(Plus(Var("a"), Var("b")), Var("c")), vars) == Success(Str("3x"))
    ensures Eval(Plus(Plus(Var("c"), Var("a")), Var("b")), vars) == Success(Str("x12"))
  {
    assert Eval(Var("a"), vars) == Success(Num(1));
    assert Eval(Var("b"), vars) == Success(Num(2));
    assert Eval(Var("c"), vars) == Success(Str("x"));
    assert DigitChar(1) == '1' && DigitChar(2) == '2' && DigitChar(3) == '3';
    assert NatToString(1) == [DigitChar(1)] && NatToString(2) == [DigitChar(2)] && NatToString(3) == [DigitChar(3)];
    assert IntToString(1) == "1" && IntToString(2) == "2" && IntToString(3) == "3";
    assert ToStr(Num(3)) == "3" && ToStr(Num(1)) == "1" && ToStr(Num(2)) == "2";
    assert "3" + "x" == "3x" && "x" + "1" == "x1" && "x1" + "2" == "x12";
    assert Add(Num(1), Num(2)) == Success(Num(3));
    assert Add(Num(3), Str("x")) == Success(Str("3" + "x"));
    assert Add(Str("x"), Num(1)) == Success(Str("x" + "1"));
    assert Add(Str("x1"), Num(2)) == Success(Str("x1" + "2"));
    assert Eval(Plus(Var("a"), Var("b")), vars) == Add(Num(1), Num(2));
    assert Eval(Plus(Var("c"), Var("a")), vars) == Add(Str("x"), Num(1));
    assert Eval(Plus(Plus(Var("a"), Var("b")), Var("c")), vars) == Add(Num(3), Str("x"));
    assert Eval(Plus(Plus(Var("c"), Var("a")), Var("b")), vars) == Add(Str("x1"), Num(2));
  }
}
