/** `render(tpl, vars)`: every `{{ expression }}` placeholder of a template is
    replaced by the string value of its expression, evaluated with the
    bindings as variables; the text around placeholders is copied. The source
    turns the template into the body of a JavaScript template literal and
    compiles it with `new Function`; the model splits the template the way the
    placeholder regular expression does, compiles the pieces (a syntax error
    anywhere fails the whole template before anything is evaluated) and then
    evaluates the placeholders left to right. */
module Template {
  import opened Wrappers
  import opened JsString
  import opened JsValue
  import opened Expression

  /** A template, cut into literal text and placeholders. A placeholder keeps
      the expression text the regular expression captured and the whole text
      it matched. */
  datatype Segment = Text(text: string) | Hole(code: string, raw: string)

  /** The end of the run of white space that starts at `i`. */
  function WsRun(t: string, i: nat): (j: nat)
    requires i <= |t|
    ensures i <= j <= |t|
    decreases |t| - i
  {
    if i < |t| && IsSpace(t[i]) then WsRun(t, i + 1) else i
  }

  /** The run is white space and ends at the first other character. */
  lemma {:induction false} WsRunSpec(t: string, i: nat)
    requires i <= |t|
    ensures forall k :: i <= k < WsRun(t, i) ==> IsSpace(t[k])
    ensures WsRun(t, i) < |t| ==> !IsSpace(t[WsRun(t, i)])
    decreases |t| - i
  {
    if i < |t| && IsSpace(t[i]) {
      WsRunSpec(t, i + 1);
    }
  }

  /** The capture may end at `e`: optional white space then `}}` follow. */
  predicate ClosesAt(t: string, e: nat)
    requires e <= |t|
  {
    OccursAt(t, "}}", WsRun(t, e))
  }

  /** The first capture end at or after `from`: the lazy `+?` tries the
      shortest capture first. */
  function FirstClose(t: string, from: nat): (r: Option<nat>)
    requires from <= |t|
    ensures r.Some? ==> from <= r.value <= |t| && ClosesAt(t, r.value)
    decreases |t| - from
  {
    if ClosesAt(t, from) then Some(from)
    else if from == |t| then None
    else FirstClose(t, from + 1)
  }

  /** The capture found is the shortest one, and none is found only when no
      capture end exists. */
  lemma {:induction false} FirstCloseSpec(t: string, from: nat)
    requires from <= |t|
    ensures FirstClose(t, from).Some? ==> forall k :: from <= k < FirstClose(t, from).value ==> !ClosesAt(t, k)
    ensures FirstClose(t, from).None? <==> forall k :: from <= k <= |t| ==> !ClosesAt(t, k)
    decreases |t| - from
  {
    if !ClosesAt(t, from) && from < |t| {
      FirstCloseSpec(t, from + 1);
    }
  }

  /** A placeholder match: the captured expression and where the match ends. */
  datatype Match = Match(code: string, end: nat)

  /** The match of `\{\{\s*([\s\S]+?)\s*\}\}` at position `p`, with the
      regular expression's backtracking order: the leading `\s*` first takes
      the whole white-space run and the shortest capture after it that is
      followed by `\s*}}` wins; only if there is none does `\s*` give one
      white-space character back to the capture, which then is that single
      character. */
  function MatchAt(t: string, p: nat): (r: Option<Match>)
    requires p <= |t|
    ensures r.Some? ==> p + 5 <= r.value.end <= |t|
  {
    if !OccursAt(t, "{{", p) then None
    else
      var c := WsRun(t, p + 2);
      match (if c < |t| then FirstClose(t, c + 1) else None)
      case Some(e) => Some(Match(t[c..e], WsRun(t, e) + 2))
      case None => if c > p + 2 && OccursAt(t, "}}", c) then Some(Match(t[c - 1..c], c + 2)) else None
  }

  /** A match spans `{{`, a non-empty capture and `}}`. */
  lemma MatchAtShape(t: string, p: nat)
    requires p <= |t| && MatchAt(t, p).Some?
    ensures OccursAt(t, "{{", p) && OccursAt(t, "}}", MatchAt(t, p).value.end - 2)
    ensures MatchAt(t, p).value.code != []
  {
  }

  /** The leftmost match at or after `i`. */
  function Search(t: string, i: nat): (r: Option<nat>)
    requires i <= |t|
    ensures r.Some? ==> i <= r.value <= |t| && MatchAt(t, r.value).Some?
    decreases |t| - i
  {
    if MatchAt(t, i).Some? then Some(i)
    else if i == |t| then None
    else Search(t, i + 1)
  }

  /** The search finds the leftmost match ... */
  lemma {:induction false} SearchLeftmost(t: string, i: nat)
    requires i <= |t| && Search(t, i).Some?
    ensures forall q :: i <= q < Search(t, i).value ==> MatchAt(t, q).None?
    decreases |t| - i
  {
    if MatchAt(t, i).None? {
      assert i < |t| && Search(t, i) == Search(t, i + 1);
      SearchLeftmost(t, i + 1);
      forall q | i <= q < Search(t, i).value ensures MatchAt(t, q).None? {
        if q > i {
          assert i + 1 <= q < Search(t, i + 1).value;
        }
      }
    }
  }

  /** ... and finds none only when there is none. */
  lemma {:induction false} SearchNone(t: string, i: nat)
    requires i <= |t|
    ensures Search(t, i).None? <==> forall q :: i <= q <= |t| ==> MatchAt(t, q).None?
    decreases |t| - i
  {
    if MatchAt(t, i).None? && i < |t| {
      SearchNone(t, i + 1);
    }
  }

  /** The global replace: the leftmost match, then the search goes on where it
      ended. A match looks only at the characters from where it starts, so
      going on in `t` after a match is scanning the rest of `t` afresh. */
  function Scan(t: string): (segs: seq<Segment>)
    decreases |t|
  {
    match Search(t, 0)
    case None => if t == [] then [] else [Text(t)]
    case Some(p) =>
      var m := MatchAt(t, p).value;
      (if p == 0 then [] else [Text(t[..p])]) + [Hole(m.code, t[p..m.end])] + Scan(t[m.end..])
  }

  /** The template text the segments were cut from. */
  function Flatten(segs: seq<Segment>): string {
    if segs == [] then []
    else (match segs[0] case Text(s) => s case Hole(_, raw) => raw) + Flatten(segs[1..])
  }

  lemma FlattenAppend(a: seq<Segment>, b: seq<Segment>)
    ensures Flatten(a + b) == Flatten(a) + Flatten(b)
  {
    if a == [] {
      assert a + b == b;
    } else {
      assert (a + b)[0] == a[0] && (a + b)[1..] == a[1..] + b;
      FlattenAppend(a[1..], b);
    }
  }

  lemma FlattenPieces(lit: string, code: string, raw: string, rest: seq<Segment>)
    ensures Flatten((if lit == [] then [] else [Text(lit)]) + [Hole(code, raw)] + rest) == lit + raw + Flatten(rest)
  {
    var pre: seq<Segment> := if lit == [] then [] else [Text(lit)];
    var hole := Hole(code, raw);
    FlattenAppend(pre + [hole], rest);
    FlattenAppend(pre, [hole]);
    assert [hole][1..] == [] && Flatten([hole]) == raw + [];
    if lit != [] {
      assert pre[1..] == [] && Flatten(pre) == lit + [];
    }
  }

  /** One step of the scan: the text before the leftmost match, the match,
      and the scan of what follows it. */
  lemma ScanStep(t: string, p: nat)
    requires Search(t, 0) == Some(p)
    ensures var m := MatchAt(t, p).value;
      Scan(t) == (if t[..p] == [] then [] else [Text(t[..p])]) + [Hole(m.code, t[p..m.end])] + Scan(t[m.end..])
  {
    assert |t[..p]| == p;
  }

  /** Scanning loses nothing: the segments spell out the template. */
  lemma {:induction false} ScanFlatten(t: string)
    ensures Flatten(Scan(t)) == t
    decreases |t|
  {
    match Search(t, 0)
    case None =>
    case Some(p) =>
      var m := MatchAt(t, p).value;
      ScanStep(t, p);
      ScanFlatten(t[m.end..]);
      FlattenPieces(t[..p], m.code, t[p..m.end], Scan(t[m.end..]));
      SplitThree(t, p, m.end);
  }

  lemma SplitThree(t: string, p: nat, e: nat)
    requires p <= e <= |t|
    ensures t[..p] + t[p..e] + t[e..] == t
  {
    assert t[..p] + t[p..e] == t[..e];
  }

  /** A template in which no `{{` occurs is a single piece of text. */
  lemma ScanPlain(t: string)
    requires t != [] && !Contains(t, "{{")
    ensures Scan(t) == [Text(t)]
  {
    forall q | 0 <= q <= |t| ensures MatchAt(t, q).None? {
      assert !OccursAt(t, "{{", q);
    }
    SearchNone(t, 0);
  }

  /** A compiled template: literal text and parsed expressions. */
  datatype Piece = Chunk(text: string) | Sub(expr: Expr)

  /** Literal text is copied into the template literal, where a backslash
      starts an escape, `${` starts a substitution and a carriage return is
      normalised; the model refuses such text rather than interpret it.
      Back-ticks are escaped by the source and are copied as they are. */
  function CompileText(s: string): (r: Result<string, JsError>)
    ensures r.Success? ==> r.value == s
  {
    if Contains(s, "\\") || Contains(s, "\r") || Contains(s, "${") then Failure(Unsupported("escape in template text"))
    else Success(s)
  }

  function CompileSegment(seg: Segment): Result<Piece, JsError> {
    match seg
    case Text(s) =>
      var text :- CompileText(s);
      Success(Chunk(text))
    case Hole(code, _) =>
      var e :- CompileExpr(code);
      Success(Sub(e))
  }

  /** The first segment that does not compile makes the template fail. */
  function Compile(segs: seq<Segment>): (r: Result<seq<Piece>, JsError>)
    ensures r.Success? ==> |r.value| == |segs|
  {
    if segs == [] then Success([])
    else
      var head :- CompileSegment(segs[0]);
      var tail :- Compile(segs[1..]);
      Success([head] + tail)
  }

  /** Placeholders are evaluated left to right; the first exception is the
      result. */
  function Interpolate(pieces: seq<Piece>, vars: map<string, Value>): Result<string, JsError> {
    if pieces == [] then Success("")
    else
      var head :- match pieces[0]
        case Chunk(s) => Success(s)
        case Sub(e) => (var v :- Eval(e, vars); Success(ToStr(v)));
      var tail :- Interpolate(pieces[1..], vars);
      Success(head + tail)
  }

  function Render(tpl: string, vars: map<string, Value>): Result<string, JsError> {
    var pieces :- Compile(Scan(tpl));
    Interpolate(pieces, vars)
  }

  /** Text without placeholders and without escapes renders as itself. */
  lemma RenderPlain(t: string, vars: map<string, Value>)
    requires !Contains(t, "{{") && !Contains(t, "\\") && !Contains(t, "\r") && !Contains(t, "${")
    ensures Render(t, vars) == Success(t)
  {
    if t != [] {
      ScanPlain(t);
      assert CompileSegment(Text(t)) == Success(Chunk(t));
      assert [Text(t)][1..] == [] && Compile([]) == Success([]);
      assert [Chunk(t)] + [] == [Chunk(t)];
      assert Compile([Text(t)]) == Success([Chunk(t)]);
      assert [Chunk(t)][1..] == [];
      assert Interpolate([Chunk(t)], vars) == Success(t + "");
      assert t + "" == t;
      assert Render(t, vars) == Interpolate([Chunk(t)], vars);
    }
  }

  lemma {:induction false} WsRunTo(t: string, i: nat, j: nat)
    requires i <= j <= |t|
    requires forall k :: i <= k < j ==> IsSpace(t[k])
    requires j == |t| || !IsSpace(t[j])
    ensures WsRun(t, i) == j
    decreases j - i
  {
    if i < j {
      WsRunTo(t, i + 1, j);
    }
  }

  lemma {:induction false} FirstCloseIs(t: string, from: nat, e: nat)
    requires from <= e <= |t| && ClosesAt(t, e)
    requires forall k :: from <= k < e ==> !ClosesAt(t, k)
    ensures FirstClose(t, from) == Some(e)
    decreases e - from
  {
    if from < e {
      FirstCloseIs(t, from + 1, e);
    }
  }

  lemma {:induction false} SearchIs(t: string, i: nat, p: nat)
    requires i <= p <= |t| && MatchAt(t, p).Some?
    requires forall q :: i <= q < p ==> MatchAt(t, q).None?
    ensures Search(t, i) == Some(p)
    decreases p - i
  {
    if i < p {
      SearchIs(t, i + 1, p);
    }
  }

  /** The text of a `{{ x }}` placeholder, white space allowed inside. */
  function PlaceholderText(ws1: string, x: string, ws2: string): string {
    "{{" + ws1 + x + ws2 + "}}"
  }

  /** Text free of `{`, backslashes and carriage returns. */
  predicate PlainText(s: string) {
    forall k :: 0 <= k < |s| ==> s[k] != '{' && s[k] != '\\' && s[k] != '\r'
  }

  /** Where each part of a placeholder text sits inside `t`. */
  lemma PlaceholderChars(t: string, p: nat, ws1: string, x: string, ws2: string)
    requires p + |PlaceholderText(ws1, x, ws2)| <= |t|
    requires t[p..p + |PlaceholderText(ws1, x, ws2)|] == PlaceholderText(ws1, x, ws2)
    ensures t[p] == '{' && t[p + 1] == '{'
    ensures forall k :: 0 <= k < |ws1| ==> t[p + 2 + k] == ws1[k]
    ensures forall k :: 0 <= k < |x| ==> t[p + 2 + |ws1| + k] == x[k]
    ensures forall k :: 0 <= k < |ws2| ==> t[p + 2 + |ws1| + |x| + k] == ws2[k]
    ensures t[p + 2 + |ws1| + |x| + |ws2|] == '}' && t[p + 3 + |ws1| + |x| + |ws2|] == '}'
  {
    var ph := PlaceholderText(ws1, x, ws2);
    forall k | 0 <= k < |ph| ensures t[p + k] == ph[k] {
      assert t[p..p + |ph|][k] == t[p + k];
    }
  }

  /** How the match at `p` is composed from its parts when the leading white
      space ends at `c` and the shortest capture ends at `e`. */
  lemma MatchFromParts(t: string, p: nat, c: nat, e: nat)
    requires p <= |t| && OccursAt(t, "{{", p)
    requires c < |t| && WsRun(t, p + 2) == c && FirstClose(t, c + 1) == Some(e)
    ensures MatchAt(t, p) == Some(Match(t[c..e], WsRun(t, e) + 2))
  {
  }

  /** The leading white space of a placeholder ends where its identifier starts. */
  lemma PlaceholderCaptureStart(t: string, p: nat, ws1: string, x: string, ws2: string)
    requires AllSpace(ws1) && IsIdentifier(x)
    requires p + |PlaceholderText(ws1, x, ws2)| <= |t|
    requires t[p..p + |PlaceholderText(ws1, x, ws2)|] == PlaceholderText(ws1, x, ws2)
    ensures WsRun(t, p + 2) == p + 2 + |ws1|
  {
    var c := p + 2 + |ws1|;
    PlaceholderChars(t, p, ws1, x, ws2);
    forall k | p + 2 <= k < c ensures IsSpace(t[k]) {
      assert t[p + 2 + (k - p - 2)] == ws1[k - p - 2];
    }
    assert t[c + 0] == x[0];
    WsRunTo(t, p + 2, c);
  }

  /** The shortest capture followed by `\s*}}` is the identifier. */
  lemma PlaceholderCaptureEnd(t: string, p: nat, ws1: string, x: string, ws2: string)
    requires AllSpace(ws2) && IsIdentifier(x)
    requires p + |PlaceholderText(ws1, x, ws2)| <= |t|
    requires t[p..p + |PlaceholderText(ws1, x, ws2)|] == PlaceholderText(ws1, x, ws2)
    ensures FirstClose(t, p + 3 + |ws1|) == Some(p + 2 + |ws1| + |x|)
    ensures WsRun(t, p + 2 + |ws1| + |x|) == p + 2 + |ws1| + |x| + |ws2|
  {
    var c := p + 2 + |ws1|;
    var e := c + |x|;
    var f := e + |ws2|;
    PlaceholderChars(t, p, ws1, x, ws2);
    forall k | c + 1 <= k < e ensures !ClosesAt(t, k) {
      assert t[c + (k - c)] == x[k - c];
      IdentCharNoClose(t, k);
    }
    forall k | e <= k < f ensures IsSpace(t[k]) {
      assert t[e + (k - e)] == ws2[k - e];
    }
    SpaceThenClose(t, e, f);
    FirstCloseIs(t, c + 1, e);
  }

  /** No capture ends just before an identifier character. */
  lemma IdentCharNoClose(t: string, k: nat)
    requires k < |t| && IsIdentPart(t[k])
    ensures !ClosesAt(t, k)
  {
    WsRunTo(t, k, k);
    if k + 2 <= |t| {
      assert t[k..k + 2][0] == t[k];
    }
  }

  /** White space from `e` to `f`, then `}}`: a capture may end at `e`. */
  lemma SpaceThenClose(t: string, e: nat, f: nat)
    requires e <= f && f + 2 <= |t| && t[f] == '}' && t[f + 1] == '}'
    requires forall k :: e <= k < f ==> IsSpace(t[k])
    ensures WsRun(t, e) == f && ClosesAt(t, e)
  {
    WsRunTo(t, e, f);
    assert t[f..f + 2] == [t[f], t[f + 1]];
  }

  /** A placeholder text opens with `{{` ... */
  lemma PlaceholderOpens(t: string, p: nat, ws1: string, x: string, ws2: string)
    requires p + |PlaceholderText(ws1, x, ws2)| <= |t|
    requires t[p..p + |PlaceholderText(ws1, x, ws2)|] == PlaceholderText(ws1, x, ws2)
    ensures OccursAt(t, "{{", p)
  {
    PlaceholderChars(t, p, ws1, x, ws2);
    assert t[p..p + 2] == [t[p], t[p + 1]];
  }

  /** ... and holds its identifier after the leading white space. */
  lemma PlaceholderIdentifier(t: string, p: nat, ws1: string, x: string, ws2: string)
    requires p + |PlaceholderText(ws1, x, ws2)| <= |t|
    requires t[p..p + |PlaceholderText(ws1, x, ws2)|] == PlaceholderText(ws1, x, ws2)
    ensures t[p + 2 + |ws1|..p + 2 + |ws1| + |x|] == x
  {
    var c := p + 2 + |ws1|;
    PlaceholderChars(t, p, ws1, x, ws2);
    forall k | 0 <= k < |x| ensures t[c..c + |x|][k] == x[k] {
      assert t[c + k] == x[k];
    }
  }

  /** At the start of a `{{ x }}` placeholder the regular expression matches
      exactly that placeholder and captures `x`. */
  lemma PlaceholderMatch(t: string, p: nat, ws1: string, x: string, ws2: string)
    requires AllSpace(ws1) && AllSpace(ws2) && IsIdentifier(x)
    requires p + |PlaceholderText(ws1, x, ws2)| <= |t|
    requires t[p..p + |PlaceholderText(ws1, x, ws2)|] == PlaceholderText(ws1, x, ws2)
    ensures MatchAt(t, p) == Some(Match(x, p + |PlaceholderText(ws1, x, ws2)|))
  {
    var c := p + 2 + |ws1|;
    var e := c + |x|;
    PlaceholderOpens(t, p, ws1, x, ws2);
    PlaceholderCaptureStart(t, p, ws1, x, ws2);
    PlaceholderCaptureEnd(t, p, ws1, x, ws2);
    PlaceholderIdentifier(t, p, ws1, x, ws2);
    MatchFromParts(t, p, c, e);
  }

  /** A placeholder holding a plain identifier, after text without `{`, is cut
      out as one segment whose expression is that identifier. */
  lemma ScanPlaceholder(lit: string, ws1: string, x: string, ws2: string, rest: string)
    requires PlainText(lit) && AllSpace(ws1) && AllSpace(ws2) && IsIdentifier(x)
    ensures Scan(lit + PlaceholderText(ws1, x, ws2) + rest)
         == (if lit == [] then [] else [Text(lit)]) + [Hole(x, PlaceholderText(ws1, x, ws2))] + Scan(rest)
  {
    var ph := PlaceholderText(ws1, x, ws2);
    var t := lit + ph + rest;
    var p := |lit|;
    var end := p + |ph|;
    assert t[..p] == lit && t[p..end] == ph && t[end..] == rest;
    forall q | 0 <= q < p ensures MatchAt(t, q).None? {
      assert t[q] == lit[q];
      assert t[q..q + 1] == [t[q]];
    }
    PlaceholderMatch(t, p, ws1, x, ws2);
    SearchIs(t, 0, p);
  }

  lemma {:induction false} CompileAppend(a: seq<Segment>, b: seq<Segment>)
    ensures Compile(a + b) == (var pa :- Compile(a); var pb :- Compile(b); Success(pa + pb))
  {
    if a == [] {
      assert a + b == b;
      match Compile(b) {
        case Failure(_) =>
        case Success(pb) => assert [] + pb == pb;
      }
    } else {
      assert (a + b)[0] == a[0] && (a + b)[1..] == a[1..] + b;
      CompileAppend(a[1..], b);
      match Compile(a[1..]) {
        case Failure(_) =>
        case Success(pa) =>
          match Compile(b) {
            case Failure(_) =>
            case Success(pb) =>
              match CompileSegment(a[0]) {
                case Failure(_) =>
                case Success(h) => assert [h] + (pa + pb) == ([h] + pa) + pb;
              }
          }
      }
    }
  }

  lemma {:induction false} InterpolateAppend(a: seq<Piece>, b: seq<Piece>, vars: map<string, Value>)
    ensures Interpolate(a + b, vars)
         == (var sa :- Interpolate(a, vars); var sb :- Interpolate(b, vars); Success(sa + sb))
  {
    if a == [] {
      assert a + b == b;
      match Interpolate(b, vars) {
        case Failure(_) =>
        case Success(sb) => assert "" + sb == sb;
      }
    } else {
      assert (a + b)[0] == a[0] && (a + b)[1..] == a[1..] + b;
      InterpolateAppend(a[1..], b, vars);
      match Interpolate(a[1..], vars) {
        case Failure(_) =>
        case Success(sa) =>
          match Interpolate(b, vars) {
            case Failure(_) =>
            case Success(sb) =>
              var h := match a[0] case Chunk(s) => Success(s) case Sub(e) => (var v :- Eval(e, vars); Success(ToStr(v)));
              if h.Success? {
                assert h.value + (sa + sb) == (h.value + sa) + sb;
              }
          }
      }
    }
  }

  lemma PlainTextCompiles(lit: string)
    requires PlainText(lit)
    ensures CompileText(lit) == Success(lit)
  {
    forall q | 0 <= q <= |lit| ensures !OccursAt(lit, "\\", q) && !OccursAt(lit, "\r", q) && !OccursAt(lit, "${", q) {
      if q < |lit| {
        assert lit[q..q + 1] == [lit[q]];
      }
      if q + 1 < |lit| {
        assert lit[q..q + 2] == [lit[q], lit[q + 1]];
      }
    }
  }

  /** A placeholder naming a binding renders as the string form of the bound
      value, and the text before it is copied; a name without a binding makes
      the render throw a ReferenceError, unless the rest of the template has a
      syntax error, which is found first. */
  lemma RenderPlaceholder(lit: string, ws1: string, x: string, ws2: string, rest: string, vars: map<string, Value>)
    requires PlainText(lit) && AllSpace(ws1) && AllSpace(ws2) && IsIdentifier(x)
    ensures x in vars ==>
              Render(lit + PlaceholderText(ws1, x, ws2) + rest, vars)
              == (var out :- Render(rest, vars); Success(lit + ToStr(vars[x]) + out))
    ensures x !in vars && Compile(Scan(rest)).Success? ==>
              Render(lit + PlaceholderText(ws1, x, ws2) + rest, vars) == Failure(ReferenceError(x))
    ensures Compile(Scan(rest)).Failure? ==>
              Render(lit + PlaceholderText(ws1, x, ws2) + rest, vars) == Failure(Compile(Scan(rest)).error)
  {
    var ph := PlaceholderText(ws1, x, ws2);
    var pre: seq<Segment> := if lit == [] then [] else [Text(lit)];
    var hole := Hole(x, ph);
    ScanPlaceholder(lit, ws1, x, ws2, rest);
    CompileIdentifier(x);
    PlainTextCompiles(lit);
    var prePieces: seq<Piece> := if lit == [] then [] else [Chunk(lit)];
    assert Compile(pre) == Success(prePieces) by {
      if lit != [] {
        assert pre[1..] == [] && [Chunk(lit)] + [] == [Chunk(lit)];
      }
    }
    assert Compile([hole]) == Success([Sub(Var(x))]) by {
      assert [hole][1..] == [] && [Sub(Var(x))] + [] == [Sub(Var(x))];
    }
    CompileAppend(pre, [hole]);
    CompileAppend(pre + [hole], Scan(rest));
    assert Interpolate(prePieces, vars) == Success(lit) by {
      if lit != [] {
        assert prePieces[1..] == [] && lit + "" == lit;
      }
    }
    assert x in vars ==> Interpolate([Sub(Var(x))], vars) == Success(ToStr(vars[x])) by {
      assert [Sub(Var(x))][1..] == [];
      if x in vars {
        assert ToStr(vars[x]) + "" == ToStr(vars[x]);
      }
    }
    match Compile(Scan(rest)) {
      case Failure(_) =>
      case Success(pieces) =>
        InterpolateAppend(prePieces, [Sub(Var(x))], vars);
        InterpolateAppend(prePieces + [Sub(Var(x))], pieces, vars);
    }
  }
}
