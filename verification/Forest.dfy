/** What every accepted token array is: a forest written out in preorder.

    The navigation code reads the flat array through `size` alone and climbs it through
    `parent` alone.  Both are right only because of the invariant proved here over every
    run of the filling pass, valid JSON or not. */
module Forest {
  import opened Jsmn

  // ----- parent links -----

  function Parents(toks: seq<Token>): (ps: seq<int>)
    ensures |ps| == |toks|
    ensures forall i :: 0 <= i < |toks| ==> ps[i] == toks[i].parent
  {
    seq(|toks|, i requires 0 <= i < |toks| => toks[i].parent)
  }

  ghost predicate Backward(ps: seq<int>) {
    forall i :: 0 <= i < |ps| ==> -1 <= ps[i] < i
  }

  /** `a` is `x` itself or is met on the way up from `x`. */
  ghost predicate Above(ps: seq<int>, a: nat, x: int)
    requires Backward(ps) && -1 <= x < |ps|
    decreases x + 1
  {
    x != -1 && (a == x || Above(ps, a, ps[x]))
  }

  /** Token `i` hangs at the top, or below the token before it or one of that token's ancestors. */
  ghost predicate HangsWell(ps: seq<int>, i: nat)
    requires Backward(ps) && i < |ps|
  {
    ps[i] == -1 || Above(ps, ps[i], i - 1)
  }

  ghost predicate Preorder(ps: seq<int>) {
    && Backward(ps)
    && forall i {:trigger HangsWell(ps, i)} :: 0 <= i < |ps| ==> HangsWell(ps, i)
  }

  /** The number of tokens whose parent is `i`. */
  function Children(ps: seq<int>, i: int): (n: nat)
    ensures n <= |ps|
  {
    if ps == [] then 0
    else Children(ps[..|ps| - 1], i) + if ps[|ps| - 1] == i then 1 else 0
  }

  // ----- spans -----

  function OpeningOf(kind: Kind): char {
    if kind == Object then '{' else '['
  }

  function ClosingOf(kind: Kind): char {
    if kind == Object then '}' else ']'
  }

  /** A container starts on its own opening bracket and, once closed, ends just after its own
      closing bracket; a string lies between two quotes; a primitive runs up to a delimiter. */
  ghost predicate SpanFits(js: string, t: Token, pos: nat)
    requires pos <= |js|
  {
    match t.kind
    case Undefined => false
    case Primitive =>
      0 <= t.start < t.end <= pos && t.end < |js| && StartsPrimitive(js[t.start]) && EndsPrimitive(js[t.end])
    case String => 1 <= t.start <= t.end < pos && js[t.start - 1] == '"' && js[t.end] == '"'
    case _ =>
      && 0 <= t.start < pos && js[t.start] == OpeningOf(t.kind)
      && (t.end != -1 ==> t.start + 1 < t.end <= pos && js[t.end - 1] == ClosingOf(t.kind))
  }

  ghost predicate StartsBefore(toks: seq<Token>, i: nat, j: nat)
    requires i < |toks| && j < |toks|
  {
    toks[i].start < toks[j].start
  }

  ghost predicate SpansFit(js: string, toks: seq<Token>, pos: nat)
    requires pos <= |js|
  {
    && (forall i {:trigger SpanFits(js, toks[i], pos)} :: 0 <= i < |toks| ==> SpanFits(js, toks[i], pos))
    && (forall i, j {:trigger StartsBefore(toks, i, j)} :: 0 <= i < j < |toks| ==> StartsBefore(toks, i, j))
  }

  ghost predicate SizeFits(toks: seq<Token>, i: nat)
    requires i < |toks|
  {
    toks[i].size == Children(Parents(toks), i)
  }

  ghost predicate SizesFit(toks: seq<Token>) {
    forall i {:trigger SizeFits(toks, i)} :: 0 <= i < |toks| ==> SizeFits(toks, i)
  }

  /** A finished token array: a preorder forest with right sizes, all of it closed. */
  ghost predicate IsForest(js: string, toks: seq<Token>) {
    && Preorder(Parents(toks))
    && SizesFit(toks)
    && SpansFit(js, toks, |js|)
    && AllClosed(toks)
  }

  /** The invariant of the filling pass on the links: a preorder forest with right sizes, and
      `sup` is -1 or lies on the way up from the newest token. */
  ghost predicate TreeInv(toks: seq<Token>, sup: int) {
    && Linked(toks) && -1 <= sup < |toks|
    && Preorder(Parents(toks))
    && SizesFit(toks)
    && (sup == -1 || Above(Parents(toks), sup, |toks| - 1))
  }

  /** The invariant of the filling pass, while containers may be open. */
  ghost predicate Inv(js: string, st: State) {
    && st.pos <= |js|
    && TreeInv(st.toks, st.sup)
    && SpansFit(js, st.toks, st.pos)
  }

  // ----- lemmas on parent links -----

  lemma {:induction false} AboveExtends(ps: seq<int>, p: int, a: nat, x: int)
    requires Backward(ps) && -1 <= p < |ps| && -1 <= x < |ps|
    ensures Backward(ps + [p]) && (Above(ps + [p], a, x) <==> Above(ps, a, x))
    decreases x + 1
  {
    if x != -1 {
      AboveExtends(ps, p, a, ps[x]);
    }
  }

  lemma PreorderExtends(ps: seq<int>, p: int)
    requires Preorder(ps) && -1 <= p < |ps|
    requires p == -1 || Above(ps, p, |ps| - 1)
    ensures Preorder(ps + [p])
  {
    var qs := ps + [p];
    forall i | 0 <= i < |qs|
      ensures HangsWell(qs, i)
    {
      if qs[i] != -1 {
        assert i < |ps| ==> HangsWell(ps, i);
        AboveExtends(ps, p, qs[i], i - 1);
      }
    }
  }

  lemma {:induction false} AboveTrans(ps: seq<int>, a: nat, b: nat, x: int)
    requires Backward(ps) && -1 <= x < |ps| && b < |ps|
    requires Above(ps, b, x) && Above(ps, a, b)
    ensures Above(ps, a, x)
    decreases x + 1
  {
    if b != x {
      AboveTrans(ps, a, b, ps[x]);
    }
  }

  lemma {:induction false} AboveIsEarlier(ps: seq<int>, a: nat, x: int)
    requires Backward(ps) && -1 <= x < |ps| && Above(ps, a, x)
    ensures a <= x
    decreases x + 1
  {
    if a != x {
      AboveIsEarlier(ps, a, ps[x]);
    }
  }

  lemma ChildrenSnoc(ps: seq<int>, p: int, i: int)
    ensures Children(ps + [p], i) == Children(ps, i) + if p == i then 1 else 0
  {
    assert (ps + [p])[..|ps|] == ps;
  }

  lemma {:induction false} NoChildrenYet(ps: seq<int>, i: int)
    requires Backward(ps) && i >= |ps|
    ensures Children(ps, i) == 0
    decreases |ps|
  {
    if ps != [] {
      NoChildrenYet(ps[..|ps| - 1], i);
    }
  }

  // ----- every run keeps the invariant -----

  lemma AddedSizes(toks: seq<Token>, sup: int, tok: Token)
    requires Backward(Parents(toks)) && -1 <= sup < |toks| && SizesFit(toks) && tok.parent == sup && tok.size == 0
    ensures SizesFit(Bump(toks, sup) + [tok])
  {
    var toks' := Bump(toks, sup) + [tok];
    assert Parents(toks') == Parents(toks) + [sup];
    forall i | 0 <= i < |toks'|
      ensures SizeFits(toks', i)
    {
      assert i < |toks| ==> SizeFits(toks, i);
      ChildrenSnoc(Parents(toks), sup, i);
      NoChildrenYet(Parents(toks), |toks|);
    }
  }

  /** Adding a token under `sup` keeps forest and sizes; `sup` or the new token may be next. */
  lemma AddedUnderSup(toks: seq<Token>, sup: int, tok: Token)
    requires TreeInv(toks, sup) && tok.parent == sup && tok.size == 0
    ensures TreeInv(Bump(toks, sup) + [tok], sup) && TreeInv(Bump(toks, sup) + [tok], |toks|)
  {
    var toks' := Bump(toks, sup) + [tok];
    assert Parents(toks') == Parents(toks) + [sup];
    PreorderExtends(Parents(toks), sup);
    AddedSizes(toks, sup, tok);
    if sup != -1 {
      AboveExtends(Parents(toks), sup, sup, sup);
    }
  }

  lemma AddedSpan(js: string, toks: seq<Token>, sup: int, tok: Token, pos: nat, pos': nat)
    requires -1 <= sup < |toks| && pos < pos' <= |js| && pos <= tok.start
    requires SpansFit(js, toks, pos) && SpanFits(js, tok, pos')
    ensures SpansFit(js, Bump(toks, sup) + [tok], pos')
  {
    var toks' := Bump(toks, sup) + [tok];
    forall i | 0 <= i < |toks'|
      ensures SpanFits(js, toks'[i], pos')
    {
      if i < |toks| {
        assert SpanFits(js, toks[i], pos);
      }
    }
    forall i, j | 0 <= i < j < |toks'|
      ensures StartsBefore(toks', i, j)
    {
      if j < |toks| {
        assert StartsBefore(toks, i, j);
      } else {
        assert SpanFits(js, toks[i], pos);
      }
    }
  }

  lemma {:induction false} WalkUpIsAbove(toks: seq<Token>, i: nat)
    requires Linked(toks) && i < |toks|
    ensures Above(Parents(toks), WalkUp(toks, i), i)
    decreases i
  {
    if !(toks[i].Open() || toks[i].parent == -1) {
      WalkUpIsAbove(toks, toks[i].parent);
    }
  }

  lemma ParentIsAbove(ps: seq<int>, a: nat, x: int)
    requires Backward(ps) && -1 <= x < |ps| && a < |ps| && Above(ps, a, x) && ps[a] != -1
    ensures Above(ps, ps[a], x)
  {
    assert Above(ps, ps[a], ps[a]);
    AboveTrans(ps, ps[a], a, x);
  }

  /** Only parents and sizes matter to the links. */
  lemma SameLinks(toks: seq<Token>, toks': seq<Token>, sup: int, sup': int)
    requires TreeInv(toks, sup) && |toks'| == |toks|
    requires forall i :: 0 <= i < |toks| ==> toks'[i].parent == toks[i].parent && toks'[i].size == toks[i].size
    requires -1 <= sup' < |toks| && (sup' == -1 || Above(Parents(toks), sup', |toks| - 1))
    ensures TreeInv(toks', sup')
  {
    assert Parents(toks') == Parents(toks);
    forall i | 0 <= i < |toks|
      ensures SizeFits(toks', i)
    {
      assert SizeFits(toks, i);
    }
  }

  /** Closing a container moves `sup` to a token further up. */
  lemma ClosedUnderSup(toks: seq<Token>, sup: int, pos: int)
    requires TreeInv(toks, sup) && |toks| > 0
    ensures var t := WalkUp(toks, |toks| - 1);
      TreeInv(toks[t := toks[t].(end := pos)], toks[t].parent)
  {
    var t := WalkUp(toks, |toks| - 1);
    WalkUpIsAbove(toks, |toks| - 1);
    if toks[t].parent != -1 {
      ParentIsAbove(Parents(toks), t, |toks| - 1);
    }
    SameLinks(toks, toks[t := toks[t].(end := pos)], sup, toks[t].parent);
  }

  /** A later position keeps every span, and an open container may be closed there. */
  lemma ClosedSpan(js: string, toks: seq<Token>, t: nat, pos: nat)
    requires t < |toks| && pos < |js| && SpansFit(js, toks, pos)
    requires toks[t].Container() && js[pos] == ClosingOf(toks[t].kind)
    ensures SpansFit(js, toks[t := toks[t].(end := pos + 1)], pos + 1)
  {
    var toks' := toks[t := toks[t].(end := pos + 1)];
    forall i | 0 <= i < |toks'|
      ensures SpanFits(js, toks'[i], pos + 1)
    {
      assert SpanFits(js, toks[i], pos);
    }
    forall i, j | 0 <= i < j < |toks'|
      ensures StartsBefore(toks', i, j)
    {
      assert StartsBefore(toks, i, j);
    }
  }

  lemma LaterSpans(js: string, toks: seq<Token>, pos: nat, pos': nat)
    requires pos <= pos' <= |js| && SpansFit(js, toks, pos)
    ensures SpansFit(js, toks, pos')
  {
    forall i | 0 <= i < |toks|
      ensures SpanFits(js, toks[i], pos')
    {
      assert SpanFits(js, toks[i], pos);
    }
  }

  lemma OpenKeepsInv(js: string, st: State, kind: Kind, cap: nat)
    requires Inv(js, st) && st.pos < |js| && (kind == Object || kind == Array) && js[st.pos] == OpeningOf(kind)
    requires OpenBracket(st, kind, cap).Ok?
    ensures Inv(js, OpenBracket(st, kind, cap).value)
  {
    var tok := Token(kind, st.pos, -1, 0, st.sup);
    AddedUnderSup(st.toks, st.sup, tok);
    AddedSpan(js, st.toks, st.sup, tok, st.pos, st.pos + 1);
  }

  lemma ClosedKeepsInv(js: string, st: State, t: nat)
    requires Inv(js, st) && st.pos < |js| && |st.toks| > 0 && t == WalkUp(st.toks, |st.toks| - 1)
    requires st.toks[t].Container() && js[st.pos] == ClosingOf(st.toks[t].kind)
    ensures Inv(js, State(st.pos + 1, st.toks[t := st.toks[t].(end := st.pos + 1)], st.toks[t].parent))
  {
    ClosedUnderSup(st.toks, st.sup, st.pos + 1);
    ClosedSpan(js, st.toks, t, st.pos);
  }

  lemma CloseKeepsInv(js: string, st: State, kind: Kind)
    requires Inv(js, st) && st.pos < |js| && (kind == Object || kind == Array) && js[st.pos] == ClosingOf(kind)
    requires CloseBracket(st, kind).Ok?
    ensures Inv(js, CloseBracket(st, kind).value)
  {
    var t := WalkUp(st.toks, |st.toks| - 1);
    if st.toks[t].Open() {
      ClosedKeepsInv(js, st, t);
    } else {
      LaterSpans(js, st.toks, st.pos, st.pos + 1);
    }
  }

  lemma LeafKeepsInv(js: string, st: State, tok: Token, pos: nat)
    requires Inv(js, st) && st.pos < pos <= |js| && st.pos <= tok.start
    requires tok.parent == st.sup && tok.size == 0 && SpanFits(js, tok, pos)
    ensures Inv(js, State(pos, Bump(st.toks, st.sup) + [tok], st.sup))
  {
    AddedUnderSup(st.toks, st.sup, tok);
    AddedSpan(js, st.toks, st.sup, tok, st.pos, pos);
  }

  /** Whitespace, colon and comma: only `sup` moves. */
  lemma MovedSup(js: string, st: State, sup: int)
    requires Inv(js, st) && st.pos < |js|
    requires sup == st.sup || sup == |st.toks| - 1 || sup == AfterComma(st)
    ensures Inv(js, State(st.pos + 1, st.toks, sup))
  {
    LaterSpans(js, st.toks, st.pos, st.pos + 1);
    if sup == AfterComma(st) && sup != st.sup && sup != -1 {
      ParentIsAbove(Parents(st.toks), st.sup, |st.toks| - 1);
    }
    SameLinks(st.toks, st.toks, st.sup, sup);
  }

  lemma StepKeepsInv(js: string, st: State, cap: nat)
    requires Inv(js, st) && !AtEnd(js, st.pos) && Step(js, st, cap).Ok?
    ensures Inv(js, Step(js, st, cap).value)
  {
    var c := js[st.pos];
    if c == '{' || c == '[' {
      OpenKeepsInv(js, st, if c == '{' then Object else Array, cap);
    } else if c == '}' || c == ']' {
      CloseKeepsInv(js, st, if c == '}' then Object else Array);
    } else if c == '"' {
      var q := ScanString(js, st.pos + 1).value;
      LeafKeepsInv(js, st, Token(String, st.pos + 1, q, 0, st.sup), q + 1);
    } else if StartsPrimitive(c) {
      var q := ScanPrimitive(js, st.pos + 1).value;
      LeafKeepsInv(js, st, Token(Primitive, st.pos, q, 0, st.sup), q);
    } else {
      MovedSup(js, st, Step(js, st, cap).value.sup);
    }
  }

  lemma {:induction false} RunIsForest(js: string, st: State, cap: nat)
    requires Inv(js, st) && Run(js, st, cap).Ok?
    ensures IsForest(js, Run(js, st, cap).value)
    decreases |js| - st.pos
  {
    if AtEnd(js, st.pos) {
      LaterSpans(js, st.toks, st.pos, |js|);
    } else {
      StepKeepsInv(js, st, cap);
      RunIsForest(js, Step(js, st, cap).value, cap);
    }
  }

  /** Whatever text the filling pass accepts, valid JSON or not, its tokens are a forest. */
  lemma AcceptedIsForest(js: string, cap: nat)
    requires Run(js, START, cap).Ok?
    ensures IsForest(js, Run(js, START, cap).value)
  {
    RunIsForest(js, START, cap);
  }

  /** More than JSON is accepted: a colon after the root makes the root the superior again, so that a
      second root becomes its child although it stands outside its span. */
  lemma SpansNeedNotNest()
    ensures Run("[]:[]", START, 2) == Ok([Token(Array, 0, 2, 1, -1), Token(Array, 3, 5, 0, 0)])
    ensures Run("[]:]", START, 1) == Ok([Token(Array, 0, 2, 0, -1)])
  {
    TwoRoots();
    StrayBracket();
  }

  lemma FirstRootOpens(js: string, cap: nat)
    requires |js| > 3 && js[0] == '[' && cap >= 1
    ensures Run(js, START, cap) == Run(js, State(1, [Token(Array, 0, -1, 0, -1)], 0), cap)
  {
    assert Bump([], -1) + [Token(Array, 0, -1, 0, -1)] == [Token(Array, 0, -1, 0, -1)];
    assert Step(js, START, cap) == Ok(State(1, [Token(Array, 0, -1, 0, -1)], 0));
    hide Step;
  }

  lemma FirstRootCloses(js: string, cap: nat)
    requires |js| > 3 && js[1] == ']'
    ensures Run(js, State(1, [Token(Array, 0, -1, 0, -1)], 0), cap) ==
      Run(js, State(2, [Token(Array, 0, 2, 0, -1)], -1), cap)
  {
    var open, closed := Token(Array, 0, -1, 0, -1), Token(Array, 0, 2, 0, -1);
    assert [open][0 := closed] == [closed] && WalkUp([open], 0) == 0;
    assert Step(js, State(1, [open], 0), cap) == Ok(State(2, [closed], -1));
    hide Step;
  }

  lemma AfterFirstRoot(js: string, cap: nat)
    requires |js| > 3 && js[..3] == "[]:" && cap >= 1
    ensures Run(js, START, cap) == Run(js, State(3, [Token(Array, 0, 2, 0, -1)], 0), cap)
  {
    assert js[0] == js[..3][0] && js[1] == js[..3][1] && js[2] == js[..3][2];
    var closed := Token(Array, 0, 2, 0, -1);
    FirstRootOpens(js, cap);
    FirstRootCloses(js, cap);
    assert Step(js, State(2, [closed], -1), cap) == Ok(State(3, [closed], 0));
    hide Step;
  }

  lemma TwoRoots()
    ensures Run("[]:[]", START, 2) == Ok([Token(Array, 0, 2, 1, -1), Token(Array, 3, 5, 0, 0)])
  {
    var js := "[]:[]";
    var first, second := Token(Array, 0, 2, 1, -1), Token(Array, 3, 5, 0, 0);
    AfterFirstRoot(js, 2);
    SecondRoot(js);
    assert Run(js, State(5, [first, second], 0), 2) == Ok([first, second]);
  }

  lemma SecondRoot(js: string)
    requires js == "[]:[]"
    ensures Run(js, State(3, [Token(Array, 0, 2, 0, -1)], 0), 2) ==
      Run(js, State(5, [Token(Array, 0, 2, 1, -1), Token(Array, 3, 5, 0, 0)], 0), 2)
  {
    var first, open, second := Token(Array, 0, 2, 1, -1), Token(Array, 3, -1, 0, 0), Token(Array, 3, 5, 0, 0);
    var st := State(3, [Token(Array, 0, 2, 0, -1)], 0);
    assert Bump(st.toks, 0) + [open] == [first, open] && [first, open][1 := second] == [first, second];
    assert Step(js, st, 2) == Ok(State(4, [first, open], 1));
    assert WalkUp([first, open], 1) == 1;
    assert Step(js, State(4, [first, open], 1), 2) == Ok(State(5, [first, second], 0));
  }

  lemma StrayBracket()
    ensures Run("[]:]", START, 1) == Ok([Token(Array, 0, 2, 0, -1)])
  {
    var js, toks := "[]:]", [Token(Array, 0, 2, 0, -1)];
    AfterFirstRoot(js, 1);
    assert WalkUp(toks, 0) == 0;
    assert Step(js, State(3, toks, 0), 1) == Ok(State(4, toks, 0));
    assert Run(js, State(4, toks, 0), 1) == Ok(toks);
  }
}
