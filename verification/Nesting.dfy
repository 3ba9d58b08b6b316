/** When the spans of the tokens nest.  A token may hang below a container whose brackets it stands
    outside of: it does exactly if it begins while the superior is in a closed container, and a superior
    gets there by a colon after a closing bracket.  `Tidy` finds that out by a scan of the text alone. */
module Nesting {
  import opened Basics
  import opened Jsmn
  import opened Forest
  import opened JsonText
  import opened Places

  // ----- nesting -----

  predicate Encloses(p: Token, t: Token) {
    p.start < t.start && t.end < p.end
  }

  /** Every token stands inside the brackets of all containers that it hangs below. */
  ghost predicate Nested(toks: seq<Token>) {
    Linked(toks) &&
    forall a, i {:trigger Above(Parents(toks), a, i)} ::
      0 <= a < i < |toks| && Above(Parents(toks), a, i) && toks[a].Container() ==> Encloses(toks[a], toks[i])
  }

  // ----- the text -----

  predicate BeginsToken(c: char) {
    c == '{' || c == '[' || c == '"' || StartsPrimitive(c)
  }

  /** How many brackets are open, whether a bracket was closed since the last token began, and whether
      the last colon came when one had been, with no bracket closed since that was open. */
  datatype Mark = Mark(depth: nat, shut: bool, stray: bool)

  function After(m: Mark, c: char): Mark {
    if c == '{' || c == '[' then Mark(m.depth + 1, false, false)
    else if c == '}' || c == ']' then
      if m.depth > 0 then Mark(m.depth - 1, true, false) else Mark(0, true, m.stray)
    else if c == ':' then m.(stray := m.shut)
    else if BeginsToken(c) then m.(shut := false)
    else m
  }

  /** No token begins after a colon that follows a closing bracket, before an open bracket is closed.
      Strings and primitives are passed over as the counting pass does. */
  predicate Tidy(js: string, pos: nat, m: Mark)
    decreases |js| - pos
  {
    AtEnd(js, pos) ||
    (!(m.stray && BeginsToken(js[pos])) &&
     match CountStep(js, pos, 0)
     case Err(_) => true
     case Ok(next) => Tidy(js, next.0, After(m, js[pos])))
  }

  // ----- closed containers above a token -----

  predicate Shut(t: Token) {
    t.Container() && t.end != -1
  }

  /** Token `x` is a closed container, or hangs below one. */
  ghost predicate UnderShut(toks: seq<Token>, x: int)
    requires Linked(toks) && -1 <= x < |toks|
    decreases x + 1
  {
    x != -1 && (Shut(toks[x]) || UnderShut(toks, toks[x].parent))
  }

  /** Only the tokens up to `x` matter. */
  lemma {:induction false} UnderShutSame(toks: seq<Token>, toks': seq<Token>, x: int)
    requires Linked(toks) && Linked(toks') && -1 <= x < |toks| && x < |toks'|
    requires forall i :: 0 <= i <= x ==> toks'[i].parent == toks[i].parent && Shut(toks'[i]) == Shut(toks[i])
    ensures UnderShut(toks', x) == UnderShut(toks, x)
    decreases x + 1
  {
    if x != -1 {
      UnderShutSame(toks, toks', toks[x].parent);
    }
  }

  lemma {:induction false} UnderShutFrom(toks: seq<Token>, a: nat, x: int)
    requires Linked(toks) && -1 <= x < |toks| && a < |toks| && Above(Parents(toks), a, x) && UnderShut(toks, a)
    ensures UnderShut(toks, x)
    decreases x + 1
  {
    if a != x {
      UnderShutFrom(toks, a, toks[x].parent);
    }
  }

  lemma {:induction false} ShutAbove(toks: seq<Token>, x: int) returns (a: nat)
    requires Linked(toks) && -1 <= x < |toks| && UnderShut(toks, x)
    ensures a <= x && Above(Parents(toks), a, x) && Shut(toks[a])
    decreases x + 1
  {
    if Shut(toks[x]) {
      a := x;
    } else {
      a := ShutAbove(toks, toks[x].parent);
    }
  }

  // ----- open containers -----

  function Opens(toks: seq<Token>): nat {
    if toks == [] then 0 else Opens(toks[..|toks| - 1]) + if toks[|toks| - 1].Open() then 1 else 0
  }

  lemma OpensSnoc(toks: seq<Token>, tok: Token)
    ensures Opens(toks + [tok]) == Opens(toks) + if tok.Open() then 1 else 0
  {
    assert (toks + [tok])[..|toks|] == toks;
  }

  lemma {:induction false} OpensUpdate(toks: seq<Token>, t: nat, tok: Token)
    requires t < |toks|
    ensures Opens(toks[t := tok]) == Opens(toks) - (if toks[t].Open() then 1 else 0) + if tok.Open() then 1 else 0
    ensures toks[t].Open() ==> Opens(toks) > 0
    decreases |toks|
  {
    var n := |toks| - 1;
    if t < n {
      OpensUpdate(toks[..n], t, tok);
      assert toks[t := tok][..n] == toks[..n][t := tok];
    } else {
      assert toks[t := tok][..n] == toks[..n];
    }
  }

  lemma {:induction false} OpensSome(toks: seq<Token>)
    requires Opens(toks) > 0
    ensures exists c :: 0 <= c < |toks| && toks[c].Open()
    decreases |toks|
  {
    var n := |toks| - 1;
    if !toks[n].Open() {
      OpensSome(toks[..n]);
      var c :| 0 <= c < n && toks[..n][c].Open();
      assert toks[c].Open();
    }
  }

  /** The walk for a closing bracket stops at the nearest open token. */
  lemma {:induction false} NearestOpen(toks: seq<Token>, i: nat, c: nat)
    requires Linked(toks) && i < |toks| && c < |toks| && Above(Parents(toks), c, i) && toks[c].Open()
    ensures toks[WalkUp(toks, i)].Open() && c <= WalkUp(toks, i)
    decreases i
  {
    if toks[i].Open() {
      AboveIsEarlier(Parents(toks), c, i);
    } else {
      NearestOpen(toks, toks[i].parent, c);
    }
  }

  // ----- the invariant -----

  /** So far: a container whose end is known encloses the tokens below it, which are closed. */
  ghost predicate EnclosesSoFar(p: Token, t: Token) {
    p.start < t.start && (p.end == -1 || (t.end != -1 && t.end < p.end))
  }

  ghost predicate NestedSoFar(toks: seq<Token>)
    requires Linked(toks)
  {
    forall a, i {:trigger Above(Parents(toks), a, i)} ::
      0 <= a < i < |toks| && Above(Parents(toks), a, i) && toks[a].Container() ==> EnclosesSoFar(toks[a], toks[i])
  }

  /** Open token `c` is the superior or above it, and in no closed container. */
  ghost predicate OpenFits(toks: seq<Token>, sup: int, c: nat)
    requires Linked(toks) && -1 <= sup < |toks| && c < |toks|
  {
    toks[c].Open() ==> sup != -1 && Above(Parents(toks), c, sup) && !UnderShut(toks, c)
  }

  ghost predicate OpensFit(toks: seq<Token>, sup: int)
    requires Linked(toks) && -1 <= sup < |toks|
  {
    forall c {:trigger OpenFits(toks, sup, c)} :: 0 <= c < |toks| ==> OpenFits(toks, sup, c)
  }

  /** The mark tells what the tokens are like. */
  ghost predicate Marks(toks: seq<Token>, sup: int, m: Mark)
    requires Linked(toks) && -1 <= sup < |toks|
  {
    && m.depth == Opens(toks)
    && m.shut == UnderShut(toks, |toks| - 1)
    && m.stray == UnderShut(toks, sup)
  }

  ghost predicate Sound(js: string, st: State, m: Mark) {
    Inv(js, st) && NestedSoFar(st.toks) && OpensFit(st.toks, st.sup) && Marks(st.toks, st.sup, m)
  }

  // ----- adding a token -----

  lemma Added(toks: seq<Token>, sup: int, tok: Token)
    requires Linked(toks) && -1 <= sup < |toks| && tok.parent == sup
    ensures var toks' := Bump(toks, sup) + [tok];
      && Linked(toks') && Parents(toks') == Parents(toks) + [sup]
      && (forall i :: 0 <= i < |toks| ==> Shut(toks'[i]) == Shut(toks[i]) && toks'[i].Open() == toks[i].Open())
      && (forall i :: 0 <= i < |toks| ==> toks'[i].parent == toks[i].parent)
  {
  }

  lemma AddedAbove(ps: seq<int>, p: int, a: nat)
    requires Backward(ps) && -1 <= p < |ps| && a < |ps|
    ensures Backward(ps + [p]) && (Above(ps + [p], a, |ps|) <==> Above(ps, a, p))
  {
    AboveExtends(ps, p, a, p);
  }

  /** A token that begins when the superior is in no closed container. */
  lemma AddedNests(js: string, st: State, tok: Token, pos: nat)
    requires Inv(js, st) && NestedSoFar(st.toks) && !UnderShut(st.toks, st.sup) && tok.parent == st.sup
    requires pos <= |js| && SpansFit(js, Bump(st.toks, st.sup) + [tok], pos)
    ensures Linked(Bump(st.toks, st.sup) + [tok]) && NestedSoFar(Bump(st.toks, st.sup) + [tok])
  {
    var toks, sup := st.toks, st.sup;
    var toks', ps := Bump(toks, sup) + [tok], Parents(toks);
    Added(toks, sup, tok);
    forall a, i | 0 <= a < i < |toks'| && Above(Parents(toks'), a, i) && toks'[a].Container()
      ensures EnclosesSoFar(toks'[a], toks'[i])
    {
      if i < |toks| {
        AboveExtends(ps, sup, a, i);
        assert EnclosesSoFar(toks[a], toks[i]);
      } else {
        AddedAbove(ps, sup, a);
        assert StartsBefore(toks', a, i);
        if Shut(toks[a]) {
          UnderShutFrom(toks, a, sup);
        }
      }
    }
  }

  lemma AddedOpensFit(toks: seq<Token>, sup: int, tok: Token)
    requires Linked(toks) && -1 <= sup < |toks| && OpensFit(toks, sup) && tok.parent == sup
    requires !UnderShut(toks, sup) && !Shut(tok)
    ensures var toks' := Bump(toks, sup) + [tok];
      && Linked(toks') && OpensFit(toks', |toks|) && (!tok.Open() ==> OpensFit(toks', sup))
      && UnderShut(toks', sup) == UnderShut(toks', |toks|) == false
  {
    var toks', ps := Bump(toks, sup) + [tok], Parents(toks);
    Added(toks, sup, tok);
    UnderShutSame(toks, toks', sup);
    forall c | 0 <= c < |toks'|
      ensures OpenFits(toks', |toks|, c) && (!tok.Open() ==> OpenFits(toks', sup, c))
    {
      if c < |toks| {
        assert OpenFits(toks, sup, c);
        UnderShutSame(toks, toks', c);
        AddedAbove(ps, sup, c);
        AboveExtends(ps, sup, c, sup);
      }
    }
  }

  lemma AddedOpens(toks: seq<Token>, sup: int, tok: Token)
    requires -1 <= sup < |toks|
    ensures Opens(Bump(toks, sup) + [tok]) == Opens(toks) + if tok.Open() then 1 else 0
  {
    OpensSnoc(Bump(toks, sup), tok);
    if sup != -1 {
      OpensUpdate(toks, sup, toks[sup].(size := toks[sup].size + 1));
    }
  }

  lemma OpenKeepsSound(js: string, st: State, m: Mark, kind: Kind, cap: nat)
    requires Sound(js, st, m) && st.pos < |js| && (kind == Object || kind == Array) && js[st.pos] == OpeningOf(kind)
    requires OpenBracket(st, kind, cap).Ok? && !m.stray
    ensures Sound(js, OpenBracket(st, kind, cap).value, After(m, js[st.pos]))
  {
    OpenKeepsInv(js, st, kind, cap);
    var tok := Token(kind, st.pos, -1, 0, st.sup);
    AddedNests(js, st, tok, st.pos + 1);
    AddedOpensFit(st.toks, st.sup, tok);
    AddedOpens(st.toks, st.sup, tok);
  }

  lemma LeafKeepsSound(js: string, st: State, m: Mark, tok: Token, pos: nat)
    requires Sound(js, st, m) && !m.stray && st.pos < pos <= |js| && st.pos <= tok.start
    requires tok.parent == st.sup && tok.size == 0 && SpanFits(js, tok, pos) && !tok.Container()
    ensures Sound(js, State(pos, Bump(st.toks, st.sup) + [tok], st.sup), m.(shut := false))
  {
    LeafKeepsInv(js, st, tok, pos);
    AddedNests(js, st, tok, pos);
    AddedOpensFit(st.toks, st.sup, tok);
    AddedOpens(st.toks, st.sup, tok);
  }

  // ----- closing a bracket -----

  /** The open token above the last one that is nearest to it, and what closing it does. */
  ghost predicate Closes(js: string, st: State, t: nat) {
    && Inv(js, st) && NestedSoFar(st.toks) && OpensFit(st.toks, st.sup)
    && st.pos < |js| && |st.toks| > 0 && t == WalkUp(st.toks, |st.toks| - 1) && st.toks[t].Container()
  }

  /** All open tokens are above the last one, so none of them is behind the nearest. */
  lemma OpenIsAbove(js: string, st: State, t: nat, c: nat)
    requires Closes(js, st, t) && c < |st.toks| && st.toks[c].Open()
    ensures st.toks[t].Open() && c <= t && Above(Parents(st.toks), c, |st.toks| - 1)
  {
    var ps := Parents(st.toks);
    assert OpenFits(st.toks, st.sup, c);
    AboveTrans(ps, c, st.sup, |ps| - 1);
    NearestOpen(st.toks, |st.toks| - 1, c);
  }

  lemma ClosedNests(js: string, st: State, t: nat)
    requires Closes(js, st, t) && st.toks[t].Open()
    ensures var toks' := st.toks[t := st.toks[t].(end := st.pos + 1)];
      Linked(toks') && Parents(toks') == Parents(st.toks) && NestedSoFar(toks')
  {
    var toks := st.toks;
    var toks' := toks[t := toks[t].(end := st.pos + 1)];
    assert Parents(toks') == Parents(toks);
    forall a, i | 0 <= a < i < |toks| && Above(Parents(toks'), a, i) && toks'[a].Container()
      ensures EnclosesSoFar(toks'[a], toks'[i])
    {
      assert EnclosesSoFar(toks[a], toks[i]);
      assert SpanFits(js, toks[i], st.pos);
      if a == t && toks[i].Open() {
        OpenIsAbove(js, st, t, i);
      }
    }
  }

  lemma ClosedOpensFit(js: string, st: State, t: nat)
    requires Closes(js, st, t) && st.toks[t].Open()
    ensures var toks' := st.toks[t := st.toks[t].(end := st.pos + 1)];
      Linked(toks') && OpensFit(toks', toks'[t].parent) && !UnderShut(toks', toks'[t].parent)
  {
    var toks := st.toks;
    var toks' := toks[t := toks[t].(end := st.pos + 1)];
    var ps := Parents(toks);
    assert Parents(toks') == ps;
    assert OpenFits(toks, st.sup, t);
    UnderShutSame(toks, toks', toks[t].parent);
    forall c | 0 <= c < |toks'|
      ensures OpenFits(toks', toks'[t].parent, c)
    {
      if toks'[c].Open() {
        OpenIsAbove(js, st, t, c);
        OpenIsAbove(js, st, t, t);
        AboveBoth(ps, c, t, |ps| - 1);
        assert OpenFits(toks, st.sup, c);
        UnderShutSame(toks, toks', c);
      }
    }
  }

  /** Of two tokens above a third, the earlier is above the later. */
  lemma {:induction false} AboveBoth(ps: seq<int>, a: nat, b: nat, x: int)
    requires Backward(ps) && -1 <= x < |ps| && a <= b < |ps| && Above(ps, a, x) && Above(ps, b, x)
    ensures Above(ps, a, b)
    decreases x + 1
  {
    if b != x {
      AboveIsEarlier(ps, b, ps[x]);
      AboveBoth(ps, a, b, ps[x]);
    }
  }

  /** A container at the root that is not open is closed. */
  lemma {:induction false} StrayIsShut(toks: seq<Token>, i: nat)
    requires Linked(toks) && i < |toks| && toks[WalkUp(toks, i)].Container() && !toks[WalkUp(toks, i)].Open()
    requires forall x :: 0 <= x < |toks| ==> toks[x].start != -1
    ensures UnderShut(toks, i)
    decreases i
  {
    if i != WalkUp(toks, i) {
      StrayIsShut(toks, toks[i].parent);
    }
  }

  /** One container fewer is open, and the last token is under a closed one. */
  lemma ClosedMarks(js: string, st: State, m: Mark, t: nat)
    requires Closes(js, st, t) && st.toks[t].Open() && m.depth == Opens(st.toks)
    ensures var toks' := st.toks[t := st.toks[t].(end := st.pos + 1)];
      && Linked(toks') && m.depth > 0 && m.depth - 1 == Opens(toks') && UnderShut(toks', |toks'| - 1)
  {
    var tok := st.toks[t].(end := st.pos + 1);
    var toks' := st.toks[t := tok];
    assert Parents(toks') == Parents(st.toks);
    OpensUpdate(st.toks, t, tok);
    OpenIsAbove(js, st, t, t);
    UnderShutFrom(toks', t, |toks'| - 1);
  }

  /** The bracket closes the nearest open container. */
  lemma CloseNearest(js: string, st: State, m: Mark, t: nat)
    requires Sound(js, st, m) && Closes(js, st, t) && st.toks[t].Open()
    ensures var toks' := st.toks[t := st.toks[t].(end := st.pos + 1)];
      && Linked(toks') && NestedSoFar(toks') && OpensFit(toks', toks'[t].parent)
      && m.depth > 0 && Marks(toks', toks'[t].parent, Mark(m.depth - 1, true, false))
  {
    hide NestedSoFar, OpensFit, UnderShut, Opens, Closes, Inv;
    ClosedNests(js, st, t);
    ClosedOpensFit(js, st, t);
    ClosedMarks(js, st, m, t);
  }

  /** There is no open container, and the bracket is passed over. */
  lemma CloseNothing(js: string, st: State, m: Mark, t: nat)
    requires Sound(js, st, m) && Closes(js, st, t) && !st.toks[t].Open()
    ensures m.depth == 0 && m.shut
  {
    NoneOpen(js, st, t);
    forall x | 0 <= x < |st.toks|
      ensures st.toks[x].start != -1
    {
      assert SpanFits(js, st.toks[x], st.pos);
    }
    StrayIsShut(st.toks, |st.toks| - 1);
  }

  lemma CloseKeepsSound(js: string, st: State, m: Mark, kind: Kind)
    requires Sound(js, st, m) && st.pos < |js| && (kind == Object || kind == Array) && js[st.pos] == ClosingOf(kind)
    requires CloseBracket(st, kind).Ok?
    ensures Sound(js, CloseBracket(st, kind).value, After(m, js[st.pos]))
  {
    CloseKeepsInv(js, st, kind);
    hide NestedSoFar, OpensFit, UnderShut, Opens, SpansFit, TreeInv;
    var t := WalkUp(st.toks, |st.toks| - 1);
    assert Closes(js, st, t);
    if st.toks[t].Open() {
      CloseNearest(js, st, m, t);
    } else {
      CloseNothing(js, st, m, t);
    }
  }

  lemma NoneOpen(js: string, st: State, t: nat)
    requires Closes(js, st, t) && !st.toks[t].Open()
    ensures Opens(st.toks) == 0
  {
    if Opens(st.toks) > 0 {
      OpensSome(st.toks);
      var c :| 0 <= c < |st.toks| && st.toks[c].Open();
      OpenIsAbove(js, st, t, c);
    }
  }

  // ----- colons and commas -----

  lemma ColonKeepsSound(js: string, st: State, m: Mark)
    requires Sound(js, st, m) && st.pos < |js|
    ensures Sound(js, State(st.pos + 1, st.toks, |st.toks| - 1), m.(stray := m.shut))
  {
    var toks, n := st.toks, |st.toks| - 1;
    MovedSup(js, st, n);
    forall c | 0 <= c < |toks|
      ensures OpenFits(toks, n, c)
    {
      assert OpenFits(toks, st.sup, c);
      if toks[c].Open() {
        AboveTrans(Parents(toks), c, st.sup, n);
      }
    }
  }

  lemma CommaKeepsSound(js: string, st: State, m: Mark)
    requires Sound(js, st, m) && st.pos < |js|
    ensures Sound(js, State(st.pos + 1, st.toks, AfterComma(st)), m)
  {
    var toks, sup := st.toks, AfterComma(st);
    MovedSup(js, st, sup);
    forall c | 0 <= c < |toks|
      ensures OpenFits(toks, sup, c)
    {
      assert OpenFits(toks, st.sup, c);
      assert SpanFits(js, toks[c], st.pos);
      if toks[c].Open() && sup != st.sup {
        assert c != st.sup && Above(Parents(toks), c, Parents(toks)[st.sup]);
      }
    }
  }

  lemma WsKeepsSound(js: string, st: State, m: Mark)
    requires Sound(js, st, m) && st.pos < |js|
    ensures Sound(js, State(st.pos + 1, st.toks, st.sup), m)
  {
    MovedSup(js, st, st.sup);
  }

  /** Every step that does not begin a token in a closed container keeps all this. */
  lemma StepKeepsSound(js: string, st: State, m: Mark, cap: nat)
    requires Sound(js, st, m) && !AtEnd(js, st.pos) && Step(js, st, cap).Ok? && !(m.stray && BeginsToken(js[st.pos]))
    ensures Sound(js, Step(js, st, cap).value, After(m, js[st.pos]))
  {
    hide Sound;
    SoundIsInv(js, st, m);
    var c := js[st.pos];
    if c == '{' || c == '[' {
      OpenKeepsSound(js, st, m, if c == '{' then Object else Array, cap);
    } else if c == '}' || c == ']' {
      CloseKeepsSound(js, st, m, if c == '}' then Object else Array);
    } else if c == '"' {
      var q := ScanString(js, st.pos + 1).value;
      LeafKeepsSound(js, st, m, Token(String, st.pos + 1, q, 0, st.sup), q + 1);
    } else if c == ':' {
      ColonKeepsSound(js, st, m);
    } else if c == ',' {
      CommaKeepsSound(js, st, m);
    } else if StartsPrimitive(c) {
      var q := ScanPrimitive(js, st.pos + 1).value;
      LeafKeepsSound(js, st, m, Token(Primitive, st.pos, q, 0, st.sup), q);
    } else {
      WsKeepsSound(js, st, m);
    }
  }

  lemma SoundIsInv(js: string, st: State, m: Mark)
    requires Sound(js, st, m)
    ensures Inv(js, st) && m.stray == UnderShut(st.toks, st.sup)
  {
  }

  // ----- a token outside -----

  /** Token `i` begins after container `a`, which it hangs below, has ended. */
  ghost predicate Outside(toks: seq<Token>, a: nat, i: nat)
    requires Linked(toks)
  {
    a < i < |toks| && Above(Parents(toks), a, i) && Shut(toks[a]) && toks[a].end <= toks[i].start
  }

  ghost predicate SomeOutside(toks: seq<Token>)
    requires Linked(toks)
  {
    exists a: nat, i: nat :: Outside(toks, a, i)
  }

  /** Tokens are only added, and only open ones get an end. */
  ghost predicate Grows(toks: seq<Token>, toks': seq<Token>) {
    && |toks| <= |toks'| && Linked(toks) && Linked(toks')
    && forall i :: 0 <= i < |toks| ==> SameToken(toks[i], toks'[i])
  }

  predicate SameToken(t: Token, t': Token) {
    t'.kind == t.kind && t'.start == t.start && t'.parent == t.parent && (t.end != -1 ==> t'.end == t.end)
  }

  lemma {:induction false} AboveGrows(ps: seq<int>, ps': seq<int>, a: nat, x: int)
    requires Backward(ps) && Backward(ps') && ps <= ps' && -1 <= x < |ps| && Above(ps, a, x)
    ensures Above(ps', a, x)
    decreases x + 1
  {
    if a != x {
      AboveGrows(ps, ps', a, ps[x]);
    }
  }

  lemma StepGrows(js: string, st: State, cap: nat)
    requires st.Valid() && !AtEnd(js, st.pos) && Step(js, st, cap).Ok?
    ensures Grows(st.toks, Step(js, st, cap).value.toks)
  {
  }

  lemma OutsideStays(toks: seq<Token>, toks': seq<Token>)
    requires Grows(toks, toks') && SomeOutside(toks)
    ensures SomeOutside(toks')
  {
    var a: nat, i: nat :| Outside(toks, a, i);
    assert SameToken(toks[a], toks'[a]) && SameToken(toks[i], toks'[i]);
    AboveGrows(Parents(toks), Parents(toks'), a, i);
    assert Outside(toks', a, i);
  }

  lemma {:induction false} RunStaysOutside(js: string, st: State, cap: nat)
    requires Inv(js, st) && SomeOutside(st.toks) && Run(js, st, cap).Ok?
    ensures !Nested(Run(js, st, cap).value)
    decreases |js| - st.pos
  {
    if AtEnd(js, st.pos) {
      var toks := st.toks;
      var a: nat, i: nat :| Outside(toks, a, i);
      assert SpanFits(js, toks[i], st.pos);
      assert !toks[i].Open();
    } else {
      StepKeepsInv(js, st, cap);
      StepGrows(js, st, cap);
      OutsideStays(st.toks, Step(js, st, cap).value.toks);
      RunStaysOutside(js, Step(js, st, cap).value, cap);
    }
  }

  /** A token that begins when the superior is in a closed container stands outside it. */
  lemma BeginsOutside(js: string, st: State, cap: nat)
    requires Inv(js, st) && !AtEnd(js, st.pos) && Step(js, st, cap).Ok? && UnderShut(st.toks, st.sup)
    requires BeginsToken(js[st.pos])
    ensures Step(js, st, cap).value.Valid() && SomeOutside(Step(js, st, cap).value.toks)
  {
    var n, toks' := |st.toks|, Step(js, st, cap).value.toks;
    StepGrows(js, st, cap);
    var a := ShutAbove(st.toks, st.sup);
    assert SpanFits(js, st.toks[a], st.pos);
    assert |toks'| == n + 1 && toks'[n].parent == st.sup && toks'[n].start >= st.pos;
    assert SameToken(st.toks[a], toks'[a]);
    AboveGrows(Parents(st.toks), Parents(toks'), a, st.sup);
    assert Outside(toks', a, n);
  }

  // ----- the theorem -----

  /** The counting pass gets to the same position from any count. */
  lemma SamePosition(js: string, pos: nat, count: nat)
    requires !AtEnd(js, pos) && CountStep(js, pos, count).Ok?
    ensures CountStep(js, pos, 0).Ok? && CountStep(js, pos, 0).value.0 == CountStep(js, pos, count).value.0
  {
  }

  lemma {:induction false} RunNestsIff(js: string, st: State, m: Mark, cap: nat)
    requires Sound(js, st, m) && Run(js, st, cap).Ok?
    ensures Nested(Run(js, st, cap).value) <==> Tidy(js, st.pos, m)
    decreases |js| - st.pos
  {
    hide Sound, Step, CountStep;
    SoundIsInv(js, st, m);
    if AtEnd(js, st.pos) {
      SoundIsNested(js, st, m);
    } else {
      var next := Step(js, st, cap).value;
      LockStep(js, st, cap);
      SamePosition(js, st.pos, |st.toks|);
      StepKeepsInv(js, st, cap);
      if m.stray && BeginsToken(js[st.pos]) {
        BeginsOutside(js, st, cap);
        RunStaysOutside(js, next, cap);
      } else {
        StepKeepsSound(js, st, m, cap);
        RunNestsIff(js, next, After(m, js[st.pos]), cap);
      }
    }
  }

  lemma SoundIsNested(js: string, st: State, m: Mark)
    requires Sound(js, st, m) && AllClosed(st.toks)
    ensures Nested(st.toks)
  {
    var toks := st.toks;
    forall a, i | 0 <= a < i < |toks| && Above(Parents(toks), a, i) && toks[a].Container()
      ensures Encloses(toks[a], toks[i])
    {
      assert EnclosesSoFar(toks[a], toks[i]);
      assert SpanFits(js, toks[a], st.pos) && !toks[a].Open();
    }
  }

  /** A second root below the first one, outside of it. */
  lemma TwoRootsDoNotNest()
    ensures Run("[]:[]", START, 2).Ok? && !Nested(Run("[]:[]", START, 2).value)
    ensures !Tidy("[]:[]", 0, Mark(0, false, false))
  {
    hide Run, Tidy;
    SpansNeedNotNest();
    NestsIffTidy("[]:[]", 2);
    var toks := [Token(Array, 0, 2, 1, -1), Token(Array, 3, 5, 0, 0)];
    var ps := Parents(toks);
    assert Above(ps, 0, ps[1]);
    assert Above(ps, 0, 1) && !Encloses(toks[0], toks[1]);
  }

  /** For every accepted text, valid JSON or not: the spans nest if and only if the text is tidy. */
  lemma NestsIffTidy(js: string, cap: nat)
    requires Run(js, START, cap).Ok?
    ensures Nested(Run(js, START, cap).value) <==> Tidy(js, 0, Mark(0, false, false))
  {
    RunNestsIff(js, START, Mark(0, false, false), cap);
  }

  // ----- JSON documents -----

  /** Among the tokens `lo..hi`, containers enclose what hangs below them. */
  ghost predicate NestedIn(toks: seq<Token>, lo: nat, hi: nat)
    requires Linked(toks) && hi <= |toks|
  {
    forall a, i {:trigger Above(Parents(toks), a, i)} ::
      lo <= a < i < hi && Above(Parents(toks), a, i) && toks[a].Container() ==> Encloses(toks[a], toks[i])
  }

  /** If tokens hang below each other or below `out`, whatever else is above one of them is above `out`. */
  lemma {:induction false} AboveOut(toks: seq<Token>, lo: nat, hi: nat, out: int, a: nat, i: nat)
    requires Linked(toks) && hi <= |toks| && -1 <= out && HangIn(toks, lo, hi, out)
    requires a < lo <= i < hi && Above(Parents(toks), a, i)
    ensures Above(Parents(toks), a, out)
    decreases i
  {
    if toks[i].parent != out {
      AboveOut(toks, lo, hi, out, a, toks[i].parent);
    }
  }

  /** Tokens that hang side by side. */
  lemma NestedBeside(toks: seq<Token>, lo: nat, mid: nat, hi: nat, out: int)
    requires Linked(toks) && lo <= mid <= hi <= |toks| && -1 <= out < lo
    requires NestedIn(toks, lo, mid) && NestedIn(toks, mid, hi) && HangIn(toks, mid, hi, out)
    ensures NestedIn(toks, lo, hi)
  {
    forall a, i | lo <= a < i < hi && Above(Parents(toks), a, i) && toks[a].Container()
      ensures Encloses(toks[a], toks[i])
    {
      if a < mid <= i {
        AboveOut(toks, mid, hi, out, a, i);
        AboveIsEarlier(Parents(toks), a, out);
      }
    }
  }

  /** Tokens that hang below the one before them, which is no container or encloses them. */
  lemma NestedBelow(toks: seq<Token>, t: nat, hi: nat)
    requires Linked(toks) && t < hi <= |toks| && NestedIn(toks, t + 1, hi)
    requires toks[t].Container() ==> forall i :: t < i < hi ==> Encloses(toks[t], toks[i])
    ensures NestedIn(toks, t, hi)
  {
  }

  /** The tokens `lo..hi` stand between two positions of the text. */
  ghost predicate SpansIn(toks: seq<Token>, lo: nat, hi: nat, from: nat, to: nat)
    requires hi <= |toks|
  {
    forall x :: lo <= x < hi ==> from <= toks[x].start && toks[x].end <= to
  }

  lemma SpansJoin(toks: seq<Token>, lo: nat, mid: nat, hi: nat, from: nat, to: nat, from': nat, to': nat)
    requires lo <= mid <= hi <= |toks|
    requires SpansIn(toks, lo, mid, from, to) && (mid < hi ==> SpansIn(toks, mid, hi, from', to') && from <= from')
    ensures SpansIn(toks, lo, hi, from, if mid < hi && to < to' then to' else to)
  {
  }

  lemma SpansWiden(toks: seq<Token>, lo: nat, hi: nat, from: nat, to: nat, from': nat, to': nat)
    requires hi <= |toks| && SpansIn(toks, lo, hi, from, to) && from' <= from && to <= to'
    ensures SpansIn(toks, lo, hi, from', to')
  {
  }

  /** The tokens of a value nest, and stand where its text stands. */
  lemma {:induction false} ValueNests(toks: seq<Token>, v: Value, pos: nat, i: nat, parent: int)
    requires Linked(toks) && Stands(toks, Toks(v, pos, i, parent), i) && -1 <= parent < i
    ensures NestedIn(toks, i, i + Count(v)) && SpansIn(toks, i, i + Count(v), pos, pos + |Show(v)|)
    decreases v
  {
    hide Stands, NestedIn, SpansIn, Show, ShowElems, ShowMembers;
    hide Toks, ToksElems, ToksMembers, Count, CountElems, CountMembers;
    StandsFits(toks, Toks(v, pos, i, parent), i);
    if v.Arr? {
      ArrStands(toks, v, pos, i, parent);
      ElemsNest(toks, v.elems, pos + 1 + |v.gap|, i + 1, i);
      ContainerNests(toks, i, i + Count(v), pos + 1 + |v.gap|, pos + |Show(v)| - 1);
    } else if v.Obj? {
      ObjStands(toks, v, pos, i, parent);
      MembersNest(toks, v.members, pos + 1 + |v.gap|, i + 1, i);
      ContainerNests(toks, i, i + Count(v), pos + 1 + |v.gap|, pos + |Show(v)| - 1);
    } else {
      LeafNests(toks, v, pos, i, parent);
    }
  }

  lemma LeafNests(toks: seq<Token>, v: Value, pos: nat, i: nat, parent: int)
    requires Linked(toks) && (v.Lit? || v.Str?) && Stands(toks, Toks(v, pos, i, parent), i)
    ensures i + Count(v) <= |toks|
    ensures NestedIn(toks, i, i + Count(v)) && SpansIn(toks, i, i + Count(v), pos, pos + |Show(v)|)
  {
    assert toks[i] == toks[i..i + 1][0];
  }

  lemma NothingNests(toks: seq<Token>, i: nat, from: nat, to: nat)
    requires Linked(toks) && i <= |toks|
    ensures NestedIn(toks, i, i) && SpansIn(toks, i, i, from, to)
  {
  }

  lemma NoElemsStand(toks: seq<Token>, pos: nat, i: nat, parent: int)
    requires Stands(toks, ToksElems(NoElems, pos, i, parent), i)
    ensures CountElems(NoElems) == 0 && i <= |toks|
  {
  }

  lemma NoMembersStand(toks: seq<Token>, pos: nat, i: nat, parent: int)
    requires Stands(toks, ToksMembers(NoMembers, pos, i, parent), i)
    ensures CountMembers(NoMembers) == 0 && i <= |toks|
  {
  }

  /** A container and the tokens between its brackets. */
  lemma ContainerNests(toks: seq<Token>, i: nat, hi: nat, from: nat, to: nat)
    requires Linked(toks) && i < hi <= |toks| && NestedIn(toks, i + 1, hi) && SpansIn(toks, i + 1, hi, from, to)
    requires 0 <= toks[i].start < from && to < toks[i].end
    ensures NestedIn(toks, i, hi) && SpansIn(toks, i, hi, toks[i].start, toks[i].end)
  {
    forall x | i < x < hi
      ensures Encloses(toks[i], toks[x])
    {
    }
    NestedBelow(toks, i, hi);
  }

  lemma {:induction false} ElemsNest(toks: seq<Token>, es: Elems, pos: nat, i: nat, parent: int)
    requires Linked(toks) && Stands(toks, ToksElems(es, pos, i, parent), i) && -1 <= parent < i
    ensures NestedIn(toks, i, i + CountElems(es)) && SpansIn(toks, i, i + CountElems(es), pos, pos + |ShowElems(es)|)
    decreases es
  {
    hide Stands, NestedIn, HangIn, SpansIn, Show, ShowElems, Toks, ToksElems, Sub, Count, CountElems;
    StandsFits(toks, ToksElems(es, pos, i, parent), i);
    if es.Elem? {
      var at, next, mid := pos + |es.before|, NextElemAt(pos, es), i + Count(es.value);
      var hi := i + CountElems(es);
      ElemStands(toks, es, pos, i, parent);
      ElemLength(es);
      ValueNests(toks, es.value, at, i, parent);
      ElemsNest(toks, es.rest, next, mid, parent);
      ElemsSub(es.rest, next, mid, parent);
      StandsHang(toks, ToksElems(es.rest, next, mid, parent), mid, parent);
      NestedBeside(toks, i, mid, hi, parent);
      SpansJoin(toks, i, mid, hi, at, at + |Show(es.value)|, next, next + |ShowElems(es.rest)|);
      SpansWiden(toks, i, hi, at, if mid < hi then next + |ShowElems(es.rest)| else at + |Show(es.value)|,
                 pos, pos + |ShowElems(es)|);
    } else {
      NoElemsStand(toks, pos, i, parent);
      NothingNests(toks, i, pos, pos + |ShowElems(es)|);
    }
  }

  lemma {:induction false} MembersNest(toks: seq<Token>, ms: Members, pos: nat, i: nat, parent: int)
    requires Linked(toks) && Stands(toks, ToksMembers(ms, pos, i, parent), i) && -1 <= parent < i
    ensures NestedIn(toks, i, i + CountMembers(ms))
    ensures SpansIn(toks, i, i + CountMembers(ms), pos, pos + |ShowMembers(ms)|)
    decreases ms
  {
    hide Stands, NestedIn, HangIn, SpansIn, Show, ShowMembers, Toks, ToksMembers, Sub, Lead, Count, CountMembers;
    StandsFits(toks, ToksMembers(ms, pos, i, parent), i);
    if ms.Member? {
      var at, next, mid := pos + |Lead(ms)|, NextMemberAt(pos, ms), i + 1 + Count(ms.value);
      var hi := i + CountMembers(ms);
      MemberStands(toks, ms, pos, i, parent);
      MemberLength(ms);
      ValueNests(toks, ms.value, at, i + 1, i);
      KeyNests(toks, i, mid, pos, at, at + |Show(ms.value)|);
      MembersNest(toks, ms.tail, next, mid, parent);
      MembersSub(ms.tail, next, mid, parent);
      StandsHang(toks, ToksMembers(ms.tail, next, mid, parent), mid, parent);
      NestedBeside(toks, i, mid, hi, parent);
      SpansJoin(toks, i, mid, hi, pos, at + |Show(ms.value)|, next, next + |ShowMembers(ms.tail)|);
      SpansWiden(toks, i, hi, pos, if mid < hi then next + |ShowMembers(ms.tail)| else at + |Show(ms.value)|,
                 pos, pos + |ShowMembers(ms)|);
    } else {
      NoMembersStand(toks, pos, i, parent);
      NothingNests(toks, i, pos, pos + |ShowMembers(ms)|);
    }
  }

  /** A key and the tokens of its value. */
  lemma KeyNests(toks: seq<Token>, i: nat, hi: nat, pos: nat, from: nat, to: nat)
    requires Linked(toks) && i < hi <= |toks| && NestedIn(toks, i + 1, hi) && SpansIn(toks, i + 1, hi, from, to)
    requires !toks[i].Container() && pos <= toks[i].start && toks[i].end <= from <= to && pos <= from
    ensures NestedIn(toks, i, hi) && SpansIn(toks, i, hi, pos, to)
  {
    NestedBelow(toks, i, hi);
  }

  lemma WholeNests(toks: seq<Token>)
    requires Linked(toks) && NestedIn(toks, 0, |toks|)
    ensures Nested(toks)
  {
  }

  /** The tokens of every JSON document nest; so every JSON text is tidy. */
  lemma DocumentNests(before: string, v: Value, after: string)
    requires IsWs(before) && IsWs(after) && Wf(v) && (v.Lit? ==> after != "")
    ensures Run(before + Show(v) + after, START, Count(v)) == Ok(Toks(v, |before|, 0, -1))
    ensures Nested(Toks(v, |before|, 0, -1))
    ensures Tidy(before + Show(v) + after, 0, Mark(0, false, false))
  {
    hide Run, Tidy, Show, Toks, Count, Wf, IsWs, Nested, NestedIn, IsForest;
    var js, ts := before + Show(v) + after, Toks(v, |before|, 0, -1);
    ParseUndoesShow(before, v, after, Count(v));
    AcceptedIsForest(js, Count(v));
    LinkedOf(js, ts);
    assert ts[0..0 + |ts|] == ts;
    ValueNests(ts, v, |before|, 0, -1);
    WholeNests(ts);
    NestsIffTidy(js, Count(v));
  }

  lemma LinkedOf(js: string, toks: seq<Token>)
    requires IsForest(js, toks)
    ensures Linked(toks)
  {
    forall i | 0 <= i < |toks|
      ensures -1 <= toks[i].parent < i
    {
      assert Parents(toks)[i] == toks[i].parent;
    }
  }
}
