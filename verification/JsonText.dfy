/** JSON texts, and the theorem that the tokeniser undoes writing them out.

    A `Value` is a concrete syntax tree of RFC 8259: the value together with the whitespace its
    text has between tokens, so that `Show` reaches every JSON text.  `Toks` lists the tokens of a
    value in preorder. */
module JsonText {
  import opened Jsmn
  import opened JsonParser

  datatype Value =
    | Lit(text: string)                      // a number, true, false or null
    | Str(text: string)                      // the characters between the quotes
    | Arr(gap: string, elems: Elems)
    | Obj(gap: string, members: Members)

  datatype Elems = NoElems | Elem(before: string, value: Value, after: string, rest: Elems)

  datatype Members = NoMembers
    | Member(before: string, key: string, colon: string, lead: string, value: Value, after: string, tail: Members)

  // ----- well-formedness, sections 2 to 7 of RFC 8259 -----
  // The grammar is written out here; that the tokeniser takes all of it is what the lemmas show.

  /** Section 2: space, horizontal tab, line feed, carriage return. */
  predicate WsChar(c: char) {
    c == ' ' || c == '\t' || c == '\n' || c == '\r'
  }

  predicate IsWs(w: string) {
    forall i :: 0 <= i < |w| ==> WsChar(w[i])
  }

  /** A literal as far as the tokeniser looks: it begins as a number or one of the three names does, and
      has no whitespace, no separator and no closing bracket.  Every number, true, false and null of
      sections 3 and 6 is of this form, see `NumbersAreLits`. */
  predicate IsLit(t: string) {
    && t != "" && (t[0] == '-' || '0' <= t[0] <= '9' || t[0] == 't' || t[0] == 'f' || t[0] == 'n')
    && forall i :: 0 <= i < |t| ==> LitChar(t[i])
  }

  predicate LitChar(c: char) {
    '!' <= c <= '~' && c != ',' && c != ']' && c != '}'
  }

  /** Section 7: the digits of a \u escape, and the characters of the others. */
  predicate HexDigit(c: char) {
    '0' <= c <= '9' || 'A' <= c <= 'F' || 'a' <= c <= 'f'
  }

  predicate EscapeChar(c: char) {
    c == '"' || c == '\\' || c == '/' || c == 'b' || c == 'f' || c == 'n' || c == 'r' || c == 't'
  }

  /** The characters of a string from position `i` on, section 7 of RFC 8259. */
  predicate IsStrFrom(t: string, i: nat)
    requires i <= |t|
    decreases |t| - i
  {
    if i == |t| then true
    else if t[i] == '\\' then
      i + 2 <= |t| &&
      if t[i + 1] == 'u' then
        && i + 6 <= |t| && HexDigit(t[i + 2]) && HexDigit(t[i + 3]) && HexDigit(t[i + 4]) && HexDigit(t[i + 5])
        && IsStrFrom(t, i + 6)
      else EscapeChar(t[i + 1]) && IsStrFrom(t, i + 2)
    else t[i] >= ' ' && t[i] != '"' && IsStrFrom(t, i + 1)
  }

  predicate IsStr(t: string) {
    IsStrFrom(t, 0)
  }

  predicate Wf(v: Value) {
    match v
    case Lit(t) => IsLit(t)
    case Str(t) => IsStr(t)
    case Arr(gap, es) => IsWs(gap) && WfElems(es)
    case Obj(gap, ms) => IsWs(gap) && WfMembers(ms)
  }

  predicate WfElems(es: Elems) {
    match es
    case NoElems => true
    case Elem(b, v, a, rest) => IsWs(b) && IsWs(a) && Wf(v) && WfElems(rest)
  }

  predicate WfMembers(ms: Members) {
    match ms
    case NoMembers => true
    case Member(b, k, c, l, v, a, tail) =>
      IsWs(b) && IsStr(k) && IsWs(c) && IsWs(l) && IsWs(a) && Wf(v) && WfMembers(tail)
  }

  // ----- text -----

  function Quoted(t: string): string {
    "\"" + t + "\""
  }

  /** What stands before a member's value. */
  function Lead(m: Members): string
    requires m.Member?
  {
    m.before + Quoted(m.key) + m.colon + ":" + m.lead
  }

  function Show(v: Value): (s: string)
    ensures s != "" || (v.Lit? && v.text == "")
    decreases v, 0
  {
    match v
    case Lit(t) => t
    case Str(t) => Quoted(t)
    case Arr(gap, es) => "[" + gap + ShowElems(es) + "]"
    case Obj(gap, ms) => "{" + gap + ShowMembers(ms) + "}"
  }

  function ShowElems(es: Elems): string
    decreases es, 0
  {
    match es
    case NoElems => ""
    case Elem(b, v, a, rest) => b + Show(v) + a + NextElems(rest)
  }

  /** The further elements of an array that has one already. */
  function NextElems(es: Elems): string
    decreases es, 1
  {
    if es == NoElems then "" else "," + ShowElems(es)
  }

  function NextMembers(ms: Members): string
    decreases ms, 1
  {
    if ms == NoMembers then "" else "," + ShowMembers(ms)
  }

  function ShowMembers(ms: Members): string
    decreases ms, 0
  {
    match ms
    case NoMembers => ""
    case Member(_, _, _, _, v, a, tail) =>
      Lead(ms) + Show(v) + a + NextMembers(tail)
  }

  // ----- tokens -----

  function Count(v: Value): (n: nat)
    ensures n >= 1
  {
    match v
    case Lit(_) => 1
    case Str(_) => 1
    case Arr(_, es) => 1 + CountElems(es)
    case Obj(_, ms) => 1 + CountMembers(ms)
  }

  function CountElems(es: Elems): nat {
    match es
    case NoElems => 0
    case Elem(_, v, _, rest) => Count(v) + CountElems(rest)
  }

  function CountMembers(ms: Members): nat {
    match ms
    case NoMembers => 0
    case Member(_, _, _, _, v, _, tail) => 1 + Count(v) + CountMembers(tail)
  }

  function Len(es: Elems): nat {
    match es
    case NoElems => 0
    case Elem(_, _, _, rest) => 1 + Len(rest)
  }

  function Keys(ms: Members): nat {
    match ms
    case NoMembers => 0
    case Member(_, _, _, _, _, _, tail) => 1 + Keys(tail)
  }

  /** The tokens of `v` in preorder, when its text starts at `pos`, its first token has index
      `base`, and it hangs below token `parent`. */
  function Toks(v: Value, pos: nat, base: nat, parent: int): (ts: seq<Token>)
    ensures |ts| == Count(v)
  {
    match v
    case Lit(t) => [Token(Primitive, pos, pos + |t|, 0, parent)]
    case Str(t) => [Token(String, pos + 1, pos + 1 + |t|, 0, parent)]
    case Arr(gap, es) =>
      [Token(Array, pos, pos + |Show(v)|, Len(es), parent)] + ToksElems(es, pos + 1 + |gap|, base + 1, base)
    case Obj(gap, ms) =>
      [Token(Object, pos, pos + |Show(v)|, Keys(ms), parent)] + ToksMembers(ms, pos + 1 + |gap|, base + 1, base)
  }

  function ToksElems(es: Elems, pos: nat, base: nat, parent: int): (ts: seq<Token>)
    ensures |ts| == CountElems(es)
  {
    match es
    case NoElems => []
    case Elem(b, v, a, rest) =>
      var at := pos + |b|;
      Toks(v, at, base, parent) + ToksElems(rest, at + |Show(v)| + |a| + 1, base + Count(v), parent)
  }

  function ToksMembers(ms: Members, pos: nat, base: nat, parent: int): (ts: seq<Token>)
    ensures |ts| == CountMembers(ms)
  {
    match ms
    case NoMembers => []
    case Member(b, k, c, l, v, a, tail) =>
      var keyAt := pos + |b| + 1;
      var at := pos + |Lead(ms)|;
      [Token(String, keyAt, keyAt + |k|, 1, parent)] + Toks(v, at, base + 1, base) +
      ToksMembers(tail, at + |Show(v)| + |a| + 1, base + 1 + Count(v), parent)
  }

  // ----- texts inside texts -----

  /** The text `s` stands at position `p` of `js`. */
  predicate At(js: string, p: nat, s: string) {
    p + |s| <= |js| && forall i :: 0 <= i < |s| ==> js[p + i] == s[i]
  }

  lemma AtChar(js: string, p: nat, s: string, i: nat)
    requires At(js, p, s) && i < |s|
    ensures p + i < |js| && js[p + i] == s[i]
  {
  }

  lemma AtSplit(js: string, p: nat, s: string, t: string)
    requires At(js, p, s + t)
    ensures At(js, p, s) && At(js, p + |s|, t)
  {
    forall i | 0 <= i < |s|
      ensures js[p + i] == s[i]
    {
      assert (s + t)[i] == s[i];
    }
    forall i | 0 <= i < |t|
      ensures js[p + |s| + i] == t[i]
    {
      assert (s + t)[|s| + i] == t[i];
    }
  }

  /** Whitespace, a separator or a closing bracket comes next. */
  predicate EndsAt(js: string, p: nat) {
    p < |js| && (WsChar(js[p]) || js[p] == ',' || js[p] == ']' || js[p] == '}')
  }

  // ----- scanning what was written -----

  lemma {:induction false} ScanLit(js: string, p: nat, t: string, i: nat)
    requires At(js, p, t) && i <= |t|
    requires forall k :: 0 <= k < |t| ==> LitChar(t[k])
    requires EndsAt(js, p + |t|)
    ensures ScanPrimitive(js, p + i) == Ok(p + |t|)
    decreases |t| - i
  {
    if i < |t| {
      assert js[p + i] == t[i];
      ScanLit(js, p, t, i + 1);
    }
  }

  lemma {:induction false} ScanUnendedLit(js: string, p: nat)
    requires p <= |js| && forall k :: p <= k < |js| ==> LitChar(js[k])
    ensures ScanPrimitive(js, p) == Err(Part)
    decreases |js| - p
  {
    if p < |js| {
      ScanUnendedLit(js, p + 1);
    }
  }

  lemma FourHex(js: string, p: nat)
    requires p + 4 <= |js| && HexDigit(js[p]) && HexDigit(js[p + 1]) && HexDigit(js[p + 2]) && HexDigit(js[p + 3])
    ensures SkipHex(js, p, 4) == Ok(p + 4)
  {
    assert SkipHex(js, p + 3, 1) == Ok(p + 4);
    assert SkipHex(js, p + 1, 3) == Ok(p + 4);
  }

  lemma {:induction false} ScanStr(js: string, p: nat, t: string, i: nat)
    requires At(js, p, t) && i <= |t| && IsStrFrom(t, i) && p + |t| < |js| && js[p + |t|] == '"'
    ensures ScanString(js, p + i) == Ok(p + |t|)
    decreases |t| - i
  {
    if i < |t| {
      assert js[p + i] == t[i];
      if t[i] != '\\' {
        ScanStr(js, p, t, i + 1);
      } else {
        AtChar(js, p, t, i + 1);
        if t[i + 1] != 'u' {
          ScanStr(js, p, t, i + 2);
        } else {
          AtChar(js, p, t, i + 2);
          AtChar(js, p, t, i + 3);
          AtChar(js, p, t, i + 4);
          AtChar(js, p, t, i + 5);
          FourHex(js, p + (i + 2));
          ScanStr(js, p, t, i + 6);
        }
      }
    }
  }

  // ----- runs over what was written -----

  /** The filling pass gets from `st` to `st'`. */
  ghost predicate Leads(js: string, st: State, st': State, cap: nat) {
    st.Valid() && st'.Valid() && Run(js, st, cap) == Run(js, st', cap)
  }

  lemma {:induction false} OverWsFrom(js: string, st: State, p: nat, w: string, i: nat, cap: nat)
    requires st.Valid() && At(js, p, w) && IsWs(w) && i <= |w| && st.pos == p + i
    ensures Leads(js, st, st.(pos := p + |w|), cap)
    decreases |w| - i
  {
    if i < |w| {
      assert js[p + i] == w[i];
      OverWsFrom(js, st.(pos := st.pos + 1), p, w, i + 1, cap);
    }
  }

  lemma OverWs(js: string, st: State, w: string, cap: nat)
    requires st.Valid() && At(js, st.pos, w) && IsWs(w)
    ensures Leads(js, st, st.(pos := st.pos + |w|), cap)
  {
    OverWsFrom(js, st, st.pos, w, 0, cap);
  }

  /** The state after the tokens `ts` were added below `sup`, by now at `pos`. */
  function Grown(st: State, pos: nat, ts: seq<Token>): State
    requires -1 <= st.sup < |st.toks|
  {
    State(pos, Bump(st.toks, st.sup) + ts, st.sup)
  }

  lemma QuotedAt(js: string, p: nat, t: string)
    requires At(js, p, Quoted(t))
    ensures p + |t| + 1 < |js| && js[p] == '"' && js[p + 1 + |t|] == '"' && At(js, p + 1, t)
  {
    assert Quoted(t) == "\"" + (t + "\"");
    AtSplit(js, p, "\"", t + "\"");
    AtSplit(js, p + 1, t, "\"");
    AtChar(js, p, "\"", 0);
    AtChar(js, p + 1 + |t|, "\"", 0);
  }

  lemma StrStep(js: string, st: State, q: nat, cap: nat)
    requires st.Valid() && st.pos < |js| && js[st.pos] == '"' && |st.toks| < cap
    requires ScanString(js, st.pos + 1) == Ok(q)
    ensures Leads(js, st, Grown(st, q + 1, [Token(String, st.pos + 1, q, 0, st.sup)]), cap)
  {
    assert Step(js, st, cap) == Ok(Grown(st, q + 1, [Token(String, st.pos + 1, q, 0, st.sup)]));
  }

  /** Keys and strings. */
  lemma OverStr(js: string, st: State, t: string, cap: nat)
    requires st.Valid() && At(js, st.pos, Quoted(t)) && IsStr(t) && |st.toks| < cap
    ensures Leads(js, st, Grown(st, st.pos + |t| + 2, [Token(String, st.pos + 1, st.pos + 1 + |t|, 0, st.sup)]), cap)
  {
    QuotedAt(js, st.pos, t);
    ScanStr(js, st.pos + 1, t, 0);
    StrStep(js, st, st.pos + 1 + |t|, cap);
  }

  lemma LitStep(js: string, st: State, q: nat, cap: nat)
    requires st.Valid() && st.pos < |js| && StartsPrimitive(js[st.pos]) && |st.toks| < cap && !RefusesPrimitive(st)
    requires ScanPrimitive(js, st.pos + 1) == Ok(q)
    ensures Leads(js, st, Grown(st, q, [Token(Primitive, st.pos, q, 0, st.sup)]), cap)
  {
    assert Step(js, st, cap) == Ok(Grown(st, q, [Token(Primitive, st.pos, q, 0, st.sup)]));
  }

  lemma OverLit(js: string, st: State, t: string, cap: nat)
    requires st.Valid() && At(js, st.pos, t) && IsLit(t) && |st.toks| < cap && !RefusesPrimitive(st)
    requires EndsAt(js, st.pos + |t|)
    ensures Leads(js, st, Grown(st, st.pos + |t|, [Token(Primitive, st.pos, st.pos + |t|, 0, st.sup)]), cap)
  {
    hide Step, Leads, ScanPrimitive, RefusesPrimitive;
    AtChar(js, st.pos, t, 0);
    ScanLit(js, st.pos, t, 1);
    LitStep(js, st, st.pos + |t|, cap);
  }

  // ----- where the parts of a text stand -----

  /** A primitive before whitespace and a delimiter is delimited. */
  lemma EndsBeforeWs(js: string, p: nat, w: string)
    requires At(js, p, w) && IsWs(w) && EndsAt(js, p + |w|)
    ensures EndsAt(js, p)
  {
    if w != "" {
      AtChar(js, p, w, 0);
    }
  }

  lemma BracketedAt(js: string, p: nat, left: string, gap: string, inside: string, right: string)
    requires |left| == |right| == 1 && At(js, p, left + gap + inside + right)
    ensures p < |js| && js[p] == left[0] && At(js, p + 1, gap) && At(js, p + 1 + |gap|, inside)
    ensures var q := p + 1 + |gap| + |inside|; q < |js| && js[q] == right[0]
  {
    AtSplit(js, p, left + gap + inside, right);
    AtSplit(js, p, left + gap, inside);
    AtSplit(js, p, left, gap);
    AtChar(js, p, left, 0);
    AtChar(js, p + 1 + |gap| + |inside|, right, 0);
  }

  lemma AtFour(js: string, p: nat, a: string, b: string, c: string, d: string)
    requires At(js, p, a + b + c + d)
    ensures At(js, p, a) && At(js, p + |a|, b) && At(js, p + |a| + |b|, c) && At(js, p + |a| + |b| + |c|, d)
  {
    AtSplit(js, p, a + b + c, d);
    AtSplit(js, p, a + b, c);
    AtSplit(js, p, a, b);
  }

  lemma AtComma(js: string, p: nat, s: string)
    requires At(js, p, "," + s)
    ensures p < |js| && js[p] == ',' && At(js, p + 1, s)
  {
    AtSplit(js, p, ",", s);
    AtChar(js, p, ",", 0);
  }

  /** Where the parts of a non-empty list of elements stand. */
  lemma ElemParts(js: string, p: nat, es: Elems, a: string, b: string, c: string, d: string)
    requires es.Elem? && At(js, p, ShowElems(es))
    requires a == es.before && b == Show(es.value) && c == es.after && d == NextElems(es.rest)
    ensures At(js, p, a) && At(js, p + |a|, b) && At(js, p + |a| + |b|, c) && At(js, p + |a| + |b| + |c|, d)
  {
    AtFour(js, p, a, b, c, d);
  }

  lemma ElemLength(es: Elems)
    requires es.Elem?
    ensures |ShowElems(es)| == |es.before| + |Show(es.value)| + |es.after| +
      if es.rest == NoElems then 0 else 1 + |ShowElems(es.rest)|
  {
    assert es.rest == NoElems ==> NextElems(es.rest) == "";
  }

  lemma MemberLength(m: Members)
    requires m.Member?
    ensures |ShowMembers(m)| == |Lead(m)| + |Show(m.value)| + |m.after| +
      if m.tail == NoMembers then 0 else 1 + |ShowMembers(m.tail)|
  {
    assert m.tail == NoMembers ==> NextMembers(m.tail) == "";
  }

  lemma ElemAt(js: string, p: nat, es: Elems)
    requires es.Elem? && At(js, p, ShowElems(es))
    ensures At(js, p, es.before) && At(js, p + |es.before|, Show(es.value))
    ensures At(js, p + |es.before| + |Show(es.value)|, es.after)
    ensures At(js, p + |es.before| + |Show(es.value)| + |es.after|, NextElems(es.rest))
  {
    ElemParts(js, p, es, es.before, Show(es.value), es.after, NextElems(es.rest));
  }

  lemma MemberParts(js: string, p: nat, m: Members, a: string, b: string, c: string, d: string)
    requires m.Member? && At(js, p, ShowMembers(m))
    requires a == Lead(m) && b == Show(m.value) && c == m.after && d == NextMembers(m.tail)
    ensures At(js, p, a) && At(js, p + |a|, b) && At(js, p + |a| + |b|, c) && At(js, p + |a| + |b| + |c|, d)
  {
    AtFour(js, p, a, b, c, d);
  }

  lemma MemberAt(js: string, p: nat, m: Members)
    requires m.Member? && At(js, p, ShowMembers(m))
    ensures At(js, p, Lead(m)) && At(js, p + |Lead(m)|, Show(m.value))
    ensures At(js, p + |Lead(m)| + |Show(m.value)|, m.after)
    ensures At(js, p + |Lead(m)| + |Show(m.value)| + |m.after|, NextMembers(m.tail))
  {
    MemberParts(js, p, m, Lead(m), Show(m.value), m.after, NextMembers(m.tail));
  }

  lemma LeadAt(js: string, p: nat, m: Members)
    requires m.Member? && At(js, p, Lead(m))
    ensures At(js, p, m.before) && At(js, p + |m.before|, Quoted(m.key))
    ensures At(js, p + |m.before| + |m.key| + 2, m.colon)
    ensures At(js, p + |m.before| + |m.key| + 2 + |m.colon|, ":")
    ensures At(js, p + |m.before| + |m.key| + 2 + |m.colon| + 1, m.lead)
  {
    AtSplit(js, p, m.before + Quoted(m.key) + m.colon + ":", m.lead);
    AtFour(js, p, m.before, Quoted(m.key), m.colon, ":");
  }

  // ----- the tokens of a value hang together -----

  /** Tokens from index `base` on that are all closed and hang below `parent` or one another. */
  ghost predicate Sub(ts: seq<Token>, base: nat, parent: int) {
    forall k :: 0 <= k < |ts| ==> !ts[k].Open() && (ts[k].parent == parent || base <= ts[k].parent < base + k)
  }

  lemma {:induction false} ToksSub(v: Value, pos: nat, base: nat, parent: int)
    ensures Sub(Toks(v, pos, base, parent), base, parent)
  {
    match v
    case Lit(t) =>
    case Str(t) =>
    case Arr(gap, es) => ElemsSub(es, pos + 1 + |gap|, base + 1, base);
    case Obj(gap, ms) => MembersSub(ms, pos + 1 + |gap|, base + 1, base);
  }

  lemma {:induction false} ElemsSub(es: Elems, pos: nat, base: nat, parent: int)
    ensures Sub(ToksElems(es, pos, base, parent), base, parent)
  {
    match es
    case NoElems =>
    case Elem(b, v, a, rest) =>
      ToksSub(v, pos + |b|, base, parent);
      ElemsSub(rest, pos + |b| + |Show(v)| + |a| + 1, base + Count(v), parent);
  }

  lemma {:induction false} MembersSub(ms: Members, pos: nat, base: nat, parent: int)
    ensures Sub(ToksMembers(ms, pos, base, parent), base, parent)
  {
    match ms
    case NoMembers =>
    case Member(b, k, c, l, v, a, tail) =>
      ToksSub(v, pos + |Lead(ms)|, base + 1, base);
      MembersSub(tail, pos + |Lead(ms)| + |Show(v)| + |a| + 1, base + 1 + Count(v), parent);
  }

  /** Over closed tokens the walk for a closing bracket climbs to the open container. */
  lemma {:induction false} WalkToOpen(toks: seq<Token>, b: nat, i: nat)
    requires Linked(toks) && b <= i < |toks| && toks[b].Open()
    requires forall k :: b < k < |toks| ==> !toks[k].Open() && b <= toks[k].parent
    ensures WalkUp(toks, i) == b
    decreases i
  {
    if i != b {
      WalkToOpen(toks, b, toks[i].parent);
    }
  }

  // ----- runs over values -----

  /** `n` more children for token `b`. */
  function BumpBy(toks: seq<Token>, b: nat, n: nat): seq<Token>
    requires b < |toks|
  {
    toks[b := toks[b].(size := toks[b].size + n)]
  }

  lemma BumpAgain(toks: seq<Token>, b: nat, ts: seq<Token>, n: nat, us: seq<Token>)
    requires b < |toks|
    ensures BumpBy(Bump(toks, b) + ts, b, n) + us == BumpBy(toks, b, n + 1) + (ts + us)
  {
  }

  /** A value may come next: at the top, in an array, or as the first value of a key. */
  predicate TakesValue(st: State)
    requires st.Valid()
  {
    st.sup != -1 ==> st.toks[st.sup].kind == Array || (st.toks[st.sup].kind == String && st.toks[st.sup].size == 0)
  }

  /** The state at the end of the elements `es` of the array `st.sup`. */
  function PastElems(st: State, es: Elems): State
    requires 0 <= st.sup < |st.toks|
  {
    State(st.pos + |ShowElems(es)|,
          BumpBy(st.toks, st.sup, Len(es)) + ToksElems(es, st.pos, |st.toks|, st.sup), st.sup)
  }

  /** After members the key of the last one is the superior; without any, the object itself. */
  function LastKey(ms: Members, base: nat, owner: int): int {
    match ms
    case NoMembers => owner
    case Member(_, _, _, _, v, _, tail) => if tail == NoMembers then base else LastKey(tail, base + 1 + Count(v), owner)
  }

  function PastMembers(st: State, ms: Members): State
    requires 0 <= st.sup < |st.toks|
  {
    State(st.pos + |ShowMembers(ms)|,
          BumpBy(st.toks, st.sup, Keys(ms)) + ToksMembers(ms, st.pos, |st.toks|, st.sup),
          LastKey(ms, |st.toks|, st.sup))
  }

  function PastValue(st: State, v: Value): State
    requires -1 <= st.sup < |st.toks|
  {
    Grown(st, st.pos + |Show(v)|, Toks(v, st.pos, |st.toks|, st.sup))
  }

  lemma OverComma(js: string, st: State, cap: nat)
    requires st.Valid() && st.pos < |js| && js[st.pos] == ','
    ensures Leads(js, st, State(st.pos + 1, st.toks, AfterComma(st)), cap)
  {
    assert Step(js, st, cap) == Ok(State(st.pos + 1, st.toks, AfterComma(st)));
  }

  lemma OverColon(js: string, st: State, cap: nat)
    requires st.Valid() && st.pos < |js| && js[st.pos] == ':'
    ensures Leads(js, st, State(st.pos + 1, st.toks, |st.toks| - 1), cap)
  {
    assert Step(js, st, cap) == Ok(State(st.pos + 1, st.toks, |st.toks| - 1));
  }

  /** The state after the opening bracket of a value. */
  function Opened(st: State, kind: Kind): State
    requires -1 <= st.sup < |st.toks|
  {
    State(st.pos + 1, Bump(st.toks, st.sup) + [Token(kind, st.pos, -1, 0, st.sup)], |st.toks|)
  }

  lemma OverOpen(js: string, st: State, kind: Kind, cap: nat)
    requires st.Valid() && st.pos < |js| && TakesValue(st) && |st.toks| < cap
    requires (kind == Array && js[st.pos] == '[') || (kind == Object && js[st.pos] == '{')
    ensures Leads(js, st, Opened(st, kind), cap)
  {
    assert Step(js, st, cap) == Ok(Opened(st, kind));
  }

  /** The state after the bracket that closes token `b`. */
  function Closed(st: State, b: nat): State
    requires b < |st.toks|
  {
    State(st.pos + 1, st.toks[b := st.toks[b].(end := st.pos + 1)], st.toks[b].parent)
  }

  lemma OverClose(js: string, st: State, b: nat, cap: nat)
    requires st.Valid() && st.pos < |js| && b < |st.toks| && st.toks[b].Open()
    requires (st.toks[b].kind == Array && js[st.pos] == ']') || (st.toks[b].kind == Object && js[st.pos] == '}')
    requires forall k :: b < k < |st.toks| ==> !st.toks[k].Open() && b <= st.toks[k].parent
    ensures Leads(js, st, Closed(st, b), cap)
  {
    WalkToOpen(st.toks, b, |st.toks| - 1);
    assert Step(js, st, cap) == Ok(Closed(st, b));
  }

  /** The state inside the brackets of a container, past the gap. */
  function Inside(st: State, kind: Kind, gap: string): State
    requires -1 <= st.sup < |st.toks|
  {
    Opened(st, kind).(pos := st.pos + 1 + |gap|)
  }

  /** Closing after the elements gives the tokens of the array, listed below its parent. */
  lemma ClosedArr(st: State, v: Value)
    requires -1 <= st.sup < |st.toks| && v.Arr?
    ensures var st2 := Inside(st, Array, v.gap);
      Closed(PastElems(st2, v.elems), |st.toks|) == PastValue(st, v)
  {
    var st2 := Inside(st, Array, v.gap);
    var st3 := Closed(PastElems(st2, v.elems), |st.toks|);
    assert st3.toks == PastValue(st, v).toks;
  }

  lemma ClosedObj(st: State, v: Value)
    requires -1 <= st.sup < |st.toks| && v.Obj?
    ensures var st2 := Inside(st, Object, v.gap);
      Closed(PastMembers(st2, v.members), |st.toks|) == PastValue(st, v)
  {
    var st2 := Inside(st, Object, v.gap);
    var st3 := Closed(PastMembers(st2, v.members), |st.toks|);
    assert st3.toks == PastValue(st, v).toks;
  }

  // ----- what has to hold before a value, elements or members are passed over -----

  ghost predicate ValueReady(js: string, st: State, v: Value, cap: nat) {
    && st.Valid() && TakesValue(st) && Wf(v) && |st.toks| + Count(v) <= cap
    && At(js, st.pos, Show(v)) && (v.Lit? ==> EndsAt(js, st.pos + |Show(v)|))
  }

  ghost predicate ElemsReady(js: string, st: State, es: Elems, cap: nat) {
    && st.Valid() && 0 <= st.sup && st.toks[st.sup].kind == Array
    && WfElems(es) && |st.toks| + CountElems(es) <= cap
    && At(js, st.pos, ShowElems(es)) && EndsAt(js, st.pos + |ShowElems(es)|)
  }

  ghost predicate MembersReady(js: string, st: State, ms: Members, cap: nat) {
    && st.Valid() && 0 <= st.sup && st.toks[st.sup].kind == Object
    && WfMembers(ms) && |st.toks| + CountMembers(ms) <= cap
    && At(js, st.pos, ShowMembers(ms)) && EndsAt(js, st.pos + |ShowMembers(ms)|)
  }

  lemma OverOpening(js: string, st: State, kind: Kind, gap: string, cap: nat)
    requires st.Valid() && st.pos < |js| && TakesValue(st) && |st.toks| < cap
    requires (kind == Array && js[st.pos] == '[') || (kind == Object && js[st.pos] == '{')
    requires IsWs(gap) && At(js, st.pos + 1, gap)
    ensures Leads(js, st, Inside(st, kind, gap), cap)
  {
    hide Run;
    OverOpen(js, st, kind, cap);
    OverWs(js, Opened(st, kind), gap, cap);
  }

  /** An array, given that its elements are passed over. */
  lemma OverArr(js: string, st: State, v: Value, cap: nat)
    requires v.Arr? && ValueReady(js, st, v, cap)
    requires var st2 := Inside(st, Array, v.gap); Leads(js, st2, PastElems(st2, v.elems), cap)
    ensures Leads(js, st, PastValue(st, v), cap)
  {
    hide Run;
    BracketedAt(js, st.pos, "[", v.gap, ShowElems(v.elems), "]");
    OverOpening(js, st, Array, v.gap, cap);
    var st2 := Inside(st, Array, v.gap);
    ElemsSub(v.elems, st2.pos, |st2.toks|, st2.sup);
    OverClose(js, PastElems(st2, v.elems), |st.toks|, cap);
    ClosedArr(st, v);
  }

  lemma OverObj(js: string, st: State, v: Value, cap: nat)
    requires v.Obj? && ValueReady(js, st, v, cap)
    requires var st2 := Inside(st, Object, v.gap); Leads(js, st2, PastMembers(st2, v.members), cap)
    ensures Leads(js, st, PastValue(st, v), cap)
  {
    hide Run;
    BracketedAt(js, st.pos, "{", v.gap, ShowMembers(v.members), "}");
    OverOpening(js, st, Object, v.gap, cap);
    var st2 := Inside(st, Object, v.gap);
    MembersSub(v.members, st2.pos, |st2.toks|, st2.sup);
    OverClose(js, PastMembers(st2, v.members), |st.toks|, cap);
    ClosedObj(st, v);
  }

  lemma OverLeaf(js: string, st: State, v: Value, cap: nat)
    requires ValueReady(js, st, v, cap) && (v.Lit? || v.Str?)
    ensures Leads(js, st, PastValue(st, v), cap)
  {
    if v.Lit? {
      OverLit(js, st, v.text, cap);
    } else {
      OverStr(js, st, v.text, cap);
    }
  }

  /** The state after the first of the elements `es` and its comma, if there is one. */
  function PastElem(st: State, es: Elems): State
    requires 0 <= st.sup < |st.toks| && es.Elem?
  {
    var st2 := PastValue(st.(pos := st.pos + |es.before|), es.value);
    st2.(pos := st2.pos + |es.after| + if es.rest == NoElems then 0 else 1)
  }

  lemma ElemsJoin(st: State, es: Elems)
    requires 0 <= st.sup < |st.toks| && es.Elem?
    ensures var st4 := PastElem(st, es);
      PastElems(st, es) == if es.rest == NoElems then st4 else PastElems(st4, es.rest)
  {
    var st4 := PastElem(st, es);
    ElemLength(es);
    BumpAgain(st.toks, st.sup, Toks(es.value, st.pos + |es.before|, |st.toks|, st.sup), Len(es.rest),
              ToksElems(es.rest, st4.pos, |st4.toks|, st.sup));
    if es.rest == NoElems {
      assert ToksElems(es.rest, st4.pos, |st4.toks|, st.sup) == [];
    }
  }

  /** One element up to its comma or the end, given that its value is passed over. */
  lemma OverElemWs(js: string, st: State, es: Elems, cap: nat)
    requires st.Valid() && 0 <= st.sup && es.Elem? && IsWs(es.before) && IsWs(es.after)
    requires At(js, st.pos, ShowElems(es))
    requires var st1 := st.(pos := st.pos + |es.before|); Leads(js, st1, PastValue(st1, es.value), cap)
    ensures Leads(js, st, PastElem(st, es.(rest := NoElems)), cap)
  {
    hide Run;
    ElemAt(js, st.pos, es);
    OverWs(js, st, es.before, cap);
    OverWs(js, PastValue(st.(pos := st.pos + |es.before|), es.value), es.after, cap);
  }

  /** One element, given that its value is passed over. */
  lemma OverElem(js: string, st: State, es: Elems, cap: nat)
    requires st.Valid() && 0 <= st.sup && st.toks[st.sup].kind == Array && es.Elem?
    requires IsWs(es.before) && IsWs(es.after) && At(js, st.pos, ShowElems(es))
    requires var st1 := st.(pos := st.pos + |es.before|); Leads(js, st1, PastValue(st1, es.value), cap)
    ensures Leads(js, st, PastElem(st, es), cap)
  {
    hide Run;
    OverElemWs(js, st, es, cap);
    var st3 := PastElem(st, es.(rest := NoElems));
    if es.rest == NoElems {
      assert es.(rest := NoElems) == es;
    } else {
      ElemAt(js, st.pos, es);
      AtComma(js, st3.pos, ShowElems(es.rest));
      OverComma(js, st3, cap);
    }
  }

  /** The first value is delimited, and the further elements follow its comma. */
  lemma ElemEnds(js: string, p: nat, es: Elems)
    requires es.Elem? && At(js, p, ShowElems(es)) && EndsAt(js, p + |ShowElems(es)|) && IsWs(es.after)
    ensures EndsAt(js, p + |es.before| + |Show(es.value)|)
    ensures es.rest.Elem? ==> At(js, p + |es.before| + |Show(es.value)| + |es.after| + 1, ShowElems(es.rest))
  {
    ElemAt(js, p, es);
    var q := p + |es.before| + |Show(es.value)|;
    ElemLength(es);
    if es.rest.Elem? {
      AtComma(js, q + |es.after|, ShowElems(es.rest));
    }
    EndsBeforeWs(js, q, es.after);
  }

  /** The state before a member's value: its key has been added and is the superior. */
  function PastLead(st: State, m: Members): State
    requires 0 <= st.sup < |st.toks| && m.Member?
  {
    var at := st.pos + |m.before| + 1;
    State(st.pos + |Lead(m)|, Bump(st.toks, st.sup) + [Token(String, at, at + |m.key|, 0, st.sup)], |st.toks|)
  }

  lemma OverKey(js: string, st: State, m: Members, cap: nat)
    requires st.Valid() && 0 <= st.sup && m.Member? && At(js, st.pos, Lead(m)) && |st.toks| < cap
    requires IsWs(m.before) && IsStr(m.key)
    ensures Leads(js, st, PastLead(st, m).(pos := st.pos + |m.before| + |m.key| + 2, sup := st.sup), cap)
  {
    hide Run;
    LeadAt(js, st.pos, m);
    OverWs(js, st, m.before, cap);
    OverStr(js, st.(pos := st.pos + |m.before|), m.key, cap);
  }

  lemma OverLead(js: string, st: State, m: Members, cap: nat)
    requires st.Valid() && 0 <= st.sup && m.Member? && At(js, st.pos, Lead(m)) && |st.toks| < cap
    requires IsWs(m.before) && IsStr(m.key) && IsWs(m.colon) && IsWs(m.lead)
    ensures Leads(js, st, PastLead(st, m), cap)
  {
    hide Run;
    LeadAt(js, st.pos, m);
    OverKey(js, st, m, cap);
    var st2 := PastLead(st, m).(pos := st.pos + |m.before| + |m.key| + 2, sup := st.sup);
    OverWs(js, st2, m.colon, cap);
    var st3 := st2.(pos := st2.pos + |m.colon|);
    AtChar(js, st3.pos, ":", 0);
    OverColon(js, st3, cap);
    OverWs(js, State(st3.pos + 1, st3.toks, |st.toks|), m.lead, cap);
  }

  /** The state after the first of the members `ms` and its comma, if there is one. */
  function PastMember(st: State, ms: Members): State
    requires 0 <= st.sup < |st.toks| && ms.Member?
  {
    var st2 := PastValue(PastLead(st, ms), ms.value);
    if ms.tail == NoMembers then st2.(pos := st2.pos + |ms.after|)
    else State(st2.pos + |ms.after| + 1, st2.toks, st.sup)
  }

  lemma MembersJoin(st: State, ms: Members)
    requires 0 <= st.sup < |st.toks| && ms.Member?
    ensures var st4 := PastMember(st, ms);
      PastMembers(st, ms) == if ms.tail == NoMembers then st4 else PastMembers(st4, ms.tail)
  {
    var st4 := PastMember(st, ms);
    MemberLength(ms);
    var ts := [Token(String, st.pos + |ms.before| + 1, st.pos + |ms.before| + 1 + |ms.key|, 1, st.sup)]
      + Toks(ms.value, st.pos + |Lead(ms)|, |st.toks| + 1, |st.toks|);
    assert st4.toks == Bump(st.toks, st.sup) + ts;
    if ms.tail.Member? {
      BumpAgain(st.toks, st.sup, ts, Keys(ms.tail), ToksMembers(ms.tail, st4.pos, |st4.toks|, st.sup));
    } else {
      assert ts + [] == ts;
    }
  }

  /** One member, given that its value is passed over. */
  lemma OverMember(js: string, st: State, ms: Members, cap: nat)
    requires st.Valid() && 0 <= st.sup && st.toks[st.sup].kind == Object && ms.Member? && |st.toks| < cap
    requires IsWs(ms.before) && IsStr(ms.key) && IsWs(ms.colon) && IsWs(ms.lead) && IsWs(ms.after)
    requires At(js, st.pos, ShowMembers(ms))
    requires PastLead(st, ms).Valid() ==> Leads(js, PastLead(st, ms), PastValue(PastLead(st, ms), ms.value), cap)
    ensures Leads(js, st, PastMember(st, ms), cap)
  {
    hide Run;
    MemberAt(js, st.pos, ms);
    OverLead(js, st, ms, cap);
    var st2 := PastValue(PastLead(st, ms), ms.value);
    OverWs(js, st2, ms.after, cap);
    if ms.tail.Member? {
      AtComma(js, st2.pos + |ms.after|, ShowMembers(ms.tail));
      OverComma(js, st2.(pos := st2.pos + |ms.after|), cap);
    }
  }

  lemma MemberEnds(js: string, p: nat, ms: Members)
    requires ms.Member? && At(js, p, ShowMembers(ms)) && EndsAt(js, p + |ShowMembers(ms)|) && IsWs(ms.after)
    ensures EndsAt(js, p + |Lead(ms)| + |Show(ms.value)|)
    ensures ms.tail.Member? ==> At(js, p + |Lead(ms)| + |Show(ms.value)| + |ms.after| + 1, ShowMembers(ms.tail))
  {
    MemberAt(js, p, ms);
    var q := p + |Lead(ms)| + |Show(ms.value)|;
    MemberLength(ms);
    if ms.tail.Member? {
      AtComma(js, q + |ms.after|, ShowMembers(ms.tail));
    }
    EndsBeforeWs(js, q, ms.after);
  }

  // ----- the theorem -----

  lemma InsideArr(js: string, st: State, v: Value, cap: nat)
    requires v.Arr? && ValueReady(js, st, v, cap)
    ensures ElemsReady(js, Inside(st, Array, v.gap), v.elems, cap)
  {
    BracketedAt(js, st.pos, "[", v.gap, ShowElems(v.elems), "]");
  }

  lemma InsideObj(js: string, st: State, v: Value, cap: nat)
    requires v.Obj? && ValueReady(js, st, v, cap)
    ensures MembersReady(js, Inside(st, Object, v.gap), v.members, cap)
  {
    BracketedAt(js, st.pos, "{", v.gap, ShowMembers(v.members), "}");
  }

  lemma ElemReady(js: string, st: State, es: Elems, cap: nat)
    requires es.Elem? && ElemsReady(js, st, es, cap)
    ensures ValueReady(js, st.(pos := st.pos + |es.before|), es.value, cap)
  {
    ElemAt(js, st.pos, es);
    ElemEnds(js, st.pos, es);
    ElemLength(es);
  }

  lemma NextElemReady(js: string, st: State, es: Elems, cap: nat)
    requires es.Elem? && es.rest.Elem? && ElemsReady(js, st, es, cap) && PastElem(st, es).Valid()
    ensures ElemsReady(js, PastElem(st, es), es.rest, cap)
  {
    ElemEnds(js, st.pos, es);
    ElemLength(es);
  }

  lemma MemberReady(js: string, st: State, ms: Members, cap: nat)
    requires ms.Member? && MembersReady(js, st, ms, cap)
    ensures ValueReady(js, PastLead(st, ms), ms.value, cap)
  {
    MemberAt(js, st.pos, ms);
    MemberEnds(js, st.pos, ms);
    MemberLength(ms);
  }

  lemma NextMemberReady(js: string, st: State, ms: Members, cap: nat)
    requires ms.Member? && ms.tail.Member? && MembersReady(js, st, ms, cap) && PastMember(st, ms).Valid()
    ensures MembersReady(js, PastMember(st, ms), ms.tail, cap)
  {
    MemberEnds(js, st.pos, ms);
    MemberLength(ms);
  }

  /** From the start of a value's text the filling pass gets to its end, has added the tokens of
      the value, and is back under the same superior. */
  lemma {:induction false} OverValue(js: string, st: State, v: Value, cap: nat)
    requires ValueReady(js, st, v, cap)
    ensures Leads(js, st, PastValue(st, v), cap)
    decreases v
  {
    hide Run;
    match v
    case Lit(_) => OverLeaf(js, st, v, cap);
    case Str(_) => OverLeaf(js, st, v, cap);
    case Arr(gap, es) =>
      InsideArr(js, st, v, cap);
      OverElems(js, Inside(st, Array, gap), es, cap);
      OverArr(js, st, v, cap);
    case Obj(gap, ms) =>
      InsideObj(js, st, v, cap);
      OverMembers(js, Inside(st, Object, gap), ms, cap);
      OverObj(js, st, v, cap);
  }

  lemma {:induction false} OverElems(js: string, st: State, es: Elems, cap: nat)
    requires ElemsReady(js, st, es, cap)
    ensures Leads(js, st, PastElems(st, es), cap)
    decreases es
  {
    hide Run;
    if es == NoElems {
      assert PastElems(st, es) == st;
    } else {
      ElemReady(js, st, es, cap);
      OverValue(js, st.(pos := st.pos + |es.before|), es.value, cap);
      OverElem(js, st, es, cap);
      ElemsJoin(st, es);
      if es.rest.Elem? {
        NextElemReady(js, st, es, cap);
        OverElems(js, PastElem(st, es), es.rest, cap);
      }
    }
  }

  lemma {:induction false} OverMembers(js: string, st: State, ms: Members, cap: nat)
    requires MembersReady(js, st, ms, cap)
    ensures Leads(js, st, PastMembers(st, ms), cap)
    decreases ms
  {
    hide Run;
    if ms == NoMembers {
      assert PastMembers(st, ms) == st;
    } else {
      MemberReady(js, st, ms, cap);
      OverValue(js, PastLead(st, ms), ms.value, cap);
      OverMember(js, st, ms, cap);
      MembersJoin(st, ms);
      if ms.tail.Member? {
        NextMemberReady(js, st, ms, cap);
        OverMembers(js, PastMember(st, ms), ms.tail, cap);
      }
    }
  }

  // ----- whole documents -----

  /** Where a whole text's parts stand. */
  lemma DocumentAt(js: string, before: string, v: Value, after: string)
    requires js == before + Show(v) + after
    ensures At(js, 0, before) && At(js, |before|, Show(v)) && At(js, |before| + |Show(v)|, after)
    ensures |js| == |before| + |Show(v)| + |after|
  {
    AtSplit(js, 0, before + Show(v), after);
    AtSplit(js, 0, before, Show(v));
  }

  /** A value at the top, up to the end of the text. */
  lemma OverRoot(js: string, st: State, v: Value, after: string, cap: nat)
    requires st.Valid() && st.toks == [] && st.sup == -1 && IsWs(after) && Wf(v) && Count(v) <= cap
    requires At(js, st.pos, Show(v)) && At(js, st.pos + |Show(v)|, after) && AtEnd(js, st.pos + |Show(v)| + |after|)
    requires v.Lit? ==> after != ""
    ensures Run(js, st, cap) == Ok(Toks(v, st.pos, 0, -1))
  {
    if after != "" {
      AtChar(js, st.pos + |Show(v)|, after, 0);
    }
    OverValue(js, st, v, cap);
    OverWs(js, PastValue(st, v), after, cap);
    ToksSub(v, st.pos, 0, -1);
    assert PastValue(st, v).toks == Toks(v, st.pos, 0, -1);
  }

  /** A JSON text is a value with whitespace around it.  The filling pass yields exactly the
      tokens of the value, in preorder; only a bare literal needs some whitespace after it. */
  lemma ParseUndoesShow(before: string, v: Value, after: string, cap: nat)
    requires IsWs(before) && IsWs(after) && Wf(v) && Count(v) <= cap
    ensures var js := before + Show(v) + after;
      Run(js, START, cap) == if v.Lit? && after == "" then Err(Part) else Ok(Toks(v, |before|, 0, -1))
  {
    hide Run;
    var js := before + Show(v) + after;
    DocumentAt(js, before, v, after);
    OverWs(js, START, before, cap);
    if v.Lit? && after == "" {
      BareLit(js, START.(pos := |before|), v.text, cap);
    } else {
      OverRoot(js, START.(pos := |before|), v, after, cap);
    }
  }

  /** In strict mode a literal that reaches the end of the text is taken for an unfinished one. */
  lemma BareLit(js: string, st: State, t: string, cap: nat)
    requires st.Valid() && st.sup == -1 && At(js, st.pos, t) && |js| == st.pos + |t| && IsLit(t)
    ensures Run(js, st, cap) == Err(Part)
  {
    AtChar(js, st.pos, t, 0);
    forall k | st.pos + 1 <= k < |js|
      ensures LitChar(js[k])
    {
      AtChar(js, st.pos, t, k - st.pos);
    }
    ScanUnendedLit(js, st.pos + 1);
  }

  /** The two-pass parse of a document whose root is an object, an array or a string. */
  lemma TwoPassUndoesShow(before: string, v: Value, after: string)
    requires IsWs(before) && IsWs(after) && Wf(v) && !v.Lit?
    ensures TwoPass(before + Show(v) + after) == Ok(Toks(v, |before|, 0, -1))
  {
    ParseUndoesShow(before, v, after, Count(v));
    TwoPassIsRun(before + Show(v) + after, Count(v));
  }

  /** Numbers, section 6 of RFC 8259, are made of these characters and start with '-' or a digit;
      with true, false and null they are literals in the sense of `IsLit`. */
  lemma NumbersAreLits(t: string)
    requires t != "" && (t[0] == '-' || '0' <= t[0] <= '9')
    requires forall i :: 0 <= i < |t| ==> '0' <= t[i] <= '9' || t[i] in "-+.eE"
    ensures IsLit(t) && IsLit("true") && IsLit("false") && IsLit("null")
  {
  }
}
