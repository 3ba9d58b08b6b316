/** What the tokeniser refuses.

    Strings and primitives are taken exactly if they are of the forms written out here, and every case
    of the main loop says exactly when it goes on.  From that come the texts that are refused. */
module Refusals {
  import opened Jsmn
  import opened JsonText

  // ----- lexemes, both directions -----

  /** What may stand between two quotes, from `p` to `q`: any character but a quote and a zero, and a
      backslash only with the rest of its escape. */
  predicate StringChars(js: string, p: nat, q: nat)
    requires q <= |js|
    decreases q - p
  {
    if p >= q then p == q
    else if js[p] != '\\' then js[p] != '"' && js[p] != '\0' && StringChars(js, p + 1, q)
    else
      p + 2 <= q &&
      if js[p + 1] != 'u' then EscapeChar(js[p + 1]) && StringChars(js, p + 2, q)
      else
        && p + 6 <= q && HexDigit(js[p + 2]) && HexDigit(js[p + 3]) && HexDigit(js[p + 4]) && HexDigit(js[p + 5])
        && StringChars(js, p + 6, q)
  }

  /** Where the digits of a \u escape are not four, the scan does not come to a quote. */
  lemma {:induction false} HexRun(js: string, p: nat, left: nat)
    requires p <= |js|
    ensures p + left <= |js| && (forall k :: p <= k < p + left ==> HexDigit(js[k])) ==>
      SkipHex(js, p, left) == Ok(p + left)
    ensures SkipHex(js, p, left).Ok? ==>
      var r := SkipHex(js, p, left).value;
      && (forall k :: p <= k < r ==> HexDigit(js[k])) && r <= p + left
      && (r < p + left ==> r == |js| || js[r] == '\0')
    decreases left
  {
    if left > 0 && p < |js| && js[p] != '\0' && HexDigit(js[p]) {
      HexRun(js, p + 1, left - 1);
    }
  }

  /** The scan of a string finds a quote exactly if what stands before it is of that form. */
  lemma {:induction false} StringIff(js: string, p: nat, q: nat)
    requires p <= |js| && q < |js|
    ensures ScanString(js, p) == Ok(q) <==> js[q] == '"' && StringChars(js, p, q)
    decreases |js| - p
  {
    if p < |js| && js[p] != '\0' && js[p] != '"' {
      if js[p] != '\\' || p + 1 == |js| {
        StringIff(js, p + 1, q);
      } else if js[p + 1] != 'u' {
        if EscapeChar(js[p + 1]) {
          StringIff(js, p + 2, q);
        }
      } else {
        EscapeIff(js, p, q);
      }
    }
  }

  lemma {:induction false} EscapeIff(js: string, p: nat, q: nat)
    requires p + 1 < |js| && q < |js| && js[p] == '\\' && js[p + 1] == 'u'
    ensures ScanString(js, p) == Ok(q) <==> js[q] == '"' && StringChars(js, p, q)
    decreases |js| - p, 0
  {
    HexRun(js, p + 2, 4);
    if SkipHex(js, p + 2, 4).Ok? {
      StringIff(js, SkipHex(js, p + 2, 4).value, q);
    }
  }

  lemma {:induction false} StringPasses(js: string, p: nat, k: nat)
    requires p <= k <= |js| && StringChars(js, p, k)
    ensures ScanString(js, p) == ScanString(js, k)
    decreases k - p
  {
    if p < k {
      if js[p] != '\\' {
        StringPasses(js, p + 1, k);
      } else if js[p + 1] != 'u' {
        StringPasses(js, p + 2, k);
      } else {
        HexRun(js, p + 2, 4);
        StringPasses(js, p + 6, k);
      }
    }
  }

  /** Otherwise: at the end of the text a string is unfinished, and another escape is illegal. */
  lemma StringFails(js: string, p: nat, k: nat)
    requires p <= k <= |js| && StringChars(js, p, k)
    ensures k == |js| || js[k] == '\0' ==> ScanString(js, p) == Err(Part)
    ensures k + 1 < |js| && js[k] == '\\' && js[k + 1] != 'u' && !EscapeChar(js[k + 1]) ==>
      ScanString(js, p) == Err(Inval)
  {
    StringPasses(js, p, k);
  }

  /** An escape with another character among its four digits is illegal. */
  lemma BadDigit(js: string, p: nat, k: nat, h: nat)
    requires p <= k && k + 2 + h < |js| && StringChars(js, p, k) && h < 4 && js[k] == '\\' && js[k + 1] == 'u'
    requires forall d :: k + 2 <= d < k + 2 + h ==> HexDigit(js[d])
    requires js[k + 2 + h] != '\0' && !HexDigit(js[k + 2 + h])
    ensures ScanString(js, p) == Err(Inval)
  {
    StringPasses(js, p, k);
    HexStops(js, k + 2, 4, h);
  }

  lemma {:induction false} HexStops(js: string, p: nat, left: nat, h: nat)
    requires h < left && p + h < |js| && js[p + h] != '\0' && !HexDigit(js[p + h])
    requires forall d :: p <= d < p + h ==> HexDigit(js[d])
    ensures SkipHex(js, p, left) == Err(Inval)
    decreases h
  {
    if h > 0 {
      HexStops(js, p + 1, left - 1, h - 1);
    }
  }

  /** The scan of a primitive stops at the first delimiter, if no other character comes before. */
  lemma {:induction false} PrimitiveIff(js: string, p: nat, q: nat)
    requires p <= |js|
    ensures ScanPrimitive(js, p) == Ok(q) <==> p <= q && EndsAt(js, q) && forall k :: p <= k < q ==> LitChar(js[k])
    decreases |js| - p
  {
    if p < |js| && LitChar(js[p]) {
      PrimitiveIff(js, p + 1, q);
    }
  }

  lemma {:induction false} PrimitiveFails(js: string, p: nat, k: nat)
    requires p <= k <= |js| && forall i :: p <= i < k ==> LitChar(js[i])
    ensures k == |js| || js[k] == '\0' ==> ScanPrimitive(js, p) == Err(Part)
    ensures k < |js| && js[k] != '\0' && !LitChar(js[k]) && !EndsAt(js, k) ==> ScanPrimitive(js, p) == Err(Inval)
    decreases k - p
  {
    if p < k {
      PrimitiveFails(js, p + 1, k);
    }
  }

  // ----- one step, both directions -----

  /** The characters that a number, true, false or null can begin with. */
  predicate BeginsLit(c: char) {
    c == '-' || '0' <= c <= '9' || c == 't' || c == 'f' || c == 'n'
  }

  /** The superior is an object: a key has to come. */
  predicate WantsKey(st: State)
    requires st.Valid()
  {
    st.sup != -1 && st.toks[st.sup].kind == Object
  }

  /** The superior is a key that has its value. */
  predicate HasValue(st: State)
    requires st.Valid()
  {
    st.sup != -1 && st.toks[st.sup].kind == String && st.toks[st.sup].size != 0
  }

  /** A bracket of this kind closes the nearest open container, or one at the top again while there is a
      superior. */
  predicate MayClose(st: State, kind: Kind)
    requires st.Valid()
  {
    st.toks != [] &&
    var t := WalkUp(st.toks, |st.toks| - 1);
    st.toks[t].kind == kind && (st.toks[t].Open() || st.sup != -1)
  }

  /** What the main loop takes, with room for one more token. */
  lemma StepTakes(js: string, st: State, cap: nat)
    requires st.Valid() && !AtEnd(js, st.pos) && |st.toks| < cap
    ensures var c, p := js[st.pos], st.pos;
      Step(js, st, cap).Ok? <==>
        || WsChar(c) || c == ':' || c == ','
        || ((c == '{' || c == '[') && !WantsKey(st))
        || (c == '}' && MayClose(st, Object)) || (c == ']' && MayClose(st, Array))
        || (c == '"' && exists q :: p < q < |js| && js[q] == '"' && StringChars(js, p + 1, q))
        || (BeginsLit(c) && !WantsKey(st) && !HasValue(st) &&
            exists q :: p < q && EndsAt(js, q) && forall k :: p < k < q ==> LitChar(js[k]))
  {
    hide ScanString, ScanPrimitive, StringChars;
    forall q | st.pos < q < |js|
      ensures ScanString(js, st.pos + 1) == Ok(q) <==> js[q] == '"' && StringChars(js, st.pos + 1, q)
    {
      StringIff(js, st.pos + 1, q);
    }
    forall q: nat | st.pos < q
      ensures ScanPrimitive(js, st.pos + 1) == Ok(q) <==>
        EndsAt(js, q) && forall k :: st.pos + 1 <= k < q ==> LitChar(js[k])
    {
      PrimitiveIff(js, st.pos + 1, q);
    }
  }

  // ----- texts that are refused -----

  /** Where a key has to come, no bracket and no primitive is taken. */
  lemma KeyWanted(js: string, st: State, cap: nat)
    requires st.Valid() && st.pos < |js| && |st.toks| < cap && WantsKey(st)
    requires js[st.pos] == '{' || js[st.pos] == '[' || BeginsLit(js[st.pos])
    ensures Run(js, st, cap) == Err(Inval)
  {
  }

  lemma SecondValue(js: string, st: State, cap: nat)
    requires st.Valid() && st.pos < |js| && HasValue(st) && BeginsLit(js[st.pos])
    ensures Run(js, st, cap) == Err(Inval)
  {
  }

  lemma WrongBracket(js: string, st: State, kind: Kind, cap: nat)
    requires st.Valid() && st.pos < |js| && !MayClose(st, kind)
    requires (kind == Object && js[st.pos] == '}') || (kind == Array && js[st.pos] == ']')
    ensures Run(js, st, cap) == Err(Inval)
  {
  }

  /** A text goes on with one of these characters after `lead`. */
  predicate GoesOn(js: string, lead: string) {
    At(js, 0, lead) && |lead| < |js|
  }

  /** An object without members so far: `{1}` and `{{}}`, whatever comes after. */
  lemma NoKeyFirst(js: string, before: string, gap: string, cap: nat)
    requires IsWs(before) && IsWs(gap) && cap > 1 && GoesOn(js, before + "{" + gap)
    requires var c := js[|before + "{" + gap|]; c == '{' || c == '[' || BeginsLit(c)
    ensures Run(js, START, cap) == Err(Inval)
  {
    hide Run;
    ToBracket(js, before, "{", gap, Object, cap);
    KeyWanted(js, Inside(START.(pos := |before|), Object, gap), cap);
  }

  lemma ToBracket(js: string, before: string, open: string, gap: string, kind: Kind, cap: nat)
    requires IsWs(before) && IsWs(gap) && cap > 1 && At(js, 0, before + open + gap)
    requires (kind == Object && open == "{") || (kind == Array && open == "[")
    ensures Leads(js, START, Inside(START.(pos := |before|), kind, gap), cap)
  {
    hide Run;
    AtSplit(js, 0, before + open, gap);
    AtSplit(js, 0, before, open);
    OverWs(js, START, before, cap);
    AtChar(js, |before|, open, 0);
    OverOpening(js, START.(pos := |before|), kind, gap, cap);
  }

  /** The last key of an object hangs below it and has one value. */
  lemma {:induction false} LastKeyIs(ms: Members, pos: nat, base: nat, owner: int)
    requires ms.Member?
    ensures var k := LastKey(ms, base, owner);
      && base <= k < base + CountMembers(ms)
      && var t := ToksMembers(ms, pos, base, owner)[k - base];
         t.kind == String && t.size == 1 && t.parent == owner
    decreases ms
  {
    if ms.tail.Member? {
      LastKeyIs(ms.tail, pos + |Lead(ms)| + |Show(ms.value)| + |ms.after| + 1, base + 1 + Count(ms.value), owner);
    }
  }

  /** After its members, the last key of an object is the superior, and a comma leads back to the object. */
  lemma PastLastKey(st: State, ms: Members)
    requires 0 <= st.sup < |st.toks| && st.toks[st.sup].kind == Object && PastMembers(st, ms).Valid()
    ensures PastMembers(st, ms).toks[st.sup].kind == Object
    ensures PastMembers(st, ms).pos == st.pos + |ShowMembers(ms)|
    ensures |PastMembers(st, ms).toks| == |st.toks| + CountMembers(ms)
    ensures ms.Member? ==> HasValue(PastMembers(st, ms)) && AfterComma(PastMembers(st, ms)) == st.sup
  {
    hide Show, ShowMembers, ToksMembers, LastKey, CountMembers, Keys;
    if ms.Member? {
      LastKeyIs(ms, st.pos, |st.toks|, st.sup);
      var k := LastKey(ms, |st.toks|, st.sup);
      assert PastMembers(st, ms).toks[k] == ToksMembers(ms, st.pos, |st.toks|, st.sup)[k - |st.toks|];
    }
  }

  /** Past the members of an object. */
  lemma ToMembersEnd(js: string, before: string, gap: string, ms: Members, cap: nat)
    requires IsWs(before) && IsWs(gap) && WfMembers(ms) && 1 + CountMembers(ms) < cap
    requires At(js, 0, before + "{" + gap + ShowMembers(ms)) && EndsAt(js, |before + "{" + gap + ShowMembers(ms)|)
    ensures var st := Inside(START.(pos := |before|), Object, gap);
      && Leads(js, START, PastMembers(st, ms), cap)
      && (ms.Member? ==> HasValue(PastMembers(st, ms)) && AfterComma(PastMembers(st, ms)) == 0)
      && PastMembers(st, ms).toks[0].kind == Object && |PastMembers(st, ms).toks| == 1 + CountMembers(ms)
      && PastMembers(st, ms).pos == |before + "{" + gap + ShowMembers(ms)|
  {
    hide Run, Show, ShowMembers, HasValue, AfterComma, PastMembers;
    AtSplit(js, 0, before + "{" + gap, ShowMembers(ms));
    ToBracket(js, before, "{", gap, Object, cap);
    var st := Inside(START.(pos := |before|), Object, gap);
    OverMembers(js, st, ms, cap);
    PastLastKey(st, ms);
  }

  /** A primitive after the value of a key: `{"a":1 2}`. */
  lemma NoSecondValue(js: string, before: string, gap: string, ms: Members, w: string, cap: nat)
    requires IsWs(before) && IsWs(gap) && WfMembers(ms) && ms.Member? && IsWs(w) && w != ""
    requires 1 + CountMembers(ms) < cap
    requires var lead := before + "{" + gap + ShowMembers(ms) + w;
      GoesOn(js, lead) && BeginsLit(js[|lead|])
    ensures Run(js, START, cap) == Err(Inval)
  {
    hide Run, Show, ShowMembers, AfterComma, PastMembers, WfMembers, CountMembers;
    AtSplit(js, 0, before + "{" + gap + ShowMembers(ms), w);
    AtChar(js, |before + "{" + gap + ShowMembers(ms)|, w, 0);
    ToMembersEnd(js, before, gap, ms, cap);
    var st := PastMembers(Inside(START.(pos := |before|), Object, gap), ms);
    OverWs(js, st, w, cap);
    SecondValue(js, st.(pos := st.pos + |w|), cap);
  }

  /** Something other than a key after a comma: `{"a":1,2}` and `{"a":1,[`. */
  lemma NoKeyNext(js: string, before: string, gap: string, ms: Members, w: string, cap: nat)
    requires IsWs(before) && IsWs(gap) && WfMembers(ms) && ms.Member? && IsWs(w) && 1 + CountMembers(ms) < cap
    requires var lead := before + "{" + gap + ShowMembers(ms) + "," + w;
      GoesOn(js, lead) && var c := js[|lead|]; c == '{' || c == '[' || BeginsLit(c)
    ensures Run(js, START, cap) == Err(Inval)
  {
    hide Run, Show, ShowMembers, HasValue, AfterComma, PastMembers, WfMembers, CountMembers;
    AtSplit(js, 0, before + "{" + gap + ShowMembers(ms) + ",", w);
    AtSplit(js, 0, before + "{" + gap + ShowMembers(ms), ",");
    AtChar(js, |before + "{" + gap + ShowMembers(ms)|, ",", 0);
    ToMembersEnd(js, before, gap, ms, cap);
    var st := PastMembers(Inside(START.(pos := |before|), Object, gap), ms);
    OverComma(js, st, cap);
    OverWs(js, State(st.pos + 1, st.toks, 0), w, cap);
    KeyWanted(js, State(st.pos + 1 + |w|, st.toks, 0), cap);
  }

  /** Past the elements of an array. */
  lemma ToElemsEnd(js: string, before: string, gap: string, es: Elems, cap: nat)
    requires IsWs(before) && IsWs(gap) && WfElems(es) && 1 + CountElems(es) < cap
    requires At(js, 0, before + "[" + gap + ShowElems(es)) && EndsAt(js, |before + "[" + gap + ShowElems(es)|)
    ensures var st := Inside(START.(pos := |before|), Array, gap);
      Leads(js, START, PastElems(st, es), cap)
  {
    hide Run;
    AtSplit(js, 0, before + "[" + gap, ShowElems(es));
    ToBracket(js, before, "[", gap, Array, cap);
    OverElems(js, Inside(START.(pos := |before|), Array, gap), es, cap);
  }

  /** An array is not closed by a brace: `[1}`. */
  lemma ArrayNeedsBracket(js: string, before: string, gap: string, es: Elems, cap: nat)
    requires IsWs(before) && IsWs(gap) && WfElems(es) && 1 + CountElems(es) < cap
    requires var lead := before + "[" + gap + ShowElems(es);
      GoesOn(js, lead) && js[|lead|] == '}'
    ensures Run(js, START, cap) == Err(Inval)
  {
    hide Run, Show, ShowElems;
    ToElemsEnd(js, before, gap, es, cap);
    var st := PastElems(Inside(START.(pos := |before|), Array, gap), es);
    ElemsSub(es, |before| + 1 + |gap|, 1, 0);
    WalkToOpen(st.toks, 0, |st.toks| - 1);
    WrongBracket(js, st, Object, cap);
  }

  /** An object is not closed by a square bracket: `{"a":1]`. */
  lemma ObjectNeedsBrace(js: string, before: string, gap: string, ms: Members, cap: nat)
    requires IsWs(before) && IsWs(gap) && WfMembers(ms) && 1 + CountMembers(ms) < cap
    requires var lead := before + "{" + gap + ShowMembers(ms);
      GoesOn(js, lead) && js[|lead|] == ']'
    ensures Run(js, START, cap) == Err(Inval)
  {
    hide Run, Show, ShowMembers, WfMembers, HasValue;
    ToMembersEnd(js, before, gap, ms, cap);
    var st := PastMembers(Inside(START.(pos := |before|), Object, gap), ms);
    MembersSub(ms, |before| + 1 + |gap|, 1, 0);
    WalkToOpen(st.toks, 0, |st.toks| - 1);
    WrongBracket(js, st, Array, cap);
  }

  lemma OpenIsUnfinished(js: string, st: State, i: nat, cap: nat)
    requires st.Valid() && AtEnd(js, st.pos) && i < |st.toks| && st.toks[i].Open()
    ensures Run(js, st, cap) == Err(Part)
  {
  }

  /** An array that is not closed is unfinished: `[1, [2] `. */
  lemma ArrayIsOpen(js: string, before: string, gap: string, es: Elems, w: string, cap: nat)
    requires IsWs(before) && IsWs(gap) && WfElems(es) && 1 + CountElems(es) < cap && IsWs(w) && w != ""
    requires js == before + "[" + gap + ShowElems(es) + w
    ensures Run(js, START, cap) == Err(Part)
  {
    hide Run, Show, ShowElems, WfElems, ToksElems;
    var lead := before + "[" + gap + ShowElems(es);
    AtSplit(js, 0, lead, w);
    AtChar(js, |lead|, w, 0);
    ToElemsEnd(js, before, gap, es, cap);
    var st := PastElems(Inside(START.(pos := |before|), Array, gap), es);
    OverWs(js, st, w, cap);
    OpenIsUnfinished(js, st.(pos := st.pos + |w|), 0, cap);
  }

  /** A bracket too many after the root: `[]]`, `{}}`, `"a"]` and `1 }`. */
  lemma OneBracketTooMany(js: string, before: string, v: Value, w: string, cap: nat)
    requires IsWs(before) && Wf(v) && IsWs(w) && Count(v) <= cap
    requires var lead := before + Show(v) + w;
      GoesOn(js, lead) && (js[|lead|] == ']' || js[|lead|] == '}')
    ensures Run(js, START, cap) == Err(Inval)
  {
    hide Run;
    AtSplit(js, 0, before + Show(v), w);
    AtSplit(js, 0, before, Show(v));
    OverWs(js, START, before, cap);
    var st := START.(pos := |before|);
    EndsBeforeWs(js, |before + Show(v)|, w);
    OverValue(js, st, v, cap);
    OverWs(js, PastValue(st, v), w, cap);
    ToksSub(v, |before|, 0, -1);
    var end := PastValue(st, v).(pos := |before + Show(v) + w|);
    WrongBracket(js, end, if js[end.pos] == '}' then Object else Array, cap);
  }

  /** A character that begins no token, is no whitespace and no separator. */
  lemma StrangeCharacter(js: string, before: string, cap: nat)
    requires IsWs(before) && GoesOn(js, before)
    requires var c := js[|before|]; c != '\0' && !WsChar(c) && c !in "{}[]\":," && !BeginsLit(c)
    ensures Run(js, START, cap) == Err(Inval)
  {
    OverWs(js, START, before, cap);
  }

  // ----- room, and the end of the text -----

  /** With fewer tokens than an accepted text has, the filling pass runs out of them. */
  lemma {:induction false} TooFewTokens(js: string, st: State, big: nat, cap: nat)
    requires st.Valid() && |st.toks| <= cap && Run(js, st, big).Ok? && cap < |Run(js, st, big).value|
    ensures Run(js, st, cap) == Err(NoMem)
    decreases |js| - st.pos
  {
    if !AtEnd(js, st.pos) {
      var next := Step(js, st, big).value;
      LockStep(js, st, big);
      if |next.toks| <= cap {
        assert Step(js, st, cap) == Ok(next);
        TooFewTokens(js, next, big, cap);
      }
    }
  }

  /** A zero ends the text, whatever comes after it. */
  lemma ZeroEndsText(js: string, before: string, v: Value, after: string, cap: nat)
    requires IsWs(before) && IsWs(after) && Wf(v) && Count(v) <= cap && (v.Lit? ==> after != "")
    requires var lead := before + Show(v) + after;
      GoesOn(js, lead) && js[|lead|] == '\0'
    ensures Run(js, START, cap) == Ok(Toks(v, |before|, 0, -1))
  {
    hide Run;
    AtSplit(js, 0, before + Show(v), after);
    AtSplit(js, 0, before, Show(v));
    OverWs(js, START, before, cap);
    OverRoot(js, START.(pos := |before|), v, after, cap);
  }

  // ----- one text in full -----

  function SampleElems(): Elems {
    Elem("", Lit("1"), "", Elem("", Lit("true"), " ", NoElems))
  }

  function SampleMembers(): Members {
    Member("", "a", "", "\t", Arr("", SampleElems()), "", NoMembers)
  }

  lemma SampleElemsAre()
    ensures WfElems(SampleElems()) && ShowElems(SampleElems()) == "1,true "
    ensures ToksElems(SampleElems(), 7, 3, 2) == [Token(Primitive, 7, 8, 0, 2), Token(Primitive, 9, 13, 0, 2)]
  {
    var last := Elem("", Lit("true"), " ", NoElems);
    assert IsLit("1") && IsLit("true");
    assert ShowElems(last) == "true " && NextElems(last) == ",true ";
    assert ToksElems(last, 9, 4, 2) == [Token(Primitive, 9, 13, 0, 2)];
  }

  lemma SampleMembersAre()
    ensures WfMembers(SampleMembers()) && ShowMembers(SampleMembers()) == "\"a\":\t[1,true ]"
    ensures Keys(SampleMembers()) == 1
    ensures ToksMembers(SampleMembers(), 1, 1, 0) ==
      [Token(String, 2, 3, 1, 0), Token(Array, 6, 15, 2, 1),
       Token(Primitive, 7, 8, 0, 2), Token(Primitive, 9, 13, 0, 2)]
  {
    SampleElemsAre();
    assert Len(SampleElems()) == 2;
    hide SampleElems;
    assert Show(Arr("", SampleElems())) == "[1,true ]";
    assert Lead(SampleMembers()) == "\"a\":\t";
    assert Toks(Arr("", SampleElems()), 6, 2, 1) ==
      [Token(Array, 6, 15, 2, 1), Token(Primitive, 7, 8, 0, 2), Token(Primitive, 9, 13, 0, 2)];
  }

  lemma SampleIs()
    ensures var v := Obj("", SampleMembers());
      && Wf(v) && Show(v) == "{\"a\":\t[1,true ]}" && Count(v) == 5
      && Toks(v, 0, 0, -1) ==
           [Token(Object, 0, 16, 1, -1), Token(String, 2, 3, 1, 0), Token(Array, 6, 15, 2, 1),
            Token(Primitive, 7, 8, 0, 2), Token(Primitive, 9, 13, 0, 2)]
  {
    SampleMembersAre();
    var v, ms := Obj("", SampleMembers()), SampleMembers();
    hide SampleMembers, ShowMembers, ToksMembers, WfMembers;
    assert Show(v) == "{" + "" + ShowMembers(ms) + "}";
    assert |Show(v)| == 16;
    assert Toks(v, 0, 0, -1) == [Token(Object, 0, 16, 1, -1)] + ToksMembers(ms, 1, 1, 0);
  }

  /** A text with all the characters that structure is made of, and the tokens it gives. */
  lemma SampleParses()
    ensures Run("{\"a\":\t[1,true ]}", START, 5) ==
      Ok([Token(Object, 0, 16, 1, -1), Token(String, 2, 3, 1, 0), Token(Array, 6, 15, 2, 1),
          Token(Primitive, 7, 8, 0, 2), Token(Primitive, 9, 13, 0, 2)])
  {
    hide *;
    SampleIs();
    NothingIsWs();
    ParseUndoesShow("", Obj("", SampleMembers()), "", 5);
    NoWsAround(Show(Obj("", SampleMembers())));
  }

  lemma NothingIsWs()
    ensures IsWs("")
  {
  }

  lemma NoWsAround(s: string)
    ensures "" + s + "" == s
  {
  }
}
