/** Searching the tokens of a JSON text finds the parts of the value.

    `Represents` says that a token stands for a value of the text: the tokens of the value stand at its
    index, and nothing else hangs below them.  From there, the child with a number is the element with
    that number, and the first child with a text is the key of the first member with that name, behind
    which its value stands.  Getting elements and members goes from token to token in the way that the
    value goes from part to part. */
module Lookup {
  import opened Basics
  import opened Jsmn
  import opened Forest
  import opened Navigate
  import JsonParser
  import opened JsonText
  import opened Places

  /** No token outside `lo..hi` hangs below one inside. */
  ghost predicate Alone(toks: seq<Token>, lo: nat, hi: nat) {
    forall x :: 0 <= x < |toks| && !(lo <= x < hi) ==> !(lo <= toks[x].parent < hi)
  }

  /** The tokens `ts` stand at index `i`, and nothing else hangs below them. */
  ghost predicate StandsAlone(toks: seq<Token>, ts: seq<Token>, i: nat, parent: int) {
    parent < i && Stands(toks, ts, i) && Alone(toks, i, i + |ts|)
  }

  ghost predicate NoneFrom(toks: seq<Token>, i: nat, parent: int) {
    forall x :: i <= x < |toks| ==> toks[x].parent != parent
  }

  ghost predicate Sits(js: string, toks: seq<Token>, v: Value, pos: nat, i: nat, parent: int) {
    At(js, pos, Show(v)) && Wf(v) && StandsAlone(toks, Toks(v, pos, i, parent), i, parent)
  }

  /** Token `i` represents the value `v` of the text. */
  ghost predicate Represents(js: string, toks: seq<Token>, i: nat, parent: int, v: Value) {
    exists pos: nat :: Sits(js, toks, v, pos, i, parent)
  }

  ghost predicate SitsElems(js: string, toks: seq<Token>, es: Elems, pos: nat, i: nat, parent: int) {
    && At(js, pos, ShowElems(es)) && WfElems(es)
    && StandsAlone(toks, ToksElems(es, pos, i, parent), i, parent) && NoneFrom(toks, i + CountElems(es), parent)
  }

  ghost predicate SitsMembers(js: string, toks: seq<Token>, ms: Members, pos: nat, i: nat, parent: int) {
    && At(js, pos, ShowMembers(ms)) && WfMembers(ms)
    && StandsAlone(toks, ToksMembers(ms, pos, i, parent), i, parent) && NoneFrom(toks, i + CountMembers(ms), parent)
  }

  // ----- parts of a value -----

  function ValueNo(es: Elems, n: nat): Value
    requires n < Len(es)
  {
    if n == 0 then es.value else ValueNo(es.rest, n - 1)
  }

  /** The first member with this name. */
  function MemberNamed(ms: Members, key: string): Option<Value> {
    match ms
    case NoMembers => None
    case Member(_, k, _, _, v, _, tail) => if k == key then Some(v) else MemberNamed(tail, key)
  }

  function KindOf(v: Value): Kind {
    match v
    case Lit(_) => Primitive
    case Str(_) => String
    case Arr(_, _) => Array
    case Obj(_, _) => Object
  }

  // ----- following the searches -----

  /** Of tokens beside each other, nothing else hangs below either part. */
  lemma AloneApart(toks: seq<Token>, lo: nat, mid: nat, hi: nat, parent: int)
    requires lo <= mid <= hi <= |toks| && Alone(toks, lo, hi)
    requires HangIn(toks, lo, mid, parent) && HangIn(toks, mid, hi, parent)
    ensures Alone(toks, lo, mid) && Alone(toks, mid, hi)
  {
  }

  /** Of a token and those that hang below it, it is the only one with others below it. */
  lemma AloneBehind(toks: seq<Token>, i: nat, hi: nat)
    requires i < hi <= |toks| && Alone(toks, i, hi) && toks[i].parent < i
    ensures Alone(toks, i + 1, hi) && NoneFrom(toks, hi, i)
  {
  }

  /** Inside an array its elements sit. */
  lemma ElemsSit(js: string, toks: seq<Token>, v: Value, pos: nat, i: nat, parent: int)
    requires Sits(js, toks, v, pos, i, parent) && v.Arr?
    ensures SitsElems(js, toks, v.elems, pos + 1 + |v.gap|, i + 1, i)
    ensures toks[i] == Toks(v, pos, i, parent)[0]
  {
    BracketedAt(js, pos, "[", v.gap, ShowElems(v.elems), "]");
    ArrStands(toks, v, pos, i, parent);
    AloneBehind(toks, i, i + Count(v));
  }

  lemma MembersSit(js: string, toks: seq<Token>, v: Value, pos: nat, i: nat, parent: int)
    requires Sits(js, toks, v, pos, i, parent) && v.Obj?
    ensures SitsMembers(js, toks, v.members, pos + 1 + |v.gap|, i + 1, i)
    ensures toks[i] == Toks(v, pos, i, parent)[0]
  {
    BracketedAt(js, pos, "{", v.gap, ShowMembers(v.members), "}");
    ObjStands(toks, v, pos, i, parent);
    AloneBehind(toks, i, i + Count(v));
  }

  lemma ElemAlone(toks: seq<Token>, es: Elems, pos: nat, i: nat, parent: int)
    requires es.Elem? && StandsAlone(toks, ToksElems(es, pos, i, parent), i, parent)
    ensures StandsAlone(toks, Toks(es.value, pos + |es.before|, i, parent), i, parent)
    ensures var mid := i + Count(es.value);
      StandsAlone(toks, ToksElems(es.rest, NextElemAt(pos, es), mid, parent), mid, parent)
  {
    hide Stands, Alone, HangIn, Sub;
    var at, next, mid := pos + |es.before|, NextElemAt(pos, es), i + Count(es.value);
    ElemStands(toks, es, pos, i, parent);
    ToksSub(es.value, at, i, parent);
    ElemsSub(es.rest, next, mid, parent);
    StandsHang(toks, Toks(es.value, at, i, parent), i, parent);
    StandsHang(toks, ToksElems(es.rest, next, mid, parent), mid, parent);
    AloneApart(toks, i, mid, i + CountElems(es), parent);
  }

  lemma FirstElemSits(js: string, toks: seq<Token>, es: Elems, pos: nat, i: nat, parent: int)
    requires es.Elem? && SitsElems(js, toks, es, pos, i, parent)
    ensures Sits(js, toks, es.value, pos + |es.before|, i, parent)
  {
    ElemAt(js, pos, es);
    ElemAlone(toks, es, pos, i, parent);
  }

  lemma OtherElemsSit(js: string, toks: seq<Token>, es: Elems, pos: nat, i: nat, parent: int)
    requires es.Elem? && es.rest.Elem? && SitsElems(js, toks, es, pos, i, parent)
    ensures SitsElems(js, toks, es.rest, NextElemAt(pos, es), i + Count(es.value), parent)
  {
    ElemAt(js, pos, es);
    AtComma(js, NextElemAt(pos, es) - 1, ShowElems(es.rest));
    ElemAlone(toks, es, pos, i, parent);
  }

  /** The first token of a value hangs below the parent, the others inside. */
  lemma FirstToken(js: string, toks: seq<Token>, v: Value, pos: nat, i: nat, parent: int)
    requires Sits(js, toks, v, pos, i, parent)
    ensures toks[i] == Toks(v, pos, i, parent)[0] && toks[i].parent == parent && toks[i].kind == KindOf(v)
    ensures forall x :: i < x < i + Count(v) ==> i <= toks[x].parent
  {
    assert toks[i] == toks[i..i + Count(v)][0];
    match v
    case Lit(_) =>
    case Str(_) =>
    case Arr(_, _) => ElemsSit(js, toks, v, pos, i, parent); InnerElems(js, toks, v, pos, i, parent);
    case Obj(_, _) => MembersSit(js, toks, v, pos, i, parent); InnerMembers(js, toks, v, pos, i, parent);
  }

  lemma InnerElems(js: string, toks: seq<Token>, v: Value, pos: nat, i: nat, parent: int)
    requires Sits(js, toks, v, pos, i, parent) && v.Arr?
    ensures forall x :: i < x < i + Count(v) ==> i <= toks[x].parent
  {
    ElemsSit(js, toks, v, pos, i, parent);
    ElemsSub(v.elems, pos + 1 + |v.gap|, i + 1, i);
    StandsHang(toks, ToksElems(v.elems, pos + 1 + |v.gap|, i + 1, i), i + 1, i);
  }

  lemma InnerMembers(js: string, toks: seq<Token>, v: Value, pos: nat, i: nat, parent: int)
    requires Sits(js, toks, v, pos, i, parent) && v.Obj?
    ensures forall x :: i < x < i + Count(v) ==> i <= toks[x].parent
  {
    MembersSit(js, toks, v, pos, i, parent);
    MembersSub(v.members, pos + 1 + |v.gap|, i + 1, i);
    StandsHang(toks, ToksMembers(v.members, pos + 1 + |v.gap|, i + 1, i), i + 1, i);
  }

  /** A search that is at a child goes on after the tokens below it. */
  lemma NthPasses(ps: seq<int>, parent: int, n: nat, i: nat, next: nat)
    requires i < next <= |ps| && ps[i] == parent && forall x :: i < x < next ==> ps[x] != parent
    ensures NthChild(ps, parent, n, i) == if n == 0 then Some(i) else NthChild(ps, parent, n - 1, next)
  {
    if n > 0 {
      SkipOthers(ps, parent, n - 1, i + 1, next);
    }
  }

  lemma ElemTokens(js: string, toks: seq<Token>, es: Elems, pos: nat, i: nat, parent: int)
    requires es.Elem? && SitsElems(js, toks, es, pos, i, parent)
    ensures i + Count(es.value) <= |toks| && toks[i].parent == parent
    ensures forall x :: i < x < i + Count(es.value) ==> toks[x].parent != parent
  {
    FirstElemSits(js, toks, es, pos, i, parent);
    FirstToken(js, toks, es.value, pos + |es.before|, i, parent);
  }

  /** A search has found exactly this element: it sits at the token found. */
  ghost predicate IsElem(js: string, toks: seq<Token>, parent: int, v: Value, found: Option<nat>) {
    found.Some? && Represents(js, toks, found.value, parent, v)
  }

  /** The index of the first token of the `n`-th element, when the elements stand at `i`. */
  function ElemIndex(es: Elems, i: nat, n: nat): nat
    requires n < Len(es)
  {
    if n == 0 then i else ElemIndex(es.rest, i + Count(es.value), n - 1)
  }

  /** The first tokens of the elements `es`, from index `i` on, are the children of `parent` there. */
  ghost predicate ElemsStand(ps: seq<int>, es: Elems, i: nat, parent: int) {
    match es
    case NoElems => true
    case Elem(_, v, _, rest) =>
      && i + Count(v) <= |ps| && ps[i] == parent && (forall x :: i < x < i + Count(v) ==> ps[x] != parent)
      && ElemsStand(ps, rest, i + Count(v), parent)
  }

  lemma ElemsStandCons(js: string, toks: seq<Token>, es: Elems, pos: nat, i: nat, parent: int)
    requires es.Elem? && SitsElems(js, toks, es, pos, i, parent)
    ensures i + Count(es.value) <= |toks|
    ensures ElemsStand(Parents(toks), es.rest, i + Count(es.value), parent) ==>
      ElemsStand(Parents(toks), es, i, parent)
  {
    ElemTokens(js, toks, es, pos, i, parent);
  }

  lemma {:induction false} SitsElemsStand(js: string, toks: seq<Token>, es: Elems, pos: nat, i: nat, parent: int)
    requires SitsElems(js, toks, es, pos, i, parent)
    ensures ElemsStand(Parents(toks), es, i, parent)
    decreases es
  {
    hide SitsElems;
    if es.Elem? {
      ElemsStandCons(js, toks, es, pos, i, parent);
      if es.rest.Elem? {
        OtherElemsSit(js, toks, es, pos, i, parent);
        SitsElemsStand(js, toks, es.rest, NextElemAt(pos, es), i + Count(es.value), parent);
      }
    }
  }

  /** Among the elements of an array, the search for child number `n` stops at the `n`-th value. */
  lemma {:induction false} NthFound(ps: seq<int>, es: Elems, i: nat, parent: int, n: nat)
    requires ElemsStand(ps, es, i, parent) && n < Len(es)
    ensures i <= |ps| && NthChild(ps, parent, n, i) == Some(ElemIndex(es, i, n))
    decreases es
  {
    NthPasses(ps, parent, n, i, i + Count(es.value));
    if n > 0 {
      NthFound(ps, es.rest, i + Count(es.value), parent, n - 1);
    }
  }

  lemma {:induction false} NthElemSits(js: string, toks: seq<Token>, es: Elems, pos: nat, i: nat, parent: int, n: nat)
    requires SitsElems(js, toks, es, pos, i, parent) && n < Len(es)
    ensures Represents(js, toks, ElemIndex(es, i, n), parent, ValueNo(es, n))
    decreases es
  {
    if n == 0 {
      FirstElemSits(js, toks, es, pos, i, parent);
    } else {
      OtherElemsSit(js, toks, es, pos, i, parent);
      NthElemSits(js, toks, es.rest, NextElemAt(pos, es), i + Count(es.value), parent, n - 1);
    }
  }

  /** json_arr_search on an array of the document. */
  lemma NthValueFound(js: string, toks: seq<Token>, v: Value, pos: nat, i: nat, parent: int, n: nat)
    requires Linked(toks) && Sits(js, toks, v, pos, i, parent) && v.Arr? && n < Len(v.elems)
    ensures IsElem(js, toks, i, ValueNo(v.elems, n), NthChild(Parents(toks), i, n, 0))
  {
    ElemsSit(js, toks, v, pos, i, parent);
    SkipOthers(Parents(toks), i, n, 0, i + 1);
    SitsElemsStand(js, toks, v.elems, pos + 1 + |v.gap|, i + 1, i);
    NthFound(Parents(toks), v.elems, i + 1, i, n);
    NthElemSits(js, toks, v.elems, pos + 1 + |v.gap|, i + 1, i, n);
  }

  // ----- members -----

  /** A key hangs below the object, and its value below the key. */
  lemma KeyHangs(toks: seq<Token>, i: nat, hi: nat, parent: int)
    requires i < hi <= |toks| && toks[i].parent == parent < i && HangIn(toks, i + 1, hi, i)
    ensures HangIn(toks, i, hi, parent)
  {
  }

  lemma MemberAlone(toks: seq<Token>, ms: Members, pos: nat, i: nat, parent: int)
    requires ms.Member? && StandsAlone(toks, ToksMembers(ms, pos, i, parent), i, parent)
    ensures toks[i] == KeyToken(pos, ms, parent)
    ensures StandsAlone(toks, Toks(ms.value, pos + |Lead(ms)|, i + 1, i), i + 1, i)
    ensures var mid := i + 1 + Count(ms.value);
      StandsAlone(toks, ToksMembers(ms.tail, NextMemberAt(pos, ms), mid, parent), mid, parent)
  {
    hide Stands, Alone, HangIn, Sub;
    var at, next, mid := pos + |Lead(ms)|, NextMemberAt(pos, ms), i + 1 + Count(ms.value);
    MemberStands(toks, ms, pos, i, parent);
    ToksSub(ms.value, at, i + 1, i);
    MembersSub(ms.tail, next, mid, parent);
    StandsHang(toks, Toks(ms.value, at, i + 1, i), i + 1, i);
    StandsHang(toks, ToksMembers(ms.tail, next, mid, parent), mid, parent);
    KeyHangs(toks, i, mid, parent);
    AloneApart(toks, i, mid, i + CountMembers(ms), parent);
    AloneBehind(toks, i, mid);
  }

  lemma KeyText(js: string, pos: nat, m: Members)
    requires m.Member? && At(js, pos, ShowMembers(m))
    ensures var at := pos + |m.before| + 1; at + |m.key| <= |js| && js[at..at + |m.key|] == m.key
  {
    MemberAt(js, pos, m);
    LeadAt(js, pos, m);
    QuotedAt(js, pos + |m.before|, m.key);
  }

  lemma FirstMemberSits(js: string, toks: seq<Token>, ms: Members, pos: nat, i: nat, parent: int)
    requires ms.Member? && SitsMembers(js, toks, ms, pos, i, parent)
    ensures Sits(js, toks, ms.value, pos + |Lead(ms)|, i + 1, i)
    ensures toks[i] == KeyToken(pos, ms, parent) && toks[i].end <= |js| && Text(js, toks[i]) == ms.key
  {
    MemberAt(js, pos, ms);
    MemberAlone(toks, ms, pos, i, parent);
    KeyText(js, pos, ms);
  }

  lemma OtherMembersSit(js: string, toks: seq<Token>, ms: Members, pos: nat, i: nat, parent: int)
    requires ms.Member? && ms.tail.Member? && SitsMembers(js, toks, ms, pos, i, parent)
    ensures SitsMembers(js, toks, ms.tail, NextMemberAt(pos, ms), i + 1 + Count(ms.value), parent)
  {
    MemberAt(js, pos, ms);
    AtComma(js, NextMemberAt(pos, ms) - 1, ShowMembers(ms.tail));
    MemberAlone(toks, ms, pos, i, parent);
  }

  lemma MemberTokens(js: string, toks: seq<Token>, ms: Members, pos: nat, i: nat, parent: nat)
    requires ms.Member? && SitsMembers(js, toks, ms, pos, i, parent)
    ensures i + 1 + Count(ms.value) <= |toks| && toks[i].parent == parent
    ensures forall x :: i < x < i + 1 + Count(ms.value) ==> toks[x].parent != parent
  {
    FirstMemberSits(js, toks, ms, pos, i, parent);
    FirstToken(js, toks, ms.value, pos + |Lead(ms)|, i + 1, i);
  }

  /** The search for a name passes over a member with another name. */
  lemma NamedPasses(js: string, toks: seq<Token>, parent: nat, key: string, i: nat, next: nat)
    requires Readable(js, toks) && i < next <= |toks| && toks[i].parent == parent
    requires forall x :: i < x < next ==> toks[x].parent != parent
    ensures FirstChildNamed(js, toks, parent, key, i) ==
      if Text(js, toks[i]) == key then Some(i) else FirstChildNamed(js, toks, parent, key, next)
  {
    if Text(js, toks[i]) != key {
      SkipUnnamed(js, toks, parent, key, i, next);
    }
  }

  /** A search has found exactly the member that was looked for: its value sits behind the key
      token found. */
  ghost predicate IsMember(js: string, toks: seq<Token>, v: Option<Value>, found: Option<nat>) {
    match v
    case None => found == None
    case Some(value) => found.Some? && Represents(js, toks, found.value + 1, found.value, value)
  }

  /** The index of the key token of the first member with this name, when the members stand at `i`. */
  function KeyIndex(ms: Members, i: nat, key: string): Option<nat> {
    match ms
    case NoMembers => None
    case Member(_, k, _, _, v, _, tail) => if k == key then Some(i) else KeyIndex(tail, i + 1 + Count(v), key)
  }

  /** The key tokens of the members `ms`, from index `i` on, are the only children of `parent` there. */
  ghost predicate KeysStand(js: string, toks: seq<Token>, ms: Members, i: nat, parent: nat)
    requires Readable(js, toks)
  {
    match ms
    case NoMembers => i <= |toks| && NoneFrom(toks, i, parent)
    case Member(_, k, _, _, v, _, tail) =>
      && i + 1 + Count(v) <= |toks| && toks[i].parent == parent && Text(js, toks[i]) == k && toks[i].size == 1
      && (forall x :: i < x < i + 1 + Count(v) ==> toks[x].parent != parent)
      && KeysStand(js, toks, tail, i + 1 + Count(v), parent)
  }

  lemma KeysStandNil(js: string, toks: seq<Token>, ms: Members, pos: nat, i: nat, parent: nat)
    requires Readable(js, toks) && ms == NoMembers && SitsMembers(js, toks, ms, pos, i, parent)
    ensures KeysStand(js, toks, ms, i, parent)
  {
  }

  lemma KeysStandLast(js: string, toks: seq<Token>, ms: Members, pos: nat, i: nat, parent: nat)
    requires Readable(js, toks) && ms.Member? && ms.tail == NoMembers && SitsMembers(js, toks, ms, pos, i, parent)
    ensures KeysStand(js, toks, ms.tail, i + 1 + Count(ms.value), parent)
  {
    assert CountMembers(ms) == 1 + Count(ms.value);
  }

  lemma KeysStandCons(js: string, toks: seq<Token>, ms: Members, pos: nat, i: nat, parent: nat)
    requires Readable(js, toks) && ms.Member? && SitsMembers(js, toks, ms, pos, i, parent)
    requires KeysStand(js, toks, ms.tail, i + 1 + Count(ms.value), parent)
    ensures KeysStand(js, toks, ms, i, parent)
  {
    FirstMemberSits(js, toks, ms, pos, i, parent);
    MemberTokens(js, toks, ms, pos, i, parent);
  }

  lemma {:induction false} SitsKeysStand(js: string, toks: seq<Token>, ms: Members, pos: nat, i: nat, parent: nat)
    requires Readable(js, toks) && SitsMembers(js, toks, ms, pos, i, parent)
    ensures KeysStand(js, toks, ms, i, parent)
    decreases ms
  {
    hide SitsMembers, KeysStand;
    if ms == NoMembers {
      KeysStandNil(js, toks, ms, pos, i, parent);
    } else {
      if ms.tail.Member? {
        OtherMembersSit(js, toks, ms, pos, i, parent);
        SitsKeysStand(js, toks, ms.tail, NextMemberAt(pos, ms), i + 1 + Count(ms.value), parent);
      } else {
        KeysStandLast(js, toks, ms, pos, i, parent);
      }
      KeysStandCons(js, toks, ms, pos, i, parent);
    }
  }

  /** Among the members of an object, the search stops at the key token of the first member with
      the name. */
  lemma {:induction false} KeyFound(js: string, toks: seq<Token>, ms: Members, i: nat, parent: nat, key: string)
    requires Readable(js, toks) && KeysStand(js, toks, ms, i, parent)
    ensures FirstChildNamed(js, toks, parent, key, i) == KeyIndex(ms, i, key)
    decreases ms
  {
    if ms == NoMembers {
      SkipUnnamed(js, toks, parent, key, i, |toks|);
    } else {
      NamedPasses(js, toks, parent, key, i, i + 1 + Count(ms.value));
      KeyFound(js, toks, ms.tail, i + 1 + Count(ms.value), parent, key);
    }
  }

  /** The value of that member sits behind the key token. */
  lemma {:induction false} KeyedValueSits(js: string, toks: seq<Token>, ms: Members,
                                          pos: nat, i: nat, parent: nat, key: string)
    requires SitsMembers(js, toks, ms, pos, i, parent)
    ensures IsMember(js, toks, MemberNamed(ms, key), KeyIndex(ms, i, key))
    decreases ms
  {
    if ms.Member? && ms.key == key {
      FirstMemberSits(js, toks, ms, pos, i, parent);
      assert Represents(js, toks, i + 1, i, ms.value);
    } else if ms.Member? && ms.tail.Member? {
      OtherMembersSit(js, toks, ms, pos, i, parent);
      KeyedValueSits(js, toks, ms.tail, NextMemberAt(pos, ms), i + 1 + Count(ms.value), parent, key);
    } else if ms.Member? {
      assert MemberNamed(ms.tail, key) == None && KeyIndex(ms.tail, i + 1 + Count(ms.value), key) == None;
    }
  }

  lemma {:induction false} KeysHaveOneValue(js: string, toks: seq<Token>, ms: Members, i: nat, parent: nat, x: nat)
    requires Readable(js, toks) && KeysStand(js, toks, ms, i, parent) && i <= x < |toks| && toks[x].parent == parent
    ensures toks[x].size == 1
    decreases ms
  {
    if ms.Member? && x != i {
      KeysHaveOneValue(js, toks, ms.tail, i + 1 + Count(ms.value), parent, x);
    }
  }

  /** Every key of an object of the document has its value. */
  lemma ObjectKeysHaveValues(js: string, toks: seq<Token>, v: Value, i: nat, parent: int)
    requires Linked(toks) && Readable(js, toks) && Represents(js, toks, i, parent, v) && v.Obj?
    ensures i < |toks| && JsonParser.KeysHaveValues(toks, i)
  {
    var pos: nat :| Sits(js, toks, v, pos, i, parent);
    MembersSit(js, toks, v, pos, i, parent);
    SitsKeysStand(js, toks, v.members, pos + 1 + |v.gap|, i + 1, i);
    forall x | 0 <= x < |toks| && toks[x].parent == i
      ensures toks[x].size >= 1
    {
      KeysHaveOneValue(js, toks, v.members, i + 1, i, x);
    }
  }

  /** json_obj_search on an object of the document. */
  lemma NamedValueFound(js: string, toks: seq<Token>, v: Value, pos: nat, i: nat, parent: int, key: string)
    requires Linked(toks) && Readable(js, toks) && Sits(js, toks, v, pos, i, parent) && v.Obj?
    ensures IsMember(js, toks, MemberNamed(v.members, key), FirstChildNamed(js, toks, i, key, 0))
  {
    hide SitsMembers, KeysStand, IsMember, KeyIndex, MemberNamed;
    MembersSit(js, toks, v, pos, i, parent);
    SkipUnnamed(js, toks, i, key, 0, i + 1);
    SitsKeysStand(js, toks, v.members, pos + 1 + |v.gap|, i + 1, i);
    KeyFound(js, toks, v.members, i + 1, i, key);
    KeyedValueSits(js, toks, v.members, pos + 1 + |v.gap|, i + 1, i, key);
  }

  /** The text of a string token of the document. */
  lemma StringText(js: string, toks: seq<Token>, v: Value, pos: nat, i: nat, parent: int)
    requires Sits(js, toks, v, pos, i, parent) && v.Str?
    ensures 0 <= toks[i].start <= toks[i].end <= |js| && Text(js, toks[i]) == v.text
  {
    FirstToken(js, toks, v, pos, i, parent);
    QuotedAt(js, pos, v.text);
  }

  lemma RootStands(ts: seq<Token>)
    requires Sub(ts, 0, -1)
    ensures StandsAlone(ts, ts, 0, -1)
  {
    assert ts[0..0 + |ts|] == ts;
  }

  /** The root of a document. */
  lemma RootSits(js: string, before: string, v: Value, after: string)
    requires Wf(v) && js == before + Show(v) + after
    ensures Sits(js, Toks(v, |before|, 0, -1), v, |before|, 0, -1)
  {
    DocumentAt(js, before, v, after);
    ToksSub(v, |before|, 0, -1);
    RootStands(Toks(v, |before|, 0, -1));
  }

  // ----- what the cursor moves of json_parser.c reach -----

  lemma RepresentsKind(js: string, toks: seq<Token>, i: nat, parent: int, v: Value)
    requires Represents(js, toks, i, parent, v)
    ensures i < |toks| && toks[i].kind == KindOf(v) && toks[i].parent == parent
    ensures v.Arr? ==> toks[i].size == Len(v.elems)
    ensures v.Obj? ==> toks[i].size == Keys(v.members)
  {
    var pos: nat :| Sits(js, toks, v, pos, i, parent);
    FirstToken(js, toks, v, pos, i, parent);
  }

  /** Getting element number `n` of an array. */
  lemma GetElement(js: string, toks: seq<Token>, v: Value, i: nat, parent: int, n: nat)
    requires Linked(toks) && Represents(js, toks, i, parent, v) && v.Arr? && n < Len(v.elems)
    ensures i < |toks| && var e := JsonParser.ElementAt(toks, i, n, KindOf(ValueNo(v.elems, n)));
      e.Some? && Represents(js, toks, e.value, i, ValueNo(v.elems, n))
    ensures forall k :: k != KindOf(ValueNo(v.elems, n)) ==> JsonParser.ElementAt(toks, i, n, k) == None
  {
    RepresentsKind(js, toks, i, parent, v);
    var pos: nat :| Sits(js, toks, v, pos, i, parent);
    NthValueFound(js, toks, v, pos, i, parent, n);
    var j := NthChild(Parents(toks), i, n, 0);
    RepresentsKind(js, toks, j.value, i, ValueNo(v.elems, n));
  }

  /** json_obj_search on a token that represents an object. */
  lemma NamedValueReached(js: string, toks: seq<Token>, v: Value, i: nat, parent: int, name: string)
    requires Linked(toks) && Readable(js, toks) && Represents(js, toks, i, parent, v) && v.Obj?
    ensures IsMember(js, toks, MemberNamed(v.members, name), FirstChildNamed(js, toks, i, name, 0))
  {
    hide IsMember;
    var pos: nat :| Sits(js, toks, v, pos, i, parent);
    NamedValueFound(js, toks, v, pos, i, parent, name);
  }

  /** Getting the value of the first member with a name. */
  lemma GetMember(js: string, toks: seq<Token>, v: Value, i: nat, parent: int, name: string, kind: Kind)
    requires Linked(toks) && Readable(js, toks) && Represents(js, toks, i, parent, v)
    ensures i < |toks| && var r := JsonParser.ValueNamed(js, toks, i, name, kind);
      if v.Obj? && MemberNamed(v.members, name).Some? && KindOf(MemberNamed(v.members, name).value) == kind then
        r.Some? && r.value > 0 && toks[r.value - 1].parent == i &&
        Represents(js, toks, r.value, r.value - 1, MemberNamed(v.members, name).value)
      else r == None
  {
    hide Linked, Readable, MemberNamed, Represents;
    RepresentsKind(js, toks, i, parent, v);
    if v.Obj? {
      NamedValueReached(js, toks, v, i, parent, name);
      var j := FirstChildNamed(js, toks, i, name, 0);
      if j.Some? {
        RepresentsKind(js, toks, j.value + 1, j.value, MemberNamed(v.members, name).value);
      }
    }
  }

  lemma GetText(js: string, toks: seq<Token>, v: Value, i: nat, parent: int)
    requires Represents(js, toks, i, parent, v) && v.Str?
    ensures i < |toks| && 0 <= toks[i].start <= toks[i].end <= |js| && Text(js, toks[i]) == v.text
  {
    RepresentsKind(js, toks, i, parent, v);
    var pos: nat :| Sits(js, toks, v, pos, i, parent);
    StringText(js, toks, v, pos, i, parent);
  }

  /** The text of any other token is that of its value. */
  lemma TextOfValue(js: string, toks: seq<Token>, v: Value, i: nat, parent: int)
    requires Represents(js, toks, i, parent, v) && !v.Str?
    ensures i < |toks| && 0 <= toks[i].start <= toks[i].end <= |js| && Text(js, toks[i]) == Show(v)
  {
    hide Show, Toks, Stands, Alone, Wf, KindOf, At;
    RepresentsKind(js, toks, i, parent, v);
    var pos: nat :| Sits(js, toks, v, pos, i, parent);
    FirstToken(js, toks, v, pos, i, parent);
    SpanOf(v, pos, i, parent);
    TextAt(js, pos, Show(v));
  }

  lemma SpanOf(v: Value, pos: nat, i: nat, parent: int)
    requires !v.Str?
    ensures var t := Toks(v, pos, i, parent)[0];
      t.start == pos && t.end == pos + |Show(v)|
  {
  }

  lemma TextAt(js: string, pos: nat, s: string)
    requires At(js, pos, s)
    ensures pos + |s| <= |js| && js[pos..pos + |s|] == s
  {
  }
}
