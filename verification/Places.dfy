/** Where the tokens of the parts of a value stand among other tokens. */
module Places {
  import opened Basics
  import opened Jsmn
  import opened Forest
  import opened JsonText

  /** The tokens `ts` stand at index `i`. */
  ghost predicate Stands(toks: seq<Token>, ts: seq<Token>, i: nat) {
    i + |ts| <= |toks| && toks[i..i + |ts|] == ts
  }

  lemma StandsFits(toks: seq<Token>, ts: seq<Token>, i: nat)
    requires Stands(toks, ts, i)
    ensures i + |ts| <= |toks|
  {
  }

  lemma StandsApart(toks: seq<Token>, ts: seq<Token>, us: seq<Token>, i: nat)
    requires Stands(toks, ts + us, i)
    ensures Stands(toks, ts, i) && Stands(toks, us, i + |ts|)
  {
    Slices(toks, i, ts, us);
  }

  lemma StandsBehind(toks: seq<Token>, t: Token, us: seq<Token>, i: nat)
    requires Stands(toks, [t] + us, i)
    ensures i < |toks| && toks[i] == t && Stands(toks, us, i + 1)
  {
    StandsApart(toks, [t], us, i);
    assert toks[i] == toks[i..i + 1][0];
  }

  /** The tokens `lo..hi` hang below each other or below `out`. */
  ghost predicate HangIn(toks: seq<Token>, lo: nat, hi: nat, out: int)
    requires hi <= |toks|
  {
    out < lo && forall x :: lo <= x < hi ==> toks[x].parent == out || lo <= toks[x].parent < x
  }

  lemma StandsHang(toks: seq<Token>, ts: seq<Token>, i: nat, parent: int)
    requires Stands(toks, ts, i) && Sub(ts, i, parent) && parent < i
    ensures HangIn(toks, i, i + |ts|, parent)
  {
    forall x | i <= x < i + |ts|
      ensures toks[x].parent == parent || i <= toks[x].parent < x
    {
      assert toks[x] == toks[i..i + |ts|][x - i];
    }
  }

  // ----- containers -----

  lemma ArrStands(toks: seq<Token>, v: Value, pos: nat, i: nat, parent: int)
    requires v.Arr? && Stands(toks, Toks(v, pos, i, parent), i)
    ensures i < |toks| && toks[i] == Token(Array, pos, pos + |Show(v)|, Len(v.elems), parent)
    ensures Stands(toks, ToksElems(v.elems, pos + 1 + |v.gap|, i + 1, i), i + 1)
    ensures |Show(v)| == |v.gap| + |ShowElems(v.elems)| + 2 && Count(v) == 1 + CountElems(v.elems)
  {
    hide Stands;
    StandsBehind(toks, Toks(v, pos, i, parent)[0], ToksElems(v.elems, pos + 1 + |v.gap|, i + 1, i), i);
  }

  lemma ObjStands(toks: seq<Token>, v: Value, pos: nat, i: nat, parent: int)
    requires v.Obj? && Stands(toks, Toks(v, pos, i, parent), i)
    ensures i < |toks| && toks[i] == Token(Object, pos, pos + |Show(v)|, Keys(v.members), parent)
    ensures Stands(toks, ToksMembers(v.members, pos + 1 + |v.gap|, i + 1, i), i + 1)
    ensures |Show(v)| == |v.gap| + |ShowMembers(v.members)| + 2 && Count(v) == 1 + CountMembers(v.members)
  {
    hide Stands;
    StandsBehind(toks, Toks(v, pos, i, parent)[0], ToksMembers(v.members, pos + 1 + |v.gap|, i + 1, i), i);
  }

  // ----- elements -----

  /** The position of the further elements of an array. */
  function NextElemAt(pos: nat, es: Elems): nat
    requires es.Elem?
  {
    pos + |es.before| + |Show(es.value)| + |es.after| + 1
  }

  lemma ElemStands(toks: seq<Token>, es: Elems, pos: nat, i: nat, parent: int)
    requires es.Elem? && Stands(toks, ToksElems(es, pos, i, parent), i)
    ensures Stands(toks, Toks(es.value, pos + |es.before|, i, parent), i)
    ensures var mid := i + Count(es.value);
      Stands(toks, ToksElems(es.rest, NextElemAt(pos, es), mid, parent), mid)
    ensures i + CountElems(es) <= |toks| && CountElems(es) == Count(es.value) + CountElems(es.rest)
    ensures es.rest == NoElems ==> CountElems(es.rest) == 0
  {
    hide Stands;
    StandsFits(toks, ToksElems(es, pos, i, parent), i);
    StandsApart(toks, Toks(es.value, pos + |es.before|, i, parent),
                ToksElems(es.rest, NextElemAt(pos, es), i + Count(es.value), parent), i);
  }

  // ----- members -----

  /** The position of the further members of an object. */
  function NextMemberAt(pos: nat, ms: Members): nat
    requires ms.Member?
  {
    pos + |Lead(ms)| + |Show(ms.value)| + |ms.after| + 1
  }

  function KeyToken(pos: nat, m: Members, parent: int): Token
    requires m.Member?
  {
    Token(String, pos + |m.before| + 1, pos + |m.before| + 1 + |m.key|, 1, parent)
  }

  lemma MemberStands(toks: seq<Token>, ms: Members, pos: nat, i: nat, parent: int)
    requires ms.Member? && Stands(toks, ToksMembers(ms, pos, i, parent), i)
    ensures i < |toks| && toks[i] == KeyToken(pos, ms, parent) && toks[i].end < pos + |Lead(ms)|
    ensures Stands(toks, Toks(ms.value, pos + |Lead(ms)|, i + 1, i), i + 1)
    ensures var mid := i + 1 + Count(ms.value);
      Stands(toks, ToksMembers(ms.tail, NextMemberAt(pos, ms), mid, parent), mid)
    ensures i + CountMembers(ms) <= |toks| && CountMembers(ms) == 1 + Count(ms.value) + CountMembers(ms.tail)
    ensures ms.tail == NoMembers ==> CountMembers(ms.tail) == 0
  {
    hide Stands;
    StandsFits(toks, ToksMembers(ms, pos, i, parent), i);
    var key, ts := KeyToken(pos, ms, parent), Toks(ms.value, pos + |Lead(ms)|, i + 1, i);
    var us := ToksMembers(ms.tail, NextMemberAt(pos, ms), i + 1 + Count(ms.value), parent);
    StandsApart(toks, [key] + ts, us, i);
    StandsBehind(toks, key, ts, i);
  }
}
