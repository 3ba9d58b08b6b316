/** The subtree of a token, and the walk over its children that json_parser.c makes.

    json_skip_elem and the searches step through the array with the `size` fields only.
    `Walked` is their common loop invariant: in a preorder forest the tokens of a subtree stand
    together, a child's subtree ends where the next child begins, and after as many children as the
    token's size nothing hangs below it any more.  What the searches look for is said without any
    walk: the first child with a text, and the child with a number. */
module Navigate {
  import opened Basics
  import opened Jsmn
  import opened Forest

  /** The tokens at or below `i` are exactly those at positions `i` to `last`. */
  ghost predicate IsSubtreeEnd(ps: seq<int>, i: nat, last: nat)
    requires Backward(ps)
  {
    && i <= last < |ps|
    && forall x :: 0 <= x < |ps| ==> (Above(ps, i, x) <==> i <= x <= last)
  }

  /** `cur` is the last token of the first `k` children of `i` and what hangs below them. */
  ghost predicate Walked(ps: seq<int>, i: nat, cur: nat, k: nat)
    requires Backward(ps)
  {
    && i <= cur < |ps|
    && (forall x :: i <= x <= cur ==> Above(ps, i, x))
    && Children(ps[..cur + 1], i) == k
    && (cur + 1 < |ps| ==> ps[cur + 1] <= i)
  }

  lemma {:induction false} AboveComparable(ps: seq<int>, a: nat, b: nat, x: int)
    requires Backward(ps) && -1 <= x < |ps| && Above(ps, a, x) && Above(ps, b, x) && a <= b
    ensures b < |ps| && Above(ps, a, b)
    decreases x + 1
  {
    AboveIsEarlier(ps, b, x);
    if b != x {
      AboveIsEarlier(ps, b, ps[x]);
      AboveComparable(ps, a, b, ps[x]);
    }
  }

  /** Once a token hangs above `i`, nothing later hangs below `i`. */
  lemma {:induction false} NeverAgain(ps: seq<int>, i: nat, d: nat, x: nat)
    requires Preorder(ps) && i < d <= x < |ps| && ps[d] < i
    ensures !Above(ps, i, x)
    decreases x
  {
    if Above(ps, i, x) {
      AboveIsEarlier(ps, i, ps[x]);
      if x > d {
        assert HangsWell(ps, x);
        AboveIsEarlier(ps, ps[x], x - 1);
        AboveTrans(ps, i, ps[x], x - 1);
        NeverAgain(ps, i, d, x - 1);
      }
    }
  }

  lemma {:induction false} ChildrenGrow(ps: seq<int>, i: int, m: nat)
    requires m <= |ps|
    ensures Children(ps[..m], i) <= Children(ps, i)
    ensures Children(ps[..m], i) < Children(ps, i) ==> exists c :: m <= c < |ps| && ps[c] == i
    decreases |ps|
  {
    if m < |ps| {
      var init := ps[..|ps| - 1];
      ChildrenGrow(init, i, m);
      assert init[..m] == ps[..m];
      if Children(ps[..m], i) < Children(init, i) {
        var c :| m <= c < |init| && init[c] == i;
        assert ps[c] == i;
      }
    } else {
      assert ps[..m] == ps;
    }
  }

  lemma {:induction false} NoChildIn(ps: seq<int>, i: int, m: nat, n: nat)
    requires m <= n <= |ps| && forall x :: m <= x < n ==> ps[x] != i
    ensures Children(ps[..n], i) == Children(ps[..m], i)
    decreases n
  {
    if m < n {
      assert ps[..n][..n - 1] == ps[..n - 1];
      NoChildIn(ps, i, m, n - 1);
    }
  }

  lemma WalkStart(ps: seq<int>, i: nat)
    requires Preorder(ps) && i < |ps|
    ensures Walked(ps, i, i, 0)
  {
    assert ps[..i + 1][..i] == ps[..i];
    NoChildrenYet(ps[..i], i);
  }

  /** While children are left, the next token is one. */
  lemma NextIsChild(ps: seq<int>, i: nat, cur: nat, k: nat)
    requires Preorder(ps) && Walked(ps, i, cur, k) && k < Children(ps, i)
    ensures cur + 1 < |ps| && ps[cur + 1] == i && Children(ps[..cur + 2], i) == k + 1
  {
    ChildrenGrow(ps, i, cur + 1);
    var c :| cur + 1 <= c < |ps| && ps[c] == i;
    if ps[cur + 1] < i {
      NeverAgain(ps, i, cur + 1, c);
    }
    ChildrenSnoc(ps[..cur + 1], ps[cur + 1], i);
    assert ps[..cur + 1] + [ps[cur + 1]] == ps[..cur + 2];
  }

  /** Below a token, every parent is that token or a later one. */
  lemma BelowHangsLater(ps: seq<int>, c: nat, last: nat, x: nat)
    requires Backward(ps) && IsSubtreeEnd(ps, c, last) && c < x <= last
    ensures c <= ps[x]
  {
    assert Above(ps, c, x);
    AboveIsEarlier(ps, c, ps[x]);
  }

  /** The token after a finished child hangs no deeper than that child. */
  lemma AfterChild(ps: seq<int>, c: nat, last: nat)
    requires Preorder(ps) && IsSubtreeEnd(ps, c, last) && ps[c] != -1 && last + 1 < |ps|
    ensures ps[last + 1] <= ps[c]
  {
    var d := last + 1;
    var p := ps[d];
    if p > ps[c] {
      assert HangsWell(ps, d);
      assert Above(ps, c, last);
      if c <= p {
        AboveComparable(ps, c, p, last);
        assert Above(ps, c, d);
      } else {
        AboveComparable(ps, p, c, last);
        AboveIsEarlier(ps, p, ps[c]);
      }
    }
  }

  lemma WalkNext(ps: seq<int>, i: nat, cur: nat, k: nat, last: nat)
    requires Preorder(ps) && Walked(ps, i, cur, k) && k < Children(ps, i)
    requires cur + 1 < |ps| && IsSubtreeEnd(ps, cur + 1, last)
    ensures Walked(ps, i, last, k + 1)
    ensures forall x :: cur + 1 < x <= last ==> ps[x] != i
  {
    var c := cur + 1;
    NextIsChild(ps, i, cur, k);
    forall x | c < x <= last
      ensures ps[x] != i
    {
      BelowHangsLater(ps, c, last, x);
    }
    NoChildIn(ps, i, c + 1, last + 1);
    forall x | c <= x <= last
      ensures Above(ps, i, x)
    {
      assert Above(ps, c, x);
      AboveTrans(ps, i, c, x);
    }
    if last + 1 < |ps| {
      AfterChild(ps, c, last);
    }
  }

  lemma WalkDone(ps: seq<int>, i: nat, cur: nat)
    requires Preorder(ps) && Walked(ps, i, cur, Children(ps, i))
    ensures IsSubtreeEnd(ps, i, cur)
  {
    if cur + 1 < |ps| {
      if ps[cur + 1] == i {
        ChildrenSnoc(ps[..cur + 1], i, i);
        assert ps[..cur + 1] + [i] == ps[..cur + 2];
        ChildrenGrow(ps, i, cur + 2);
      }
    }
    forall x | 0 <= x < |ps|
      ensures Above(ps, i, x) <==> i <= x <= cur
    {
      if x > cur {
        NeverAgain(ps, i, cur + 1, x);
      } else if x < i && Above(ps, i, x) {
        AboveIsEarlier(ps, i, x);
      }
    }
  }

  // ----- what the searches look for -----

  /** The text of a closed token. */
  function Text(js: string, t: Token): string
    requires 0 <= t.start <= t.end <= |js|
  {
    js[t.start..t.end]
  }

  ghost predicate Readable(js: string, toks: seq<Token>) {
    forall i :: 0 <= i < |toks| ==> 0 <= toks[i].start <= toks[i].end <= |js|
  }

  lemma ForestIsReadable(js: string, toks: seq<Token>)
    requires IsForest(js, toks)
    ensures Readable(js, toks)
  {
    forall i | 0 <= i < |toks|
      ensures 0 <= toks[i].start <= toks[i].end <= |js|
    {
      assert SpanFits(js, toks[i], |js|) && !toks[i].Open();
    }
  }

  /** The first child of `i`, from position `from` on, whose text is `key`. */
  function FirstChildNamed(js: string, toks: seq<Token>, i: nat, key: string, from: nat): (r: Option<nat>)
    requires from <= |toks| && Readable(js, toks)
    ensures r.Some? ==> from <= r.value < |toks| && toks[r.value].parent == i && Text(js, toks[r.value]) == key
    decreases |toks| - from
  {
    if from == |toks| then None
    else if toks[from].parent == i && Text(js, toks[from]) == key then Some(from)
    else FirstChildNamed(js, toks, i, key, from + 1)
  }

  /** The child of `i` at position `from` or later that has exactly `n` children of `i` before it
      from there on. */
  function NthChild(ps: seq<int>, i: int, n: nat, from: nat): (r: Option<nat>)
    requires from <= |ps|
    ensures r.Some? ==> from <= r.value < |ps| && ps[r.value] == i
    decreases |ps| - from
  {
    if from == |ps| then None
    else if ps[from] != i then NthChild(ps, i, n, from + 1)
    else if n == 0 then Some(from)
    else NthChild(ps, i, n - 1, from + 1)
  }

  lemma {:induction false} SkipUnnamed(js: string, toks: seq<Token>, i: nat, key: string, from: nat, to: nat)
    requires from <= to <= |toks| && Readable(js, toks)
    requires forall x :: from <= x < to ==> toks[x].parent != i || Text(js, toks[x]) != key
    ensures FirstChildNamed(js, toks, i, key, from) == FirstChildNamed(js, toks, i, key, to)
    decreases |toks| - from
  {
    if from < to {
      SkipUnnamed(js, toks, i, key, from + 1, to);
    }
  }

  lemma {:induction false} SkipOthers(ps: seq<int>, i: int, n: nat, from: nat, to: nat)
    requires from <= to <= |ps| && forall x :: from <= x < to ==> ps[x] != i
    ensures NthChild(ps, i, n, from) == NthChild(ps, i, n, to)
    decreases |ps| - from
  {
    if from < to {
      SkipOthers(ps, i, n, from + 1, to);
    }
  }

  /** Nothing before or at `i` is a child of `i`, nothing after its subtree either. */
  lemma ChildrenAreInside(ps: seq<int>, i: nat, last: nat, x: nat)
    requires Backward(ps) && IsSubtreeEnd(ps, i, last) && x < |ps| && ps[x] == i
    ensures i < x <= last
  {
    assert Above(ps, i, i);
    assert Above(ps, i, x);
  }
}
