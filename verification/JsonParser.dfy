/** json_parser.c: starting a parse, and moving the cursor through the token array.

    The cursor is an index into the array where the C code holds a pointer.  Every search is
    proved against a plain left-to-right definition of what is looked for. */
module JsonParser {
  import opened Basics
  import opened Jsmn
  import opened Forest
  import opened Navigate

  /** token_matches_str: strncmp over the length of the name, then the lengths. */
  predicate TokenMatches(js: string, tok: Token, name: string)
    requires 0 <= tok.start <= tok.end <= |js|
    ensures TokenMatches(js, tok, name) <==> Text(js, tok) == name
  {
    && tok.start + |name| <= |js| && js[tok.start..tok.start + |name|] == name
    && |name| == tok.end - tok.start
  }

  /** What the two-pass start of a parse yields: the counting pass fixes the number of tokens,
      the filling pass fills them. */
  function TwoPass(js: string): Result<seq<Token>> {
    match CountRun(js, 0, 0)
    case Err(e) => Err(e)
    case Ok(n) => Run(js, START, n)
  }

  /** The two passes accept exactly what the filling pass accepts with any number of tokens that
      suffices, and yield the same tokens. */
  lemma TwoPassIsRun(js: string, cap: nat)
    requires Run(js, START, cap).Ok?
    ensures TwoPass(js) == Run(js, START, cap)
  {
    AcceptedIsCounted(js, START, cap);
    SmallerCap(js, START, cap, |Run(js, START, cap).value|);
  }

  /** Capacity beyond the tokens needed makes no difference. */
  lemma {:induction false} SmallerCap(js: string, st: State, cap: nat, cap': nat)
    requires st.Valid() && Run(js, st, cap).Ok? && |Run(js, st, cap).value| <= cap'
    ensures Run(js, st, cap') == Run(js, st, cap)
    decreases |js| - st.pos
  {
    if !AtEnd(js, st.pos) {
      var st1 := Step(js, st, cap).value;
      AcceptedIsCounted(js, st1, cap);
      LockStep(js, st, cap);
      assert |st.toks| < |st1.toks| ==> |st.toks| < cap';
      assert Step(js, st, cap') == Step(js, st, cap);
      SmallerCap(js, st1, cap, cap');
    }
  }

  /** Whatever a successful two-pass parse yields is a forest with exactly as many tokens as were
      counted. */
  lemma TwoPassIsForest(js: string)
    requires TwoPass(js).Ok?
    ensures IsForest(js, TwoPass(js).value)
    ensures CountRun(js, 0, 0) == Ok(|TwoPass(js).value|)
  {
    var n := CountRun(js, 0, 0).value;
    AcceptedIsForest(js, n);
    CountedIsEnough(js, START, n);
  }

  /** The two passes together never report a lack of tokens. */
  lemma TwoPassNeverLacks(js: string)
    ensures TwoPass(js) != Err(NoMem)
  {
    if CountRun(js, 0, 0).Ok? {
      CountedIsEnough(js, START, CountRun(js, 0, 0).value);
    } else {
      CountNeverLacks(js, 0, 0);
    }
  }

  lemma {:induction false} CountNeverLacks(js: string, pos: nat, count: nat)
    ensures CountRun(js, pos, count) != Err(NoMem)
    decreases |js| - pos
  {
    if !AtEnd(js, pos) && CountStep(js, pos, count).Ok? {
      CountNeverLacks(js, CountStep(js, pos, count).value.0, CountStep(js, pos, count).value.1);
    }
  }

  /** json_skip_elem: the last token of the subtree of token `i`. */
  method SkipElem(tokens: array<Token>, i: nat) returns (cur: nat)
    requires i < tokens.Length && Preorder(Parents(tokens[..])) && SizesFit(tokens[..])
    ensures IsSubtreeEnd(Parents(tokens[..]), i, cur)
    decreases tokens.Length - i
  {
    ghost var ps := Parents(tokens[..]);
    assert SizeFits(tokens[..], i);
    cur := i;
    var cnt := tokens[cur].size;
    WalkStart(ps, i);
    while cnt > 0
      invariant 0 <= cnt <= Children(ps, i) && Walked(ps, i, cur, Children(ps, i) - cnt)
    {
      NextIsChild(ps, i, cur, Children(ps, i) - cnt);
      var last := SkipElem(tokens, cur + 1);
      WalkNext(ps, i, cur, Children(ps, i) - cnt, last);
      cur := last;
      cnt := cnt - 1;
    }
    WalkDone(ps, i, cur);
  }

  /** jparse_ctx_t */
  class Context {
    var parser: Parser
    var js: string
    var tokens: array<Token>
    var cur: nat

    /** A parse has succeeded and the cursor is on one of its tokens. */
    ghost predicate Valid()
      reads this, tokens
    {
      cur < tokens.Length && IsForest(js, tokens[..])
    }

    ghost function Links(): seq<int>
      reads this, tokens
    {
      Parents(tokens[..])
    }

    constructor ()
      ensures fresh(parser) && fresh(tokens)
    {
      parser := new Parser();
      js := "";
      tokens := new Token[0];
      cur := 0;
    }

    /** json_parse_start; `memory` says whether calloc can give the token array. */
    method ParseStart(text: string, memory: bool) returns (ok: bool)
      modifies this, parser
      ensures parser == old(parser)
      ensures ok <==> memory && TwoPass(text).Ok? && TwoPass(text).value != []
      ensures ok ==> fresh(tokens) && tokens[..] == TwoPass(text).value && js == text && cur == 0 && Valid()
    {
      parser.Init();
      var n := parser.Count(text);
      if n.Err? || n.value <= 0 || !memory {
        if TwoPass(text).Ok? {
          TwoPassIsForest(text);
        }
        return false;
      }
      tokens := new Token[n.value](_ => Token(Undefined, 0, 0, 0, 0));
      js := text;
      parser.Init();
      var r := parser.Fill(text, tokens);
      if r.Err? || r.value <= 0 {
        tokens := new Token[0];
        js := "";
        return false;
      }
      TwoPassIsForest(text);
      assert tokens[..] == tokens[..parser.toknext];
      cur := 0;
      ok := true;
    }

    /** json_obj_search: the first child of the current object whose text is `key`. */
    method ObjSearch(key: string) returns (r: Option<nat>)
      requires Valid()
      ensures Readable(js, tokens[..])
      ensures r == if tokens[cur].kind != Object then None else FirstChildNamed(js, tokens[..], cur, key, 0)
    {
      ghost var toks := tokens[..];
      SearchStart(js, toks, cur, key);
      var tok := cur;
      var size := tokens[tok].size;
      if size <= 0 {
        SearchDone(js, toks, cur, key, tok);
        return None;
      }
      if tokens[tok].kind != Object {
        return None;
      }
      while size > 0
        invariant 0 <= size && Searched(js, toks, cur, key, tok, size)
      {
        SearchNext(js, toks, cur, key, tok, size);
        tok := tok + 1;
        if TokenMatches(js, tokens[tok], key) {
          return Some(tok);
        }
        var last := SkipElem(tokens, tok);
        SearchSkip(js, toks, cur, key, tok, size, last);
        tok := last;
        size := size - 1;
      }
      SearchDone(js, toks, cur, key, tok);
      r := None;
    }

    /** json_arr_search: the child number `index` of the current array. */
    method ArrSearch(index: nat) returns (r: Option<nat>)
      requires Valid()
      ensures r == if tokens[cur].kind != Array then None else NthChild(Links(), cur, index, 0)
    {
      ghost var toks := tokens[..];
      var tok := cur;
      if tokens[tok].kind != Array {
        return None;
      }
      CountStart(js, toks, cur, index);
      if tokens[tok].size <= 0 || index > tokens[tok].size - 1 {
        return None;
      }
      tok := tok + 1;
      var left := index;
      while left > 0
        invariant 0 <= left <= index && Counted(Parents(toks), cur, index, tok, left)
        decreases left
      {
        var last := SkipElem(tokens, tok);
        CountSkip(Parents(toks), cur, index, tok, left, last);
        tok := last + 1;
        left := left - 1;
      }
      r := Some(tok);
    }

    // ----- getting and leaving -----

    /** json_obj_get_val_tok.  The token after the key is looked at whether or not it is a value, so
        there has to be one. */
    method ObjGetValTok(name: string, kind: Kind) returns (r: Option<nat>)
      requires Valid() && KeyIsNotLast(js, tokens[..], cur, name)
      ensures Readable(js, tokens[..]) && r == ValueNamed(js, tokens[..], cur, name, kind)
      ensures r.Some? ==> r.value < tokens.Length
    {
      r := ObjSearch(name);
      if r.Some? {
        r := Some(r.value + 1);
        if tokens[r.value].kind != kind {
          r := None;
        }
      }
    }

    /** json_obj_get_array */
    method ObjGetArray(name: string) returns (ok: bool, num: int)
      requires Valid() && KeyIsNotLast(js, tokens[..], cur, name)
      modifies this`cur
      ensures Valid() && Readable(js, tokens[..])
      ensures match ValueNamed(js, tokens[..], old(cur), name, Array)
        case Some(v) => ok && cur == v && num == tokens[v].size
        case None => !ok && cur == old(cur)
    {
      var tok := ObjGetValTok(name, Array);
      if tok.None? {
        return false, 0;
      }
      cur := tok.value;
      ok, num := true, tokens[cur].size;
    }

    /** json_obj_get_object */
    method ObjGetObject(name: string) returns (ok: bool)
      requires Valid() && KeyIsNotLast(js, tokens[..], cur, name)
      modifies this`cur
      ensures Valid() && Readable(js, tokens[..])
      ensures match ValueNamed(js, tokens[..], old(cur), name, Object)
        case Some(v) => ok && cur == v
        case None => !ok && cur == old(cur)
    {
      var tok := ObjGetValTok(name, Object);
      if tok.None? {
        return false;
      }
      cur := tok.value;
      ok := true;
    }

    /** json_obj_leave_array and json_obj_leave_object: up to the key, and up to its object. */
    method ObjLeave() returns (ok: bool)
      requires Valid()
      modifies this`cur
      ensures Valid()
      ensures match LeaveValue(Links(), old(cur))
        case Some(i) => ok && cur == i
        case None => !ok
    {
      if tokens[cur].parent < 0 {
        return false;
      }
      cur := tokens[cur].parent;
      if tokens[cur].parent < 0 {
        return false;
      }
      cur := tokens[cur].parent;
      ok := true;
    }

    /** json_obj_get_string into a buffer of `size` characters, one of them for the terminator. */
    method ObjGetString(name: string, size: nat) returns (val: Option<string>)
      requires Valid() && KeyIsNotLast(js, tokens[..], cur, name)
      ensures Readable(js, tokens[..])
      ensures match ValueNamed(js, tokens[..], cur, name, String)
        case Some(v) =>
          v < tokens.Length &&
          val == if tokens[v].end - tokens[v].start > size - 1 then None else Some(Text(js, tokens[v]))
        case None => val == None
    {
      var tok := ObjGetValTok(name, String);
      if tok.None? || tokens[tok.value].end - tokens[tok.value].start > size - 1 {
        return None;
      }
      val := Some(Text(js, tokens[tok.value]));
    }

    /** json_arr_get_array and json_arr_get_object, which differ in the kind they accept. */
    method ArrGet(index: nat, kind: Kind) returns (ok: bool, num: int)
      requires Valid()
      modifies this`cur
      ensures Valid()
      ensures match ElementAt(tokens[..], old(cur), index, kind)
        case Some(e) => ok && cur == e && num == tokens[e].size
        case None => !ok && cur == old(cur)
    {
      var tok := ArrSearch(index);
      if tok.None? || tokens[tok.value].kind != kind {
        return false, 0;
      }
      cur := tok.value;
      ok, num := true, tokens[cur].size;
    }

    /** json_arr_leave_array and json_arr_leave_object */
    method ArrLeave() returns (ok: bool)
      requires Valid()
      modifies this`cur
      ensures Valid()
      ensures match LeaveElement(Links(), old(cur))
        case Some(i) => ok && cur == i
        case None => !ok && cur == old(cur)
    {
      if tokens[cur].parent < 0 {
        return false;
      }
      cur := tokens[cur].parent;
      ok := true;
    }
  }

  // ----- where getting and leaving lead -----

  /** If object `i` has a key with this name, the first one is not the last token of all. */
  ghost predicate KeyIsNotLast(js: string, toks: seq<Token>, i: nat, name: string) {
    && i < |toks| && Readable(js, toks)
    && (toks[i].kind == Object ==> FirstChildNamed(js, toks, i, name, 0) != Some(|toks| - 1))
  }

  /** In an object whose keys have values no key is. */
  lemma KeysWithValues(js: string, toks: seq<Token>, i: nat, name: string)
    requires IsForest(js, toks) && Readable(js, toks) && i < |toks| && KeysHaveValues(toks, i)
    ensures KeyIsNotLast(js, toks, i, name)
  {
    var j := FirstChildNamed(js, toks, i, name, 0);
    if toks[i].kind == Object && j.Some? {
      KeyThenValue(js, toks, i, j.value);
    }
  }

  /** Every key of object `i` has a value. */
  ghost predicate KeysHaveValues(toks: seq<Token>, i: nat)
    requires i < |toks|
  {
    toks[i].kind == Object ==> forall j :: 0 <= j < |toks| && toks[j].parent == i ==> toks[j].size >= 1
  }

  /** The value behind the first key with this name, if it is of this kind. */
  function ValueNamed(js: string, toks: seq<Token>, i: nat, name: string, kind: Kind): (r: Option<nat>)
    requires i < |toks| && Readable(js, toks)
    ensures r.Some? ==> r.value < |toks| && toks[r.value].kind == kind
  {
    if toks[i].kind != Object then None
    else
      match FirstChildNamed(js, toks, i, name, 0)
      case None => None
      case Some(j) => if j + 1 < |toks| && toks[j + 1].kind == kind then Some(j + 1) else None
  }

  /** The element at this index, if it is of this kind. */
  function ElementAt(toks: seq<Token>, i: nat, index: nat, kind: Kind): (r: Option<nat>)
    requires i < |toks|
    ensures r.Some? ==> r.value < |toks| && toks[r.value].kind == kind
  {
    if toks[i].kind != Array then None
    else
      match NthChild(Parents(toks), i, index, 0)
      case None => None
      case Some(j) => if toks[j].kind == kind then Some(j) else None
  }

  function LeaveElement(ps: seq<int>, i: nat): Option<nat>
    requires i < |ps|
  {
    if ps[i] < 0 then None else Some(ps[i])
  }

  function LeaveValue(ps: seq<int>, i: nat): Option<nat>
    requires Backward(ps) && i < |ps|
  {
    match LeaveElement(ps, i)
    case None => None
    case Some(key) => LeaveElement(ps, key)
  }

  /** A key with a value is followed by that value. */
  lemma KeyThenValue(js: string, toks: seq<Token>, i: nat, key: nat)
    requires IsForest(js, toks) && i < |toks| && key < |toks| && toks[key].parent == i && toks[key].size >= 1
    ensures key + 1 < |toks| && toks[key + 1].parent == key
  {
    assert SizeFits(toks, key);
    WalkStart(Parents(toks), key);
    NextIsChild(Parents(toks), key, key, 0);
  }

  /** The token after a key without a value hangs higher up. */
  lemma KeyThenOther(js: string, toks: seq<Token>, i: nat, key: nat)
    requires IsForest(js, toks) && i < |toks| && key + 1 < |toks| && toks[key].parent == i && toks[key].size == 0
    ensures toks[key + 1].parent <= i
  {
    var ps := Parents(toks);
    assert HangsWell(ps, key + 1) && SizeFits(toks, key);
    if ps[key + 1] == key {
      CountsChild(ps, key, key + 1);
    } else if ps[key + 1] != -1 {
      AboveIsEarlier(ps, ps[key + 1], i);
    }
  }

  lemma {:induction false} CountsChild(ps: seq<int>, i: int, c: nat)
    requires c < |ps| && ps[c] == i
    ensures Children(ps, i) > 0
    decreases |ps|
  {
    if c < |ps| - 1 {
      CountsChild(ps[..|ps| - 1], i, c);
    }
  }

  /** Leaving undoes getting an element; it undoes getting the value of a key if and only if the key
      has one. */
  lemma LeaveUndoesGet(js: string, toks: seq<Token>, i: nat, name: string, index: nat, kind: Kind)
    requires IsForest(js, toks) && Readable(js, toks) && i < |toks|
    ensures match ValueNamed(js, toks, i, name, kind)
      case Some(v) => v > 0 && (LeaveValue(Parents(toks), v) == Some(i) <==> toks[v - 1].size > 0)
      case None => true
    ensures match ElementAt(toks, i, index, kind)
      case Some(e) => LeaveElement(Parents(toks), e) == Some(i)
      case None => true
  {
    if toks[i].kind == Object {
      var j := FirstChildNamed(js, toks, i, name, 0);
      if j.Some? && j.value + 1 < |toks| {
        assert SizeFits(toks, j.value);
        if toks[j.value].size > 0 {
          KeyThenValue(js, toks, i, j.value);
        } else {
          KeyThenOther(js, toks, i, j.value);
        }
      }
    }
  }

  /** No child of `i` up to `tok` has the text `key`, and `size` children are still to come. */
  ghost predicate Searched(js: string, toks: seq<Token>, i: nat, key: string, tok: nat, size: int) {
    && i < |toks| && IsForest(js, toks) && Readable(js, toks)
    && 0 <= size <= Children(Parents(toks), i)
    && Walked(Parents(toks), i, tok, Children(Parents(toks), i) - size)
    && FirstChildNamed(js, toks, i, key, 0) == FirstChildNamed(js, toks, i, key, tok + 1)
  }

  lemma SearchStart(js: string, toks: seq<Token>, i: nat, key: string)
    requires i < |toks| && IsForest(js, toks)
    ensures Searched(js, toks, i, key, i, toks[i].size)
  {
    ForestIsReadable(js, toks);
    assert SizeFits(toks, i);
    WalkStart(Parents(toks), i);
    SkipUnnamed(js, toks, i, key, 0, i + 1);
  }

  lemma SearchNext(js: string, toks: seq<Token>, i: nat, key: string, tok: nat, size: int)
    requires Searched(js, toks, i, key, tok, size) && size > 0
    ensures tok + 1 < |toks| && toks[tok + 1].parent == i
    ensures Text(js, toks[tok + 1]) == key ==> FirstChildNamed(js, toks, i, key, 0) == Some(tok + 1)
  {
    NextIsChild(Parents(toks), i, tok, Children(Parents(toks), i) - size);
  }

  lemma SearchSkip(js: string, toks: seq<Token>, i: nat, key: string, tok: nat, size: int, last: nat)
    requires 1 <= tok < |toks| && Searched(js, toks, i, key, tok - 1, size) && size > 0
    requires Text(js, toks[tok]) != key && IsSubtreeEnd(Parents(toks), tok, last)
    ensures Searched(js, toks, i, key, last, size - 1)
  {
    WalkNext(Parents(toks), i, tok - 1, Children(Parents(toks), i) - size, last);
    SkipUnnamed(js, toks, i, key, tok, last + 1);
  }

  lemma SearchDone(js: string, toks: seq<Token>, i: nat, key: string, last: nat)
    requires Searched(js, toks, i, key, last, 0)
    ensures FirstChildNamed(js, toks, i, key, 0) == None
  {
    WalkDone(Parents(toks), i, last);
    forall x | last < x < |toks|
      ensures toks[x].parent != i
    {
      if toks[x].parent == i {
        ChildrenAreInside(Parents(toks), i, last, x);
      }
    }
    SkipUnnamed(js, toks, i, key, last + 1, |toks|);
  }

  // ----- the loop of json_arr_search -----

  /** `tok` is a child of `i`, and the child `index` of `i` is the one `left` places after it. */
  ghost predicate Counted(ps: seq<int>, i: nat, index: nat, tok: nat, left: int) {
    && i < |ps| && 1 <= tok < |ps| && Preorder(ps) && ps[tok] == i
    && 0 <= left <= index < Children(ps, i)
    && Walked(ps, i, tok - 1, index - left)
    && NthChild(ps, i, index, 0) == NthChild(ps, i, left, tok)
  }

  /** There is a child number `n` exactly when there are more than `n` children. */
  lemma {:induction false} NthOrNone(ps: seq<int>, i: int, n: nat, from: nat)
    requires from <= |ps|
    ensures NthChild(ps, i, n, from) == None <==> Children(ps, i) - Children(ps[..from], i) <= n
    decreases |ps| - from
  {
    if from == |ps| {
      assert ps[..from] == ps;
    } else {
      ChildrenSnoc(ps[..from], ps[from], i);
      assert ps[..from] + [ps[from]] == ps[..from + 1];
      ChildrenGrow(ps, i, from + 1);
      NthOrNone(ps, i, if ps[from] == i && n > 0 then n - 1 else n, from + 1);
    }
  }

  lemma CountStart(js: string, toks: seq<Token>, i: nat, index: nat)
    requires i < |toks| && IsForest(js, toks)
    ensures index >= toks[i].size ==> NthChild(Parents(toks), i, index, 0) == None
    ensures index < toks[i].size ==> Counted(Parents(toks), i, index, i + 1, index)
  {
    var ps := Parents(toks);
    assert SizeFits(toks, i);
    NthOrNone(ps, i, index, 0);
    if index < toks[i].size {
      WalkStart(ps, i);
      NextIsChild(ps, i, i, 0);
      SkipOthers(ps, i, index, 0, i + 1);
    }
  }

  lemma CountSkip(ps: seq<int>, i: nat, index: nat, tok: nat, left: int, last: nat)
    requires Counted(ps, i, index, tok, left) && left > 0
    requires IsSubtreeEnd(ps, tok, last)
    ensures Counted(ps, i, index, last + 1, left - 1)
  {
    WalkNext(ps, i, tok - 1, index - left, last);
    NextIsChild(ps, i, last, index - left + 1);
    SkipOthers(ps, i, left - 1, tok + 1, last + 1);
  }
}
