/** The tokeniser of jsmn.h, compiled with JSMN_STRICT and JSMN_PARENT_LINKS.

    `Run` and `CountRun` are the two passes on values: the filling pass over a token
    array and the counting pass without one.  The class `Parser` is the code itself,
    updating `pos`, `toknext`, `toksuper` and the token array in place; its contract
    says that it computes exactly what these functions say. */
module Jsmn {

  datatype Kind = Undefined | Object | Array | String | Primitive

  datatype Token = Token(kind: Kind, start: int, end: int, size: int, parent: int) {
    /** A container whose closing bracket has not been seen. */
    predicate Open() {
      start != -1 && end == -1
    }

    predicate Container() {
      kind == Object || kind == Array
    }
  }

  datatype Error = NoMem | Inval | Part

  datatype Result<+T> = Ok(value: T) | Err(error: Error)

  // ----- lexical scanning -----

  predicate IsHex(c: char) {
    '0' <= c <= '9' || 'A' <= c <= 'F' || 'a' <= c <= 'f'
  }

  predicate IsSpace(c: char) {
    c == '\t' || c == '\r' || c == '\n' || c == ' '
  }

  predicate IsSimpleEscape(c: char) {
    c == '"' || c == '/' || c == '\\' || c == 'b' || c == 'f' || c == 'r' || c == 'n' || c == 't'
  }

  /** The characters that can start a primitive in strict mode. */
  predicate StartsPrimitive(c: char) {
    c == '-' || '0' <= c <= '9' || c == 't' || c == 'f' || c == 'n'
  }

  /** The characters that end a primitive in strict mode; ':' is not one of them. */
  predicate EndsPrimitive(c: char) {
    IsSpace(c) || c == ',' || c == ']' || c == '}'
  }

  /** The first position after at most `left` hexadecimal digits. */
  function SkipHex(js: string, p: nat, left: nat): (r: Result<nat>)
    requires p <= |js|
    ensures r.Ok? ==> p <= r.value <= |js|
    decreases left
  {
    if left == 0 || p == |js| || js[p] == '\0' then Ok(p)
    else if !IsHex(js[p]) then Err(Inval)
    else SkipHex(js, p + 1, left - 1)
  }

  /** The position of the quote that closes a string whose text goes on at `p`. */
  function ScanString(js: string, p: nat): (r: Result<nat>)
    requires p <= |js|
    ensures r.Ok? ==> p <= r.value < |js| && js[r.value] == '"'
    ensures r != Err(NoMem)
    decreases |js| - p
  {
    if p == |js| || js[p] == '\0' then Err(Part)
    else if js[p] == '"' then Ok(p)
    else if js[p] == '\\' && p + 1 < |js| then
      if IsSimpleEscape(js[p + 1]) then ScanString(js, p + 2)
      else if js[p + 1] == 'u' then
        match SkipHex(js, p + 2, 4)
        case Ok(q) => ScanString(js, q)
        case Err(_) => Err(Inval)
      else Err(Inval)
    else ScanString(js, p + 1)
  }

  /** How the scan of a string passes over one character or one escape. */
  lemma ScanStringStep(js: string, p: nat)
    requires p < |js| && js[p] != '\0'
    ensures ScanString(js, p) ==
      if js[p] == '"' then Ok(p)
      else if js[p] != '\\' || p + 1 == |js| then ScanString(js, p + 1)
      else if js[p + 1] == 'u' then
        if SkipHex(js, p + 2, 4).Ok? then ScanString(js, SkipHex(js, p + 2, 4).value) else Err(Inval)
      else if IsSimpleEscape(js[p + 1]) then ScanString(js, p + 2)
      else Err(Inval)
  {
  }

  lemma ScanStringEnd(js: string, p: nat)
    requires p <= |js| && (p == |js| || js[p] == '\0')
    ensures ScanString(js, p) == Err(Part)
  {
  }

  /** The position of the delimiter that ends a primitive which goes on at `p`. */
  function ScanPrimitive(js: string, p: nat): (r: Result<nat>)
    requires p <= |js|
    ensures r.Ok? ==> p <= r.value < |js| && EndsPrimitive(js[r.value])
    ensures r != Err(NoMem)
    decreases |js| - p
  {
    if p == |js| || js[p] == '\0' then Err(Part)
    else if EndsPrimitive(js[p]) then Ok(p)
    else if js[p] < ' ' || js[p] >= '\U{7f}' then Err(Inval)
    else ScanPrimitive(js, p + 1)
  }

  // ----- the filling pass -----

  /** Parent links lead backwards, so every walk along them ends. */
  ghost predicate Linked(toks: seq<Token>) {
    forall i :: 0 <= i < |toks| ==> -1 <= toks[i].parent < i
  }

  datatype State = State(pos: nat, toks: seq<Token>, sup: int) {
    ghost predicate Valid() {
      Linked(toks) && -1 <= sup < |toks|
    }
  }

  const START := State(0, [], -1)

  /** One more child for token `sup`. */
  function Bump(toks: seq<Token>, sup: int): (r: seq<Token>)
    requires -1 <= sup < |toks|
    ensures |r| == |toks|
    ensures forall i :: 0 <= i < |toks| ==> r[i].parent == toks[i].parent
  {
    if sup == -1 then toks else toks[sup := toks[sup].(size := toks[sup].size + 1)]
  }

  /** Where the walk for a closing bracket stops: the nearest open token on the way up
      from `i`, or else the root of that way. */
  function WalkUp(toks: seq<Token>, i: nat): (r: nat)
    requires Linked(toks) && i < |toks|
    ensures r <= i && (toks[r].Open() || toks[r].parent == -1)
    decreases i
  {
    if toks[i].Open() || toks[i].parent == -1 then i else WalkUp(toks, toks[i].parent)
  }

  function OpenBracket(st: State, kind: Kind, cap: nat): (r: Result<State>)
    requires st.Valid()
    ensures r.Ok? ==> r.value.Valid()
  {
    if |st.toks| >= cap then Err(NoMem)
    else if st.sup != -1 && st.toks[st.sup].kind == Object then Err(Inval)
    else Ok(State(st.pos + 1, Bump(st.toks, st.sup) + [Token(kind, st.pos, -1, 0, st.sup)], |st.toks|))
  }

  function CloseBracket(st: State, kind: Kind): (r: Result<State>)
    requires st.Valid()
    ensures r.Ok? ==> r.value.Valid()
  {
    if |st.toks| < 1 then Err(Inval)
    else
      var t := WalkUp(st.toks, |st.toks| - 1);
      if st.toks[t].kind != kind then Err(Inval)
      else if st.toks[t].Open() then
        Ok(State(st.pos + 1, st.toks[t := st.toks[t].(end := st.pos + 1)], st.toks[t].parent))
      else if st.sup == -1 then Err(Inval)
      else Ok(st.(pos := st.pos + 1))
  }

  function AddLeaf(st: State, kind: Kind, start: nat, end: nat, pos: nat, cap: nat): (r: Result<State>)
    requires st.Valid()
    ensures r.Ok? ==> r.value.Valid()
  {
    if |st.toks| >= cap then Err(NoMem)
    else Ok(State(pos, Bump(st.toks, st.sup) + [Token(kind, start, end, 0, st.sup)], st.sup))
  }

  /** The effect of a comma: after a key or a value the container becomes the superior again. */
  function AfterComma(st: State): int
    requires st.Valid()
  {
    if st.sup != -1 && !st.toks[st.sup].Container() then st.toks[st.sup].parent else st.sup
  }

  /** A primitive may not be a key of an object nor a second value of a key. */
  predicate RefusesPrimitive(st: State)
    requires st.Valid()
  {
    st.sup != -1 &&
    (st.toks[st.sup].kind == Object || (st.toks[st.sup].kind == String && st.toks[st.sup].size != 0))
  }

  predicate AtEnd(js: string, pos: nat) {
    pos >= |js| || js[pos] == '\0'
  }

  /** One iteration of the main loop of the filling pass. */
  function Step(js: string, st: State, cap: nat): (r: Result<State>)
    requires st.Valid() && !AtEnd(js, st.pos)
    ensures r.Ok? ==> r.value.Valid() && st.pos < r.value.pos <= |js|
  {
    var c := js[st.pos];
    if c == '{' then OpenBracket(st, Object, cap)
    else if c == '[' then OpenBracket(st, Array, cap)
    else if c == '}' then CloseBracket(st, Object)
    else if c == ']' then CloseBracket(st, Array)
    else if c == '"' then
      match ScanString(js, st.pos + 1)
      case Ok(q) => AddLeaf(st, String, st.pos + 1, q, q + 1, cap)
      case Err(e) => Err(e)
    else if IsSpace(c) then Ok(st.(pos := st.pos + 1))
    else if c == ':' then Ok(st.(pos := st.pos + 1, sup := |st.toks| - 1))
    else if c == ',' then Ok(st.(pos := st.pos + 1, sup := AfterComma(st)))
    else if StartsPrimitive(c) then
      if RefusesPrimitive(st) then Err(Inval)
      else
        match ScanPrimitive(js, st.pos + 1)
        case Ok(q) => AddLeaf(st, Primitive, st.pos, q, q, cap)
        case Err(e) => Err(e)
    else Err(Inval)
  }

  predicate AllClosed(toks: seq<Token>) {
    forall i :: 0 <= i < |toks| ==> !toks[i].Open()
  }

  /** The filling pass from `st` to the end, with room for `cap` tokens. */
  function Run(js: string, st: State, cap: nat): (r: Result<seq<Token>>)
    requires st.Valid()
    decreases |js| - st.pos
  {
    if AtEnd(js, st.pos) then
      if AllClosed(st.toks) then Ok(st.toks) else Err(Part)
    else
      match Step(js, st, cap)
      case Ok(next) => Run(js, next, cap)
      case Err(e) => Err(e)
  }

  // ----- the counting pass -----

  /** One iteration of the main loop without a token array: the new position and count. */
  function CountStep(js: string, pos: nat, count: nat): (r: Result<(nat, nat)>)
    requires !AtEnd(js, pos)
    ensures r.Ok? ==> pos < r.value.0 <= |js| && count <= r.value.1 <= count + 1
  {
    var c := js[pos];
    if c == '{' || c == '[' then Ok((pos + 1, count + 1))
    else if c == '}' || c == ']' || c == ':' || c == ',' || IsSpace(c) then Ok((pos + 1, count))
    else if c == '"' then
      match ScanString(js, pos + 1)
      case Ok(q) => Ok((q + 1, count + 1))
      case Err(e) => Err(e)
    else if StartsPrimitive(c) then
      match ScanPrimitive(js, pos + 1)
      case Ok(q) => Ok((q, count + 1))
      case Err(e) => Err(e)
    else Err(Inval)
  }

  function CountRun(js: string, pos: nat, count: nat): (r: Result<nat>)
    ensures r.Ok? ==> count <= r.value
    decreases |js| - pos
  {
    if AtEnd(js, pos) then Ok(count)
    else
      match CountStep(js, pos, count)
      case Ok(next) => CountRun(js, next.0, next.1)
      case Err(e) => Err(e)
  }

  // ----- the two passes agree -----

  /** One step of the filling pass and one of the counting pass scan the same text: if the
      filling step succeeds, both reach the same position and count. */
  lemma LockStep(js: string, st: State, cap: nat)
    requires st.Valid() && !AtEnd(js, st.pos)
    ensures Step(js, st, cap).Ok? ==>
      CountStep(js, st.pos, |st.toks|) == Ok((Step(js, st, cap).value.pos, |Step(js, st, cap).value.toks|))
    ensures Step(js, st, cap) == Err(NoMem) ==>
      |st.toks| >= cap && (CountStep(js, st.pos, |st.toks|).Ok? ==>
        CountStep(js, st.pos, |st.toks|).value.1 == |st.toks| + 1)
  {
  }

  /** With as many tokens as the counting pass has counted, the filling pass never runs out of
      them, and when it succeeds it has filled them all. */
  lemma {:induction false} CountedIsEnough(js: string, st: State, cap: nat)
    requires st.Valid()
    requires CountRun(js, st.pos, |st.toks|).Ok? && CountRun(js, st.pos, |st.toks|).value <= cap
    ensures Run(js, st, cap) != Err(NoMem)
    ensures Run(js, st, cap).Ok? ==> |Run(js, st, cap).value| == CountRun(js, st.pos, |st.toks|).value
    decreases |js| - st.pos
  {
    if !AtEnd(js, st.pos) {
      LockStep(js, st, cap);
      var s := Step(js, st, cap);
      if s.Ok? {
        CountedIsEnough(js, s.value, cap);
      }
    }
  }

  /** Conversely, whatever the filling pass accepts the counting pass has counted exactly. */
  lemma {:induction false} AcceptedIsCounted(js: string, st: State, cap: nat)
    requires st.Valid() && Run(js, st, cap).Ok?
    ensures CountRun(js, st.pos, |st.toks|) == Ok(|Run(js, st, cap).value|)
    decreases |js| - st.pos
  {
    if !AtEnd(js, st.pos) {
      LockStep(js, st, cap);
      AcceptedIsCounted(js, Step(js, st, cap).value, cap);
    }
  }

  // ----- the code -----

  class Parser {
    var pos: nat
    var toknext: nat
    var toksuper: int

    /** jsmn_init */
    constructor ()
      ensures pos == 0 && toknext == 0 && toksuper == -1
    {
      pos, toknext, toksuper := 0, 0, -1;
    }

    /** jsmn_init on a parser in use. */
    method Init()
      modifies this
      ensures pos == 0 && toknext == 0 && toksuper == -1
    {
      pos, toknext, toksuper := 0, 0, -1;
    }

    ghost predicate Fits(tokens: array<Token>)
      reads this, tokens
    {
      toknext <= tokens.Length && Abs(tokens).Valid()
    }

    ghost function Abs(tokens: array<Token>): State
      requires toknext <= tokens.Length
      reads this, tokens
    {
      State(pos, tokens[..toknext], toksuper)
    }

    /** jsmn_alloc_token followed by jsmn_fill_token and the parent link. */
    method AllocToken(tokens: array<Token>, tok: Token) returns (ok: bool)
      requires Fits(tokens) && tok.parent == toksuper
      modifies this`toknext, tokens
      ensures ok == (old(toknext) < tokens.Length)
      ensures !ok ==> toknext == old(toknext) && tokens[..] == old(tokens[..])
      ensures ok ==> toknext == old(toknext) + 1 && tokens[..toknext] == old(tokens[..toknext]) + [tok]
    {
      if toknext >= tokens.Length {
        return false;
      }
      tokens[toknext] := tok;
      toknext := toknext + 1;
      ok := true;
    }

    /** jsmn_parse_primitive: leaves `pos` on the last character of the primitive. */
    method ParsePrimitive(js: string, tokens: array?<Token>) returns (r: Result<()>)
      requires pos < |js| && StartsPrimitive(js[pos])
      requires tokens != null ==> Fits(tokens)
      modifies this`pos, this`toknext, tokens
      ensures ScanPrimitive(js, old(pos) + 1).Err? ==> r == Err(ScanPrimitive(js, old(pos) + 1).error)
      ensures ScanPrimitive(js, old(pos) + 1).Ok? && tokens != null && old(toknext) >= tokens.Length ==> r == Err(NoMem)
      ensures ScanPrimitive(js, old(pos) + 1).Ok? && (tokens == null || old(toknext) < tokens.Length) ==>
        r == Ok(()) && pos == ScanPrimitive(js, old(pos) + 1).value - 1
      ensures r.Ok? && tokens == null ==> toknext == old(toknext)
      ensures r.Ok? && tokens != null ==> toknext == old(toknext) + 1 <= tokens.Length
      ensures r.Ok? && tokens != null ==>
        tokens[..toknext] ==
          old(tokens[..toknext]) + [Token(Primitive, old(pos), ScanPrimitive(js, old(pos) + 1).value, 0, toksuper)]
    {
      var start := pos;
      while pos < |js| && js[pos] != '\0' && !EndsPrimitive(js[pos])
        invariant start <= pos <= |js|
        invariant pos == start || ScanPrimitive(js, pos) == ScanPrimitive(js, start + 1)
        invariant toknext == old(toknext)
        invariant tokens != null ==> tokens[..] == old(tokens[..])
      {
        if js[pos] < ' ' || js[pos] >= '\U{7f}' {
          pos := start;
          return Err(Inval);
        }
        pos := pos + 1;
      }
      if pos == |js| || js[pos] == '\0' {
        pos := start;
        return Err(Part);
      }
      if tokens == null {
        pos := pos - 1;
        return Ok(());
      }
      var ok := AllocToken(tokens, Token(Primitive, start, pos, 0, toksuper));
      if !ok {
        pos := start;
        return Err(NoMem);
      }
      pos := pos - 1;
      r := Ok(());
    }

    /** The hexadecimal digits of a \uXXXX escape; on return `pos` is on the last one read. */
    method ParseHex(js: string, ghost from: nat) returns (ok: bool)
      requires from == pos <= |js| && 0 < pos
      modifies this`pos
      ensures match SkipHex(js, from, 4)
        case Ok(q) => ok && pos == q - 1
        case Err(_) => !ok
    {
      var i := 0;
      while i < 4 && pos < |js| && js[pos] != '\0'
        invariant 0 <= i <= 4 && from <= pos <= |js|
        invariant SkipHex(js, pos, 4 - i) == SkipHex(js, from, 4)
      {
        if !IsHex(js[pos]) {
          return false;
        }
        pos := pos + 1;
        i := i + 1;
      }
      pos := pos - 1;
      ok := true;
    }

    /** jsmn_parse_string: leaves `pos` on the closing quote. */
    method ParseString(js: string, tokens: array?<Token>) returns (r: Result<()>)
      requires pos < |js|
      requires tokens != null ==> Fits(tokens)
      modifies this`pos, this`toknext, tokens
      ensures match ScanString(js, old(pos) + 1)
        case Err(e) => r == Err(e)
        case Ok(q) => r == if tokens != null && old(toknext) == tokens.Length then Err(NoMem) else Ok(())
      ensures r.Ok? ==> ScanString(js, old(pos) + 1) == Ok(pos)
      ensures r.Ok? && tokens == null ==> toknext == old(toknext)
      ensures r.Ok? && tokens != null ==>
        && toknext == old(toknext) + 1 <= tokens.Length
        && tokens[..toknext] == old(tokens[..toknext]) + [Token(String, old(pos) + 1, pos, 0, toksuper)]
    {
      hide ScanString, SkipHex, IsSimpleEscape;
      var start := pos;
      ghost var scan := ScanString(js, pos + 1);
      pos := pos + 1;
      while pos < |js| && js[pos] != '\0'
        invariant start < pos <= |js|
        invariant ScanString(js, pos) == scan
        invariant toknext == old(toknext)
        invariant tokens != null ==> tokens[..] == old(tokens[..])
        decreases |js| - pos
      {
        ScanStringStep(js, pos);
        var c := js[pos];
        if c == '"' {
          if tokens == null {
            return Ok(());
          }
          var ok := AllocToken(tokens, Token(String, start + 1, pos, 0, toksuper));
          if !ok {
            pos := start;
            return Err(NoMem);
          }
          return Ok(());
        }
        if c == '\\' && pos + 1 < |js| {
          pos := pos + 1;
          if js[pos] == 'u' {
            pos := pos + 1;
            var ok := ParseHex(js, pos);
            if !ok {
              pos := start;
              return Err(Inval);
            }
          } else if !IsSimpleEscape(js[pos]) {
            pos := start;
            return Err(Inval);
          }
        }
        pos := pos + 1;
      }
      ScanStringEnd(js, pos);
      pos := start;
      r := Err(Part);
    }

    /** The walk of the closing-bracket case along the parent links. */
    method FindOpen(tokens: array<Token>) returns (t: nat)
      requires Fits(tokens) && toknext >= 1
      ensures t < toknext && t == WalkUp(tokens[..toknext], toknext - 1)
    {
      t := toknext - 1;
      ghost var toks := tokens[..toknext];
      while !tokens[t].Open() && tokens[t].parent != -1
        invariant t < toknext && WalkUp(toks, t) == WalkUp(toks, toknext - 1)
        decreases t
      {
        t := tokens[t].parent;
      }
    }

    /** jsmn_parse without a token array: the counting pass. */
    method Count(js: string) returns (r: Result<nat>)
      requires pos == 0 && toknext == 0 && toksuper == -1
      modifies this
      ensures r == CountRun(js, 0, 0)
    {
      var count := 0;
      while pos < |js| && js[pos] != '\0'
        invariant toknext == 0 && toksuper == -1
        invariant CountRun(js, pos, count) == CountRun(js, 0, 0)
        decreases |js| - pos
      {
        var c := js[pos];
        if c == '{' || c == '[' {
          count := count + 1;
        } else if c == '}' || c == ']' || c == ',' || IsSpace(c) {
        } else if c == ':' {
          toksuper := toknext - 1;
        } else if c == '"' {
          var s := ParseString(js, null);
          if s.Err? {
            return Err(s.error);
          }
          count := count + 1;
        } else if StartsPrimitive(c) {
          var s := ParsePrimitive(js, null);
          if s.Err? {
            return Err(s.error);
          }
          count := count + 1;
        } else {
          return Err(Inval);
        }
        pos := pos + 1;
      }
      r := Ok(count);
    }

    /** jsmn_parse over a token array: the filling pass. */
    method Fill(js: string, tokens: array<Token>) returns (r: Result<nat>)
      requires pos == 0 && toknext == 0 && toksuper == -1
      modifies this, tokens
      ensures match Run(js, START, tokens.Length)
        case Err(e) => r == Err(e)
        case Ok(toks) => r == Ok(|toks|) && toknext == |toks| <= tokens.Length && tokens[..toknext] == toks
    {
      var count := 0;
      while pos < |js| && js[pos] != '\0'
        invariant Fits(tokens) && count == toknext
        invariant Run(js, Abs(tokens), tokens.Length) == Run(js, START, tokens.Length)
        decreases |js| - pos
      {
        var s := FillStep(js, tokens);
        if s.Err? {
          return Err(s.error);
        }
        count := count + s.value;
        pos := pos + 1;
      }
      var i := toknext - 1;
      while i >= 0
        invariant -1 <= i < toknext
        invariant forall k :: i < k < toknext ==> !tokens[k].Open()
      {
        if tokens[i].Open() {
          assert tokens[..toknext][i].Open();
          return Err(Part);
        }
        i := i - 1;
      }
      r := Ok(count);
    }

    /** What a case of the switch has to bring about: the state that the specification's step
        `next` leads to, before the loop's own `pos++`, and the number of tokens added to `before`. */
    ghost predicate Performs(tokens: array<Token>, before: nat, next: Result<State>, r: Result<nat>)
      reads this, tokens
    {
      match next
      case Err(e) => r == Err(e)
      case Ok(st) =>
        && toknext <= tokens.Length
        && State(pos + 1, tokens[..toknext], toksuper) == st
        && toknext >= before && r == Ok(toknext - before)
    }

    /** The opening-bracket case. */
    method OpenContainer(tokens: array<Token>, kind: Kind) returns (r: Result<nat>)
      requires Fits(tokens)
      modifies this`toknext, this`toksuper, tokens
      ensures Performs(tokens, old(toknext), OpenBracket(old(Abs(tokens)), kind, tokens.Length), r)
    {
      ghost var st := Abs(tokens);
      if toknext >= tokens.Length {
        return Err(NoMem);
      }
      if toksuper != -1 && tokens[toksuper].kind == Object {
        return Err(Inval);
      }
      var tok := Token(kind, pos, -1, 0, toksuper);
      var ok := AllocToken(tokens, tok);
      CountChild(tokens, st);
      toksuper := toknext - 1;
      r := Ok(1);
    }

    /** The closing-bracket case. */
    method CloseContainer(tokens: array<Token>, kind: Kind) returns (r: Result<nat>)
      requires Fits(tokens)
      modifies this`toksuper, tokens
      ensures Performs(tokens, old(toknext), CloseBracket(old(Abs(tokens)), kind), r)
    {
      if toknext < 1 {
        return Err(Inval);
      }
      var t := FindOpen(tokens);
      if tokens[t].kind != kind {
        return Err(Inval);
      }
      if tokens[t].Open() {
        tokens[t] := tokens[t].(end := pos + 1);
        toksuper := tokens[t].parent;
      } else if toksuper == -1 {
        return Err(Inval);
      }
      r := Ok(0);
    }

    /** The switch of the main loop over a token array, before the loop's own `pos++`. */
    method FillStep(js: string, tokens: array<Token>) returns (r: Result<nat>)
      requires pos < |js| && js[pos] != '\0' && Fits(tokens)
      modifies this, tokens
      ensures Performs(tokens, old(toknext), Step(js, old(Abs(tokens)), tokens.Length), r)
    {
      var c := js[pos];
      ghost var st := Abs(tokens);
      if c == '{' || c == '[' {
        r := OpenContainer(tokens, if c == '{' then Object else Array);
      } else if c == '}' || c == ']' {
        r := CloseContainer(tokens, if c == '}' then Object else Array);
      } else if c == '"' {
        var s := ParseString(js, tokens);
        if s.Err? {
          return Err(s.error);
        }
        CountChild(tokens, st);
        r := Ok(1);
      } else if IsSpace(c) {
        r := Ok(0);
      } else if c == ':' {
        toksuper := toknext - 1;
        r := Ok(0);
      } else if c == ',' {
        if toksuper != -1 && tokens[toksuper].kind != Array && tokens[toksuper].kind != Object {
          toksuper := tokens[toksuper].parent;
        }
        r := Ok(0);
      } else if StartsPrimitive(c) {
        if toksuper != -1 {
          var t := tokens[toksuper];
          if t.kind == Object || (t.kind == String && t.size != 0) {
            return Err(Inval);
          }
        }
        var s := ParsePrimitive(js, tokens);
        if s.Err? {
          return Err(s.error);
        }
        CountChild(tokens, st);
        r := Ok(1);
      } else {
        r := Err(Inval);
      }
    }

    /** The superior of a string or primitive just added gains a child. */
    method CountChild(tokens: array<Token>, ghost st: State)
      requires 1 <= toknext <= tokens.Length && st.Valid() && st.sup == toksuper && toknext == |st.toks| + 1
      requires tokens[..toknext - 1] == st.toks
      modifies tokens
      ensures tokens[..toknext] == Bump(st.toks, st.sup) + [old(tokens[toknext - 1])]
    {
      if toksuper != -1 {
        assert tokens[toksuper] == st.toks[toksuper];
        tokens[toksuper] := tokens[toksuper].(size := tokens[toksuper].size + 1);
      }
    }
  }
}
