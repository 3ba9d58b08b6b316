/** The AppKey-bind driver of ble_mesh_config_client_cb.

    The callback keeps its cursor in static variables and is driven by the statuses and timeouts of
    the mesh stack.  `State` holds those variables together with the requests sent so far, `Step` is
    one callback, and the class `Driver` is the code.  All theorems are about every run, that is,
    every sequence of callbacks after the key was added and before success is reported. */
module MeshBind {
  import opened Basics
  import opened MeshComposition

  /** A Config Model App Bind request, or the triple that a status reports. */
  datatype Bind = Bind(addr: int, model: int, company: int)

  datatype Event =
    | Status(bind: Bind)   // a Config Model App Status
    | Timeout              // no answer to the bind request

  datatype State = State(i: nat, j: nat, temp: int, waitModel: int, waitCid: int, sent: seq<Bind>, done: bool)

  /** What the composition data must be for the driver to go through it: at least one element, each
      with a model, and no model whose id is the terminator. */
  predicate Bindable(els: seq<Element>) {
    && |els| > 0 && FitsTables(els)
    && forall e :: 0 <= e < |els| ==> BindableElement(els[e])
  }

  predicate BindableElement(el: Element) {
    |Flat(el)| > 0 && forall k :: 0 <= k < |Flat(el)| ==> Flat(el)[k].id != TERMINATOR
  }

  /** Which compositions these are. */
  lemma BindableIs(els: seq<Element>)
    ensures Bindable(els) <==>
      && 0 < |els| <= 8
      && forall e :: 0 <= e < |els| ==>
           && 0 < |els[e].sig| + |els[e].vendor| < 24
           && (forall k :: 0 <= k < |els[e].sig| ==> els[e].sig[k] != 0xFFFF)
           && (forall k :: 0 <= k < |els[e].vendor| ==> els[e].vendor[k].id != 0xFFFF)
  {
    forall e | 0 <= e < |els|
      ensures BindableElement(els[e]) <==>
        && 0 < |els[e].sig| + |els[e].vendor|
        && (forall k :: 0 <= k < |els[e].sig| ==> els[e].sig[k] != 0xFFFF)
        && (forall k :: 0 <= k < |els[e].vendor| ==> els[e].vendor[k].id != 0xFFFF)
    {
      ElementIs(els[e]);
    }
    hide Flat, BindableElement;
  }

  lemma ElementIs(el: Element)
    ensures BindableElement(el) <==>
      && 0 < |el.sig| + |el.vendor|
      && (forall k :: 0 <= k < |el.sig| ==> el.sig[k] != 0xFFFF)
      && (forall k :: 0 <= k < |el.vendor| ==> el.vendor[k].id != 0xFFFF)
  {
    hide Flat;
    var f := Flat(el);
    forall k | 0 <= k < |f|
      ensures f[k].id == if k < |el.sig| then el.sig[k] else el.vendor[k - |el.sig|].id
    {
      FlatAt(el, k);
    }
    forall k | 0 <= k < |el.vendor|
      ensures f[|el.sig| + k].id == el.vendor[k].id
    {
    }
  }

  /** models[j][i] of the parsed node. */
  function ModelAt(els: seq<Element>, j: nat, i: nat): int
    requires j < |els| && i <= |Flat(els[j])|
  {
    if i < |Flat(els[j])| then Flat(els[j])[i].id else TERMINATOR
  }

  /** The request for model `i` of element `j`. */
  function BindOf(els: seq<Element>, unicast: int, j: nat, i: nat): Bind
    requires j < |els| && i < |Flat(els[j])|
  {
    Bind(unicast + j, Flat(els[j])[i].id, Flat(els[j])[i].company)
  }

  /** The cursor is just past a model of the tables, whose request is outstanding. */
  ghost predicate Outstanding(els: seq<Element>, unicast: int, st: State) {
    && st.j < |els| && 1 <= st.i <= |Flat(els[st.j])| && !st.done
    && Bind(unicast + st.j, st.waitModel, st.waitCid) == BindOf(els, unicast, st.j, st.i - 1)
    && st.temp == st.waitModel
  }

  /** The APP_KEY_ADD case: the first request. */
  function Start(els: seq<Element>, unicast: int, sent: seq<Bind>): (st: State)
    requires Bindable(els)
    ensures Outstanding(els, unicast, st)
  {
    var m := Flat(els[0])[0];
    State(1, 0, m.id, m.id, m.company, sent + [Bind(unicast, m.id, m.company)], false)
  }

  /** Sending the request for model `i` of element `j` and moving past it. */
  function Send(els: seq<Element>, unicast: int, st: State, j: nat, i: nat): (r: State)
    requires j < |els| && i < |Flat(els[j])|
    ensures Outstanding(els, unicast, r)
  {
    var m := Flat(els[j])[i];
    State(i + 1, j, m.id, m.id, m.company, st.sent + [BindOf(els, unicast, j, i)], false)
  }

  /** The MODEL_APP_BIND and TIMEOUT cases. */
  function Step(els: seq<Element>, unicast: int, st: State, ev: Event): (r: State)
    requires Bindable(els) && Outstanding(els, unicast, st)
    ensures r.done || Outstanding(els, unicast, r)
  {
    match ev
    case Timeout =>
      st.(sent := st.sent + [Bind(unicast + st.j, st.waitModel, st.waitCid)])
    case Status(b) =>
      if b != Bind(unicast + st.j, st.temp, st.waitCid) then st
      else if ModelAt(els, st.j, st.i) != TERMINATOR then Send(els, unicast, st, st.j, st.i)
      else if st.j + 1 >= |els| then st.(i := 0, j := 0, temp := TERMINATOR, done := true)
      else
        assert BindableElement(els[st.j + 1]);
        Send(els, unicast, st, st.j + 1, 0)
  }

  /** The callbacks `evs`, up to success. */
  function Run(els: seq<Element>, unicast: int, st: State, evs: seq<Event>): State
    requires Bindable(els) && (st.done || Outstanding(els, unicast, st))
    decreases |evs|
  {
    if evs == [] || st.done then st else Run(els, unicast, Step(els, unicast, st, evs[0]), evs[1..])
  }

  // ----- what a run should do -----

  /** The requests for all models of the elements from `j` on, model `i` of element `j` first. */
  function Todo(els: seq<Element>, unicast: int, j: nat, i: nat): seq<Bind>
    requires j <= |els| && (j < |els| ==> i <= |Flat(els[j])|)
    decreases |els| - j, if j < |els| then |Flat(els[j])| - i else 0
  {
    if j == |els| then []
    else if i == |Flat(els[j])| then Todo(els, unicast, j + 1, 0)
    else [BindOf(els, unicast, j, i)] + Todo(els, unicast, j, i + 1)
  }

  /** The flattened composition. */
  function All(els: seq<Element>, unicast: int): seq<Bind> {
    Todo(els, unicast, 0, 0)
  }

  /** A status is an acknowledgement if and only if it reports the first of what is to do. */
  function Rest(todo: seq<Bind>, ev: Event): seq<Bind>
    requires todo != []
  {
    if ev == Status(todo[0]) then todo[1..] else todo
  }

  /** After an acknowledgement the next request is sent, after a timeout the outstanding one again,
      otherwise none. */
  function Sends(todo: seq<Bind>, ev: Event): seq<Bind>
    requires todo != []
  {
    if ev == Status(todo[0]) then (if |todo| > 1 then [todo[1]] else [])
    else if ev == Timeout then [todo[0]]
    else []
  }

  /** What is left of `todo` after the callbacks `evs`. */
  function Left(todo: seq<Bind>, evs: seq<Event>): seq<Bind>
    decreases |evs|
  {
    if evs == [] || todo == [] then todo else Left(Rest(todo, evs[0]), evs[1..])
  }

  /** The requests sent meanwhile. */
  function Sending(todo: seq<Bind>, evs: seq<Event>): seq<Bind>
    decreases |evs|
  {
    if evs == [] || todo == [] then [] else Sends(todo, evs[0]) + Sending(Rest(todo, evs[0]), evs[1..])
  }

  /** `sub` is what is left of `s` after leaving out some of its elements. */
  ghost predicate Subsequence(sub: seq<Bind>, s: seq<Bind>)
    decreases |s|
  {
    if sub == [] then true
    else if s == [] then false
    else (sub[0] == s[0] && Subsequence(sub[1..], s[1..])) || Subsequence(sub, s[1..])
  }

  function Statuses(evs: seq<Event>): seq<Bind>
    decreases |evs|
  {
    if evs == [] then []
    else (if evs[0].Status? then [evs[0].bind] else []) + Statuses(evs[1..])
  }

  /** Elements that equal the one after them left out. */
  function Collapse(s: seq<Bind>): seq<Bind> {
    if |s| < 2 then s
    else if s[0] == s[1] then Collapse(s[1..])
    else [s[0]] + Collapse(s[1..])
  }

  // ----- the driver does it -----

  /** What is outstanding or still to be sent. */
  function Remaining(els: seq<Element>, unicast: int, st: State): seq<Bind>
    requires Bindable(els) && (st.done || Outstanding(els, unicast, st))
  {
    if st.done then [] else Todo(els, unicast, st.j, st.i - 1)
  }

  /** The outstanding request is the first of the remaining ones. */
  lemma OutstandingIsFirst(els: seq<Element>, unicast: int, st: State)
    requires Bindable(els) && Outstanding(els, unicast, st)
    ensures Remaining(els, unicast, st) ==
      [Bind(unicast + st.j, st.waitModel, st.waitCid)] + Todo(els, unicast, st.j, st.i)
  {
  }

  /** After the models of an element come those of the next one. */
  lemma NextElement(els: seq<Element>, unicast: int, j: nat)
    requires Bindable(els) && j < |els|
    ensures Todo(els, unicast, j, |Flat(els[j])|) == Todo(els, unicast, j + 1, 0)
    ensures j + 1 < |els| ==> Todo(els, unicast, j + 1, 0) != []
    ensures j + 1 == |els| ==> Todo(els, unicast, j + 1, 0) == []
  {
    if j + 1 < |els| {
      assert BindableElement(els[j + 1]);
    }
  }

  /** The status of the outstanding request, with another model in the same element. */
  lemma AckInside(els: seq<Element>, unicast: int, st: State)
    requires Bindable(els) && Outstanding(els, unicast, st) && st.i < |Flat(els[st.j])|
    ensures Step(els, unicast, st, Status(Bind(unicast + st.j, st.temp, st.waitCid))) ==
      Send(els, unicast, st, st.j, st.i)
  {
    hide Flat;
    assert BindableElement(els[st.j]);
  }

  /** The same after the last model of an element. */
  lemma AckAtEnd(els: seq<Element>, unicast: int, st: State)
    requires Bindable(els) && Outstanding(els, unicast, st) && st.i == |Flat(els[st.j])|
    ensures st.j + 1 < |els| ==> |Flat(els[st.j + 1])| > 0
    ensures Step(els, unicast, st, Status(Bind(unicast + st.j, st.temp, st.waitCid))) ==
      if st.j + 1 < |els| then Send(els, unicast, st, st.j + 1, 0)
      else st.(i := 0, j := 0, temp := TERMINATOR, done := true)
  {
    hide Flat;
    if st.j + 1 < |els| {
      assert BindableElement(els[st.j + 1]);
    }
  }

  /** Sending the request for a model makes it the first of the remaining ones. */
  lemma SendDoes(els: seq<Element>, unicast: int, st: State, j: nat, i: nat)
    requires Bindable(els) && j < |els| && i < |Flat(els[j])|
    ensures var r := Send(els, unicast, st, j, i);
      && Outstanding(els, unicast, r) && Remaining(els, unicast, r) == Todo(els, unicast, j, i)
      && Todo(els, unicast, j, i) != [] && r.sent == st.sent + [Todo(els, unicast, j, i)[0]]
  {
    hide Flat;
  }

  /** The status of the outstanding request: it is taken off, and the next one is sent. */
  lemma AckDoes(els: seq<Element>, unicast: int, st: State)
    requires Bindable(els) && Outstanding(els, unicast, st)
    ensures var r := Step(els, unicast, st, Status(Bind(unicast + st.j, st.temp, st.waitCid)));
      var next := Todo(els, unicast, st.j, st.i);
      && Remaining(els, unicast, r) == next
      && (r.done <==> next == [])
      && r.sent == st.sent + if next == [] then [] else [next[0]]
  {
    hide Flat;
    hide Todo;
    hide Step;
    if st.i < |Flat(els[st.j])| {
      AckInside(els, unicast, st);
      SendDoes(els, unicast, st, st.j, st.i);
    } else {
      AckAtEnd(els, unicast, st);
      NextElement(els, unicast, st.j);
      if st.j + 1 < |els| {
        SendDoes(els, unicast, st, st.j + 1, 0);
      }
    }
  }

  /** Any other status changes nothing, and a timeout only repeats the outstanding request. */
  lemma OtherDoes(els: seq<Element>, unicast: int, st: State, ev: Event)
    requires Bindable(els) && Outstanding(els, unicast, st)
    requires ev != Status(Bind(unicast + st.j, st.waitModel, st.waitCid))
    ensures Step(els, unicast, st, ev) ==
      if ev == Timeout then st.(sent := st.sent + [Bind(unicast + st.j, st.waitModel, st.waitCid)]) else st
  {
    hide Flat;
  }

  /** One callback: the first of the remaining requests is the outstanding one; its status takes it
      off and sends the next, a timeout sends it again, anything else changes nothing. */
  lemma StepDoes(els: seq<Element>, unicast: int, st: State, ev: Event)
    requires Bindable(els) && Outstanding(els, unicast, st)
    ensures var todo, r := Remaining(els, unicast, st), Step(els, unicast, st, ev);
      && todo != []
      && Remaining(els, unicast, r) == Rest(todo, ev)
      && r.sent == st.sent + Sends(todo, ev)
      && (r.done <==> Rest(todo, ev) == [])
      && (ev.Status? && ev.bind != todo[0] ==> r == st)
  {
    hide Flat;
    hide Todo;
    hide Step;
    OutstandingIsFirst(els, unicast, st);
    if ev == Status(Bind(unicast + st.j, st.waitModel, st.waitCid)) {
      AckDoes(els, unicast, st);
    } else {
      OtherDoes(els, unicast, st, ev);
    }
  }

  /** Every run refines the specification. */
  lemma {:induction false} RunDoes(els: seq<Element>, unicast: int, st: State, evs: seq<Event>)
    requires Bindable(els) && (st.done || Outstanding(els, unicast, st))
    ensures var todo, r := Remaining(els, unicast, st), Run(els, unicast, st, evs);
      && (r.done || Outstanding(els, unicast, r))
      && Remaining(els, unicast, r) == Left(todo, evs)
      && r.sent == st.sent + Sending(todo, evs)
    decreases |evs|
  {
    hide Todo;
    hide Step;
    hide Outstanding;
    if evs != [] && !st.done {
      StepDoes(els, unicast, st, evs[0]);
      RunDoes(els, unicast, Step(els, unicast, st, evs[0]), evs[1..]);
    }
  }

  // ----- theorems about the specification -----

  ghost predicate Distinct(s: seq<Bind>) {
    forall x, y :: 0 <= x < y < |s| ==> s[x] != s[y]
  }

  /** How many of the requests have been sent: those acknowledged and the outstanding one. */
  function Reached(todo: seq<Bind>, evs: seq<Event>): (n: int)
  {
    |todo| - |Left(todo, evs)| + if Left(todo, evs) == [] then 0 else 1
  }

  lemma {:induction false} LeftIsSuffix(todo: seq<Bind>, evs: seq<Event>)
    ensures |Left(todo, evs)| <= |todo| && Left(todo, evs) == todo[|todo| - |Left(todo, evs)|..]
    decreases |evs|
  {
    if evs != [] && todo != [] {
      LeftIsSuffix(Rest(todo, evs[0]), evs[1..]);
    }
  }

  lemma CollapseFirst(x: Bind, s: seq<Bind>)
    requires s != []
    ensures Collapse([x] + s) == if x == s[0] then Collapse(s) else [x] + Collapse(s)
  {
    assert ([x] + s)[1..] == s;
  }

  /** One callback earlier: the same has been reached, or one more. */
  lemma ReachedBefore(todo: seq<Bind>, evs: seq<Event>)
    requires evs != [] && todo != [] && Rest(todo, evs[0]) != []
    ensures Reached(todo, evs) == Reached(Rest(todo, evs[0]), evs[1..]) + if evs[0] == Status(todo[0]) then 1 else 0
  {
  }

  /** One callback earlier: what the requests sent come down to. */
  lemma SentBefore(todo: seq<Bind>, evs: seq<Event>)
    requires evs != [] && todo != [] && Distinct(todo) && Rest(todo, evs[0]) != []
    ensures var rest := Rest(todo, evs[0]);
      var after := Collapse([rest[0]] + Sending(rest, evs[1..]));
      Collapse([todo[0]] + Sending(todo, evs)) == if evs[0] == Status(todo[0]) then [todo[0]] + after else after
  {
    hide Collapse;
    var rest := Rest(todo, evs[0]);
    var s := [rest[0]] + Sending(rest, evs[1..]);
    assert Sending(todo, evs) == Sends(todo, evs[0]) + Sending(rest, evs[1..]);
    if Sends(todo, evs[0]) == [] {
      assert Sending(todo, evs) == Sending(rest, evs[1..]);
    } else {
      assert Sending(todo, evs) == s;
      CollapseFirst(todo[0], s);
    }
  }

  /** Repetitions left out, the requests sent are a prefix of those to do, in order. */
  lemma {:induction false} SentIsPrefix(todo: seq<Bind>, evs: seq<Event>)
    requires todo != [] && Distinct(todo)
    ensures 0 <= Reached(todo, evs) <= |todo|
    ensures Collapse([todo[0]] + Sending(todo, evs)) == todo[..Reached(todo, evs)]
    decreases |evs|
  {
    hide Sending, Collapse, Left, Reached;
    if evs == [] {
      PrefixAtStart(todo);
    } else if Rest(todo, evs[0]) == [] {
      PrefixAtEnd(todo, evs);
    } else {
      SentIsPrefix(Rest(todo, evs[0]), evs[1..]);
      SentBefore(todo, evs);
      ReachedBefore(todo, evs);
      ReachedAtMost(todo, evs);
    }
  }

  lemma PrefixAtStart(todo: seq<Bind>)
    requires todo != []
    ensures Reached(todo, []) == 1 && Collapse([todo[0]] + Sending(todo, [])) == todo[..1]
  {
    assert [todo[0]] + [] == todo[..1];
  }

  lemma PrefixAtEnd(todo: seq<Bind>, evs: seq<Event>)
    requires todo != [] && evs != [] && Rest(todo, evs[0]) == []
    ensures Reached(todo, evs) == |todo| && Collapse([todo[0]] + Sending(todo, evs)) == todo[..|todo|]
  {
    var rest := Rest(todo, evs[0]);
    assert Left(rest, evs[1..]) == [] && Sending(rest, evs[1..]) == [];
    assert todo == [todo[0]] && Sending(todo, evs) == [];
    assert [todo[0]] + [] == todo == todo[..|todo|];
  }

  lemma ReachedAtMost(todo: seq<Bind>, evs: seq<Event>)
    ensures 0 <= Reached(todo, evs) <= |todo|
  {
    LeftIsSuffix(todo, evs);
  }

  lemma {:induction false} DropFirst(sub: seq<Bind>, s: seq<Bind>)
    requires sub != [] && Subsequence(sub, s)
    ensures Subsequence(sub[1..], s)
    decreases |s|
  {
    if Subsequence(sub, s[1..]) {
      DropFirst(sub, s[1..]);
    }
    if sub[1..] != [] && sub[0] == s[0] && Subsequence(sub[1..], s[1..]) {
      assert Subsequence(sub[1..], s);
    }
  }

  /** Taking statuses greedily is right: everything gets acknowledged if and only if the requests to
      do can be found in order among the statuses. */
  lemma {:induction false} LeftIsSubsequence(todo: seq<Bind>, evs: seq<Event>)
    ensures Left(todo, evs) == [] <==> Subsequence(todo, Statuses(evs))
    decreases |evs|
  {
    if evs != [] && todo != [] {
      var rest := Rest(todo, evs[0]);
      LeftIsSubsequence(rest, evs[1..]);
      if evs[0].Status? {
        var s := Statuses(evs);
        assert s[0] == evs[0].bind && s[1..] == Statuses(evs[1..]);
        if evs[0].bind == todo[0] && Subsequence(todo, s[1..]) {
          DropFirst(todo, s[1..]);
        }
      } else {
        assert Statuses(evs) == Statuses(evs[1..]);
      }
    }
  }

  // ----- the requests of a composition are distinct -----

  /** No element lists a model twice. */
  ghost predicate DistinctModels(els: seq<Element>) {
    forall j, i, k :: 0 <= j < |els| && 0 <= i < k < |Flat(els[j])| ==> Flat(els[j])[i] != Flat(els[j])[k]
  }

  /** `b` is the request for model `i` of element `j`, or a later one of that element. */
  ghost predicate InElement(els: seq<Element>, unicast: int, j: nat, i: nat, b: Bind)
    requires j < |els|
  {
    exists k :: i <= k < |Flat(els[j])| && b == BindOf(els, unicast, j, k)
  }

  lemma {:induction false} TodoComesLater(els: seq<Element>, unicast: int, j: nat, i: nat, b: Bind)
    requires j <= |els| && (j < |els| ==> i <= |Flat(els[j])|) && b in Todo(els, unicast, j, i)
    ensures b.addr > unicast + j || (b.addr == unicast + j && j < |els| && InElement(els, unicast, j, i, b))
    decreases |els| - j, if j < |els| then |Flat(els[j])| - i else 0
  {
    hide Flat;
    if j < |els| {
      if i == |Flat(els[j])| {
        hide InElement;
        TodoComesLater(els, unicast, j + 1, 0, b);
      } else if b != BindOf(els, unicast, j, i) {
        assert Todo(els, unicast, j, i) == [BindOf(els, unicast, j, i)] + Todo(els, unicast, j, i + 1);
        hide Todo;
        TodoComesLater(els, unicast, j, i + 1, b);
      }
    }
  }

  lemma TodoComesOnce(els: seq<Element>, unicast: int, j: nat, i: nat)
    requires DistinctModels(els) && j < |els| && i < |Flat(els[j])|
    ensures BindOf(els, unicast, j, i) !in Todo(els, unicast, j, i + 1)
  {
    hide Flat;
    hide Todo;
    if BindOf(els, unicast, j, i) in Todo(els, unicast, j, i + 1) {
      TodoComesLater(els, unicast, j, i + 1, BindOf(els, unicast, j, i));
    }
  }

  lemma DistinctCons(x: Bind, s: seq<Bind>)
    requires Distinct(s) && x !in s
    ensures Distinct([x] + s)
  {
  }

  lemma {:induction false} TodoIsDistinct(els: seq<Element>, unicast: int, j: nat, i: nat)
    requires DistinctModels(els) && j <= |els| && (j < |els| ==> i <= |Flat(els[j])|)
    ensures Distinct(Todo(els, unicast, j, i))
    decreases |els| - j, if j < |els| then |Flat(els[j])| - i else 0
  {
    hide Flat;
    hide BindOf;
    if j < |els| {
      if i == |Flat(els[j])| {
        TodoIsDistinct(els, unicast, j + 1, 0);
      } else {
        TodoIsDistinct(els, unicast, j, i + 1);
        TodoComesOnce(els, unicast, j, i);
        DistinctCons(BindOf(els, unicast, j, i), Todo(els, unicast, j, i + 1));
      }
    }
  }

  // ----- the flattened composition, one by one -----

  /** How many models the first `j` elements have. */
  function Before(els: seq<Element>, j: nat): nat
    requires j <= |els|
  {
    if j == 0 then 0 else Before(els, j - 1) + |els[j - 1].sig| + |els[j - 1].vendor|
  }

  /** What is to do from model `i` of element `j` on is what is left of all behind the models before it. */
  lemma {:induction false} TodoIsSuffix(els: seq<Element>, unicast: int, j: nat, i: nat)
    requires j <= |els| && (if j < |els| then i <= |Flat(els[j])| else i == 0)
    ensures Before(els, j) + i <= |All(els, unicast)|
    ensures All(els, unicast)[Before(els, j) + i..] == Todo(els, unicast, j, i)
    decreases j, i
  {
    hide Flat, BindOf, Todo, All;
    if i > 0 {
      TodoIsSuffix(els, unicast, j, i - 1);
      TodoNext(els, unicast, j, i - 1);
      var all, n := All(els, unicast), Before(els, j) + (i - 1);
      assert all[n..][1..] == all[n + 1..];
    } else if j > 0 {
      TodoIsSuffix(els, unicast, j - 1, |Flat(els[j - 1])|);
      TodoNext(els, unicast, j - 1, |Flat(els[j - 1])|);
    } else {
      AllIsTodo(els, unicast);
    }
  }

  lemma AllIsTodo(els: seq<Element>, unicast: int)
    ensures All(els, unicast)[0..] == Todo(els, unicast, 0, 0)
  {
  }

  lemma TodoNext(els: seq<Element>, unicast: int, j: nat, i: nat)
    requires j < |els| && i <= |Flat(els[j])|
    ensures i == |Flat(els[j])| ==> Todo(els, unicast, j, i) == Todo(els, unicast, j + 1, 0)
    ensures i < |Flat(els[j])| ==>
      Todo(els, unicast, j, i) != [] && Todo(els, unicast, j, i)[1..] == Todo(els, unicast, j, i + 1)
  {
  }

  /** The requests in order: element by element, the SIG models with company 0xFFFF, then the vendor
      models. */
  lemma AllAt(els: seq<Element>, unicast: int, j: nat, i: nat)
    requires j < |els| && i < |els[j].sig| + |els[j].vendor|
    ensures Before(els, j) + i < |All(els, unicast)|
    ensures All(els, unicast)[Before(els, j) + i] ==
      if i < |els[j].sig| then Bind(unicast + j, els[j].sig[i], 0xFFFF)
      else Bind(unicast + j, els[j].vendor[i - |els[j].sig|].id, els[j].vendor[i - |els[j].sig|].company)
  {
    TodoIsSuffix(els, unicast, j, i);
    FlatAt(els[j], i);
    hide Flat;
    assert All(els, unicast)[Before(els, j) + i..][0] == BindOf(els, unicast, j, i);
  }

  lemma AllCounted(els: seq<Element>, unicast: int)
    ensures |All(els, unicast)| == Before(els, |els|)
  {
    TodoIsSuffix(els, unicast, |els|, 0);
  }

  // ----- the theorem about every run -----

  /** From APP_KEY_ADD on, under any mix of statuses and timeouts: repetitions left out, the requests
      sent are a prefix of the flattened composition in order, and success is reported exactly when
      all of it has been acknowledged in order. */
  lemma EveryRunBindsInOrder(els: seq<Element>, unicast: int, evs: seq<Event>)
    requires Bindable(els) && DistinctModels(els)
    ensures var all, r := All(els, unicast), Run(els, unicast, Start(els, unicast, []), evs);
      && 0 <= Reached(all, evs) <= |all|
      && Collapse(r.sent) == all[..Reached(all, evs)]
      && (r.done <==> Subsequence(all, Statuses(evs)))
      && (r.done ==> Collapse(r.sent) == all)
    ensures var all := All(els, unicast);
      && |all| == Before(els, |els|)
      && (forall j :: 0 <= j < |els| ==> Before(els, j) + |els[j].sig| + |els[j].vendor| <= |all|)
      && (forall j, i :: 0 <= j < |els| && 0 <= i < |els[j].sig| ==>
            all[Before(els, j) + i] == Bind(unicast + j, els[j].sig[i], 0xFFFF))
      && (forall j, i :: 0 <= j < |els| && 0 <= i < |els[j].vendor| ==>
            all[Before(els, j) + |els[j].sig| + i] ==
            Bind(unicast + j, els[j].vendor[i].id, els[j].vendor[i].company))
  {
    hide *;
    RequestsAre(els, unicast);
    EveryRunSends(els, unicast, evs);
  }

  lemma EveryRunSends(els: seq<Element>, unicast: int, evs: seq<Event>)
    requires Bindable(els) && DistinctModels(els)
    ensures var all, r := All(els, unicast), Run(els, unicast, Start(els, unicast, []), evs);
      && 0 <= Reached(all, evs) <= |all|
      && Collapse(r.sent) == all[..Reached(all, evs)]
      && (r.done <==> Subsequence(all, Statuses(evs)))
      && (r.done ==> Collapse(r.sent) == all)
  {
    var st, all := Start(els, unicast, []), All(els, unicast);
    StartDoes(els, unicast);
    RunDoes(els, unicast, st, evs);
    DoneIsEmpty(els, unicast, Run(els, unicast, st, evs));
    TodoIsDistinct(els, unicast, 0, 0);
    SentIsPrefix(all, evs);
    LeftIsSubsequence(all, evs);
  }

  lemma RequestsAre(els: seq<Element>, unicast: int)
    ensures var all := All(els, unicast);
      && |all| == Before(els, |els|)
      && (forall j :: 0 <= j < |els| ==> Before(els, j) + |els[j].sig| + |els[j].vendor| <= |all|)
      && (forall j, i :: 0 <= j < |els| && 0 <= i < |els[j].sig| ==>
            all[Before(els, j) + i] == Bind(unicast + j, els[j].sig[i], 0xFFFF))
      && (forall j, i :: 0 <= j < |els| && 0 <= i < |els[j].vendor| ==>
            all[Before(els, j) + |els[j].sig| + i] ==
            Bind(unicast + j, els[j].vendor[i].id, els[j].vendor[i].company))
  {
    hide *;
    AllCounted(els, unicast);
    ModelsFit(els);
    SigRequests(els, unicast);
    VendorRequests(els, unicast);
  }

  lemma ModelsFit(els: seq<Element>)
    ensures forall j :: 0 <= j < |els| ==>
      Before(els, j) + |els[j].sig| + |els[j].vendor| <= Before(els, |els|)
  {
    forall j | 0 <= j < |els|
      ensures Before(els, j) + |els[j].sig| + |els[j].vendor| <= Before(els, |els|)
    {
      BeforeGrows(els, j + 1, |els|);
    }
  }

  lemma SigRequests(els: seq<Element>, unicast: int)
    requires forall j :: 0 <= j < |els| ==>
      Before(els, j) + |els[j].sig| + |els[j].vendor| <= |All(els, unicast)|
    ensures forall j, i :: 0 <= j < |els| && 0 <= i < |els[j].sig| ==>
      All(els, unicast)[Before(els, j) + i] == Bind(unicast + j, els[j].sig[i], 0xFFFF)
  {
    hide All, Before;
    forall j, i | 0 <= j < |els| && 0 <= i < |els[j].sig|
      ensures All(els, unicast)[Before(els, j) + i] == Bind(unicast + j, els[j].sig[i], 0xFFFF)
    {
      AllAt(els, unicast, j, i);
    }
  }

  lemma VendorRequests(els: seq<Element>, unicast: int)
    requires forall j :: 0 <= j < |els| ==>
      Before(els, j) + |els[j].sig| + |els[j].vendor| <= |All(els, unicast)|
    ensures forall j, i :: 0 <= j < |els| && 0 <= i < |els[j].vendor| ==>
      All(els, unicast)[Before(els, j) + |els[j].sig| + i] ==
      Bind(unicast + j, els[j].vendor[i].id, els[j].vendor[i].company)
  {
    hide All, Before;
    forall j, i | 0 <= j < |els| && 0 <= i < |els[j].vendor|
      ensures All(els, unicast)[Before(els, j) + |els[j].sig| + i] ==
        Bind(unicast + j, els[j].vendor[i].id, els[j].vendor[i].company)
    {
      AllAt(els, unicast, j, |els[j].sig| + i);
    }
  }

  lemma {:induction false} BeforeGrows(els: seq<Element>, j: nat, k: nat)
    requires j <= k <= |els|
    ensures Before(els, j) <= Before(els, k)
    decreases k
  {
    if j < k {
      BeforeGrows(els, j, k - 1);
    }
  }

  lemma StartDoes(els: seq<Element>, unicast: int)
    requires Bindable(els)
    ensures var st, all := Start(els, unicast, []), All(els, unicast);
      all != [] && Remaining(els, unicast, st) == all && st.sent == [all[0]]
  {
    assert BindableElement(els[0]);
  }

  lemma DoneIsEmpty(els: seq<Element>, unicast: int, st: State)
    requires Bindable(els) && (st.done || Outstanding(els, unicast, st))
    ensures st.done <==> Remaining(els, unicast, st) == []
  {
    if !st.done {
      OutstandingIsFirst(els, unicast, st);
    }
  }

  // ----- the code -----

  /** The static variables of ble_mesh_config_client_cb, with the node they are about. */
  class Driver {
    var i: nat
    var j: nat
    var temp: int
    var waitModel: int
    var waitCid: int
    var sent: seq<Bind>
    var done: bool
    const node: Node
    const unicast: int

    /** The node's tables are those of the elements. */
    ghost predicate Knows(els: seq<Element>)
      reads node, node.models, node.cid
    {
      node.Valid() && node.elementNum == |els| <= ELEMENTS && forall e :: 0 <= e < |els| ==> node.RowIs(e, els[e])
    }

    lemma KnowsFrom(els: seq<Element>)
      requires node.Valid() && node.elementNum == |els| && FitsTables(els)
      requires forall e :: 0 <= e < |els| ==> node.RowIs(e, els[e])
      ensures Knows(els)
    {
    }

    ghost function Abs(): State
      reads this
    {
      State(i, j, temp, waitModel, waitCid, sent, done)
    }

    constructor (node: Node, unicast: int)
      ensures this.node == node && this.unicast == unicast && sent == [] && !done
    {
      this.node, this.unicast := node, unicast;
      i, j, temp, waitModel, waitCid, sent, done := 0, 0, 0, 0, 0, [], false;
    }

    /** esp_ble_mesh_config_client_set_state with a bind request; sending does not fail. */
    method Request(addr: int, model: int, company: int)
      modifies this`sent
      ensures sent == old(sent) + [Bind(addr, model, company)]
    {
      sent := sent + [Bind(addr, model, company)];
    }

    /** SET_STATE, APP_KEY_ADD */
    method OnAppKeyAdd(ghost els: seq<Element>)
      requires Knows(els) && Bindable(els)
      modifies this
      ensures Abs() == Start(els, unicast, old(sent))
    {
      hide Flat;
      assert BindableElement(els[0]) && node.RowIs(0, els[0]);
      done := false;
      i := 0;
      j := 0;
      temp := node.models[j, i];
      Request(unicast, temp, node.cid[j, i]);
      waitModel := temp;
      waitCid := node.cid[j, i];
      i := i + 1;
    }

    /** SET_STATE, MODEL_APP_BIND */
    method OnStatus(status: Bind, ghost els: seq<Element>)
      requires Knows(els) && Bindable(els) && Outstanding(els, unicast, Abs())
      modifies this
      ensures Abs() == Step(els, unicast, old(Abs()), Status(status))
    {
      hide Flat;
      if status.model == temp && status.company == waitCid && status.addr == unicast + j {
        assert node.RowIs(j, els[j]) && BindableElement(els[j]);
        temp := node.models[j, i];
        if temp == TERMINATOR {
          i := 0;
          j := j + 1;
          if j >= node.elementNum {
            j := 0;
            done := true;
            return;
          }
          assert node.RowIs(j, els[j]) && BindableElement(els[j]);
          temp := node.models[j, i];
        }
        Request(unicast + j, temp, node.cid[j, i]);
        waitModel := temp;
        waitCid := node.cid[j, i];
        i := i + 1;
      }
    }

    /** The callbacks after the key was added, up to success. */
    method Drive(evs: seq<Event>, ghost els: seq<Element>) returns (all: seq<Bind>, ok: bool)
      requires Knows(els) && Bindable(els) && sent == []
      modifies this
      ensures var r := Run(els, unicast, Start(els, unicast, []), evs);
        all == r.sent && ok == r.done
    {
      hide Step, Start, Bindable, Outstanding, Flat;
      OnAppKeyAdd(els);
      var n := 0;
      while n < |evs| && !done
        invariant 0 <= n <= |evs| && Knows(els)
        invariant done || Outstanding(els, unicast, Abs())
        invariant Run(els, unicast, Abs(), evs[n..]) == Run(els, unicast, Start(els, unicast, []), evs)
      {
        assert evs[n..][0] == evs[n] && evs[n..][1..] == evs[n + 1..];
        match evs[n] {
          case Status(b) => OnStatus(b, els);
          case Timeout => OnTimeout(els);
        }
        n := n + 1;
      }
      all, ok := sent, done;
    }

    /** TIMEOUT, MODEL_APP_BIND */
    method OnTimeout(ghost els: seq<Element>)
      requires Bindable(els) && Outstanding(els, unicast, Abs())
      modifies this
      ensures Abs() == Step(els, unicast, old(Abs()), Timeout)
    {
      hide Outstanding;
      hide Step;
      hide Flat;
      OtherDoes(els, unicast, Abs(), Timeout);
      Request(unicast + j, waitModel, waitCid);
    }
  }

  /** From the composition data to the requests: the node's tables are filled, the key is added, and the
      callbacks come in. */
  method Provision(data: seq<byte>, unicast: int, evs: seq<Event>) returns (sent: seq<Bind>, done: bool)
    requires 10 <= |data| < 0x1_0000 && GetElements(data, 10).Some?
    requires Bindable(GetElements(data, 10).value) && DistinctModels(GetElements(data, 10).value)
    ensures var all := All(GetElements(data, 10).value, unicast);
      && 0 <= Reached(all, evs) <= |all|
      && Collapse(sent) == all[..Reached(all, evs)]
      && (done <==> Subsequence(all, Statuses(evs)))
      && (done ==> Collapse(sent) == all)
  {
    hide *;
    ghost var els := GetElements(data, 10).value;
    BindableFits(els);
    assert FitsTables(els);
    var node := new Node();
    node.ParseCompData(data);
    var driver := new Driver(node, unicast);
    driver.KnowsFrom(els);
    sent, done := driver.Drive(evs, els);
    EveryRunBindsInOrder(els, unicast, evs);
  }

  lemma BindableFits(els: seq<Element>)
    requires Bindable(els)
    ensures FitsTables(els)
  {
  }
}
