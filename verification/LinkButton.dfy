/** linkButton.c: from a link document to the map, and from a key to the queues.

    `JsonParsing` is json_parsing with its nested loops, one method per loop; `SendIdButton` is the
    dispatch loop of sendIdButton. */
module LinkButton {
  import opened Basics
  import opened Jsmn
  import opened Forest
  import opened Navigate
  import opened JsonParser
  import opened JsonText
  import opened Lookup
  import opened Links
  import HashMap

  /** The cursor is on a token that represents the value `v`. */
  ghost predicate On(ctx: Context, v: Value, parent: int)
    reads ctx, ctx.tokens
  {
    ctx.Valid() && Represents(ctx.js, ctx.tokens[..], ctx.cur, parent, v)
  }

  /** The three json_obj_get_string calls; a buffer whose call fails keeps its contents. */
  method ReadFields(ctx: Context, before: Button,
                    ghost v: Value, ghost parent: int, ghost want: Button) returns (b: Button)
    requires On(ctx, v, parent) && IsButton(v, want)
    requires |want.nodeId| < 20 && |want.protocol| < 10 && |want.endpoint| < 5
    ensures b == want
  {
    hide Represents;
    hide HashMap.Map.Valid;
    ForestIsReadable(ctx.js, ctx.tokens[..]);
    b := before;
    FieldFound(ctx, v, parent, "node_id", want.nodeId, 20);
    var nodeId := ctx.ObjGetString("node_id", 20);
    if nodeId.Some? {
      b := b.(nodeId := nodeId.value);
    }
    FieldFound(ctx, v, parent, "protocol", want.protocol, 10);
    var protocol := ctx.ObjGetString("protocol", 10);
    if protocol.Some? {
      b := b.(protocol := protocol.value);
    }
    FieldFound(ctx, v, parent, "endpoint", want.endpoint, 5);
    var endpoint := ctx.ObjGetString("endpoint", 5);
    if endpoint.Some? {
      b := b.(endpoint := endpoint.value);
    }
  }

  /** A string member of the object under the cursor is found, and its text fits. */
  lemma FieldFound(ctx: Context, v: Value, parent: int, name: string, text: string, size: nat)
    requires On(ctx, v, parent) && v.Obj? && MemberNamed(v.members, name) == Some(Str(text)) && |text| < size
    ensures KeyIsNotLast(ctx.js, ctx.tokens[..], ctx.cur, name)
    ensures var r := ValueNamed(ctx.js, ctx.tokens[..], ctx.cur, name, String);
      && r.Some? && Text(ctx.js, ctx.tokens[..][r.value]) == text
      && ctx.tokens[..][r.value].end - ctx.tokens[..][r.value].start <= size - 1
  {
    hide Represents;
    hide FirstChildNamed;
    ForestIsReadable(ctx.js, ctx.tokens[..]);
    ObjectKeysHaveValues(ctx.js, ctx.tokens[..], v, ctx.cur, parent);
    KeysWithValues(ctx.js, ctx.tokens[..], ctx.cur, name);
    GetMember(ctx.js, ctx.tokens[..], v, ctx.cur, parent, name, String);
    var r := ValueNamed(ctx.js, ctx.tokens[..], ctx.cur, name, String).value;
    GetText(ctx.js, ctx.tokens[..], Str(text), r, r - 1);
  }

  /** One json_arr_get_object, the three fields unless they are to be skipped, and one
      json_arr_leave_object: the cursor is back on the array. */
  method ReadMember(ctx: Context, before: Button, j: nat, skip: bool,
                    ghost a: Value, ghost parent: int, ghost g: seq<Button>)
    returns (b: Button)
    requires On(ctx, a, parent) && a.Arr? && IsGroup(a, g) && FitsBuffers(g) && j < |g|
    modifies ctx`cur
    ensures ctx.cur == old(ctx.cur) && b == if skip then before else g[j]
  {
    hide Represents;
    hide HashMap.Map.Valid;
    ghost var toks, i := ctx.tokens[..], ctx.cur;
    assert IsButton(ValueNo(a.elems, j), g[j]);
    GetElement(ctx.js, toks, a, i, parent, j);
    b := before;
    var ok, num := ctx.ArrGet(j, Object);
    RepresentsKind(ctx.js, toks, ctx.cur, i, ValueNo(a.elems, j));
    if ok && !skip {
      b := ReadFields(ctx, before, ValueNo(a.elems, j), i, g[j]);
    }
    var left := ctx.ArrLeave();
  }

  /** The loop over k: the ids of the other members of the group, each followed by a space. */
  method CollectOthers(ctx: Context, first: Button, j: nat, num: int,
                       ghost a: Value, ghost parent: int, ghost g: seq<Button>)
    returns (value: string)
    requires On(ctx, a, parent) && a.Arr? && IsGroup(a, g) && FitsBuffers(g) && num == |g| && j < |g|
    modifies ctx`cur
    ensures ctx.cur == old(ctx.cur) && value == Others(g, j, |g|) && |value| < 256
  {
    hide Represents;
    hide HashMap.Map.Valid;
    value := "";
    var b := first;
    var k := 0;
    while k < num
      invariant 0 <= k <= |g| && ctx.cur == old(ctx.cur) && value == Others(g, j, k)
    {
      b := ReadMember(ctx, b, k, k == j, a, parent, g);
      if k != j {
        value := value + (Id(b) + " ");
      }
      k := k + 1;
    }
    assert k == |g|;
  }

  /** One round of the loop over j: button `j` becomes a key, with the others as its value. */
  method StoreMember(ctx: Context, m: HashMap.Map, before: Button, j: nat, num: int,
                     ghost a: Value, ghost parent: int, ghost g: seq<Button>)
    returns (b: Button)
    requires On(ctx, a, parent) && a.Arr? && IsGroup(a, g) && FitsBuffers(g) && num == |g| && j < |g|
    requires m.Valid() && (Id(g[j]) in m.M ==> |Entry(g, j)| <= |m.M[Id(g[j])]|)
    modifies ctx`cur, m, m.buckets, m.nodes
    ensures ctx.cur == old(ctx.cur)
    ensures m.Valid() && fresh(m.nodes - old(m.nodes)) && (m.buckets == old(m.buckets) || fresh(m.buckets))
    ensures m.M == Put(old(m.M), Id(g[j]), Entry(g, j))
  {
    hide Represents;
    hide HashMap.Map.Valid;
    b := ReadMember(ctx, before, j, false, a, parent, g);
    var key := Id(b);
    assert |key| < 40;
    var value := CollectOthers(ctx, b, j, num, a, parent, g);
    var ok := m.Set(key, value + "\0", true, true);
    SetIsPut(old(m.M), key, value + "\0", m.M);
  }

  /** Setting a value is putting it over the front of the storage. */
  lemma SetIsPut(m: map<string, string>, key: string, value: string, m': map<string, string>)
    requires key in m ==> |value| <= |m[key]| && m' == m[key := HashMap.Overwrite(m[key], value)]
    requires key !in m ==> m' == m[key := value]
    ensures m' == Put(m, key, value)
  {
    if key in m {
      var r := HashMap.Overwrite(m[key], value);
      assert r == r[..|value|] + r[|value|..];
    }
  }

  /** The loop over j: every member of the group becomes a key, with the others as its value. */
  method StoreGroup(ctx: Context, m: HashMap.Map, num: int,
                    ghost a: Value, ghost parent: int, ghost groups: seq<seq<Button>>, ghost i: nat)
    requires i < |groups| && On(ctx, a, parent) && a.Arr? && IsGroup(a, groups[i]) && FitsBuffers(groups[i])
    requires num == |groups[i]| && NoOverrun(groups)
    requires m.Valid() && m.M == MapAt(groups, i, 0)
    modifies ctx`cur, m, m.buckets, m.nodes
    ensures ctx.cur == old(ctx.cur)
    ensures m.Valid() && fresh(m.nodes - old(m.nodes)) && (m.buckets == old(m.buckets) || fresh(m.buckets))
    ensures m.M == MapAt(groups, i, |groups[i]|)
  {
    hide Id, Represents, HashMap.Map.Valid, IsForest, IsGroup, FitsBuffers, Entry, MapAt, Put, NoOverrun;
    ghost var toks := ctx.tokens[..];
    var b := Button("", "", "");
    var j := 0;
    while j < num
      invariant 0 <= j <= |groups[i]| && ctx.cur == old(ctx.cur) && ctx.tokens[..] == toks
      invariant m.Valid() && fresh(m.nodes - old(m.nodes)) && (m.buckets == old(m.buckets) || fresh(m.buckets))
      invariant m.M == MapAt(groups, i, j)
    {
      EntryFits(groups, i, j);
      MapAtNext(groups, i, j);
      b := StoreMember(ctx, m, b, j, num, a, parent, groups[i]);
      j := j + 1;
    }
  }

  /** The loop over i: one group of the document. */
  method ReadGroup(ctx: Context, m: HashMap.Map, i: nat,
                   ghost a: Value, ghost parent: int, ghost groups: seq<seq<Button>>)
    requires On(ctx, a, parent) && a.Arr? && i < |groups| == Len(a.elems) && IsGroup(ValueNo(a.elems, i), groups[i])
    requires FitsBuffers(groups[i]) && NoOverrun(groups)
    requires m.Valid() && m.M == MapAt(groups, i, 0)
    modifies ctx`cur, m, m.buckets, m.nodes
    ensures ctx.cur == old(ctx.cur)
    ensures m.Valid() && fresh(m.nodes - old(m.nodes)) && (m.buckets == old(m.buckets) || fresh(m.buckets))
    ensures m.M == MapAt(groups, i + 1, 0)
  {
    hide Id;
    hide Represents;
    hide HashMap.Map.Valid;
    ghost var toks, at, e := ctx.tokens[..], ctx.cur, ValueNo(a.elems, i);
    GetElement(ctx.js, toks, a, at, parent, i);
    var ok, num := ctx.ArrGet(i, Array);
    if ok {
      RepresentsKind(ctx.js, toks, ctx.cur, at, e);
      StoreGroup(ctx, m, num, e, at, groups, i);
      var left := ctx.ArrLeave();
    }
    MapAtGroup(groups, i);
  }

  /** The loop over i from start to end. */
  method ReadGroups(ctx: Context, m: HashMap.Map, num: int,
                    ghost a: Value, ghost parent: int, ghost groups: seq<seq<Button>>)
    requires On(ctx, a, parent) && a.Arr? && num == |groups| == Len(a.elems) && NoOverrun(groups)
    requires forall i :: 0 <= i < |groups| ==> IsGroup(ValueNo(a.elems, i), groups[i]) && FitsBuffers(groups[i])
    requires m.Valid() && m.M == map[]
    modifies ctx`cur, m, m.buckets, m.nodes
    ensures ctx.cur == old(ctx.cur) && m.Valid() && m.M == LinkMap(groups, |groups|)
  {
    hide Id, Represents, HashMap.Map.Valid, IsForest, IsGroup, FitsBuffers, NoOverrun;
    var i := 0;
    while i < num
      invariant 0 <= i <= |groups| && ctx.cur == old(ctx.cur)
      invariant m.Valid() && fresh(m.nodes - old(m.nodes)) && (m.buckets == old(m.buckets) || fresh(m.buckets))
      invariant m.M == MapAt(groups, i, 0)
    {
      ReadGroup(ctx, m, i, a, parent, groups);
      i := i + 1;
    }
  }

  /** json_parsing between json_parse_start and json_parse_end. */
  method ReadLinks(ctx: Context, m: HashMap.Map, ghost v: Value, ghost groups: seq<seq<Button>>)
    requires On(ctx, v, -1) && ctx.cur == 0 && m.Valid() && m.M == map[]
    requires IsLinkDoc(v, groups) && NoOverrun(groups) && forall i :: 0 <= i < |groups| ==> FitsBuffers(groups[i])
    modifies ctx`cur, m, m.buckets, m.nodes
    ensures ctx.cur == 0 && m.Valid() && m.M == LinkMap(groups, |groups|)
  {
    hide Represents;
    hide HashMap.Map.Valid;
    FindLink(ctx, v);
    var found, num := ctx.ObjGetArray("link");
    if found {
      ghost var a, at := LinkArray(v).value, ctx.cur;
      RepresentsKind(ctx.js, ctx.tokens[..], at, at - 1, a);
      ReadGroups(ctx, m, num, a, at - 1, groups);
      var left := ctx.ObjLeave();
    }
  }

  /** json_parsing: the map of a document.  A document that does not parse is out: the code goes on
      with no tokens at all. */
  method JsonParsing(text: string, ghost before: string,
                     ghost v: Value, ghost after: string, ghost groups: seq<seq<Button>>)
    returns (m: HashMap.Map)
    requires text == before + Show(v) + after && IsWs(before) && IsWs(after) && Wf(v) && !v.Lit?
    requires IsLinkDoc(v, groups) && NoOverrun(groups) && forall i :: 0 <= i < |groups| ==> FitsBuffers(groups[i])
    ensures fresh(m) && m.Valid() && m.M == LinkMap(groups, |groups|)
  {
    hide Represents;
    hide HashMap.Map.Valid;
    var ctx := new Context();
    DocumentParses(text, before, v, after);
    var parsed := ctx.ParseStart(text, true);
    m := new HashMap.Map();
    ReadLinks(ctx, m, v, groups);
  }

  /** The two passes succeed, and the first token represents the root. */
  lemma DocumentParses(text: string, before: string, v: Value, after: string)
    requires text == before + Show(v) + after && IsWs(before) && IsWs(after) && Wf(v) && !v.Lit?
    ensures TwoPass(text).Ok? && TwoPass(text).value != [] && Represents(text, TwoPass(text).value, 0, -1, v)
  {
    TwoPassUndoesShow(before, v, after);
    RootSits(text, before, v, after);
  }

  /** Looking for the array "link" in the root. */
  lemma FindLink(ctx: Context, v: Value)
    requires On(ctx, v, -1) && ctx.cur == 0
    ensures KeyIsNotLast(ctx.js, ctx.tokens[..], 0, "link")
    ensures |ctx.tokens[..]| > 0 && match ValueNamed(ctx.js, ctx.tokens[..], 0, "link", Array)
      case None => LinkArray(v) == None
      case Some(at) =>
        && at > 0 && LinkArray(v).Some? && ctx.tokens[at - 1].parent == 0
        && Represents(ctx.js, ctx.tokens[..], at, at - 1, LinkArray(v).value)
  {
    ForestIsReadable(ctx.js, ctx.tokens[..]);
    RepresentsKind(ctx.js, ctx.tokens[..], 0, -1, v);
    GetMember(ctx.js, ctx.tokens[..], v, 0, -1, "link", Array);
    if v.Obj? {
      ObjectKeysHaveValues(ctx.js, ctx.tokens[..], v, 0, -1);
      KeysWithValues(ctx.js, ctx.tokens[..], 0, "link");
    }
  }

  // ----- dispatching -----

  datatype Queue = Zigbee | Ble

  /** What is put on a queue. */
  datatype Sent = Sent(queue: Queue, id: string)

  /** strstr(token, "ble") */
  predicate MentionsBle(t: string) {
    |t| >= 3 && (t[..3] == "ble" || MentionsBle(t[1..]))
  }

  lemma {:induction false} BleIsMentioned(a: string, b: string)
    ensures MentionsBle(a + "ble" + b)
    decreases |a|
  {
    var t := a + "ble" + b;
    if a == "" {
      assert t[..3] == "ble";
    } else {
      BleIsMentioned(a[1..], b);
      assert t[1..] == a[1..] + "ble" + b;
    }
  }

  lemma {:induction false} MentionedIsThere(t: string) returns (a: string, b: string)
    requires MentionsBle(t)
    ensures t == a + "ble" + b
    decreases |t|
  {
    if t[..3] == "ble" {
      a, b := "", t[3..];
    } else {
      a, b := MentionedIsThere(t[1..]);
      a := [t[0]] + a;
    }
  }

  lemma MentionsBleIff(t: string)
    ensures MentionsBle(t) <==> exists a, b :: t == a + "ble" + b
  {
    hide MentionsBle;
    if MentionsBle(t) {
      var a, b := MentionedIsThere(t);
    }
    forall a, b | t == a + "ble" + b
      ensures MentionsBle(t)
    {
      BleIsMentioned(a, b);
    }
  }

  function Route(id: string): Sent {
    Sent(if MentionsBle(id) then Ble else Zigbee, id)
  }

  /** An id goes to the BLE queue if it contains "ble" and to the Zigbee queue otherwise. */
  lemma RouteIs(id: string)
    ensures Route(id).id == id
    ensures Route(id).queue == Ble <==> exists a, b :: id == a + "ble" + b
  {
    MentionsBleIff(id);
  }

  lemma RoutedWell(ids: seq<string>)
    ensures forall x :: 0 <= x < |ids| ==> RouteAll(ids)[x].id == ids[x]
    ensures forall x :: 0 <= x < |ids| ==>
      (RouteAll(ids)[x].queue == Ble <==> exists a, b :: RouteAll(ids)[x].id == a + "ble" + b)
  {
    hide Route;
    forall x | 0 <= x < |ids|
      ensures RouteAll(ids)[x].id == ids[x]
      ensures RouteAll(ids)[x].queue == Ble <==> exists a, b :: RouteAll(ids)[x].id == a + "ble" + b
    {
      RouteIs(ids[x]);
    }
  }

  function RouteAll(ids: seq<string>): (r: seq<Sent>)
    ensures |r| == |ids| && forall x :: 0 <= x < |r| ==> r[x] == Route(ids[x])
  {
    seq(|ids|, x requires 0 <= x < |ids| => Route(ids[x]))
  }

  /** strtok with " " from position `p` of the copied entry on. */
  method StrTok(s: string, p: nat) returns (found: bool, token: string, next: nat)
    requires p <= |s|
    ensures next <= |s| && (found ==> p < next) && found == (Split(s, p) != [])
    ensures found ==> Split(s, p) == [token] + Split(s, next)
  {
    var q := p;
    while q < |s| && s[q] == ' '
      invariant p <= q <= |s| && SkipSpaces(s, q) == SkipSpaces(s, p)
    {
      q := q + 1;
    }
    var e := q;
    while e < |s| && s[e] != ' '
      invariant q <= e <= |s| && TokenEnd(s, e) == TokenEnd(s, q)
    {
      e := e + 1;
    }
    if q == |s| {
      return false, "", q;
    }
    found, token, next := true, s[q..e], if e < |s| then e + 1 else e;
  }

  lemma NoneRouted()
    ensures RouteAll([]) == []
  {
  }

  lemma RouteSnoc(ids: seq<string>, id: string)
    ensures RouteAll(ids + [id]) == RouteAll(ids) + [Route(id)]
  {
  }

  /** The loop of sendIdButton over the tokens of an entry. */
  method SendTokens(copy: string) returns (sent: seq<Sent>)
    ensures sent == RouteAll(Split(copy, 0))
  {
    hide Split;
    hide RouteAll;
    sent := [];
    ghost var done, rest := [], Split(copy, 0);
    assert RouteAll([]) == [];
    var found, token, next := StrTok(copy, 0);
    while found
      invariant next <= |copy| && found == (rest != [])
      invariant found ==> rest == [token] + Split(copy, next)
      invariant Split(copy, 0) == done + rest && sent == RouteAll(done)
      decreases if found then |copy| - next + 1 else 0
    {
      RouteSnoc(done, token);
      var queue := if !MentionsBle(token) then Zigbee else Ble;
      sent := sent + [Sent(queue, token)];
      done, rest := done + [token], Split(copy, next);
      found, token, next := StrTok(copy, next);
    }
  }

  /** sendIdButton for one key: a token that mentions "ble" goes to the BLE queue, any other to the
      Zigbee queue. */
  method SendIdButton(m: HashMap.Map, idButton: string) returns (sent: seq<Sent>)
    requires m.Valid()
    ensures sent == RouteAll(Targets(m.M, idButton))
    ensures |sent| == |Targets(m.M, idButton)|
    ensures forall x :: 0 <= x < |sent| ==> sent[x].id == Targets(m.M, idButton)[x]
    ensures forall x :: 0 <= x < |sent| ==> (sent[x].queue == Ble <==> exists a, b :: sent[x].id == a + "ble" + b)
  {
    hide HashMap.Map.Valid, RouteAll;
    RoutedWell(Targets(m.M, idButton));
    NoneRouted();
    sent := [];
    var there, value := m.Get(idButton);
    if there {
      sent := SendTokens(CString(value));
    }
  }

  // ----- from document to queues -----

  lemma {:induction false} MemberWf(ms: Members, name: string)
    requires WfMembers(ms) && MemberNamed(ms, name).Some?
    ensures Wf(MemberNamed(ms, name).value)
  {
    if ms.key != name {
      MemberWf(ms.tail, name);
    }
  }

  lemma {:induction false} ElementWf(es: Elems, n: nat)
    requires WfElems(es) && n < Len(es)
    ensures Wf(ValueNo(es, n))
  {
    if n > 0 {
      ElementWf(es.rest, n - 1);
    }
  }

  lemma {:induction false} StrHasNoZero(t: string, i: nat)
    requires i <= |t| && IsStrFrom(t, i)
    ensures forall x :: i <= x < |t| ==> t[x] != '\0'
    decreases |t| - i
  {
    if i < |t| {
      StrHasNoZero(t, i + if t[i] != '\\' then 1 else if t[i + 1] == 'u' then 6 else 2);
    }
  }

  lemma ButtonHasNoZero(v: Value, b: Button)
    requires Wf(v) && IsButton(v, b)
    ensures NoZero(b)
  {
    MemberWf(v.members, "node_id");
    MemberWf(v.members, "protocol");
    MemberWf(v.members, "endpoint");
    StrHasNoZero(b.nodeId, 0);
    StrHasNoZero(b.protocol, 0);
    StrHasNoZero(b.endpoint, 0);
  }

  /** The ids of a well-formed document contain no zero character. */
  lemma DocumentHasNoZero(v: Value, groups: seq<seq<Button>>, i: nat, j: nat)
    requires Wf(v) && IsLinkDoc(v, groups) && Has(groups, i, j)
    ensures NoZero(groups[i][j])
  {
    var a := LinkArray(v).value;
    MemberWf(v.members, "link");
    ElementWf(a.elems, i);
    var g := ValueNo(a.elems, i);
    assert IsGroup(g, groups[i]);
    ElementWf(g.elems, j);
    assert IsButton(ValueNo(g.elems, j), groups[i][j]);
    ButtonHasNoZero(ValueNo(g.elems, j), groups[i][j]);
  }

  /** From document to queues: with ids that are not empty and have no spaces, pressing a button of the
      document sends exactly the ids of the other members of the group in which it stands last, in order,
      and any other key sends nothing.  With different ids, each is sent once, and sending is symmetric. */
  lemma PressReachesGroup(v: Value, groups: seq<seq<Button>>, key: string)
    requires Wf(v) && IsLinkDoc(v, groups)
    requires forall i, j :: Has(groups, i, j) ==> CleanId(groups[i][j])
    ensures var m := LinkMap(groups, |groups|);
      && (forall i, j :: IsLast(groups, i, j) && Id(groups[i][j]) == key ==>
            Targets(m, key) == OtherIds(groups[i], j, |groups[i]|))
      && ((forall i, j :: Has(groups, i, j) ==> Id(groups[i][j]) != key) ==> Targets(m, key) == [])
      && (DistinctIds(groups) ==>
            forall other :: other in Targets(m, key) ==> other != key && key in Targets(m, other))
  {
    hide Id, Targets, IsLastBefore;
    var m := LinkMap(groups, |groups|);
    forall i, j | Has(groups, i, j)
      ensures NoZero(groups[i][j])
    {
      DocumentHasNoZero(v, groups, i, j);
    }
    forall i, j | IsLast(groups, i, j) && Id(groups[i][j]) == key
      ensures Targets(m, key) == OtherIds(groups[i], j, |groups[i]|)
    {
      TargetsAreOthers(groups, i, j);
    }
    LinkMapKeys(groups, key);
    NoTargets(groups, key);
    if DistinctIds(groups) {
      forall other | other in Targets(m, key)
        ensures other != key && key in Targets(m, other)
      {
        LinkedIsSymmetric(groups, key, other);
      }
    }
  }

  /** From text and key to queues: in the code the map is built when the document comes in, and the
      press of a button is looked up in it later. */
  method Press(text: string, key: string, ghost before: string, ghost v: Value, ghost after: string,
               ghost groups: seq<seq<Button>>)
    returns (sent: seq<Sent>)
    requires text == before + Show(v) + after && IsWs(before) && IsWs(after) && Wf(v) && !v.Lit?
    requires IsLinkDoc(v, groups) && NoOverrun(groups) && forall i :: 0 <= i < |groups| ==> FitsBuffers(groups[i])
    requires forall i, j :: Has(groups, i, j) ==>
      var id := groups[i][j].nodeId + groups[i][j].protocol + groups[i][j].endpoint;
      id != "" && ' ' !in id
    ensures forall i, j :: IsLast(groups, i, j) && Id(groups[i][j]) == key ==>
      sent == RouteAll(OtherIds(groups[i], j, |groups[i]|))
    ensures forall i, j :: IsLast(groups, i, j) ==>
      var b := groups[i][j];
      b.nodeId + b.protocol + b.endpoint == key ==>
        && |sent| == |groups[i]| - 1
        && forall x :: 0 <= x < |sent| ==>
             var other := groups[i][if x < j then x else x + 1];
             sent[x].id == other.nodeId + other.protocol + other.endpoint
    ensures forall x :: 0 <= x < |sent| ==> (sent[x].queue == Ble <==> exists a, b :: sent[x].id == a + "ble" + b)
    ensures (forall i, j :: Has(groups, i, j) ==>
              groups[i][j].nodeId + groups[i][j].protocol + groups[i][j].endpoint != key) ==> sent == []
  {
    hide HashMap.Map.Valid;
    IdsAre(groups);
    forall i, j | Has(groups, i, j)
      ensures CleanId(groups[i][j])
    {
      CleanIdIs(groups[i][j]);
    }
    var m := JsonParsing(text, before, v, after, groups);
    PressReachesGroup(v, groups, key);
    sent := SendIdButton(m, key);
    forall i, j | IsLast(groups, i, j) && Id(groups[i][j]) == key
      ensures |sent| == |groups[i]| - 1
      ensures forall x :: 0 <= x < |sent| ==>
        var other := groups[i][if x < j then x else x + 1];
        sent[x].id == other.nodeId + other.protocol + other.endpoint
    {
      OtherIdsAt(groups[i], j, |groups[i]|);
    }
  }

  lemma IdsAre(groups: seq<seq<Button>>)
    ensures forall i, j {:trigger Has(groups, i, j)} :: Has(groups, i, j) ==>
      Id(groups[i][j]) == groups[i][j].nodeId + groups[i][j].protocol + groups[i][j].endpoint
  {
  }
}
