/** What a link document means: which buttons are linked to which. */
module Links {
  import opened Basics
  import opened Jsmn
  import opened JsonText
  import opened Lookup

  /** A button of a link group, as the three texts that name it. */
  datatype Button = Button(nodeId: string, protocol: string, endpoint: string)

  /** The key of a button in the map: "%s%s%s". */
  function Id(b: Button): string {
    b.nodeId + b.protocol + b.endpoint
  }

  /** The ids of the first `k` buttons of a group except number `j`, each followed by a space. */
  function Others(g: seq<Button>, j: nat, k: nat): string
    requires k <= |g|
  {
    if k == 0 then ""
    else if k - 1 == j then Others(g, j, k - 1)
    else Others(g, j, k - 1) + (Id(g[k - 1]) + " ")
  }

  /** What is stored for button `j` of a group, with the terminating zero. */
  function Entry(g: seq<Button>, j: nat): string {
    Others(g, j, |g|) + "\0"
  }

  /** A map after a value was stored: for a key that is there over the front of its storage. */
  function Put(m: map<string, string>, key: string, value: string): map<string, string> {
    m[key := if key in m && |value| <= |m[key]| then value + m[key][|value|..] else value]
  }

  /** A map after the first `n` buttons of a group have been stored. */
  function AddGroup(m: map<string, string>, g: seq<Button>, n: nat): map<string, string>
    requires n <= |g|
  {
    if n == 0 then m else Put(AddGroup(m, g, n - 1), Id(g[n - 1]), Entry(g, n - 1))
  }

  /** The map built from the first `n` groups. */
  function LinkMap(groups: seq<seq<Button>>, n: nat): map<string, string>
    requires n <= |groups|
  {
    if n == 0 then map[] else AddGroup(LinkMap(groups, n - 1), groups[n - 1], |groups[n - 1]|)
  }

  // ----- the document -----

  ghost predicate IsButton(v: Value, b: Button) {
    && v.Obj?
    && MemberNamed(v.members, "node_id") == Some(Str(b.nodeId))
    && MemberNamed(v.members, "protocol") == Some(Str(b.protocol))
    && MemberNamed(v.members, "endpoint") == Some(Str(b.endpoint))
  }

  /** An array of buttons; anything else is passed over and counts as an empty group. */
  ghost predicate IsGroup(v: Value, g: seq<Button>) {
    if v.Arr? then Len(v.elems) == |g| && forall j :: 0 <= j < |g| ==> IsButton(ValueNo(v.elems, j), g[j])
    else g == []
  }

  /** The value of the member "link" of the root, if it is an array. */
  function LinkArray(v: Value): Option<Value> {
    if !v.Obj? then None
    else
      match MemberNamed(v.members, "link")
      case Some(Arr(gap, es)) => Some(Arr(gap, es))
      case _ => None
  }

  ghost predicate IsLinkDoc(v: Value, groups: seq<seq<Button>>) {
    match LinkArray(v)
    case None => groups == []
    case Some(a) =>
      Len(a.elems) == |groups| && forall i :: 0 <= i < |groups| ==> IsGroup(ValueNo(a.elems, i), groups[i])
  }

  /** A document whose root has an array of arrays of buttons under "link", written out. */
  lemma LinkDocIs(v: Value, gap: string, es: Elems, groups: seq<seq<Button>>)
    requires v.Obj? && MemberNamed(v.members, "link") == Some(Arr(gap, es)) && Len(es) == |groups|
    requires forall i :: 0 <= i < |groups| ==> ValueNo(es, i).Arr? && Len(ValueNo(es, i).elems) == |groups[i]|
    requires forall i, j :: 0 <= i < |groups| && 0 <= j < |groups[i]| ==>
      var b, want := ValueNo(ValueNo(es, i).elems, j), groups[i][j];
      && b.Obj?
      && MemberNamed(b.members, "node_id") == Some(Str(want.nodeId))
      && MemberNamed(b.members, "protocol") == Some(Str(want.protocol))
      && MemberNamed(b.members, "endpoint") == Some(Str(want.endpoint))
    ensures IsLinkDoc(v, groups)
  {
    forall i | 0 <= i < |groups|
      ensures IsGroup(ValueNo(es, i), groups[i])
    {
      forall j | 0 <= j < |groups[i]|
        ensures IsButton(ValueNo(ValueNo(es, i).elems, j), groups[i][j])
      {
      }
    }
  }

  /** The sizes of the buffers that json_parsing copies into. */
  predicate FitsBuffers(g: seq<Button>) {
    && (forall j :: 0 <= j < |g| ==> |g[j].nodeId| < 20 && |g[j].protocol| < 10 && |g[j].endpoint| < 5)
    && (forall j :: 0 <= j < |g| ==> |Others(g, j, |g|)| < 256)
  }

  predicate Has(groups: seq<seq<Button>>, i: int, j: int) {
    0 <= i < |groups| && 0 <= j < |groups[i]|
  }

  /** All buttons of the document have different ids. */
  ghost predicate DistinctIds(groups: seq<seq<Button>>) {
    forall i, j, k, l ::
      Has(groups, i, j) && Has(groups, k, l) && Id(groups[i][j]) == Id(groups[k][l]) ==> i == k && j == l
  }

  // ----- buttons that stand in several places -----

  /** Member `j` of group `i` comes before member `l` of group `k`. */
  predicate Earlier(i: int, j: int, k: int, l: int) {
    i < k || (i == k && j < l)
  }

  /** No earlier button has this one's id. */
  ghost predicate IsFirst(groups: seq<seq<Button>>, i: int, j: int) {
    Has(groups, i, j) &&
    forall k, l :: Has(groups, k, l) && Earlier(k, l, i, j) ==> Id(groups[k][l]) != Id(groups[i][j])
  }

  /** Of the buttons before member `l` of group `k`, none behind this one has its id. */
  ghost predicate IsLastBefore(groups: seq<seq<Button>>, i: int, j: int, k: int, l: int) {
    Has(groups, i, j) && Earlier(i, j, k, l) &&
    forall a, b :: Has(groups, a, b) && Earlier(i, j, a, b) && Earlier(a, b, k, l) ==>
      Id(groups[a][b]) != Id(groups[i][j])
  }

  /** No later button has this one's id. */
  ghost predicate IsLast(groups: seq<seq<Button>>, i: int, j: int) {
    Has(groups, i, j) && IsLastBefore(groups, i, j, |groups|, 0)
  }

  /** Where an id stands again, its text is no longer than where it stood first, which is where it gets its
      storage. */
  ghost predicate NoOverrun(groups: seq<seq<Button>>) {
    forall i, j, k, l ::
      IsFirst(groups, i, j) && Has(groups, k, l) && Id(groups[k][l]) == Id(groups[i][j]) ==>
        |Entry(groups[k], l)| <= |Entry(groups[i], j)|
  }

  lemma DistinctIsFine(groups: seq<seq<Button>>)
    requires DistinctIds(groups)
    ensures NoOverrun(groups)
    ensures forall i, j :: Has(groups, i, j) ==> IsLast(groups, i, j)
  {
    hide Id, Entry;
  }

  // ----- what the map contains -----

  /** The map when member `j` of group `i` is about to be stored. */
  function MapAt(groups: seq<seq<Button>>, i: nat, j: nat): map<string, string>
    requires i <= |groups| && if i < |groups| then j <= |groups[i]| else j == 0
  {
    if j == 0 then LinkMap(groups, i) else AddGroup(LinkMap(groups, i), groups[i], j)
  }

  ghost predicate Place(groups: seq<seq<Button>>, i: nat, j: nat) {
    i <= |groups| && if i < |groups| then j <= |groups[i]| else j == 0
  }

  lemma MapAtNext(groups: seq<seq<Button>>, i: nat, j: nat)
    requires Has(groups, i, j)
    ensures MapAt(groups, i, j + 1) == Put(MapAt(groups, i, j), Id(groups[i][j]), Entry(groups[i], j))
  {
    hide Put, Id, Entry;
    assert AddGroup(LinkMap(groups, i), groups[i], 0) == LinkMap(groups, i);
  }

  lemma MapAtGroup(groups: seq<seq<Button>>, i: nat)
    requires i < |groups|
    ensures MapAt(groups, i + 1, 0) == MapAt(groups, i, |groups[i]|)
  {
    hide Put;
    assert AddGroup(LinkMap(groups, i), groups[i], 0) == LinkMap(groups, i);
  }

  /** Between the end of a group and the next one nothing stands. */
  lemma SamePlaces(groups: seq<seq<Button>>, i: nat)
    requires i < |groups|
    ensures forall a, b :: Has(groups, a, b) ==> (Earlier(a, b, i + 1, 0) <==> Earlier(a, b, i, |groups[i]|))
  {
  }

  /** The keys are the ids of the buttons stored so far. */
  lemma {:induction false} KeysAt(groups: seq<seq<Button>>, i: nat, j: nat, key: string)
    requires Place(groups, i, j)
    ensures key in MapAt(groups, i, j) <==>
      exists a, b :: Has(groups, a, b) && Earlier(a, b, i, j) && Id(groups[a][b]) == key
    decreases i, j
  {
    hide Id, Entry, MapAt;
    if j > 0 {
      KeysAt(groups, i, j - 1, key);
      MapAtNext(groups, i, j - 1);
      assert Has(groups, i, j - 1) && Earlier(i, j - 1, i, j);
    } else if i > 0 {
      KeysAt(groups, i - 1, |groups[i - 1]|, key);
      MapAtGroup(groups, i - 1);
      SamePlaces(groups, i - 1);
    } else {
      NothingAt(groups);
    }
  }

  lemma NothingAt(groups: seq<seq<Button>>)
    ensures MapAt(groups, 0, 0) == map[]
  {
  }

  /** What is stored for an id begins with the entry of the last button that has it. */
  lemma {:induction false} EntryAt(groups: seq<seq<Button>>, i: nat, j: nat, a: int, b: int)
    requires Place(groups, i, j) && IsLastBefore(groups, a, b, i, j)
    ensures Id(groups[a][b]) in MapAt(groups, i, j)
    ensures Entry(groups[a], b) <= MapAt(groups, i, j)[Id(groups[a][b])]
    decreases i, j
  {
    hide Id, Entry, MapAt;
    if j > 0 {
      MapAtNext(groups, i, j - 1);
      if !(a == i && b == j - 1) {
        assert Has(groups, i, j - 1) && Earlier(a, b, i, j - 1) && Earlier(i, j - 1, i, j);
        EntryAt(groups, i, j - 1, a, b);
      }
    } else if i > 0 {
      SamePlaces(groups, i - 1);
      EntryAt(groups, i - 1, |groups[i - 1]|, a, b);
      MapAtGroup(groups, i - 1);
    }
  }

  /** What is stored for a button fits the storage that its id has, if it has one. */
  ghost predicate Fits(groups: seq<seq<Button>>, i: nat, j: nat)
    requires Has(groups, i, j)
  {
    Id(groups[i][j]) in MapAt(groups, i, j) ==>
      |Entry(groups[i], j)| <= |MapAt(groups, i, j)[Id(groups[i][j])]|
  }

  /** As long as everything fits, the storage of an id is that of the entry of the first button with it. */
  lemma {:induction false} RoomAt(groups: seq<seq<Button>>, i: nat, j: nat, a: int, b: int)
    requires Place(groups, i, j) && IsFirst(groups, a, b) && Earlier(a, b, i, j)
    requires forall k: nat, l: nat :: Has(groups, k, l) && Earlier(k, l, i, j) ==> Fits(groups, k, l)
    ensures Id(groups[a][b]) in MapAt(groups, i, j)
    ensures |MapAt(groups, i, j)[Id(groups[a][b])]| == |Entry(groups[a], b)|
    decreases i, j
  {
    hide Id, Entry, MapAt;
    if j > 0 {
      MapAtNext(groups, i, j - 1);
      assert Has(groups, i, j - 1) && Fits(groups, i, j - 1);
      if a == i && b == j - 1 {
        KeysAt(groups, i, j - 1, Id(groups[a][b]));
      } else {
        RoomAt(groups, i, j - 1, a, b);
      }
    } else if i > 0 {
      SamePlaces(groups, i - 1);
      RoomAt(groups, i - 1, |groups[i - 1]|, a, b);
      MapAtGroup(groups, i - 1);
    }
  }

  /** Among the buttons with an id there is a first one. */
  lemma {:induction false} FirstOf(groups: seq<seq<Button>>, i: nat, j: nat) returns (a: nat, b: nat)
    requires Has(groups, i, j)
    ensures IsFirst(groups, a, b) && Id(groups[a][b]) == Id(groups[i][j]) && !Earlier(i, j, a, b)
    decreases i, j
  {
    hide Id;
    if IsFirst(groups, i, j) {
      a, b := i, j;
    } else {
      var k, l :| Has(groups, k, l) && Earlier(k, l, i, j) && Id(groups[k][l]) == Id(groups[i][j]);
      a, b := FirstOf(groups, k, l);
    }
  }

  lemma {:induction false} EntryFits(groups: seq<seq<Button>>, i: nat, j: nat)
    requires NoOverrun(groups) && Has(groups, i, j)
    ensures Fits(groups, i, j)
    decreases i, j
  {
    hide Id, Entry, MapAt;
    forall k: nat, l: nat | Has(groups, k, l) && Earlier(k, l, i, j)
      ensures Fits(groups, k, l)
    {
      EntryFits(groups, k, l);
    }
    var key := Id(groups[i][j]);
    KeysAt(groups, i, j, key);
    if key in MapAt(groups, i, j) {
      var k, l :| Has(groups, k, l) && Earlier(k, l, i, j) && Id(groups[k][l]) == key;
      var a, b := FirstOf(groups, k, l);
      RoomAt(groups, i, j, a, b);
    }
  }

  /** No stored text is longer than the storage of its id exactly if none is longer than where its id stood
      first. */
  lemma NoOverrunIff(groups: seq<seq<Button>>)
    ensures NoOverrun(groups) <==> forall i: nat, j: nat :: Has(groups, i, j) ==> Fits(groups, i, j)
  {
    hide Id, Entry, MapAt;
    if NoOverrun(groups) {
      forall i: nat, j: nat | Has(groups, i, j)
        ensures Fits(groups, i, j)
      {
        EntryFits(groups, i, j);
      }
    }
    if forall i: nat, j: nat :: Has(groups, i, j) ==> Fits(groups, i, j) {
      forall i, j, k, l | IsFirst(groups, i, j) && Has(groups, k, l) && Id(groups[k][l]) == Id(groups[i][j])
        ensures |Entry(groups[k], l)| <= |Entry(groups[i], j)|
      {
        if Earlier(i, j, k, l) {
          RoomAt(groups, k, l, i, j);
          assert Fits(groups, k, l);
        }
      }
    }
  }

  lemma LinkMapKeys(groups: seq<seq<Button>>, key: string)
    ensures key in LinkMap(groups, |groups|) <==> exists i, j :: Has(groups, i, j) && Id(groups[i][j]) == key
  {
    hide Id;
    KeysAt(groups, |groups|, 0, key);
    assert MapAt(groups, |groups|, 0) == LinkMap(groups, |groups|);
  }

  /** Looking up an id yields the entry of the last button that has it, with what earlier entries have left
      behind its zero. */
  lemma LinkMapEntry(groups: seq<seq<Button>>, i: nat, j: nat)
    requires IsLast(groups, i, j)
    ensures var key, m := Id(groups[i][j]), LinkMap(groups, |groups|);
      key in m && Entry(groups[i], j) <= m[key]
  {
    hide Id, Entry;
    EntryAt(groups, |groups|, 0, i, j);
    assert MapAt(groups, |groups|, 0) == LinkMap(groups, |groups|);
  }

  // ----- splitting an entry -----

  /** strtok with " ": where the next token starts, if there is one. */
  function SkipSpaces(s: string, p: nat): (q: nat)
    requires p <= |s|
    ensures p <= q <= |s| && (q < |s| ==> s[q] != ' ') && forall x :: p <= x < q ==> s[x] == ' '
    decreases |s| - p
  {
    if p < |s| && s[p] == ' ' then SkipSpaces(s, p + 1) else p
  }

  /** Where the token that goes on at `p` ends. */
  function TokenEnd(s: string, p: nat): (q: nat)
    requires p <= |s|
    ensures p <= q <= |s| && forall x :: p <= x < q ==> s[x] != ' '
    ensures q < |s| ==> s[q] == ' '
    decreases |s| - p
  {
    if p < |s| && s[p] != ' ' then TokenEnd(s, p + 1) else p
  }

  /** All tokens that strtok finds from position `p` on. */
  function Split(s: string, p: nat): seq<string>
    requires p <= |s|
    decreases |s| - p
  {
    var q := SkipSpaces(s, p);
    if q == |s| then []
    else
      var e := TokenEnd(s, q);
      [s[q..e]] + Split(s, if e < |s| then e + 1 else e)
  }

  /** The ids of the other buttons of a group, in order. */
  function OtherIds(g: seq<Button>, j: nat, k: nat): seq<string>
    requires k <= |g|
  {
    if k == 0 then []
    else if k - 1 == j then OtherIds(g, j, k - 1)
    else OtherIds(g, j, k - 1) + [Id(g[k - 1])]
  }

  /** An id that strtok can give back: not empty and without spaces. */
  predicate CleanId(b: Button) {
    Id(b) != "" && forall x :: 0 <= x < |Id(b)| ==> Id(b)[x] != ' '
  }

  lemma CleanIdIs(b: Button)
    ensures CleanId(b) <==> var id := b.nodeId + b.protocol + b.endpoint; id != "" && ' ' !in id
  {
  }

  lemma {:induction false} TokenEndOf(s: string, p: nat, e: nat)
    requires p <= e < |s| && s[e] == ' ' && forall x :: p <= x < e ==> s[x] != ' '
    ensures TokenEnd(s, p) == e
    decreases e - p
  {
    if p < e {
      TokenEndOf(s, p + 1, e);
    }
  }

  /** A clean id with its space is split off the front. */
  lemma SplitFirst(id: string, rest: string)
    requires id != "" && forall x :: 0 <= x < |id| ==> id[x] != ' '
    ensures Split(id + " " + rest, 0) == [id] + Split(id + " " + rest, |id| + 1)
  {
    var s := id + " " + rest;
    assert forall x :: 0 <= x < |id| ==> s[x] == id[x];
    TokenEndOf(s, 0, |id|);
    assert s[0..|id|] == id;
  }

  lemma {:induction false} SkipShift(pre: string, s: string, p: nat)
    requires p <= |s|
    ensures SkipSpaces(pre + s, |pre| + p) == |pre| + SkipSpaces(s, p)
    ensures TokenEnd(pre + s, |pre| + p) == |pre| + TokenEnd(s, p)
    decreases |s| - p
  {
    if p < |s| {
      assert (pre + s)[|pre| + p] == s[p];
      SkipShift(pre, s, p + 1);
    }
  }

  lemma SliceShift(pre: string, s: string, q: nat, e: nat)
    requires q <= e <= |s|
    ensures (pre + s)[|pre| + q..|pre| + e] == s[q..e]
  {
  }

  /** Where strtok goes on after a token that ends at `e`. */
  function Beyond(s: string, e: nat): nat {
    if e < |s| then e + 1 else e
  }

  lemma SplitStep(s: string, p: nat)
    requires p <= |s|
    ensures var q := SkipSpaces(s, p);
      Split(s, p) == if q == |s| then [] else [s[q..TokenEnd(s, q)]] + Split(s, Beyond(s, TokenEnd(s, q)))
  {
  }

  /** Splitting after a prefix is splitting what comes after it. */
  lemma {:induction false} SplitShift(pre: string, s: string, t: string, p: nat)
    requires p <= |s| && t == pre + s
    ensures Split(t, |pre| + p) == Split(s, p)
    decreases |s| - p
  {
    hide Split;
    hide SkipSpaces;
    hide TokenEnd;
    var q := SkipSpaces(s, p);
    SkipShift(pre, s, p);
    SplitStep(s, p);
    SplitStep(t, |pre| + p);
    if q < |s| {
      var e := TokenEnd(s, q);
      SkipShift(pre, s, q);
      SliceShift(pre, s, q, e);
      SplitShift(pre, s, t, Beyond(s, e));
    }
  }

  function Join(ids: seq<string>): string {
    if ids == [] then "" else ids[0] + " " + Join(ids[1..])
  }

  lemma {:induction false} JoinSnoc(ids: seq<string>, id: string)
    ensures Join(ids + [id]) == Join(ids) + (id + " ")
  {
    if ids == [] {
      assert ids + [id] == [id] && [id][1..] == [];
    } else {
      assert (ids + [id])[1..] == ids[1..] + [id];
      JoinSnoc(ids[1..], id);
    }
  }

  lemma {:induction false} OthersIsJoin(g: seq<Button>, j: nat, k: nat)
    requires k <= |g|
    ensures Others(g, j, k) == Join(OtherIds(g, j, k))
  {
    hide Id;
    if k > 0 {
      OthersIsJoin(g, j, k - 1);
      if k - 1 != j {
        JoinSnoc(OtherIds(g, j, k - 1), Id(g[k - 1]));
      }
    }
  }

  /** strtok undoes the joining of clean ids. */
  lemma {:induction false} SplitJoin(ids: seq<string>)
    requires forall i :: 0 <= i < |ids| ==> ids[i] != "" && forall x :: 0 <= x < |ids[i]| ==> ids[i][x] != ' '
    ensures Split(Join(ids), 0) == ids
  {
    if ids != [] {
      var rest := Join(ids[1..]);
      SplitFirst(ids[0], rest);
      SplitShift(ids[0] + " ", rest, ids[0] + " " + rest, 0);
      SplitJoin(ids[1..]);
      assert ids == [ids[0]] + ids[1..];
    } else {
      assert SkipSpaces("", 0) == 0;
    }
  }

  /** The ids of the others, one by one: those before button `j`, then those behind it. */
  lemma {:induction false} OtherIdsAt(g: seq<Button>, j: nat, k: nat)
    requires k <= |g|
    ensures |OtherIds(g, j, k)| == if j < k then k - 1 else k
    ensures forall x :: 0 <= x < |OtherIds(g, j, k)| ==>
      var b := g[if x < j then x else x + 1];
      OtherIds(g, j, k)[x] == b.nodeId + b.protocol + b.endpoint
  {
    if k > 0 {
      OtherIdsAt(g, j, k - 1);
    }
  }

  lemma {:induction false} OtherIdsAre(g: seq<Button>, j: nat, k: nat, id: string)
    requires k <= |g|
    ensures id in OtherIds(g, j, k) <==> exists l :: 0 <= l < k && l != j && Id(g[l]) == id
  {
    hide Id;
    if k > 0 {
      OtherIdsAre(g, j, k - 1, id);
    }
  }

  /** In a group with different ids, no other id comes twice. */
  lemma {:induction false} OtherIdsOnce(g: seq<Button>, j: nat, k: nat)
    requires k <= |g| && forall x, y :: 0 <= x < y < |g| ==> Id(g[x]) != Id(g[y])
    ensures forall x, y :: 0 <= x < y < |OtherIds(g, j, k)| ==> OtherIds(g, j, k)[x] != OtherIds(g, j, k)[y]
  {
    hide Id;
    if k > 0 {
      OtherIdsOnce(g, j, k - 1);
      var ids := OtherIds(g, j, k - 1);
      OtherIdsAre(g, j, k - 1, Id(g[k - 1]));
      forall x | 0 <= x < |ids|
        ensures ids[x] != Id(g[k - 1])
      {
        assert ids[x] in ids;
      }
    }
  }

  // ----- the text of an entry -----

  predicate NoZero(b: Button) {
    '\0' !in Id(b)
  }

  lemma {:induction false} OthersHaveNoZero(g: seq<Button>, j: nat, k: nat)
    requires k <= |g| && forall l :: 0 <= l < |g| ==> NoZero(g[l])
    ensures '\0' !in Others(g, j, k)
  {
    if k > 0 {
      OthersHaveNoZero(g, j, k - 1);
      assert NoZero(g[k - 1]);
    }
  }

  // ----- who is linked to whom -----

  ghost predicate AllClean(groups: seq<seq<Button>>) {
    forall i, j :: Has(groups, i, j) ==> CleanId(groups[i][j]) && NoZero(groups[i][j])
  }

  /** What sendIdButton dispatches for a key: the tokens of its entry, if it has one. */
  function Targets(m: map<string, string>, key: string): seq<string> {
    if key in m then Split(CString(m[key]), 0) else []
  }

  /** For a button of the document, exactly the ids of the other members of its group are dispatched, in
      order; if it stands in several places, those of the last one. */
  lemma TargetsAreOthers(groups: seq<seq<Button>>, i: nat, j: nat)
    requires AllClean(groups) && IsLast(groups, i, j)
    ensures Targets(LinkMap(groups, |groups|), Id(groups[i][j])) == OtherIds(groups[i], j, |groups[i]|)
  {
    var g := groups[i];
    forall l | 0 <= l < |g|
      ensures CleanId(g[l]) && NoZero(g[l])
    {
      assert Has(groups, i, l);
    }
    LinkMapEntry(groups, i, j);
    OthersHaveNoZero(g, j, |g|);
    CStringOf(Others(g, j, |g|), LinkMap(groups, |groups|)[Id(g[j])]);
    OthersIsJoin(g, j, |g|);
    var ids := OtherIds(g, j, |g|);
    forall x | 0 <= x < |ids|
      ensures ids[x] != "" && forall y :: 0 <= y < |ids[x]| ==> ids[x][y] != ' '
    {
      assert ids[x] in ids;
      OtherIdsAre(g, j, |g|, ids[x]);
    }
    SplitJoin(ids);
  }

  /** A key is linked to another if that one is dispatched for it. */
  predicate Linked(groups: seq<seq<Button>>, a: string, b: string) {
    b in Targets(LinkMap(groups, |groups|), a)
  }

  /** Among the buttons with an id there is a last one. */
  lemma {:induction false} LastOf(groups: seq<seq<Button>>, i: nat, j: nat) returns (a: nat, b: nat)
    requires Has(groups, i, j)
    ensures IsLast(groups, a, b) && Id(groups[a][b]) == Id(groups[i][j])
    decreases |groups| - i, |groups[i]| - j
  {
    hide Id;
    if IsLast(groups, i, j) {
      a, b := i, j;
    } else {
      var k, l :| Has(groups, k, l) && Earlier(i, j, k, l) && Id(groups[k][l]) == Id(groups[i][j]);
      a, b := LastOf(groups, k, l);
    }
  }

  /** A key is linked to another exactly if that is the id of another member of the group in which the key
      stands last. */
  lemma LinkedIff(groups: seq<seq<Button>>, a: string, b: string)
    requires AllClean(groups)
    ensures Linked(groups, a, b) <==>
      exists i, j, k ::
        IsLast(groups, i, j) && Has(groups, i, k) && j != k && Id(groups[i][j]) == a && Id(groups[i][k]) == b
  {
    hide Id, Targets;
    LinkMapKeys(groups, a);
    NoTargets(groups, a);
    if a in LinkMap(groups, |groups|) {
      var k, l :| Has(groups, k, l) && Id(groups[k][l]) == a;
      var i, j := LastOf(groups, k, l);
      TargetsAreOthers(groups, i, j);
      OtherIdsAre(groups[i], j, |groups[i]|, b);
      if Linked(groups, a, b) {
        var k :| 0 <= k < |groups[i]| && k != j && Id(groups[i][k]) == b;
        assert Has(groups, i, k);
      }
      forall x, y, z | IsLast(groups, x, y) && Has(groups, x, z) && y != z && Id(groups[x][y]) == a &&
                       Id(groups[x][z]) == b
        ensures Linked(groups, a, b)
      {
        OneLast(groups, i, j, x, y);
      }
    }
  }

  lemma NoTargets(groups: seq<seq<Button>>, a: string)
    ensures a !in LinkMap(groups, |groups|) ==> Targets(LinkMap(groups, |groups|), a) == []
  {
  }

  lemma OneLast(groups: seq<seq<Button>>, i: int, j: int, x: int, y: int)
    requires IsLast(groups, i, j) && IsLast(groups, x, y) && Id(groups[i][j]) == Id(groups[x][y])
    ensures x == i && y == j
  {
    hide Id;
  }

  /** With different ids, two keys are linked exactly if they are those of two members of one group. */
  lemma LinkedIffSameGroup(groups: seq<seq<Button>>, a: string, b: string)
    requires DistinctIds(groups) && AllClean(groups)
    ensures Linked(groups, a, b) <==>
      exists i, j, k ::
        Has(groups, i, j) && Has(groups, i, k) && j != k && Id(groups[i][j]) == a && Id(groups[i][k]) == b
  {
    hide Id, Linked;
    DistinctIsFine(groups);
    LinkedIff(groups, a, b);
    if Linked(groups, a, b) {
      var i, j, k :|
        IsLast(groups, i, j) && Has(groups, i, k) && j != k && Id(groups[i][j]) == a && Id(groups[i][k]) == b;
    }
  }

  /** Then being linked is symmetric, and no button is linked to itself. */
  lemma LinkedIsSymmetric(groups: seq<seq<Button>>, a: string, b: string)
    requires DistinctIds(groups) && AllClean(groups) && Linked(groups, a, b)
    ensures Linked(groups, b, a) && a != b
  {
    LinkedIffSameGroup(groups, a, b);
    LinkedIffSameGroup(groups, b, a);
  }

  /** In general neither: with a button in two groups, pressing it reaches the second only, while pressing
      the other of the first group reaches it. */
  lemma TwoGroupsAreNot(a: Button, b: Button, c: Button)
    requires CleanId(a) && CleanId(b) && CleanId(c) && NoZero(a) && NoZero(b) && NoZero(c)
    requires Id(a) != Id(b) && Id(a) != Id(c) && Id(b) != Id(c)
    ensures Linked([[a, b], [a, c]], Id(b), Id(a)) && !Linked([[a, b], [a, c]], Id(a), Id(b))
    ensures |Id(c)| <= |Id(b)| ==> NoOverrun([[a, b], [a, c]])
  {
    hide Linked, Id, Entry;
    var groups := [[a, b], [a, c]];
    assert forall i, j :: Has(groups, i, j) <==> (i == 0 || i == 1) && (j == 0 || j == 1);
    assert groups[0][0] == a && groups[0][1] == b && groups[1][0] == a && groups[1][1] == c;
    LinkedIff(groups, Id(b), Id(a));
    LinkedIff(groups, Id(a), Id(b));
    assert IsLast(groups, 0, 1);
    assert !IsLast(groups, 0, 0) by {
      assert Has(groups, 1, 0) && Earlier(0, 0, 1, 0);
    }
    EntryOfTwo(a, b);
    EntryOfTwo(a, c);
  }

  lemma EntryOfTwo(a: Button, b: Button)
    ensures Entry([a, b], 0) == Id(b) + " " + "\0"
  {
    var g := [a, b];
    assert Others(g, 0, 1) == "" && Others(g, 0, 2) == "" + (Id(b) + " ");
  }
}
