/** ble_mesh_parse_node_comp_data: Composition Data Page 0 into the tables of `node_infor`.

    The layout is that of section 4.2.1.1 of the Bluetooth Mesh Profile 1.0.1: a header of five
    16-bit numbers, then for every element its location, the numbers of SIG and of vendor models, and
    the models.  All numbers are little-endian.

    `Put...` encodes, `Get...` decodes, and the class `Node` holds the tables that the code fills. */
module MeshComposition {
  import opened Basics

  /** A model with the company it belongs to. */
  datatype Model = Model(company: word, id: word)

  const SIG: word := 0xFFFF
  const TERMINATOR: word := 0xFFFF

  datatype Element = Element(loc: word, sig: seq<word>, vendor: seq<Model>)

  const ELEMENTS := 8
  const SLOTS := 24

  /** COMP_DATA_2_OCTET */
  function Word(data: seq<byte>, at: nat): word
    requires at + 2 <= |data|
  {
    var high: int, low: int := data[at + 1], data[at];
    high * 256 + low
  }

  // ----- encoding -----

  function PutWord(w: word): (s: seq<byte>)
    ensures |s| == 2
  {
    [w % 256, w / 256]
  }

  function PutSig(sig: seq<word>): (s: seq<byte>)
    ensures |s| == 2 * |sig|
  {
    if sig == [] then [] else PutSig(sig[..|sig| - 1]) + PutWord(sig[|sig| - 1])
  }

  function PutVendor(vendor: seq<Model>): (s: seq<byte>)
    ensures |s| == 4 * |vendor|
  {
    if vendor == [] then []
    else PutVendor(vendor[..|vendor| - 1]) + PutWord(vendor[|vendor| - 1].company) + PutWord(vendor[|vendor| - 1].id)
  }

  predicate Countable(el: Element) {
    |el.sig| < 256 && |el.vendor| < 256
  }

  function PutElement(el: Element): (s: seq<byte>)
    requires Countable(el)
    ensures |s| == 4 + 2 * |el.sig| + 4 * |el.vendor|
  {
    PutWord(el.loc) + [|el.sig|, |el.vendor|] + PutSig(el.sig) + PutVendor(el.vendor)
  }

  function PutElements(els: seq<Element>): seq<byte>
    requires forall e :: 0 <= e < |els| ==> Countable(els[e])
  {
    if els == [] then [] else PutElement(els[0]) + PutElements(els[1..])
  }

  // ----- decoding -----

  function GetSig(data: seq<byte>, at: nat, n: nat): (s: seq<word>)
    requires at + 2 * n <= |data|
    ensures |s| == n
  {
    seq(n, k requires 0 <= k < n => Word(data, at + 2 * k))
  }

  function GetVendor(data: seq<byte>, at: nat, n: nat): (s: seq<Model>)
    requires at + 4 * n <= |data|
    ensures |s| == n
  {
    seq(n, k requires 0 <= k < n => Model(Word(data, at + 4 * k), Word(data, at + 4 * k + 2)))
  }

  /** The length of the element that starts at `at`. */
  function ElementLength(data: seq<byte>, at: nat): nat
    requires at + 4 <= |data|
  {
    var nums: int, numv: int := data[at + 2], data[at + 3];
    4 + 2 * nums + 4 * numv
  }

  function GetElement(data: seq<byte>, at: nat): (el: Element)
    requires at + 4 <= |data| && at + ElementLength(data, at) <= |data|
    ensures Countable(el) && |el.sig| == data[at + 2] && |el.vendor| == data[at + 3]
  {
    var nums: int, numv: int := data[at + 2], data[at + 3];
    Element(Word(data, at), GetSig(data, at + 4, nums), GetVendor(data, at + 4 + 2 * nums, numv))
  }

  /** The elements from `at` to the end of the data, or nothing if the data ends inside one. */
  function GetElements(data: seq<byte>, at: nat): (r: Option<seq<Element>>)
    requires at <= |data|
    ensures r.Some? ==> forall e :: 0 <= e < |r.value| ==> Countable(r.value[e])
    decreases |data| - at
  {
    if at == |data| then Some([])
    else if at + 4 > |data| || at + ElementLength(data, at) > |data| then None
    else
      match GetElements(data, at + ElementLength(data, at))
      case None => None
      case Some(rest) => Some([GetElement(data, at)] + rest)
  }

  /** Where the elements from `at` on start, and where the data end. */
  ghost function Starts(data: seq<byte>, at: nat): seq<nat>
    requires at <= |data| && GetElements(data, at).Some?
    decreases |data| - at
  {
    if at == |data| then [at] else [at] + Starts(data, at + ElementLength(data, at))
  }

  /** The elements stand one behind the other, from `at` to the end. */
  lemma {:induction false} StartsAre(data: seq<byte>, at: nat, e: nat)
    requires at <= |data| && GetElements(data, at).Some? && e <= |GetElements(data, at).value|
    ensures var starts, els := Starts(data, at), GetElements(data, at).value;
      && |starts| == |els| + 1 && starts[0] == at && starts[e] <= |data| && starts[|els|] == |data|
      && (e < |els| ==>
            && starts[e] + 4 <= |data| && starts[e] + ElementLength(data, starts[e]) <= |data|
            && els[e] == GetElement(data, starts[e])
            && starts[e + 1] == starts[e] + 4 + 2 * |els[e].sig| + 4 * |els[e].vendor|)
    decreases |data| - at
  {
    hide GetElement;
    if at < |data| {
      StartsAre(data, at + ElementLength(data, at), if e > 0 then e - 1 else 0);
    }
  }

  // ----- encoding and decoding undo one another -----

  lemma WordOfPut(w: word, data: seq<byte>, at: nat)
    requires at + 2 <= |data| && data[at..at + 2] == PutWord(w)
    ensures Word(data, at) == w
  {
    assert data[at] == data[at..at + 2][0] && data[at + 1] == data[at..at + 2][1];
  }

  lemma PutOfWord(data: seq<byte>, at: nat)
    requires at + 2 <= |data|
    ensures PutWord(Word(data, at)) == data[at..at + 2]
  {
  }

  lemma {:induction false} SigOfPut(sig: seq<word>, data: seq<byte>, at: nat)
    requires at + 2 * |sig| <= |data| && data[at..at + 2 * |sig|] == PutSig(sig)
    ensures GetSig(data, at, |sig|) == sig
  {
    if sig != [] {
      var n := |sig| - 1;
      Slices(data, at, PutSig(sig[..n]), PutWord(sig[n]));
      SigOfPut(sig[..n], data, at);
      WordOfPut(sig[n], data, at + 2 * n);
      assert GetSig(data, at, |sig|) == GetSig(data, at, n) + [Word(data, at + 2 * n)];
    }
  }

  lemma {:induction false} PutOfSig(data: seq<byte>, at: nat, n: nat)
    requires at + 2 * n <= |data|
    ensures PutSig(GetSig(data, at, n)) == data[at..at + 2 * n]
  {
    if n > 0 {
      PutOfSig(data, at, n - 1);
      PutOfWord(data, at + 2 * (n - 1));
      assert GetSig(data, at, n)[..n - 1] == GetSig(data, at, n - 1);
    }
  }

  lemma {:induction false} VendorOfPut(vendor: seq<Model>, data: seq<byte>, at: nat)
    requires at + 4 * |vendor| <= |data| && data[at..at + 4 * |vendor|] == PutVendor(vendor)
    ensures GetVendor(data, at, |vendor|) == vendor
  {
    if vendor != [] {
      var n := |vendor| - 1;
      var m := vendor[n];
      Slices(data, at, PutVendor(vendor[..n]) + PutWord(m.company), PutWord(m.id));
      Slices(data, at, PutVendor(vendor[..n]), PutWord(m.company));
      VendorOfPut(vendor[..n], data, at);
      WordOfPut(m.company, data, at + 4 * n);
      WordOfPut(m.id, data, at + 4 * n + 2);
      assert GetVendor(data, at, |vendor|) == GetVendor(data, at, n) + [m];
    }
  }

  lemma {:induction false} PutOfVendor(data: seq<byte>, at: nat, n: nat)
    requires at + 4 * n <= |data|
    ensures PutVendor(GetVendor(data, at, n)) == data[at..at + 4 * n]
  {
    if n > 0 {
      PutOfVendor(data, at, n - 1);
      PutOfWord(data, at + 4 * (n - 1));
      PutOfWord(data, at + 4 * (n - 1) + 2);
      assert GetVendor(data, at, n)[..n - 1] == GetVendor(data, at, n - 1);
    }
  }

  /** Where the parts of an encoded element stand. */
  lemma PartsOfPut(el: Element, data: seq<byte>, at: nat)
    requires Countable(el) && at + |PutElement(el)| <= |data| && data[at..at + |PutElement(el)|] == PutElement(el)
    ensures data[at..at + 2] == PutWord(el.loc) && data[at + 2] == |el.sig| && data[at + 3] == |el.vendor|
    ensures data[at + 4..at + 4 + 2 * |el.sig|] == PutSig(el.sig)
    ensures data[at + 4 + 2 * |el.sig|..at + 4 + 2 * |el.sig| + 4 * |el.vendor|] == PutVendor(el.vendor)
  {
    hide PutSig, PutVendor, PutWord;
    var head := PutWord(el.loc) + [|el.sig|, |el.vendor|];
    Slices(data, at, head + PutSig(el.sig), PutVendor(el.vendor));
    Slices(data, at, head, PutSig(el.sig));
    Slices(data, at, PutWord(el.loc), [|el.sig|, |el.vendor|]);
    assert data[at + 2] == data[at + 2..at + 4][0] && data[at + 3] == data[at + 2..at + 4][1];
  }

  lemma ElementOfPut(el: Element, data: seq<byte>, at: nat)
    requires Countable(el) && at + |PutElement(el)| <= |data| && data[at..at + |PutElement(el)|] == PutElement(el)
    ensures at + 4 <= |data| && ElementLength(data, at) == |PutElement(el)| && GetElement(data, at) == el
  {
    hide PutSig, PutVendor, PutWord, GetSig, GetVendor, Word;
    PartsOfPut(el, data, at);
    hide PutElement;
    WordOfPut(el.loc, data, at);
    SigOfPut(el.sig, data, at + 4);
    VendorOfPut(el.vendor, data, at + 4 + 2 * |el.sig|);
  }

  lemma PutOfElement(data: seq<byte>, at: nat)
    requires at + 4 <= |data| && at + ElementLength(data, at) <= |data|
    ensures PutElement(GetElement(data, at)) == data[at..at + ElementLength(data, at)]
  {
    hide PutSig, PutVendor, PutWord, GetSig, GetVendor, Word;
    var el := GetElement(data, at);
    PutOfWord(data, at);
    PutOfSig(data, at + 4, |el.sig|);
    PutOfVendor(data, at + 4 + 2 * |el.sig|, |el.vendor|);
    var sig, vendor, end := at + 4, at + 4 + 2 * |el.sig|, at + ElementLength(data, at);
    assert data[at..end] == data[at..at + 2] + [data[at + 2], data[at + 3]] + data[sig..vendor] + data[vendor..end];
  }

  /** Decoding what was encoded gives the elements back. */
  lemma {:induction false} DecodeUndoesEncode(els: seq<Element>, data: seq<byte>, at: nat)
    requires at <= |data| && forall e :: 0 <= e < |els| ==> Countable(els[e])
    requires data[at..] == PutElements(els)
    ensures GetElements(data, at) == Some(els)
    decreases |els|
  {
    hide GetElement;
    hide PutElement;
    if els != [] {
      var n := |PutElement(els[0])|;
      Slices(data, at, PutElement(els[0]), PutElements(els[1..]));
      ElementOfPut(els[0], data, at);
      DecodeUndoesEncode(els[1..], data, at + n);
      assert els == [els[0]] + els[1..];
    } else {
      assert |data[at..]| == 0;
    }
  }

  /** Encoding what was decoded gives the data back. */
  lemma {:induction false} EncodeUndoesDecode(data: seq<byte>, at: nat)
    requires at <= |data| && GetElements(data, at).Some?
    ensures PutElements(GetElements(data, at).value) == data[at..]
    decreases |data| - at
  {
    hide GetElement;
    hide PutElement;
    if at < |data| {
      var els := GetElements(data, at).value;
      PutOfElement(data, at);
      EncodeUndoesDecode(data, at + ElementLength(data, at));
      assert els[1..] == GetElements(data, at + ElementLength(data, at)).value;
    }
  }

  /** A whole page: ten bytes of header, then the elements. */
  lemma PageRoundTrip(header: seq<byte>, els: seq<Element>)
    requires |header| == 10 && forall e :: 0 <= e < |els| ==> Countable(els[e])
    ensures GetElements(header + PutElements(els), 10) == Some(els)
  {
    assert (header + PutElements(els))[10..] == PutElements(els);
    DecodeUndoesEncode(els, header + PutElements(els), 10);
  }

  // ----- the code -----

  /** The models of an element as the tables list them: SIG models with company 0xFFFF, then vendor
      models. */
  function Flat(el: Element): (f: seq<Model>)
    ensures |f| == |el.sig| + |el.vendor|
    ensures forall k :: 0 <= k < |el.sig| ==> f[k] == Model(SIG, el.sig[k])
    ensures forall k :: 0 <= k < |el.vendor| ==> f[|el.sig| + k] == el.vendor[k]
  {
    seq(|el.sig|, k requires 0 <= k < |el.sig| => Model(SIG, el.sig[k])) + el.vendor
  }

  lemma FlatAt(el: Element, k: nat)
    requires k < |Flat(el)|
    ensures Flat(el)[k] == if k < |el.sig| then Model(SIG, el.sig[k]) else el.vendor[k - |el.sig|]
  {
  }

  /** Where the models of an element stand in the data. */
  lemma FlatOfElement(data: seq<byte>, at: nat)
    requires at + 4 <= |data| && at + ElementLength(data, at) <= |data|
    ensures var f, nums: int, numv: int := Flat(GetElement(data, at)), data[at + 2], data[at + 3];
      && |f| == nums + numv
      && (forall k :: 0 <= k < nums ==> f[k] == Model(SIG, Word(data, at + 4 + 2 * k)))
      && (forall k :: 0 <= k < numv ==>
            f[nums + k] == Model(Word(data, at + 4 + 2 * nums + 4 * k), Word(data, at + 4 + 2 * nums + 4 * k + 2)))
  {
    hide Flat, Word;
    var el, nums: int, numv: int := GetElement(data, at), data[at + 2], data[at + 3];
    var f := Flat(el);
    forall k | 0 <= k < nums
      ensures f[k] == Model(SIG, Word(data, at + 4 + 2 * k))
    {
      FlatAt(el, k);
    }
    forall k | 0 <= k < numv
      ensures f[nums + k] == Model(Word(data, at + 4 + 2 * nums + 4 * k), Word(data, at + 4 + 2 * nums + 4 * k + 2))
    {
      FlatAt(el, nums + k);
    }
  }

  /** An element byte by byte: its location, the numbers of its SIG and of its vendor models, the former in
      two bytes each, the latter in four, company first.  Low bytes come first. */
  lemma ElementBytes(data: seq<byte>, at: nat)
    requires at + 4 <= |data| && at + ElementLength(data, at) <= |data|
    ensures var el := GetElement(data, at);
      && el.loc == data[at] as int + 0x100 * data[at + 1] as int
      && |el.sig| == data[at + 2] && |el.vendor| == data[at + 3]
      && at + 4 + 2 * |el.sig| + 4 * |el.vendor| == at + ElementLength(data, at) <= |data|
      && (forall k :: 0 <= k < |el.sig| ==>
            var o := at + 4 + 2 * k;
            el.sig[k] == data[o] as int + 0x100 * data[o + 1] as int)
      && (forall k :: 0 <= k < |el.vendor| ==>
            var o := at + 4 + 2 * |el.sig| + 4 * k;
            && el.vendor[k].company == data[o] as int + 0x100 * data[o + 1] as int
            && el.vendor[k].id == data[o + 2] as int + 0x100 * data[o + 3] as int)
  {
  }

  /** The tables are large enough, the terminators included. */
  predicate FitsTables(els: seq<Element>) {
    |els| <= ELEMENTS && forall e :: 0 <= e < |els| ==> |Flat(els[e])| < SLOTS
  }

  /** node_infor, as far as the composition data goes. */
  class Node {
    var models: array2<word>
    var cid: array2<word>
    var elementNum: word

    ghost predicate Valid()
      reads this
    {
      models != cid && models.Length0 == cid.Length0 == ELEMENTS && models.Length1 == cid.Length1 == SLOTS
    }

    /** Row `e` lists the first `n` models `f`. */
    ghost predicate RowHolds(e: nat, f: seq<Model>, n: nat)
      requires Valid()
      reads this, models, cid
    {
      && e < ELEMENTS && n <= |f| < SLOTS
      && forall k :: 0 <= k < n ==> models[e, k] == f[k].id && cid[e, k] == f[k].company
    }

    /** Row `e` is that of the element, terminator included. */
    ghost predicate RowIs(e: nat, el: Element)
      requires Valid()
      reads this, models, cid
    {
      RowHolds(e, Flat(el), |Flat(el)|) && models[e, |Flat(el)|] == TERMINATOR
    }

    /** A row entry by entry: the SIG models with company 0xFFFF, the vendor models, and 0xFFFF. */
    lemma RowEntries(e: nat, el: Element)
      requires Valid() && RowIs(e, el)
      ensures e < 8 && |el.sig| + |el.vendor| < 24
      ensures forall k :: 0 <= k < |el.sig| ==> cid[e, k] == 0xFFFF && models[e, k] == el.sig[k]
      ensures forall k :: |el.sig| <= k < |el.sig| + |el.vendor| ==>
        cid[e, k] == el.vendor[k - |el.sig|].company && models[e, k] == el.vendor[k - |el.sig|].id
      ensures models[e, |el.sig| + |el.vendor|] == 0xFFFF
    {
      forall k | 0 <= k < |el.sig| + |el.vendor|
        ensures models[e, k] == Flat(el)[k].id && cid[e, k] == Flat(el)[k].company
        ensures Flat(el)[k] == if k < |el.sig| then Model(0xFFFF, el.sig[k]) else el.vendor[k - |el.sig|]
      {
        FlatAt(el, k);
      }
    }

    lemma AllRowsFit(els: seq<Element>)
      requires Valid() && forall e :: 0 <= e < |els| ==> RowIs(e, els[e])
      ensures |els| <= 8 && forall e :: 0 <= e < |els| ==> |els[e].sig| + |els[e].vendor| < 24
    {
      hide RowIs;
      forall e | 0 <= e < |els|
        ensures |els[e].sig| + |els[e].vendor| < 24
      {
        RowEntries(e, els[e]);
      }
      if els != [] {
        RowEntries(|els| - 1, els[|els| - 1]);
      }
    }

    lemma AllRowEntries(els: seq<Element>)
      requires Valid() && forall e :: 0 <= e < |els| ==> RowIs(e, els[e])
      requires |els| <= 8 && forall e :: 0 <= e < |els| ==> |els[e].sig| + |els[e].vendor| < 24
      ensures forall e, k :: 0 <= e < |els| && 0 <= k < |els[e].sig| ==>
        cid[e, k] == 0xFFFF && models[e, k] == els[e].sig[k]
      ensures forall e, k :: 0 <= e < |els| && |els[e].sig| <= k < |els[e].sig| + |els[e].vendor| ==>
        && cid[e, k] == els[e].vendor[k - |els[e].sig|].company
        && models[e, k] == els[e].vendor[k - |els[e].sig|].id
      ensures forall e, k :: 0 <= e < |els| && k == |els[e].sig| + |els[e].vendor| ==> models[e, k] == 0xFFFF
    {
      hide RowIs;
      forall e, k | 0 <= e < |els| && 0 <= k <= |els[e].sig| + |els[e].vendor|
        ensures k < |els[e].sig| ==> cid[e, k] == 0xFFFF && models[e, k] == els[e].sig[k]
        ensures |els[e].sig| <= k < |els[e].sig| + |els[e].vendor| ==>
          && cid[e, k] == els[e].vendor[k - |els[e].sig|].company
          && models[e, k] == els[e].vendor[k - |els[e].sig|].id
        ensures k == |els[e].sig| + |els[e].vendor| ==> models[e, k] == 0xFFFF
      {
        RowEntries(e, els[e]);
      }
    }

    constructor ()
      ensures Valid() && fresh(models) && fresh(cid)
    {
      models := new word[ELEMENTS, SLOTS];
      cid := new word[ELEMENTS, SLOTS];
      elementNum := 0;
    }

    /** Only row `e` differs from the old tables. */
    twostate predicate OnlyRow(e: nat)
      requires Valid() && unchanged(this)
      reads this, models, cid
    {
      forall r, k {:trigger models[r, k]} {:trigger cid[r, k]} :: 0 <= r < ELEMENTS && 0 <= k < SLOTS && r != e ==>
        models[r, k] == old(models[r, k]) && cid[r, k] == old(cid[r, k])
    }

    /** The loop over the SIG models of an element. */
    method ParseSig(data: seq<byte>, at: nat, nums: nat, e: nat, ghost f: seq<Model>) returns (offset: nat, j: nat)
      requires Valid() && e < ELEMENTS && nums <= |f| < SLOTS && at + 2 * nums <= |data|
      requires forall k :: 0 <= k < nums ==> f[k] == Model(SIG, Word(data, at + 2 * k))
      modifies models, cid
      ensures offset == at + 2 * nums && j == nums && RowHolds(e, f, nums) && OnlyRow(e)
    {
      offset, j := at, 0;
      var i := 0;
      while i < nums
        invariant 0 <= i <= nums && j == i && offset == at + 2 * i && RowHolds(e, f, j) && OnlyRow(e)
      {
        var modelId := Word(data, offset);
        offset := offset + 2;
        models[e, j] := modelId;
        cid[e, j] := SIG;
        j := j + 1;
        i := i + 1;
      }
    }

    /** The loop over the vendor models of an element, and the terminator. */
    method ParseVendor(data: seq<byte>, at: nat, numv: nat, first: nat, e: nat, ghost f: seq<Model>)
      returns (offset: nat)
      requires Valid() && e < ELEMENTS && first + numv == |f| < SLOTS && at + 4 * numv <= |data|
      requires RowHolds(e, f, first)
      requires forall k :: 0 <= k < numv ==> f[first + k] == Model(Word(data, at + 4 * k), Word(data, at + 4 * k + 2))
      modifies models, cid
      ensures offset == at + 4 * numv && RowHolds(e, f, |f|) && models[e, |f|] == TERMINATOR && OnlyRow(e)
    {
      var j := first;
      offset := at;
      var i := 0;
      while i < numv
        invariant 0 <= i <= numv && j == first + i && offset == at + 4 * i && RowHolds(e, f, j) && OnlyRow(e)
      {
        var companyId := Word(data, offset);
        var modelId := Word(data, offset + 2);
        offset := offset + 4;
        models[e, j] := modelId;
        cid[e, j] := companyId;
        assert f[first + i] == Model(companyId, modelId);
        j := j + 1;
        i := i + 1;
      }
      models[e, j] := TERMINATOR;
    }

    /** One round of the outer loop: the element at `at` into row `e`. */
    method ParseElement(data: seq<byte>, at: nat, e: nat) returns (offset: nat)
      requires Valid() && e < ELEMENTS
      requires at + 4 <= |data| && at + ElementLength(data, at) <= |data| && |Flat(GetElement(data, at))| < SLOTS
      modifies models, cid
      ensures offset == at + ElementLength(data, at) && RowIs(e, GetElement(data, at)) && OnlyRow(e)
    {
      hide GetElement;
      hide Flat;
      ghost var f := Flat(GetElement(data, at));
      FlatOfElement(data, at);
      var nums: int := data[at + 2];
      var numv: int := data[at + 3];
      var j;
      offset, j := ParseSig(data, at + 4, nums, e, f);
      offset := ParseVendor(data, offset, numv, j, e, f);
    }

    /** ble_mesh_parse_node_comp_data: the tables hold exactly the elements of the data, which are where
        `StartsAre` and `ElementBytes` say. */
    method ParseCompData(data: seq<byte>)
      requires Valid() && 10 <= |data| < 0x1_0000
      requires GetElements(data, 10).Some? && FitsTables(GetElements(data, 10).value)
      modifies this`elementNum, models, cid
      ensures Valid() && elementNum == |GetElements(data, 10).value|
      ensures forall e :: 0 <= e < elementNum ==> RowIs(e, GetElements(data, 10).value[e])
      ensures models.Length0 == cid.Length0 == 8 && models.Length1 == cid.Length1 == 24
      ensures var els := GetElements(data, 10).value;
        && |els| <= 8 && (forall e :: 0 <= e < |els| ==> |els[e].sig| + |els[e].vendor| < 24)
        && (forall e, k :: 0 <= e < |els| && 0 <= k < |els[e].sig| ==>
              cid[e, k] == 0xFFFF && models[e, k] == els[e].sig[k])
        && (forall e, k :: 0 <= e < |els| && |els[e].sig| <= k < |els[e].sig| + |els[e].vendor| ==>
              && cid[e, k] == els[e].vendor[k - |els[e].sig|].company
              && models[e, k] == els[e].vendor[k - |els[e].sig|].id)
        && (forall e, k :: 0 <= e < |els| && k == |els[e].sig| + |els[e].vendor| ==> models[e, k] == 0xFFFF)
    {
      hide RowIs, GetElement, GetElements, FitsTables;
      ParseElements(data);
      AllRowsFit(GetElements(data, 10).value);
      AllRowEntries(GetElements(data, 10).value);
    }

    /** Its loop over the elements. */
    method ParseElements(data: seq<byte>)
      requires Valid() && 10 <= |data| < 0x1_0000
      requires GetElements(data, 10).Some? && FitsTables(GetElements(data, 10).value)
      modifies this`elementNum, models, cid
      ensures Valid() && elementNum == |GetElements(data, 10).value|
      ensures forall e :: 0 <= e < elementNum ==> RowIs(e, GetElements(data, 10).value[e])
    {
      ghost var els := GetElements(data, 10).value;
      var offset := 10;
      var numElement := 0;
      while offset < |data|
        invariant 10 <= offset <= |data| && numElement <= |els| && GetElements(data, offset) == Some(els[numElement..])
        invariant forall e :: 0 <= e < numElement ==> RowIs(e, els[e])
        decreases |data| - offset
      {
        assert GetElement(data, offset) == els[numElement..][0] == els[numElement];
        ghost var before := numElement;
        offset := ParseElement(data, offset, numElement);
        numElement := numElement + 1;
        assert els[before..][1..] == els[numElement..];
      }
      elementNum := numElement;
    }
  }

  /** From the elements to the tables: what a node encodes as its page fills them. */
  method TablesOf(header: seq<byte>, els: seq<Element>) returns (node: Node)
    requires |header| == 10 && FitsTables(els) && forall e :: 0 <= e < |els| ==> Countable(els[e])
    requires |header + PutElements(els)| < 0x1_0000
    ensures fresh(node) && node.Valid() && node.elementNum == |els|
    ensures forall e :: 0 <= e < |els| ==> node.RowIs(e, els[e])
  {
    PageRoundTrip(header, els);
    node := new Node();
    node.ParseCompData(header + PutElements(els));
  }
}
