/** websocket.c: frames out, frames in.

    `Frame` is the layout of sections 5.2 and 5.3 of RFC 6455 for a final frame.  `Send` builds it
    byte by byte; `Read` parses it from however many pieces the network delivers it in. */
module WebSocket {
  import opened Basics
  import opened Bits

  // ----- masking -----

  function XorByte(a: byte, b: byte): byte {
    XorBelow(a, b, 8);
    Pow2Values();
    Xor(a, b)
  }

  /** A masking key: four bytes. */
  type Key = k: seq<byte> | |k| == 4 witness [0, 0, 0, 0]

  function Masked(msg: seq<byte>, key: Key): (r: seq<byte>)
    ensures |r| == |msg| && forall i :: 0 <= i < |msg| ==> r[i] == Xor(msg[i], key[i % 4])
  {
    seq(|msg|, i requires 0 <= i < |msg| => XorByte(msg[i], key[i % 4]))
  }

  /** Masking twice with the same key gives the message back. */
  lemma MaskedTwice(msg: seq<byte>, key: Key)
    ensures Masked(Masked(msg, key), key) == msg
  {
    forall i | 0 <= i < |msg|
      ensures XorByte(XorByte(msg[i], key[i % 4]), key[i % 4]) == msg[i]
    {
      XorUndoes(msg[i], key[i % 4]);
    }
  }

  // ----- the layout -----

  /** The low `k` bytes of `n`, most significant first. */
  function BigEndian(n: nat, k: nat): (s: seq<byte>)
    ensures |s| == k
  {
    if k == 0 then [] else BigEndian(n / 256, k - 1) + [n % 256]
  }

  function FromBigEndian(s: seq<byte>): nat {
    if s == [] then 0 else
      var low: int := s[|s| - 1];
      256 * FromBigEndian(s[..|s| - 1]) + low
  }

  /** The seven-bit length field. */
  function LenField(len: nat): (field: nat)
    ensures field < 128
  {
    if len <= 125 then len else if len < 0x1_0000 then 126 else 127
  }

  /** How many bytes of extended length follow. */
  function ExtLength(field: nat): nat {
    if field <= 125 then 0 else if field == 126 then 2 else 8
  }

  /** A mask key is there or not. */
  function KeyBytes(mask: Option<Key>): seq<byte> {
    match mask case None => [] case Some(key) => key
  }

  function Payload(msg: seq<byte>, mask: Option<Key>): (r: seq<byte>)
    ensures |r| == |msg|
    ensures forall i :: 0 <= i < |msg| ==> r[i] == if mask.Some? then Xor(msg[i], mask.value[i % 4]) else msg[i]
  {
    match mask case None => msg case Some(key) => Masked(msg, key)
  }

  function FrameHeader(opcode: nat, len: nat, mask: Option<Key>): seq<byte>
    requires opcode < 16
  {
    [128 + opcode, (if mask.Some? then 128 else 0) + LenField(len)] +
    BigEndian(len, ExtLength(LenField(len))) + KeyBytes(mask)
  }

  /** A final frame. */
  function Frame(opcode: nat, msg: seq<byte>, mask: Option<Key>): seq<byte>
    requires opcode < 16
  {
    FrameHeader(opcode, |msg|, mask) + Payload(msg, mask)
  }

  // ----- reading -----

  /** ws_header_t as the first bytes of a chunk determine it. */
  datatype Header = Header(fin: nat, opcode: nat, mask: Option<Key>, length: nat, pos: nat)

  /** The chunk holds the whole header, which the code takes for granted. */
  predicate HoldsHeader(buf: seq<byte>) {
    |buf| >= 2 && |buf| >= HeaderLength(buf)
  }

  function HeaderLength(buf: seq<byte>): nat
    requires |buf| >= 2
  {
    2 + ExtLength(buf[1] % 128) + if buf[1] >= 128 then 4 else 0
  }

  function ParseHeader(buf: seq<byte>): Header
    requires HoldsHeader(buf)
  {
    var field: int := buf[1] % 128;
    var at := 2 + ExtLength(field);
    Header(buf[0] / 128, buf[0] % 16,
           if buf[1] >= 128 then Some(buf[at..at + 4]) else None,
           if field <= 125 then field else FromBigEndian(buf[2..at]),
           HeaderLength(buf))
  }

  /** How a read ends: with a message, with a chunk that holds more than the message lacks, or
      without enough chunks. */
  datatype Outcome = Message(msg: seq<byte>) | Overrun | Starved

  /** The first `need` bytes of `have` and further chunks, and how many of those were taken. */
  function Assemble(have: seq<byte>, need: nat, chunks: seq<seq<byte>>): (r: (Outcome, nat))
    ensures r.1 <= |chunks| && (r.0.Message? ==> |r.0.msg| == need)
    decreases |chunks|
  {
    if |have| >= need then (Message(have[..need]), 0)
    else if chunks == [] then (Starved, 0)
    else if |have| + |chunks[0]| > need then (Overrun, 1)
    else
      var (msg, taken) := Assemble(have + chunks[0], need, chunks[1..]);
      (msg, taken + 1)
  }

  /** What one read makes of the chunks received, and how many it took. */
  function ReadFrame(chunks: seq<seq<byte>>): (r: (Outcome, nat))
    requires chunks != [] && HoldsHeader(chunks[0])
    ensures 1 <= r.1 <= |chunks| && (r.0.Message? ==> |r.0.msg| == ParseHeader(chunks[0]).length)
  {
    var h := ParseHeader(chunks[0]);
    var (msg, taken) := Assemble(chunks[0][h.pos..], h.length, chunks[1..]);
    (if msg.Message? then Message(Payload(msg.msg, h.mask)) else msg, taken + 1)
  }

  // ----- reading undoes writing -----

  lemma {:induction false} FromBigEndianOf(n: nat, k: nat)
    requires n < Pow256(k)
    ensures FromBigEndian(BigEndian(n, k)) == n
  {
    if k > 0 {
      FromBigEndianOf(n / 256, k - 1);
      assert BigEndian(n, k)[..k - 1] == BigEndian(n / 256, k - 1);
    }
  }

  function Pow256(k: nat): nat {
    if k == 0 then 1 else 256 * Pow256(k - 1)
  }

  /** All bytes of the chunks. */
  function Concat(chunks: seq<seq<byte>>): seq<byte> {
    if chunks == [] then [] else chunks[0] + Concat(chunks[1..])
  }

  /** The header of a frame is parsed right from any chunk that holds it, whatever follows. */
  lemma HeaderUndone(opcode: nat, len: nat, mask: Option<Key>, rest: seq<byte>)
    requires opcode < 16 && len < Pow256(8)
    ensures var buf := FrameHeader(opcode, len, mask) + rest;
      && HoldsHeader(buf)
      && ParseHeader(buf) == Header(1, opcode, mask, len, |FrameHeader(opcode, len, mask)|)
  {
    var h := FrameHeader(opcode, len, mask);
    var buf := h + rest;
    var n := ExtLength(LenField(len));
    var key := KeyBytes(mask);
    HeaderParts(opcode, len, mask, rest);
    LengthUndone(len);
    assert buf[1] % 128 == LenField(len) && (buf[1] >= 128 <==> mask.Some?);
    hide FrameHeader, BigEndian, FromBigEndian, LenField, ExtLength;
    assert mask.Some? ==> buf[2 + n..2 + n + 4] == mask.value;
  }

  lemma LengthUndone(len: nat)
    requires len < Pow256(8)
    ensures var field := LenField(len);
      (if field <= 125 then field else FromBigEndian(BigEndian(len, ExtLength(field)))) == len
  {
    hide BigEndian, FromBigEndian;
    if len > 125 {
      assert Pow256(1) == 256;
      assert Pow256(2) == 0x1_0000;
      FromBigEndianOf(len, ExtLength(LenField(len)));
    }
  }

  /** Where the fields of a header are. */
  lemma HeaderParts(opcode: nat, len: nat, mask: Option<Key>, rest: seq<byte>)
    requires opcode < 16
    ensures var buf, n, key := FrameHeader(opcode, len, mask) + rest, ExtLength(LenField(len)), KeyBytes(mask);
      && |FrameHeader(opcode, len, mask)| == 2 + n + |key| <= |buf|
      && buf[0] == 128 + opcode && buf[1] == (if mask.Some? then 128 else 0) + LenField(len)
      && buf[2..2 + n] == BigEndian(len, n) && buf[2 + n..2 + n + |key|] == key
  {
    hide LenField, ExtLength, BigEndian, KeyBytes;
    var field := (if mask.Some? then 128 else 0) + LenField(len);
    var ext, key := BigEndian(len, ExtLength(LenField(len))), KeyBytes(mask);
    var h := [128 + opcode, field] + ext + key;
    assert h + rest == [128 + opcode, field] + (ext + (key + rest));
  }

  /** Pieces that add up to what is needed are put together, exactly. */
  lemma {:induction false} AssembleAll(have: seq<byte>, need: nat, chunks: seq<seq<byte>>, later: seq<seq<byte>>)
    requires |have + Concat(chunks)| == need && forall c :: 0 <= c < |chunks| ==> chunks[c] != []
    ensures Assemble(have, need, chunks + later) == (Message(have + Concat(chunks)), |chunks|)
    decreases |chunks|
  {
    if chunks == [] {
      assert have + [] == have && have[..need] == have;
    } else {
      assert (chunks + later)[1..] == chunks[1..] + later;
      assert (have + chunks[0]) + Concat(chunks[1..]) == have + Concat(chunks);
      AssembleAll(have + chunks[0], need, chunks[1..], later);
    }
  }

  /** `chunks` is the frame cut into nonempty pieces, the first of which holds the whole header. */
  ghost predicate IsSplit(chunks: seq<seq<byte>>, opcode: nat, msg: seq<byte>, mask: Option<Key>)
    requires opcode < 16
  {
    && chunks != [] && Concat(chunks) == Frame(opcode, msg, mask)
    && (forall c :: 0 <= c < |chunks| ==> chunks[c] != [])
    && |chunks[0]| >= |FrameHeader(opcode, |msg|, mask)|
  }

  /** The first piece is the header and the start of the payload. */
  lemma FirstPiece(chunks: seq<seq<byte>>, opcode: nat, msg: seq<byte>, mask: Option<Key>)
    requires opcode < 16 && IsSplit(chunks, opcode, msg, mask)
    ensures var n := |FrameHeader(opcode, |msg|, mask)|;
      && chunks[0] == FrameHeader(opcode, |msg|, mask) + chunks[0][n..]
      && chunks[0][n..] + Concat(chunks[1..]) == Payload(msg, mask)
  {
    hide FrameHeader, Payload;
    JoinedTwice(chunks[0], Concat(chunks[1..]), FrameHeader(opcode, |msg|, mask), Payload(msg, mask));
  }

  /** Two ways to cut the same bytes. */
  lemma JoinedTwice(a: seq<byte>, b: seq<byte>, c: seq<byte>, d: seq<byte>)
    requires a + b == c + d && |c| <= |a|
    ensures a == c + a[|c|..] && a[|c|..] + b == d
  {
    var all := a + b;
    assert a == all[..|a|] && c == all[..|c|] && all[|c|..] == d;
    assert a[..|c|] == c;
    assert a[|c|..] + b == all[|c|..];
  }

  /** However the network cuts a frame, reading it gives the message back, with its opcode and
      length, and takes exactly its pieces. */
  lemma ReadUndoesSend(chunks: seq<seq<byte>>, later: seq<seq<byte>>, opcode: nat, msg: seq<byte>, mask: Option<Key>)
    requires opcode < 16 && |msg| < Pow256(8) && IsSplit(chunks, opcode, msg, mask)
    ensures HoldsHeader(chunks[0])
    ensures ParseHeader(chunks[0]) == Header(1, opcode, mask, |msg|, |FrameHeader(opcode, |msg|, mask)|)
    ensures ReadFrame(chunks + later) == (Message(msg), |chunks|)
  {
    FirstPiece(chunks, opcode, msg, mask);
    hide FrameHeader, Frame, HoldsHeader, ParseHeader, Assemble, ReadFrame, Payload, Concat;
    var n := |FrameHeader(opcode, |msg|, mask)|;
    HeaderUndone(opcode, |msg|, mask, chunks[0][n..]);
    AssembleAll(chunks[0][n..], |msg|, chunks[1..], later);
    assert (chunks + later)[1..] == chunks[1..] + later;
    ReadFrameOf(chunks + later, Message(Payload(msg, mask)), |chunks| - 1);
    PayloadUndone(msg, mask);
  }

  // ----- byte by byte -----

  /** A 64-bit number from its bytes, most significant first. */
  lemma FromEight(s: seq<byte>)
    requires |s| == 8
    ensures FromBigEndian(s[..2]) == s[0] as int * 0x100 + s[1] as int
    ensures FromBigEndian(s) ==
      s[0] as int * 0x100_0000_0000_0000 + s[1] as int * 0x1_0000_0000_0000 +
      s[2] as int * 0x100_0000_0000 + s[3] as int * 0x1_0000_0000 +
      s[4] as int * 0x100_0000 + s[5] as int * 0x1_0000 + s[6] as int * 0x100 + s[7] as int
  {
    hide FromBigEndian;
    NothingFrom(s);
    FromMore(s, 0);
    FromMore(s, 1);
    FromMore(s, 2);
    FromMore(s, 3);
    FromMore(s, 4);
    FromMore(s, 5);
    FromMore(s, 6);
    FromMore(s, 7);
    assert s[..8] == s;
  }

  lemma NothingFrom(s: seq<byte>)
    ensures FromBigEndian(s[..0]) == 0
  {
  }

  lemma FromMore(s: seq<byte>, k: nat)
    requires k < |s|
    ensures FromBigEndian(s[..k + 1]) == FromBigEndian(s[..k]) * 0x100 + s[k] as int
  {
    assert s[..k + 1][..k] == s[..k];
  }

  lemma FromTwo(s: seq<byte>)
    requires |s| == 2
    ensures FromBigEndian(s) == s[0] as int * 0x100 + s[1] as int
  {
    FromEight(s + [0, 0, 0, 0, 0, 0]);
    assert (s + [0, 0, 0, 0, 0, 0])[..2] == s;
  }

  /** The header of a frame: the final bit and the opcode, the mask bit and the shortest of the three
      forms of the length, the length, and the key. */
  lemma HeaderBytes(opcode: nat, len: nat, mask: Option<Key>)
    requires opcode < 16 && len < Pow256(8)
    ensures var p := FrameHeader(opcode, len, mask);
      var ext := if len <= 125 then 0 else if len <= 65535 then 2 else 8;
      && |p| == 2 + ext + (if mask.Some? then 4 else 0)
      && p[0] == 128 + opcode
      && p[1] == (if mask.Some? then 128 else 0) + (if len <= 125 then len else if len <= 65535 then 126 else 127)
      && (ext == 2 ==> len == p[2] as int * 0x100 + p[3] as int)
      && (ext == 8 ==>
            len ==
            p[2] as int * 0x100_0000_0000_0000 + p[3] as int * 0x1_0000_0000_0000 +
            p[4] as int * 0x100_0000_0000 + p[5] as int * 0x1_0000_0000 +
            p[6] as int * 0x100_0000 + p[7] as int * 0x1_0000 + p[8] as int * 0x100 + p[9] as int)
      && (mask.Some? ==> p[2 + ext..] == mask.value)
  {
    var p, ext := FrameHeader(opcode, len, mask), ExtLength(LenField(len));
    HeaderParts(opcode, len, mask, []);
    assert p + [] == p;
    LengthUndone(len);
    if ext == 2 {
      FromTwo(p[2..4]);
    } else if ext == 8 {
      FromEight(p[2..10]);
    }
  }

  /** What is read of a header. */
  lemma ParsedBytes(buf: seq<byte>)
    requires HoldsHeader(buf)
    ensures var h, field: int := ParseHeader(buf), buf[1] % 128;
      var ext := if field <= 125 then 0 else if field == 126 then 2 else 8;
      && h.fin == buf[0] / 128 && h.opcode == buf[0] % 16
      && h.pos == 2 + ext + (if buf[1] >= 128 then 4 else 0) <= |buf|
      && h.mask == (if buf[1] >= 128 then Some(buf[2 + ext..6 + ext]) else None)
      && (ext == 0 ==> h.length == field)
      && (ext == 2 ==> h.length == buf[2] as int * 0x100 + buf[3] as int)
      && (ext == 8 ==>
            h.length ==
            buf[2] as int * 0x100_0000_0000_0000 + buf[3] as int * 0x1_0000_0000_0000 +
            buf[4] as int * 0x100_0000_0000 + buf[5] as int * 0x1_0000_0000 +
            buf[6] as int * 0x100_0000 + buf[7] as int * 0x1_0000 + buf[8] as int * 0x100 + buf[9] as int)
  {
    if buf[1] % 128 == 126 {
      FromTwo(buf[2..4]);
    } else if buf[1] % 128 == 127 {
      FromEight(buf[2..10]);
    }
  }

  // ----- what any cut does -----

  /** How many chunks it takes for `n` bytes; all of them, if they do not hold as many. */
  function Reach(chunks: seq<seq<byte>>, n: nat): (k: nat)
    ensures k <= |chunks|
  {
    if n == 0 || chunks == [] then 0
    else if |chunks[0]| >= n then 1
    else 1 + Reach(chunks[1..], n - |chunks[0]|)
  }

  lemma {:induction false} ConcatFirst(chunks: seq<seq<byte>>, k: nat)
    requires 0 < k <= |chunks|
    ensures Concat(chunks[..k]) == chunks[0] + Concat(chunks[1..][..k - 1])
  {
    assert chunks[..k][1..] == chunks[1..][..k - 1];
  }

  lemma {:induction false} ConcatSplit(chunks: seq<seq<byte>>, k: nat)
    requires k <= |chunks|
    ensures Concat(chunks[..k]) + Concat(chunks[k..]) == Concat(chunks)
    decreases k
  {
    if k > 0 {
      ConcatSplit(chunks[1..], k - 1);
      ConcatFirst(chunks, k);
    } else {
      assert chunks[0..] == chunks;
    }
  }

  /** It takes that many and no fewer. */
  lemma {:induction false} ReachIsLeast(chunks: seq<seq<byte>>, n: nat, k: nat)
    requires n <= |Concat(chunks)| && k <= |chunks|
    ensures n <= |Concat(chunks[..Reach(chunks, n)])|
    ensures n <= |Concat(chunks[..k])| ==>
      Reach(chunks, n) <= k && |Concat(chunks[..Reach(chunks, n)])| <= |Concat(chunks[..k])|
    decreases |chunks|
  {
    if n > 0 {
      ConcatFirst(chunks, Reach(chunks, n));
      if k > 0 {
        ConcatFirst(chunks, k);
      }
      if |chunks[0]| < n {
        ReachIsLeast(chunks[1..], n - |chunks[0]|, if k > 0 then k - 1 else 0);
      }
    }
  }

  /** The loop takes as many chunks as it needs, and fails if those hold more. */
  lemma {:induction false} AssembleIs(have: seq<byte>, need: nat, chunks: seq<seq<byte>>)
    requires |have| < need <= |have + Concat(chunks)|
    ensures var k := Reach(chunks, need - |have|);
      Assemble(have, need, chunks) ==
        (if |have + Concat(chunks[..k])| == need then Message(have + Concat(chunks[..k])) else Overrun, k)
    decreases |chunks|
  {
    ConcatFirst(chunks, Reach(chunks, need - |have|));
    var more := have + chunks[0];
    if |more| >= need {
      assert Concat(chunks[1..][..0]) == [] && chunks[0] + [] == chunks[0];
      assert more[..|more|] == more;
    } else if |more| < need {
      assert more + Concat(chunks[1..]) == have + Concat(chunks);
      AssembleIs(more, need, chunks[1..]);
      var k := Reach(chunks[1..], need - |more|);
      assert more + Concat(chunks[1..][..k]) == have + (chunks[0] + Concat(chunks[1..][..k]));
    }
  }

  /** Chunks that are too few are not enough for the loop. */
  lemma {:induction false} TooFewStarve(have: seq<byte>, need: nat, chunks: seq<seq<byte>>)
    requires |have + Concat(chunks)| < need
    ensures Assemble(have, need, chunks).0.Starved?
    decreases |chunks|
  {
    if chunks != [] {
      TooFewStarve(have + chunks[0], need, chunks[1..]);
    }
  }

  /** The length of the frame whose header a chunk begins with, whatever it is the header of. */
  function FrameLength(first: seq<byte>): (n: nat)
    requires HoldsHeader(first)
    ensures n >= 2
  {
    HeaderLength(first) + ParseHeader(first).length
  }

  /** What becomes of a read is a matter of lengths, whatever the chunks after the header hold.  It runs
      out if they are shorter than the frame announced.  Otherwise it takes as many as hold that, and it
      overruns if those are several and hold more. */
  lemma {:induction false} ReadGoesByLength(chunks: seq<seq<byte>>)
    requires chunks != [] && HoldsHeader(chunks[0])
    ensures var n := FrameLength(chunks[0]);
      var k := Reach(chunks, n);
      && (ReadFrame(chunks).0.Starved? <==> |Concat(chunks)| < n)
      && (n <= |Concat(chunks)| ==> ReadFrame(chunks).1 == k)
      && (ReadFrame(chunks).0.Overrun? <==> n <= |Concat(chunks)| && k > 1 && n < |Concat(chunks[..k])|)
  {
    var h := ParseHeader(chunks[0]);
    hide ParseHeader, HoldsHeader, HeaderLength;
    var first, more, need := chunks[0][h.pos..], chunks[1..], h.length;
    if |first| < need {
      if |Concat(chunks)| < FrameLength(chunks[0]) {
        TooFewStarve(first, need, more);
      } else {
        AssembleIs(first, need, more);
        ReachIsLeast(more, need - |first|, 0);
        ConcatFirst(chunks, Reach(chunks, FrameLength(chunks[0])));
      }
    }
  }

  /** What is put together are the bytes of the chunks. */
  lemma {:induction false} AssembledBytes(have: seq<byte>, need: nat, chunks: seq<seq<byte>>)
    requires Assemble(have, need, chunks).0.Message?
    ensures need <= |have + Concat(chunks)|
    ensures Assemble(have, need, chunks).0.msg == (have + Concat(chunks))[..need]
    decreases |chunks|
  {
    if |have| >= need {
      assert (have + Concat(chunks))[..need] == have[..need];
    } else {
      AssembledBytes(have + chunks[0], need, chunks[1..]);
      assert (have + chunks[0]) + Concat(chunks[1..]) == have + Concat(chunks);
    }
  }

  /** The message are the bytes behind the header, each combined with its byte of the key if there is one. */
  lemma {:induction false} MessageBytes(chunks: seq<seq<byte>>)
    requires chunks != [] && HoldsHeader(chunks[0]) && ReadFrame(chunks).0.Message?
    ensures var h, msg, all := ParseHeader(chunks[0]), ReadFrame(chunks).0.msg, Concat(chunks);
      && |msg| == h.length && h.pos + |msg| <= |all|
      && (h.mask.None? ==> forall i :: 0 <= i < |msg| ==> msg[i] == all[h.pos + i])
      && (h.mask.Some? ==> forall i :: 0 <= i < |msg| ==> msg[i] == Xor(all[h.pos + i], h.mask.value[i % 4]))
  {
    var h := ParseHeader(chunks[0]);
    ParsedBytes(chunks[0]);
    hide HoldsHeader, ParseHeader;
    var first, more := chunks[0][h.pos..], chunks[1..];
    AssembledBytes(first, h.length, more);
    var all := Concat(chunks);
    forall i | 0 <= i < h.length
      ensures (first + Concat(more))[..h.length][i] == all[h.pos + i]
    {
    }
  }

  /** The chunks begin with a frame, whose header is in the first of them. */
  ghost predicate Begins(chunks: seq<seq<byte>>, rest: seq<byte>, opcode: nat, msg: seq<byte>, mask: Option<Key>) {
    && opcode < 16 && |msg| < Pow256(8)
    && chunks != [] && Concat(chunks) == Frame(opcode, msg, mask) + rest
    && |chunks[0]| >= |FrameHeader(opcode, |msg|, mask)|
  }

  /** The first chunk is the header and something of what follows. */
  lemma {:induction false} BeginsWithHeader(chunks: seq<seq<byte>>, rest: seq<byte>,
                                            opcode: nat, msg: seq<byte>, mask: Option<Key>)
    requires Begins(chunks, rest, opcode, msg, mask)
    ensures var h := FrameHeader(opcode, |msg|, mask);
      && h <= chunks[0]
      && chunks[0][|h|..] + Concat(chunks[1..]) == Payload(msg, mask) + rest
      && HoldsHeader(chunks[0]) && ParseHeader(chunks[0]) == Header(1, opcode, mask, |msg|, |h|)
  {
    hide FrameHeader, Payload, HoldsHeader, ParseHeader;
    var h := FrameHeader(opcode, |msg|, mask);
    assert Frame(opcode, msg, mask) + rest == h + (Payload(msg, mask) + rest);
    JoinedTwice(chunks[0], Concat(chunks[1..]), h, Payload(msg, mask) + rest);
    HeaderUndone(opcode, |msg|, mask, chunks[0][|h|..]);
  }

  lemma Prefix(a: seq<byte>, b: seq<byte>, c: seq<byte>, d: seq<byte>)
    requires a + b == c + d && |c| <= |a|
    ensures a[..|c|] == c
  {
    assert a[..|c|] == (a + b)[..|c|] == (c + d)[..|c|] == c;
  }

  /** The loop behind the header `h`. */
  lemma {:induction false} BodyIs(chunks: seq<seq<byte>>, rest: seq<byte>, h: seq<byte>, body: seq<byte>)
    requires chunks != [] && h != [] && h <= chunks[0]
    requires chunks[0][|h|..] + Concat(chunks[1..]) == body + rest
    ensures var k := Reach(chunks, |h + body|);
      && k > 0
      && Assemble(chunks[0][|h|..], |body|, chunks[1..]) ==
           (if k == 1 || Concat(chunks[..k]) == h + body then Message(body) else Overrun, k - 1)
  {
    var first, more := chunks[0][|h|..], chunks[1..];
    if |first| >= |body| {
      Prefix(first, Concat(more), body, rest);
    } else {
      hide Concat;
      AssembleIs(first, |body|, more);
      TakenIsFrame(chunks, rest, h, body, Reach(more, |body| - |first|));
    }
  }

  /** The first `k + 1` chunks are the frame exactly if they are as long. */
  lemma {:induction false} TakenIsFrame(chunks: seq<seq<byte>>, rest: seq<byte>, h: seq<byte>, body: seq<byte>, k: nat)
    requires k < |chunks| && h <= chunks[0]
    requires chunks[0][|h|..] + Concat(chunks[1..]) == body + rest
    ensures var have := chunks[0][|h|..] + Concat(chunks[1..][..k]);
      && Concat(chunks[..k + 1]) == h + have
      && (|have| == |body| <==> h + have == h + body) && (|have| == |body| ==> have == body)
  {
    ConcatFirst(chunks, k + 1);
    ConcatSplit(chunks[1..], k);
    var first := chunks[0][|h|..];
    var have := first + Concat(chunks[1..][..k]);
    assert chunks[0] + Concat(chunks[1..][..k]) == h + have;
    if |have| == |body| {
      assert have + Concat(chunks[1..][k..]) == first + Concat(chunks[1..]);
      Prefix(have, Concat(chunks[1..][k..]), body, rest);
      assert have[..|body|] == have;
    }
  }

  lemma FrameIs(opcode: nat, msg: seq<byte>, mask: Option<Key>)
    requires opcode < 16
    ensures Frame(opcode, msg, mask) == FrameHeader(opcode, |msg|, mask) + Payload(msg, mask)
    ensures FrameHeader(opcode, |msg|, mask) != []
  {
  }

  /** What the loop makes of chunks that begin with a frame. */
  lemma {:induction false} FrameAssembled(chunks: seq<seq<byte>>, rest: seq<byte>,
                                          opcode: nat, msg: seq<byte>, mask: Option<Key>)
    requires Begins(chunks, rest, opcode, msg, mask)
    ensures var f, n := Frame(opcode, msg, mask), |FrameHeader(opcode, |msg|, mask)|;
      var k := Reach(chunks, |f|);
      && k > 0
      && Assemble(chunks[0][n..], |msg|, chunks[1..]) ==
           (if k == 1 || Concat(chunks[..k]) == f then Message(Payload(msg, mask)) else Overrun, k - 1)
  {
    FrameIs(opcode, msg, mask);
    hide FrameHeader, Frame, HoldsHeader, ParseHeader, Assemble, Concat, Reach, Payload;
    BeginsWithHeader(chunks, rest, opcode, msg, mask);
    BodyIs(chunks, rest, FrameHeader(opcode, |msg|, mask), Payload(msg, mask));
  }

  /** However chunks that begin with a frame are cut: a read takes as many as hold the frame, and it
      returns the message if that is one chunk or if the frame ends with the last of them.  Otherwise
      the message is lost. */
  lemma {:induction false} ReadIs(chunks: seq<seq<byte>>, rest: seq<byte>,
                                  opcode: nat, msg: seq<byte>, mask: Option<Key>)
    requires Begins(chunks, rest, opcode, msg, mask)
    ensures HoldsHeader(chunks[0])
    ensures var f := Frame(opcode, msg, mask);
      var k := Reach(chunks, |f|);
      ReadFrame(chunks) == (if k == 1 || Concat(chunks[..k]) == f then Message(msg) else Overrun, k)
  {
    hide *;
    FrameParsed(chunks, rest, opcode, msg, mask);
    FrameAssembled(chunks, rest, opcode, msg, mask);
    var f := Frame(opcode, msg, mask);
    var k := Reach(chunks, |f|);
    PayloadUndone(msg, mask);
    if k == 1 || Concat(chunks[..k]) == f {
      ReadFrameOf(chunks, Message(Payload(msg, mask)), k - 1);
    } else {
      ReadFrameOf(chunks, Overrun, k - 1);
    }
  }

  lemma {:induction false} FrameParsed(chunks: seq<seq<byte>>, rest: seq<byte>,
                                       opcode: nat, msg: seq<byte>, mask: Option<Key>)
    requires Begins(chunks, rest, opcode, msg, mask)
    ensures opcode < 16 && HoldsHeader(chunks[0]) && ParseHeader(chunks[0]).pos <= |chunks[0]|
    ensures ParseHeader(chunks[0]) == Header(1, opcode, mask, |msg|, |FrameHeader(opcode, |msg|, mask)|)
  {
    BeginsWithHeader(chunks, rest, opcode, msg, mask);
  }

  lemma {:induction false} ReadFrameOf(chunks: seq<seq<byte>>, got: Outcome, taken: nat)
    requires chunks != [] && HoldsHeader(chunks[0])
    requires var h := ParseHeader(chunks[0]);
      h.pos <= |chunks[0]| && Assemble(chunks[0][h.pos..], h.length, chunks[1..]) == (got, taken)
    ensures ReadFrame(chunks) ==
      (if got.Message? then Message(Payload(got.msg, ParseHeader(chunks[0]).mask)) else got, taken + 1)
  {
  }

  lemma {:induction false} PayloadUndone(msg: seq<byte>, mask: Option<Key>)
    ensures Payload(Payload(msg, mask), mask) == msg
  {
    if mask.Some? {
      MaskedTwice(msg, mask.value);
    }
  }

  /** A read gives the message back and leaves what follows it if and only if the frame ends with a
      chunk. */
  lemma {:induction false} ReadsBackIff(chunks: seq<seq<byte>>, rest: seq<byte>,
                                        opcode: nat, msg: seq<byte>, mask: Option<Key>)
    requires Begins(chunks, rest, opcode, msg, mask)
    ensures HoldsHeader(chunks[0])
    ensures ReadFrame(chunks).0 == Message(msg) && Concat(chunks[ReadFrame(chunks).1..]) == rest <==>
      exists n :: 0 <= n <= |chunks| && Concat(chunks[..n]) == Frame(opcode, msg, mask)
  {
    ReadIs(chunks, rest, opcode, msg, mask);
    hide ReadFrame, Frame, HoldsHeader;
    var f := Frame(opcode, msg, mask);
    var k := Reach(chunks, |f|);
    ConcatSplit(chunks, k);
    var all := Concat(chunks);
    ReachIsLeast(chunks, |f|, k);
    assert Concat(chunks[..k]) == all[..|Concat(chunks[..k])|];
    if |Concat(chunks[..k])| == |f| {
      assert all[..|f|] == f;
      assert Concat(chunks[k..]) == all[|f|..] == rest;
    }
    forall n | 0 <= n <= |chunks| && Concat(chunks[..n]) == f
      ensures Concat(chunks[..k]) == f
    {
      ReachIsLeast(chunks, |f|, n);
      assert Concat(chunks[..k]) == all[..|f|] == f;
    }
  }

  /** What follows a frame within its only chunk is lost: the chunk is taken whole. */
  lemma RestOfChunkIsLost(rest: seq<byte>, later: seq<seq<byte>>, opcode: nat, msg: seq<byte>, mask: Option<Key>)
    requires opcode < 16 && |msg| < Pow256(8)
    ensures HoldsHeader(Frame(opcode, msg, mask) + rest)
    ensures ReadFrame([Frame(opcode, msg, mask) + rest] + later) == (Message(msg), 1)
  {
    var chunks := [Frame(opcode, msg, mask) + rest] + later;
    assert chunks[1..] == later;
    assert Concat(chunks) == Frame(opcode, msg, mask) + (rest + Concat(later));
    ReadIs(chunks, rest + Concat(later), opcode, msg, mask);
  }

  /** What follows a frame within the last of several chunks costs the frame itself. */
  lemma OverrunLosesFrame(a: seq<byte>, b: seq<byte>, rest: seq<byte>, later: seq<seq<byte>>,
                          opcode: nat, msg: seq<byte>, mask: Option<Key>)
    requires opcode < 16 && |msg| < Pow256(8) && a + b == Frame(opcode, msg, mask) && b != [] && rest != []
    requires |a| >= |FrameHeader(opcode, |msg|, mask)|
    ensures HoldsHeader(a)
    ensures ReadFrame([a, b + rest] + later) == (Overrun, 2)
  {
    hide Frame, FrameHeader, ReadFrame, HoldsHeader;
    var chunks, f := [a, b + rest] + later, Frame(opcode, msg, mask);
    assert chunks[1..] == [b + rest] + later && chunks[1..][1..] == later;
    assert Concat(chunks[1..]) == (b + rest) + Concat(later);
    assert a + ((b + rest) + Concat(later)) == f + (rest + Concat(later));
    ReadIs(chunks, rest + Concat(later), opcode, msg, mask);
    ConcatFirst(chunks, 2);
    assert chunks[1..][..1] == [b + rest];
    assert Concat([b + rest]) == (b + rest) + [];
    assert |f| == |a| + |b| && |Concat(chunks[..2])| > |f|;
  }

  // ----- the code -----

  /** The connection: the chunks received and not yet taken, and the packets written. */
  class Conn {
    var rx: seq<seq<byte>>
    var tx: seq<seq<byte>>

    constructor ()
      ensures rx == [] && tx == []
    {
      rx, tx := [], [];
    }

    /** netconn_recv, which fails when there is nothing more to come. */
    method Recv() returns (ok: bool, chunk: seq<byte>)
      modifies this`rx
      ensures ok == (old(rx) != [])
      ensures ok ==> chunk == old(rx)[0] && rx == old(rx)[1..]
      ensures !ok ==> rx == old(rx)
    {
      ok, chunk := rx != [], [];
      if ok {
        chunk, rx := rx[0], rx[1..];
      }
    }

    /** netconn_write with NETCONN_COPY. */
    method Write(packet: seq<byte>)
      modifies this`tx
      ensures tx == old(tx) + [packet]
    {
      tx := tx + [packet];
    }
  }

  /** ws_encrypt_decrypt on the first `length` bytes. */
  method EncryptDecrypt(msg: array<byte>, length: nat, mask: Option<Key>)
    requires length <= msg.Length
    modifies msg
    ensures msg[..length] == Payload(old(msg[..length]), mask)
    ensures mask.None? ==> msg[..] == old(msg[..])
    ensures mask.Some? ==> forall i :: 0 <= i < length ==> msg[i] == Xor(old(msg[i]), mask.value[i % 4])
    ensures msg[length..] == old(msg[length..])
  {
    if mask.Some? {
      var i := 0;
      while i < length
        invariant 0 <= i <= length
        invariant forall k :: 0 <= k < i ==> msg[k] == XorByte(old(msg[k]), mask.value[k % 4])
        invariant forall k :: i <= k < msg.Length ==> msg[k] == old(msg[k])
      {
        msg[i] := XorByte(msg[i], mask.value[i % 4]);
        i := i + 1;
      }
    }
  }

  /** A frame is its header and the message, each byte combined with its byte of the key. */
  lemma FrameBytes(opcode: nat, msg: seq<byte>, mask: Option<Key>)
    requires opcode < 16 && |msg| < 0x1_0000_0000
    ensures var p, len := Frame(opcode, msg, mask), |msg|;
      var ext := if len <= 125 then 0 else if len <= 65535 then 2 else 8;
      var pos := 2 + ext + if mask.Some? then 4 else 0;
      && |p| == pos + len
      && p[0] == 128 + opcode
      && p[1] == (if mask.Some? then 128 else 0) + (if len <= 125 then len else if len <= 65535 then 126 else 127)
      && (mask.None? ==> p[pos..] == msg)
      && (mask.Some? ==> p[2 + ext..pos] == mask.value)
      && (mask.Some? ==> forall i :: 0 <= i < len ==> p[pos + i] == Xor(msg[i], mask.value[i % 4]))
  {
    assert Pow256(4) == 0x1_0000_0000;
    assert 0x1_0000_0000 <= Pow256(8);
    hide FrameHeader, Payload;
    HeaderBytes(opcode, |msg|, mask);
    var h := FrameHeader(opcode, |msg|, mask);
    assert Frame(opcode, msg, mask)[|h|..] == Payload(msg, mask);
    assert Frame(opcode, msg, mask)[..|h|] == h;
  }

  lemma BigEndianTwo(n: nat)
    ensures BigEndian(n, 2) == [(n / 256) % 256, n % 256]
  {
    assert BigEndian(n / 256, 1) == BigEndian(n / 256 / 256, 0) + [(n / 256) % 256];
  }

  /** Dividing by 256 over and over is shifting right byte by byte. */
  lemma Shifts(n: nat)
    ensures n / 0x100 / 0x100 == n / 0x1_0000
    ensures n / 0x1_0000 / 0x100 == n / 0x100_0000
    ensures n / 0x100_0000 / 0x100 == n / 0x1_0000_0000
    ensures n / 0x1_0000_0000 / 0x100 == n / 0x100_0000_0000
    ensures n / 0x100_0000_0000 / 0x100 == n / 0x1_0000_0000_0000
    ensures n / 0x1_0000_0000_0000 / 0x100 == n / 0x100_0000_0000_0000
  {
  }

  /** The bytes of the 64-bit length, as the code takes them out by shifts. */
  lemma BigEndianEight(n: nat)
    ensures BigEndian(n, 8) ==
      [(n / 0x100_0000_0000_0000) % 256, (n / 0x1_0000_0000_0000) % 256,
       (n / 0x100_0000_0000) % 256, (n / 0x1_0000_0000) % 256,
       (n / 0x100_0000) % 256, (n / 0x1_0000) % 256, (n / 0x100) % 256, n % 256]
  {
    Shifts(n);
    BigEndianTwo(n / 0x1_0000_0000_0000);
    assert BigEndian(n / 0x100_0000_0000, 3) == BigEndian(n / 0x1_0000_0000_0000, 2) + [(n / 0x100_0000_0000) % 256];
    assert BigEndian(n / 0x1_0000_0000, 4) == BigEndian(n / 0x100_0000_0000, 3) + [(n / 0x1_0000_0000) % 256];
    assert BigEndian(n / 0x100_0000, 5) == BigEndian(n / 0x1_0000_0000, 4) + [(n / 0x100_0000) % 256];
    assert BigEndian(n / 0x1_0000, 6) == BigEndian(n / 0x100_0000, 5) + [(n / 0x1_0000) % 256];
    assert BigEndian(n / 0x100, 7) == BigEndian(n / 0x1_0000, 6) + [(n / 0x100) % 256];
    assert BigEndian(n, 8) == BigEndian(n / 0x100, 7) + [n % 256];
  }

  /** memcpy of `src` to `&dst[at]`. */
  method Memcpy(dst: array<byte>, at: nat, src: seq<byte>)
    requires at + |src| <= dst.Length
    modifies dst
    ensures dst[..at] == old(dst[..at]) && dst[at..at + |src|] == src && dst[at + |src|..] == old(dst[at + |src|..])
  {
    var i := 0;
    while i < |src|
      invariant 0 <= i <= |src|
      invariant dst[..at] == old(dst[..at]) && dst[at..at + i] == src[..i]
      invariant dst[at + |src|..] == old(dst[at + |src|..])
    {
      dst[at + i] := src[i];
      i := i + 1;
    }
  }

  /** The length bytes of the header, one by one. */
  method PutLength(out: array<byte>, len: nat) returns (pos: nat)
    requires out.Length >= 2 + ExtLength(LenField(len))
    modifies out
    ensures pos == 2 + ExtLength(LenField(len)) && out[..pos] == old(out[..2]) + BigEndian(len, pos - 2)
  {
    pos := 2;
    var field := LenField(len);
    if field == 126 {
      out[2], out[3] := (len / 256) % 256, len % 256;
      pos := 4;
      BigEndianTwo(len);
    }
    if field == 127 {
      out[2], out[3] := (len / 0x100_0000_0000_0000) % 256, (len / 0x1_0000_0000_0000) % 256;
      out[4], out[5] := (len / 0x100_0000_0000) % 256, (len / 0x1_0000_0000) % 256;
      out[6], out[7] := (len / 0x100_0000) % 256, (len / 0x1_0000) % 256;
      out[8], out[9] := (len / 0x100) % 256, len % 256;
      pos := 10;
      BigEndianEight(len);
    }
  }

  /** The two fixed bytes, the length and the key; `pos` is where the message goes. */
  method PutHeader(out: array<byte>, opcode: nat, len: nat, mask: Option<Key>) returns (pos: nat)
    requires opcode < 16 && out.Length >= |FrameHeader(opcode, len, mask)|
    modifies out
    ensures pos == |FrameHeader(opcode, len, mask)| && out[..pos] == FrameHeader(opcode, len, mask)
  {
    hide LenField, ExtLength, BigEndian;
    out[0], out[1] := 128 + opcode, (if mask.Some? then 128 else 0) + LenField(len);
    assert out[..2] == [128 + opcode, (if mask.Some? then 128 else 0) + LenField(len)];
    pos := PutLength(out, len);
    ghost var lead := out[..pos];
    if mask.Some? {
      Memcpy(out, pos, mask.value);
      assert out[..pos + 4] == out[..pos] + out[pos..pos + 4];
      pos := pos + 4;
    } else {
      assert lead + [] == lead;
    }
  }

  /** The packet of ws_send. */
  method Build(opcode: nat, msg: seq<byte>, mask: Option<Key>) returns (out: array<byte>)
    requires opcode < 16 && |msg| + 14 < 0x1_0000_0000
    ensures fresh(out) && out[..] == Frame(opcode, msg, mask)
  {
    var len := |msg|;
    var trueLen := 2 + ExtLength(LenField(len)) + (if mask.Some? then 4 else 0) + len;
    hide LenField, ExtLength, BigEndian;
    var body := msg;
    if mask.Some? {
      var encrypt := new byte[len];
      Memcpy(encrypt, 0, msg);
      assert encrypt[..len] == msg;
      EncryptDecrypt(encrypt, len, mask);
      body := encrypt[..len];
    }
    assert body == Payload(msg, mask);
    hide Payload;
    out := new byte[trueLen];
    var pos := PutHeader(out, opcode, len, mask);
    ghost var lead := out[..pos];
    Memcpy(out, pos, body);
    assert out[..] == lead + out[pos..pos + len];
  }

  /** ws_send.  `mask` is the random key if the message is to be masked. */
  method Send(conn: Conn, opcode: nat, msg: seq<byte>, mask: Option<Key>)
    requires opcode < 16 && |msg| + 14 < 0x1_0000_0000
    modifies conn`tx
    ensures conn.tx == old(conn.tx) + [Frame(opcode, msg, mask)]
    ensures |conn.tx| == |old(conn.tx)| + 1 &&
      var p, len := conn.tx[|old(conn.tx)|], |msg|;
      var ext := if len <= 125 then 0 else if len <= 65535 then 2 else 8;
      var pos := 2 + ext + if mask.Some? then 4 else 0;
      && |p| == pos + len
      && p[0] == 128 + opcode
      && p[1] == (if mask.Some? then 128 else 0) + (if len <= 125 then len else if len <= 65535 then 126 else 127)
      && (mask.None? ==> p[pos..] == msg)
      && (mask.Some? ==> p[2 + ext..pos] == mask.value)
      && (mask.Some? ==> forall i :: 0 <= i < len ==> p[pos + i] == Xor(msg[i], mask.value[i % 4]))
  {
    hide *;
    var out := Build(opcode, msg, mask);
    conn.Write(out[..]);
    FrameBytes(opcode, msg, mask);
  }

  const CONT := 0
  const TEXT := 1
  const BIN := 2

  /** A read of these chunks takes in a fragment: a frame that is not final. */
  predicate IsFragment(chunks: seq<seq<byte>>, canAlloc: bool) {
    && canAlloc && chunks != [] && HoldsHeader(chunks[0])
    && ParseHeader(chunks[0]).fin == 0 && ReadFrame(chunks).0.Message?
  }

  /** What becomes of a fragment: the first one is kept, of later ones only the length counts. */
  predicate FragmentKept(h: Header, msg: seq<byte>, last: nat, contin: seq<byte>, last': nat, contin': seq<byte>) {
    if h.opcode == CONT && (last == BIN || last == TEXT) then last' == last && |contin'| == |contin| + |msg|
    else if h.opcode == BIN || h.opcode == TEXT then last' == h.opcode && contin' == msg
    else last' == last && contin' == contin
  }

  /** ws_client_t. */
  class Client {
    const conn: Conn
    var unfinished: nat
    var lastOpcode: nat
    var contin: seq<byte>    // with its length, client->len

    /** ws_connect_client. */
    constructor (conn: Conn)
      ensures this.conn == conn && unfinished == 0 && lastOpcode == 0 && contin == []
    {
      this.conn := conn;
      unfinished, lastOpcode, contin := 0, 0, [];
    }

    /** What the code takes for granted: a read starts at a header, whose length fits the memory. */
    predicate Readable()
      reads this, conn
    {
      unfinished == 0 && conn.rx != [] ==>
        && HoldsHeader(conn.rx[0])
        && |contin| + ParseHeader(conn.rx[0]).length + 1 < 0x1_0000_0000
    }

    /** ws_read.  `canAlloc` says whether the memory for the message can be had. */
    method Read(canAlloc: bool) returns (msg: Option<seq<byte>>, header: Option<Header>)
      requires Readable()
      modifies this, conn`rx
      ensures old(unfinished) > 0 ==> unfinished == old(unfinished) - 1 && conn.rx == old(conn.rx) && msg == None
      ensures old(unfinished) == 0 && old(conn.rx) == [] ==> unfinished == 0 && conn.rx == [] && msg == None
      ensures old(unfinished) == 0 && old(conn.rx) != [] ==> header == Some(ParseHeader(old(conn.rx)[0]))
      ensures msg.Some? ==>
        && old(conn.rx) != [] && header.Some? && header.value.fin == 1
        && var h, all := header.value, Concat(old(conn.rx));
        && |msg.value| == h.length && h.pos + h.length <= |all|
        && (h.mask.None? ==> forall i :: 0 <= i < |msg.value| ==> msg.value[i] == all[h.pos + i])
        && (h.mask.Some? ==>
              forall i :: 0 <= i < |msg.value| ==> msg.value[i] == Xor(all[h.pos + i], h.mask.value[i % 4]))
      ensures old(unfinished) == 0 && old(conn.rx) != [] && canAlloc ==>
        var (m, taken) := ReadFrame(old(conn.rx));
        && msg == (if m.Message? && header.value.fin == 1 then Some(m.msg) else None)
        && conn.rx == old(conn.rx)[taken..] && unfinished == if m.Message? then taken - 1 else 0
      ensures old(unfinished) == 0 && old(conn.rx) != [] && !canAlloc ==>
        unfinished == 0 && conn.rx == old(conn.rx)[1..] && msg == None
      ensures old(unfinished) == 0 && IsFragment(old(conn.rx), canAlloc) ==>
        FragmentKept(ParseHeader(old(conn.rx)[0]), ReadFrame(old(conn.rx)).0.msg,
                     old(lastOpcode), old(contin), lastOpcode, contin)
      ensures !(old(unfinished) == 0 && IsFragment(old(conn.rx), canAlloc)) ==>
        contin == old(contin) && lastOpcode == if msg.Some? then header.value.opcode else old(lastOpcode)
    {
      hide ReadFrame, ParseHeader, HoldsHeader, FragmentKept, Concat;
      msg, header := None, None;
      if unfinished > 0 {
        unfinished := unfinished - 1;
        return;
      }
      var ok, buf := conn.Recv();
      if !ok {
        return;
      }
      var h := ParseHeader(buf);
      header := Some(h);
      if !canAlloc {
        return;
      }
      msg := Take(buf, h);
      assert old(conn.rx) == [buf] + old(conn.rx)[1..];
      if msg.Some? {
        MessageBytes(old(conn.rx));
      }
    }

    /** ws_read with memory for the message, once the first chunk `buf` has come. */
    method Take(buf: seq<byte>, h: Header) returns (msg: Option<seq<byte>>)
      requires unfinished == 0 && HoldsHeader(buf) && h == ParseHeader(buf)
      requires |contin| + h.length + 1 < 0x1_0000_0000
      modifies this, conn`rx
      ensures var (m, taken) := ReadFrame([buf] + old(conn.rx));
        && msg == (if m.Message? && h.fin == 1 then Some(m.msg) else None)
        && conn.rx == old(conn.rx)[taken - 1..] && unfinished == (if m.Message? then taken - 1 else 0)
        && (if m.Message? && h.fin == 0 then
              FragmentKept(h, m.msg, old(lastOpcode), old(contin), lastOpcode, contin)
            else contin == old(contin) && lastOpcode == if msg.Some? then h.opcode else old(lastOpcode))
    {
      hide FragmentKept, Payload;
      ghost var rest := conn.rx;
      assert ([buf] + rest)[1..] == rest;
      // the first copy takes as many bytes as the message has; those past the chunk are arbitrary
      var ret := new byte[h.length + 1];
      var contLen := |buf| - h.pos;
      Memcpy(ret, 0, buf[h.pos..][..if contLen < h.length then contLen else h.length]);
      var ok := GetRest(ret, h.length, contLen, buf[h.pos..]);
      if !ok {
        return None;
      }
      ret[h.length] := 0;
      EncryptDecrypt(ret, h.length, h.mask);
      if h.fin == 0 {
        KeepFragment(h, ret[..h.length]);
        return None;
      }
      lastOpcode := h.opcode;
      msg := Some(ret[..h.length]);
    }

    /** The FIN = 0 part of ws_read.  A continuation is given new memory whose contents are arbitrary:
        neither the fragments so far nor this one are copied to it. */
    method KeepFragment(h: Header, msg: seq<byte>)
      requires |contin| + |msg| < 0x1_0000_0000
      modifies this`lastOpcode, this`contin
      ensures FragmentKept(h, msg, old(lastOpcode), old(contin), lastOpcode, contin)
      ensures h.opcode == 0 && (old(lastOpcode) == 1 || old(lastOpcode) == 2) ==>
        lastOpcode == old(lastOpcode) && |contin| == |old(contin)| + |msg|
      ensures h.opcode == 1 || h.opcode == 2 ==> lastOpcode == h.opcode && contin == msg
      ensures h.opcode > 2 || (h.opcode == 0 && old(lastOpcode) != 1 && old(lastOpcode) != 2) ==>
        lastOpcode == old(lastOpcode) && contin == old(contin)
    {
      if h.opcode == CONT && (lastOpcode == BIN || lastOpcode == TEXT) {
        var memory := new byte[|msg| + |contin|];
        contin := memory[..];
      } else if h.opcode == BIN || h.opcode == TEXT {
        contin := msg;
        lastOpcode := h.opcode;
      }
    }

    /** The loop of ws_read that fetches what the first chunk does not hold; `first` is what it
        holds. */
    method GetRest(ret: array<byte>, length: nat, received: nat, ghost first: seq<byte>) returns (ok: bool)
      requires ret.Length == length + 1 && unfinished == 0 && received == |first|
      requires forall i :: 0 <= i < length && i < |first| ==> ret[i] == first[i]
      modifies this`unfinished, conn`rx, ret
      ensures ok == Assemble(first, length, old(conn.rx)).0.Message?
      ensures ok ==> ret[..length] == Assemble(first, length, old(conn.rx)).0.msg
      ensures conn.rx == old(conn.rx)[Assemble(first, length, old(conn.rx)).1..]
      ensures unfinished == if ok then Assemble(first, length, old(conn.rx)).1 else 0
    {
      var contLen := received;
      ghost var have := first;
      while contLen < length
        invariant contLen == |have| && forall i :: 0 <= i < length && i < |have| ==> ret[i] == have[i]
        invariant 0 <= unfinished <= |old(conn.rx)| && conn.rx == old(conn.rx)[unfinished..]
        invariant Assemble(first, length, old(conn.rx)) ==
          (Assemble(have, length, conn.rx).0, unfinished + Assemble(have, length, conn.rx).1)
        decreases |conn.rx|
      {
        var got, buf := conn.Recv();
        if !got || contLen + |buf| > length {
          unfinished := 0;
          return false;
        }
        Memcpy(ret, contLen, buf);
        contLen, have := contLen + |buf|, have + buf;
        unfinished := unfinished + 1;
      }
      return true;
    }
  }
}
