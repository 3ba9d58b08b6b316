/** websocket_server.c: how queued events and received chunks are kept in step.

    The network queues one event for each chunk; the server task takes one event at a time and reads
    once.  A read may take several chunks, waiting for those that have not arrived; `unfinished` says
    how many later events it has used up.  A run is any order of arrivals and handled events. */
module WebSocketServer {
  import opened Basics
  import opened WebSocket

  /** A message that the peer sends. */
  datatype Sent = Sent(opcode: nat, msg: seq<byte>, mask: Option<Key>)

  /** The chunks in which the peer's frame arrives; it is no close frame, whose opcode is 8. */
  ghost predicate Cut(pieces: seq<seq<byte>>, m: Sent) {
    m.opcode < 16 && m.opcode != 8 && |m.msg| + 1 < 0x1_0000_0000 && IsSplit(pieces, m.opcode, m.msg, m.mask)
  }

  ghost predicate Stream(pieces: seq<seq<seq<byte>>>, sent: seq<Sent>) {
    |pieces| == |sent| && forall i :: 0 <= i < |sent| ==> Cut(pieces[i], sent[i])
  }

  function Flatten(pieces: seq<seq<seq<byte>>>): seq<seq<byte>> {
    if pieces == [] then [] else pieces[0] + Flatten(pieces[1..])
  }

  /** The chunks still to come, those received, the queued events, the events used up, and what reads
      have returned. */
  datatype Net = Net(future: seq<seq<byte>>, rx: seq<seq<byte>>, events: nat, unfinished: nat,
                     delivered: seq<(nat, seq<byte>)>)

  datatype Act = Arrive | Handle

  /** A read would return, with or without a message: the chunks are as long as the frame announced. */
  predicate Returns(chunks: seq<seq<byte>>) {
    chunks != [] && HoldsHeader(chunks[0]) && FrameLength(chunks[0]) <= |Concat(chunks)|
  }

  predicate Enabled(s: Net, a: Act) {
    match a
    case Arrive => s.future != []
    case Handle => s.events > 0 && (s.unfinished > 0 || Returns(s.rx + s.future))
  }

  /** How many chunks have to arrive for the read to return. */
  function Awaited(s: Net): (n: nat)
    requires Returns(s.rx + s.future)
    ensures n <= |s.future|
  {
    var taken := ReadFrame(s.rx + s.future).1;
    if taken <= |s.rx| then 0 else taken - |s.rx|
  }

  /** What handle_read is given: the message of a final frame. */
  function Delivered(chunks: seq<seq<byte>>): seq<(nat, seq<byte>)>
    requires Returns(chunks)
  {
    var msg := ReadFrame(chunks).0;
    if msg.Message? && ParseHeader(chunks[0]).fin == 1 then [(ParseHeader(chunks[0]).opcode, msg.msg)] else []
  }

  function Advance(s: Net, a: Act): Net
    requires Enabled(s, a)
  {
    match a
    case Arrive =>
      s.(future := s.future[1..], rx := s.rx + [s.future[0]], events := s.events + 1)
    case Handle =>
      if s.unfinished > 0 then
        s.(events := s.events - 1, unfinished := s.unfinished - 1)
      else
        var all := s.rx + s.future;
        var (msg, taken) := ReadFrame(all);
        var n := Awaited(s);
        Net(s.future[n..], (s.rx + s.future[..n])[taken..], s.events + n - 1,
            if msg.Message? then taken - 1 else 0, s.delivered + Delivered(all))
  }

  /** A run; acts that are not possible are passed over. */
  function Run(s: Net, acts: seq<Act>): Net
    decreases |acts|
  {
    if acts == [] then s
    else Run(if Enabled(s, acts[0]) then Advance(s, acts[0]) else s, acts[1..])
  }

  // ----- the accounting, for any chunks -----

  /** Queued events that no received chunk and no event used up accounts for. */
  function Stale(s: Net): int {
    s.events - |s.rx| - s.unfinished
  }

  /** How many chunks a read needs for the frame that the first one announces. */
  function Needed(chunks: seq<seq<byte>>): nat
    requires Returns(chunks)
  {
    Reach(chunks, FrameLength(chunks[0]))
  }

  /** The act is a read that needs several chunks, which hold more than the frame announced. */
  predicate Overruns(s: Net, a: Act)
    requires Enabled(s, a)
  {
    a == Handle && s.unfinished == 0 &&
    var all := s.rx + s.future;
    Needed(all) > 1 && |Concat(all[..Needed(all)])| > FrameLength(all[0])
  }

  /** How many events such a read leaves behind: those of its chunks except the first. */
  function LeftBehind(s: Net, a: Act): nat
    requires Enabled(s, a)
  {
    if Overruns(s, a) then Needed(s.rx + s.future) - 1 else 0
  }

  /** An act keeps events and chunks in step if and only if it is not a read that overruns; that one
      leaves at least one event behind. */
  lemma StepAccounts(s: Net, a: Act)
    requires Enabled(s, a)
    ensures Stale(Advance(s, a)) == Stale(s) + LeftBehind(s, a)
    ensures LeftBehind(s, a) == 0 <==> !Overruns(s, a)
  {
    if a == Handle && s.unfinished == 0 {
      ReadGoesByLength(s.rx + s.future);
    }
  }

  /** The events left behind by all reads of a run. */
  function AllLeftBehind(s: Net, acts: seq<Act>): nat
    decreases |acts|
  {
    if acts == [] then 0
    else if Enabled(s, acts[0]) then LeftBehind(s, acts[0]) + AllLeftBehind(Advance(s, acts[0]), acts[1..])
    else AllLeftBehind(s, acts[1..])
  }

  /** Some read of the run overruns. */
  predicate SomeOverrun(s: Net, acts: seq<Act>)
    decreases |acts|
  {
    if acts == [] then false
    else if Enabled(s, acts[0]) then Overruns(s, acts[0]) || SomeOverrun(Advance(s, acts[0]), acts[1..])
    else SomeOverrun(s, acts[1..])
  }

  /** On every run: the queued events are the received chunks, the events used up, and those that
      overrunning reads have left behind.  So they stay in step if and only if no read overruns, and as
      long as they do no read waits for its first chunk.  The chunks may hold anything, except that a
      read which would start on a chunk without its whole header is no act of a run; the code would
      look behind that chunk. */
  lemma {:induction false} EveryRunAccounts(s: Net, acts: seq<Act>)
    ensures Stale(Run(s, acts)) == Stale(s) + AllLeftBehind(s, acts)
    ensures AllLeftBehind(s, acts) == 0 <==> !SomeOverrun(s, acts)
    ensures Stale(s) == 0 && !SomeOverrun(s, acts) ==>
      var r := Run(s, acts);
      r.events == |r.rx| + r.unfinished && (r.events > 0 && r.unfinished == 0 ==> r.rx != [])
    decreases |acts|
  {
    hide Enabled, Advance, LeftBehind, Overruns;
    if acts != [] {
      if Enabled(s, acts[0]) {
        StepAccounts(s, acts[0]);
        EveryRunAccounts(Advance(s, acts[0]), acts[1..]);
      } else {
        EveryRunAccounts(s, acts[1..]);
      }
    }
  }

  /** If two chunks hold a frame and the start of something else, the read of them returns nothing,
      and leaves an event for which there is no chunk: its read waits. */
  lemma OverrunLeavesEvent(a: seq<byte>, b: seq<byte>, rest: seq<byte>, m: Sent)
    requires m.opcode < 16 && |m.msg| < Pow256(8) && a + b == Frame(m.opcode, m.msg, m.mask) && b != [] && rest != []
    requires |a| >= |FrameHeader(m.opcode, |m.msg|, m.mask)|
    ensures Run(Net([a, b + rest], [], 0, 0, []), [Arrive, Arrive, Handle]) == Net([], [], 1, 0, [])
  {
    var c := b + rest;
    OverrunLosesFrame(a, b, rest, [], m.opcode, m.msg, m.mask);
    assert [a, c] + [] == [a, c];
    ReadGoesByLength([a, c]);
    hide ReadFrame, HoldsHeader, ParseHeader, Frame, FrameHeader;
    var s, s1, s2 := Net([a, c], [], 0, 0, []), Net([c], [a], 1, 0, []), Net([], [a, c], 2, 0, []);
    assert Advance(s, Arrive) == s1 && Advance(s1, Arrive) == s2;
    assert Advance(s2, Handle) == Net([], [], 1, 0, []);
    var acts := [Arrive, Arrive, Handle];
    assert acts[1..] == [Arrive, Handle] && acts[1..][1..] == [Handle];
    assert Run(s2, [Handle]) == Run(Advance(s2, Handle), []);
    assert Run(s1, [Arrive, Handle]) == Run(s2, [Handle]);
  }

  // ----- streams of frames -----

  /** What has been delivered is what was sent, in order; what is left are the chunks of the rest; and
      each received chunk, like each event used up, has its event in the queue. */
  ghost predicate Inv(s: Net, pieces: seq<seq<seq<byte>>>, sent: seq<Sent>) {
    && Stream(pieces, sent)
    && |s.delivered| <= |sent|
    && (forall i :: 0 <= i < |s.delivered| ==> s.delivered[i] == (sent[i].opcode, sent[i].msg))
    && s.rx + s.future == Flatten(pieces[|s.delivered|..])
    && s.events == |s.rx| + s.unfinished
  }

  /** A read that starts at a frame returns its message and takes its chunks. */
  lemma NextRead(pieces: seq<seq<seq<byte>>>, sent: seq<Sent>, d: nat)
    requires Stream(pieces, sent) && d < |sent|
    ensures var all := Flatten(pieces[d..]);
      && Returns(all) && ReadFrame(all) == (Message(sent[d].msg), |pieces[d]|)
      && ParseHeader(all[0]).opcode == sent[d].opcode && ParseHeader(all[0]).fin == 1
      && all[|pieces[d]|..] == Flatten(pieces[d + 1..])
  {
    var m, rest := sent[d], Flatten(pieces[d + 1..]);
    assert Cut(pieces[d], m);
    assert pieces[d..][1..] == pieces[d + 1..];
    assert Flatten(pieces[d..]) == pieces[d] + rest;
    assert Pow256(4) == 0x1_0000_0000;
    assert 0x1_0000_0000 <= Pow256(8);
    ReadUndoesSend(pieces[d], rest, m.opcode, m.msg, m.mask);
    ReadGoesByLength(pieces[d] + rest);
  }

  /** With events left to handle, there is a message left. */
  lemma SomethingLeft(s: Net, pieces: seq<seq<seq<byte>>>, sent: seq<Sent>)
    requires Inv(s, pieces, sent) && s.rx + s.future != []
    ensures |s.delivered| < |sent|
  {
    assert pieces[|sent|..] == [];
  }

  lemma ReadKeepsInv(s: Net, pieces: seq<seq<seq<byte>>>, sent: seq<Sent>)
    requires Inv(s, pieces, sent) && Enabled(s, Handle) && s.unfinished == 0
    ensures Inv(Advance(s, Handle), pieces, sent)
  {
    hide ReadFrame, ParseHeader, HoldsHeader, Flatten, Cut;
    var all := s.rx + s.future;
    SomethingLeft(s, pieces, sent);
    NextRead(pieces, sent, |s.delivered|);
    var n, taken := Awaited(s), ReadFrame(all).1;
    assert (s.rx + s.future[..n])[taken..] + s.future[n..] == all[taken..];
  }

  lemma StepKeepsInv(s: Net, a: Act, pieces: seq<seq<seq<byte>>>, sent: seq<Sent>)
    requires Inv(s, pieces, sent) && Enabled(s, a)
    ensures Inv(Advance(s, a), pieces, sent)
  {
    hide Flatten, Cut;
    if a == Arrive {
      assert (s.rx + [s.future[0]]) + s.future[1..] == s.rx + s.future;
    } else if s.unfinished == 0 {
      ReadKeepsInv(s, pieces, sent);
    }
  }

  function Start(pieces: seq<seq<seq<byte>>>): Net {
    Net(Flatten(pieces), [], 0, 0, [])
  }

  lemma {:induction false} RunKeepsInv(s: Net, acts: seq<Act>, pieces: seq<seq<seq<byte>>>, sent: seq<Sent>)
    requires Inv(s, pieces, sent)
    ensures Inv(Run(s, acts), pieces, sent)
    decreases |acts|
  {
    if acts != [] {
      if Enabled(s, acts[0]) {
        StepKeepsInv(s, acts[0], pieces, sent);
      }
      RunKeepsInv(if Enabled(s, acts[0]) then Advance(s, acts[0]) else s, acts[1..], pieces, sent);
    }
  }

  /** On every run: the queued events are the received chunks and the events used up; a read never
      waits for its first chunk, and never fails; what is delivered is what was sent, in order; and
      once nothing more arrives and no event is left, everything has been delivered. */
  lemma EveryRunDelivers(pieces: seq<seq<seq<byte>>>, sent: seq<Sent>, acts: seq<Act>)
    requires Stream(pieces, sent)
    ensures var s := Run(Start(pieces), acts);
      && s.events == |s.rx| + s.unfinished
      && (s.events > 0 ==> Enabled(s, Handle))
      && (s.events > 0 && s.unfinished == 0 ==> s.rx != [])
      && |s.delivered| <= |sent|
      && (forall i :: 0 <= i < |s.delivered| ==> s.delivered[i] == (sent[i].opcode, sent[i].msg))
      && (s.future == [] && s.events == 0 ==> |s.delivered| == |sent|)
  {
    assert pieces[0..] == pieces;
    assert [] + Flatten(pieces) == Flatten(pieces);
    RunKeepsInv(Start(pieces), acts, pieces, sent);
    var s := Run(Start(pieces), acts);
    var d := |s.delivered|;
    if s.rx + s.future != [] {
      SomethingLeft(s, pieces, sent);
    }
    if d < |sent| {
      NextRead(pieces, sent, d);
      assert s.rx + s.future != [];
    }
  }

  /** Every act brings a run closer to its end. */
  lemma StepEnds(s: Net, a: Act)
    requires Enabled(s, a)
    ensures 2 * |Advance(s, a).future| + Advance(s, a).events < 2 * |s.future| + s.events
  {
  }

  /** Acts that are all possible. */
  predicate Possible(s: Net, acts: seq<Act>)
    decreases |acts|
  {
    acts == [] || (Enabled(s, acts[0]) && Possible(Advance(s, acts[0]), acts[1..]))
  }

  /** A run of possible acts has at most two for each chunk: its arrival and its event. */
  lemma {:induction false} RunsEnd(s: Net, acts: seq<Act>)
    requires Possible(s, acts)
    ensures |acts| <= 2 * |s.future| + s.events
    decreases |acts|
  {
    if acts != [] {
      StepEnds(s, acts[0]);
      RunsEnd(Advance(s, acts[0]), acts[1..]);
    }
  }

  // ----- the code -----

  /** A read that returns does not depend on what comes after its chunks. */
  lemma {:induction false} AssembleStops(have: seq<byte>, need: nat, chunks: seq<seq<byte>>, n: nat)
    requires !Assemble(have, need, chunks).0.Starved? && Assemble(have, need, chunks).1 <= n <= |chunks|
    ensures Assemble(have, need, chunks[..n]) == Assemble(have, need, chunks)
    decreases |chunks|
  {
    if |have| < need && |have| + |chunks[0]| <= need {
      AssembleStops(have + chunks[0], need, chunks[1..], n - 1);
      assert chunks[..n][1..] == chunks[1..][..n - 1];
    }
  }

  lemma ReadStops(chunks: seq<seq<byte>>, n: nat)
    requires Returns(chunks) && ReadFrame(chunks).1 <= n <= |chunks|
    ensures Returns(chunks[..n]) && ReadFrame(chunks[..n]) == ReadFrame(chunks)
  {
    ReadGoesByLength(chunks);
    var h := ParseHeader(chunks[0]);
    AssembleStops(chunks[0][h.pos..], h.length, chunks[1..], n - 1);
    assert chunks[..n][1..] == chunks[1..][..n - 1];
    ReadGoesByLength(chunks[..n]);
  }

  /** Once the chunks that a read waits for have arrived, it returns what it would with all. */
  lemma ArrivedIsEnough(rx: seq<seq<byte>>, arriving: seq<seq<byte>>, future: seq<seq<byte>>)
    requires var all := rx + (arriving + future);
      Returns(all) && ReadFrame(all).1 <= |rx + arriving|
    ensures var all, now := rx + (arriving + future), rx + arriving;
      && now != [] && now[0] == all[0] && HoldsHeader(now[0]) && ReadFrame(now) == ReadFrame(all)
  {
    hide ReadFrame, HoldsHeader, FrameLength, Concat;
    var all, now := rx + (arriving + future), rx + arriving;
    assert now == all[..|now|];
    ReadStops(all, |now|);
  }

  /** The server task and its queue, for one client. */
  class Server {
    const client: Client
    var events: nat
    var delivered: seq<(nat, seq<byte>)>

    constructor (client: Client)
      ensures this.client == client && events == 0 && delivered == []
    {
      this.client := client;
      events, delivered := 0, [];
    }

    /** The state, given what has not arrived. */
    function View(future: seq<seq<byte>>): Net
      reads this, client, client.conn
    {
      Net(future, client.conn.rx, events, client.unfinished, delivered)
    }

    /** background_callback: a chunk has arrived. */
    method Callback(chunk: seq<byte>, ghost future: seq<seq<byte>>)
      modifies this`events, client.conn`rx
      ensures View(future) == Advance(old(View([chunk] + future)), Arrive)
    {
      client.conn.rx := client.conn.rx + [chunk];
      events := events + 1;
    }

    /** The body of the task's loop, and handle_read: an event is taken and the client is read.
        `arriving` are the chunks that the read has to wait for. */
    method Dispatch(arriving: seq<seq<byte>>, ghost future: seq<seq<byte>>)
      requires Enabled(View(arriving + future), Handle)
      requires client.unfinished > 0 ==> arriving == []
      requires client.unfinished == 0 ==> |arriving| == Awaited(View(arriving + future))
      requires client.unfinished == 0 ==>
        |client.contin| + ParseHeader((client.conn.rx + (arriving + future))[0]).length + 1 < 0x1_0000_0000
      modifies this, client, client.conn
      ensures View(future) == Advance(old(View(arriving + future)), Handle)
    {
      hide ReadFrame, HoldsHeader, ParseHeader, FrameLength, Concat;
      ghost var rx := client.conn.rx;
      events := events - 1;
      client.conn.rx := client.conn.rx + arriving;
      events := events + |arriving|;
      if client.unfinished == 0 {
        ArrivedIsEnough(rx, arriving, future);
      }
      var msg, header := client.Read(true);
      if msg.Some? {
        delivered := delivered + [(client.lastOpcode, msg.value)];
      }
    }
  }
}
