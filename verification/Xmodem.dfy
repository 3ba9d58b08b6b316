/** The XMODEM sender of fota.c: the packets of an image, and the loops that send them.

    `DataPackets` cuts an image packet by packet.  The code reads it in blocks of 16384 bytes and cuts
    those; since a block ends on a packet's border or with the image, the packets are the same.
    `Receive` is a receiver that checks the number, its complement and the CRC of each packet, and it
    gets the image with fewer than 128 zeros behind it.

    Waiting for acknowledgements and sending again are not part of this model. */
module Xmodem {
  import opened Basics
  import opened Crc

  const SOH: byte := 1
  const EOT: byte := 4
  const PAYLOAD := 128        // XMODEM_SIZE
  const PACKET := 133         // XBUF_SIZE
  const BLOCK := 16384        // ZIGBEE_OTA_BUF_SIZE

  // ----- packets -----

  /** The number after `no`, an unsigned char. */
  function Next(no: byte): byte {
    (no + 1) % 256
  }

  function Zeros(n: nat): (z: seq<byte>)
    ensures |z| == n && forall i :: 0 <= i < n ==> z[i] == 0
  {
    seq(n, _ => 0)
  }

  /** A payload filled up with zeros. */
  function Padded(data: seq<byte>): (p: seq<byte>)
    requires |data| <= PAYLOAD
    ensures |p| == PAYLOAD
  {
    data + Zeros(PAYLOAD - |data|)
  }

  /** Header, number, its complement, payload, and the CRC of the payload, high byte first. */
  function Packet(header: byte, no: byte, payload: seq<byte>): (p: seq<byte>)
    requires |payload| == PAYLOAD
    ensures |p| == PACKET
  {
    [header, no, 255 - no] + payload + [Crc16(payload) / 0x100, Crc16(payload) % 0x100]
  }

  /** The first packet's worth of an image. */
  function Cut(image: seq<byte>): nat {
    if |image| < PAYLOAD then |image| else PAYLOAD
  }

  /** The data packets of an image, the first numbered `no`. */
  function DataPackets(image: seq<byte>, no: byte): seq<seq<byte>> {
    if image == [] then []
    else [Packet(SOH, no, Padded(image[..Cut(image)]))] + DataPackets(image[Cut(image)..], Next(no))
  }

  // ----- what they are -----

  /** The number of the packet `k` after the one numbered `no`. */
  function NumberOf(no: byte, k: nat): byte {
    (no + k) % 256
  }

  lemma NumbersAdd(no: byte, j: nat, k: nat)
    ensures NumberOf(no, 0) == no && Next(no) == NumberOf(no, 1)
    ensures NumberOf(NumberOf(no, j), k) == NumberOf(no, j + k)
  {
  }

  lemma {:induction false} PacketCount(image: seq<byte>, no: byte)
    ensures |DataPackets(image, no)| == (|image| + 127) / 128
    decreases |image|
  {
    hide Packet, Padded;
    if image != [] {
      PacketCount(image[Cut(image)..], Next(no));
    }
  }

  /** The k-th packet holds bytes 128 k and on, with zeros after the end, and its number is k further
      on, modulo 256. */
  lemma {:induction false} PacketAt(image: seq<byte>, no: byte, k: nat)
    requires 128 * k < |image|
    ensures |DataPackets(image, no)| == (|image| + 127) / 128 && k < |DataPackets(image, no)|
    ensures DataPackets(image, no)[k] ==
      Packet(SOH, NumberOf(no, k), Padded(image[128 * k..if 128 * (k + 1) < |image| then 128 * (k + 1) else |image|]))
    decreases k
  {
    hide Packet, Padded;
    PacketCount(image, no);
    if k > 0 {
      var rest := image[128..];
      var to := if 128 * (k + 1) < |image| then 128 * (k + 1) else |image|;
      PacketAt(rest, Next(no), k - 1);
      assert rest[128 * (k - 1)..to - 128] == image[128 * k..to];
      assert NumberOf(Next(no), k - 1) == NumberOf(no, k);
      assert DataPackets(image, no)[k] == DataPackets(rest, Next(no))[k - 1];
    } else {
      assert NumberOf(no, 0) == no;
    }
  }

  /** A packet byte by byte. */
  lemma PacketBytes(header: byte, no: byte, payload: seq<byte>)
    requires |payload| == 128
    ensures var p := Packet(header, no, payload);
      && |p| == 133 && p[0] == header && p[1] == no && p[2] == 255 - no && p[3..131] == payload
      && p[131] as int * 0x100 + p[132] as int == Crc16(payload)
  {
    var lead, crc := [header, no, 255 - no], [Crc16(payload) / 0x100, Crc16(payload) % 0x100];
    assert Packet(header, no, payload) == lead + payload + crc;
  }

  lemma PaddedBytes(data: seq<byte>)
    requires |data| <= 128
    ensures forall i :: 0 <= i < 128 ==> Padded(data)[i] == if i < |data| then data[i] else 0
  {
  }

  /** The packets of an image byte by byte: number `k` begins with 1, its number and that number's
      complement, goes on with the bytes of the image from 128 k on and zeros behind its end, and ends
      with the CRC of these. */
  lemma ImageBytes(image: seq<byte>, no: byte, k: nat)
    requires 128 * k < |image|
    ensures k < |DataPackets(image, no)|
    ensures var p := DataPackets(image, no)[k];
      && |p| == 133 && p[0] == 1 && p[1] == (no + k) % 256 && p[2] == 255 - p[1]
      && (forall i :: 0 <= i < 128 ==> p[3..131][i] == if 128 * k + i < |image| then image[128 * k + i] else 0)
      && p[131] as int * 0x100 + p[132] as int == Crc16(p[3..131])
  {
    hide Packet, Padded, DataPackets;
    PacketAt(image, no, k);
    var part := image[128 * k..if 128 * (k + 1) < |image| then 128 * (k + 1) else |image|];
    PacketBytes(SOH, NumberOf(no, k), Padded(part));
    PaddedBytes(part);
    var p := DataPackets(image, no)[k];
    forall i | 0 <= i < 128
      ensures p[3..131][i] == if 128 * k + i < |image| then image[128 * k + i] else 0
    {
    }
  }

  /** So is the packet at the end of the transmission: 4, the next number, and zeros. */
  lemma EndBytes(no: byte)
    ensures var p := Packet(EOT, no, Zeros(128));
      && |p| == 133 && p[0] == 4 && p[1] == no && p[2] == 255 - p[1]
      && (forall i :: 3 <= i < 131 ==> p[i] == 0)
      && p[131] as int * 0x100 + p[132] as int == Crc16(p[3..131])
  {
    PacketBytes(EOT, no, Zeros(128));
    var p := Packet(EOT, no, Zeros(128));
    forall i | 3 <= i < 131
      ensures p[i] == 0
    {
      assert p[i] == p[3..131][i - 3];
    }
  }

  /** A packet with fewer bytes than it has room for. */
  lemma ShortPacket(header: byte, no: byte, data: seq<byte>)
    requires |data| <= 128
    ensures var p := Packet(header, no, Padded(data));
      && |p| == 133 && p[0] == header && p[1] == no && p[2] == 255 - no && p[3..3 + |data|] == data
      && forall i :: 3 + |data| <= i < 131 ==> p[i] == 0
  {
    PacketBytes(header, no, Padded(data));
    PaddedBytes(data);
    var p := Packet(header, no, Padded(data));
    forall i | 3 <= i < 131
      ensures p[i] == if i - 3 < |data| then data[i - 3] else 0
    {
      assert p[i] == p[3..131][i - 3];
    }
  }

  lemma NoData()
    ensures Padded([]) == Zeros(128)
  {
  }

  /** All packets of a transmission, the last of which ends it. */
  function Transmission(file: seq<byte>, no: byte): seq<seq<byte>> {
    DataPackets(file, no) + [Packet(EOT, NumberOf(no, |DataPackets(file, no)|), Zeros(PAYLOAD))]
  }

  lemma TransmissionBytes(file: seq<byte>, no: byte)
    ensures var ps, n := Transmission(file, no), (|file| + 127) / 128;
      && |ps| == n + 1
      && (forall k :: 0 <= k < n ==>
            && |ps[k]| == 133 && ps[k][0] == 1 && ps[k][1] == (no + k) % 256 && ps[k][2] == 255 - ps[k][1]
            && (forall i :: 0 <= i < 128 ==>
                  ps[k][3..131][i] == if 128 * k + i < |file| then file[128 * k + i] else 0)
            && ps[k][131] as int * 0x100 + ps[k][132] as int == Crc16(ps[k][3..131]))
      && |ps[n]| == 133 && ps[n][0] == 4 && ps[n][1] == (no + n) % 256 && ps[n][2] == 255 - ps[n][1]
      && (forall i :: 3 <= i < 131 ==> ps[n][i] == 0)
      && ps[n][131] as int * 0x100 + ps[n][132] as int == Crc16(ps[n][3..131])
  {
    hide Packet, DataPackets, Zeros, Crc16;
    PacketCount(file, no);
    var ps, n := Transmission(file, no), (|file| + 127) / 128;
    forall k | 0 <= k < n
      ensures ps[k] == DataPackets(file, no)[k] && 128 * k < |file|
    {
    }
    forall k | 0 <= k < n
      ensures && |ps[k]| == 133 && ps[k][0] == 1 && ps[k][1] == (no + k) % 256 && ps[k][2] == 255 - ps[k][1]
        && (forall i :: 0 <= i < 128 ==>
              ps[k][3..131][i] == if 128 * k + i < |file| then file[128 * k + i] else 0)
        && ps[k][131] as int * 0x100 + ps[k][132] as int == Crc16(ps[k][3..131])
    {
      ImageBytes(file, no, k);
    }
    EndBytes(NumberOf(no, n));
  }

  // ----- a receiver -----

  /** The packet begins with its header. */
  lemma PacketHeader(header: byte, no: byte, payload: seq<byte>)
    requires |payload| == PAYLOAD
    ensures Packet(header, no, payload)[0] == header
  {
  }

  /** A packet that a receiver waiting for number `no` takes: right number, its complement, and a CRC
      that comes out as zero. */
  predicate Accepted(p: seq<byte>, no: byte) {
    |p| == PACKET && p[0] == SOH && p[1] == no && p[2] == 255 - p[1] && Crc16(p[3..]) == 0
  }

  /** What a receiver makes of a transmission: the payloads up to the end of transmission, or nothing
      if a packet is not acceptable or the end does not come. */
  function Receive(packets: seq<seq<byte>>, no: byte): Option<seq<byte>> {
    if packets == [] then None
    else if packets[0] != [] && packets[0][0] == EOT then Some([])
    else if !Accepted(packets[0], no) then None
    else
      match Receive(packets[1..], Next(no))
      case None => None
      case Some(rest) => Some(packets[0][3..131] + rest)
  }

  lemma PacketIsAccepted(no: byte, payload: seq<byte>)
    requires |payload| == PAYLOAD
    ensures Accepted(Packet(SOH, no, payload), no) && Packet(SOH, no, payload)[3..131] == payload
  {
    var p := Packet(SOH, no, payload);
    var h: byte, l: byte := Crc16(payload) / 0x100, Crc16(payload) % 0x100;
    assert p[3..] == payload + [h, l];
    OwnCrcGivesZero(payload, h, l);
    assert p[3..131] == payload;
  }

  /** How many zeros fill up the last packet. */
  function Padding(n: nat): (k: nat)
    ensures k < 128 && (n + k) % 128 == 0
  {
    (128 - n % 128) % 128
  }

  /** An image of several packets: what is true of the rest is true of the image. */
  lemma PaddingOfRest(image: seq<byte>)
    requires |image| >= PAYLOAD
    ensures image[..128] + (image[128..] + Zeros(Padding(|image[128..]|))) == image + Zeros(Padding(|image|))
  {
    var n := |image| - 128;
    assert n % 128 == |image| % 128;
    assert Padding(n) == Padding(|image|);
    hide Padding, Zeros;
    assert image == image[..128] + image[128..];
  }

  /** The last packet is filled up. */
  lemma PaddingOfLast(image: seq<byte>)
    requires 0 < |image| <= PAYLOAD
    ensures Padded(image) == image + Zeros(Padding(|image|))
  {
  }

  /** A receiver gets the image, followed by fewer than 128 zeros. */
  lemma {:induction false} ReceiveUndoesSend(image: seq<byte>, no: byte, end: seq<byte>)
    requires end != [] && end[0] == EOT
    ensures Receive(DataPackets(image, no) + [end], no) == Some(image + Zeros(Padding(|image|)))
    decreases |image|
  {
    hide Crc16, Packet, Padded, Zeros, Padding, Accepted;
    if image == [] {
      NothingIsPadded();
    } else {
      var first, rest := Padded(image[..Cut(image)]), image[Cut(image)..];
      PacketIsAccepted(no, first);
      PacketHeader(SOH, no, first);
      ReceiveUndoesSend(rest, Next(no), end);
      var all := DataPackets(image, no) + [end];
      assert all == [Packet(SOH, no, first)] + (DataPackets(rest, Next(no)) + [end]);
      PadOne(image);
    }
  }

  lemma NothingIsPadded()
    ensures [] + Zeros(Padding(0)) == []
  {
  }

  /** The payloads of the first packet and of the others make up those of the image. */
  lemma PadOne(image: seq<byte>)
    requires image != []
    ensures var n := Cut(image);
      Padded(image[..n]) + (image[n..] + Zeros(Padding(|image[n..]|))) == image + Zeros(Padding(|image|))
  {
    if |image| < PAYLOAD {
      PaddingOfLast(image);
      assert image[..|image|] == image;
      NothingIsPadded();
    } else {
      PaddingOfRest(image);
      assert image[..128] + Zeros(0) == image[..128];
    }
  }

  // ----- the code -----

  /** Where the inner loop stands in a block, it sends the next packet of the image: a block ends on a
      packet's border or with the image. */
  lemma NextInBlock(file: seq<byte>, pos: nat, n: nat, at: nat, c: nat, no: byte)
    requires pos + n <= |file| && n <= BLOCK && (n == BLOCK || pos + n == |file|)
    requires at < n && at % PAYLOAD == 0 && c == if at < n - PAYLOAD then PAYLOAD else n - at
    ensures 0 < c <= PAYLOAD
    ensures DataPackets(file[pos + at..], no) ==
      [Packet(SOH, no, Padded(file[pos + at..pos + at + c]))] + DataPackets(file[pos + at + c..], Next(no))
  {
    hide Packet, Padded;
    var rest := file[pos + at..];
    assert Cut(rest) == c;
    assert rest[..c] == file[pos + at..pos + at + c] && rest[c..] == file[pos + at + c..];
  }

  lemma PartOfPart(s: seq<byte>, lo: nat, hi: nat, a: nat, b: nat)
    requires lo <= hi <= |s| && a <= b <= hi - lo
    ensures s[lo..hi][a..b] == s[lo + a..lo + b]
  {
    var part := s[lo..hi];
    forall k | a <= k < b
      ensures part[k] == s[lo + k]
    {
    }
  }

  /** The sender: the packet number, which is static, the image buffer and what went out. */
  class Sender {
    var packetno: byte
    var sent: seq<seq<byte>>
    const buf: array<byte>

    constructor ()
      ensures packetno == 1 && sent == [] && fresh(buf) && buf.Length == BLOCK + 1
    {
      packetno, sent, buf := 1, [], new byte[BLOCK + 1];
    }

    /** The memset and the memcpy of XmodemTransmit. */
    method Fill(xbuff: array<byte>, at: nat, c: nat, header: byte)
      requires xbuff.Length == PACKET && c <= PAYLOAD && xbuff != buf
      requires header == SOH ==> at + c <= buf.Length
      modifies xbuff
      ensures xbuff[..3] == old(xbuff[..3])
      ensures xbuff[3..131] == if header == SOH then Padded(buf[at..at + c]) else Zeros(PAYLOAD)
    {
      var i := 0;
      while i < PAYLOAD
        invariant 0 <= i <= PAYLOAD && xbuff[..3] == old(xbuff[..3]) && xbuff[3..3 + i] == Zeros(i)
      {
        xbuff[3 + i] := 0;
        i := i + 1;
      }
      if header == SOH {
        i := 0;
        while i < c
          invariant 0 <= i <= c && xbuff[..3] == old(xbuff[..3])
          invariant forall j :: 3 <= j < 131 ==> xbuff[j] == if j - 3 < i then buf[at + (j - 3)] else 0
        {
          xbuff[3 + i] := buf[at + i];
          i := i + 1;
        }
      }
    }

    /** XmodemTransmit of the bytes of the buffer from `at` on: a data packet if the header is 1. */
    method Transmit(at: nat, srcsz: int, header: byte)
      requires header == SOH ==> at <= buf.Length && at + srcsz <= buf.Length
      modifies this`packetno, this`sent
      ensures packetno == Next(old(packetno)) == (old(packetno) + 1) % 256
      ensures srcsz < 0 ==> sent == old(sent)
      ensures srcsz >= 0 ==>
        var c := if srcsz > PAYLOAD then PAYLOAD else srcsz;
        var payload := if header == SOH then Padded(buf[at..at + c]) else Zeros(PAYLOAD);
        sent == old(sent) + [Packet(header, old(packetno), payload)]
      ensures srcsz >= 0 ==>
        var p, c := sent[|old(sent)|], if header != 1 then 0 else if srcsz > 128 then 128 else srcsz;
        && |p| == 133 && p[0] == header && p[1] == old(packetno) && p[2] == 255 - old(packetno)
        && (header == 1 ==> p[3..3 + c] == buf[at..at + c]) && (forall i :: 3 + c <= i < 131 ==> p[i] == 0)
    {
      hide Packet, Padded, Zeros;
      Emit(at, srcsz, header);
      if srcsz >= 0 {
        ghost var c := if srcsz > PAYLOAD then PAYLOAD else srcsz;
        NoData();
        ShortPacket(header, old(packetno), if header == SOH then buf[at..at + c] else []);
      }
    }

    /** How it puts the packet together. */
    method Emit(at: nat, srcsz: int, header: byte)
      requires header == SOH ==> at <= buf.Length && at + srcsz <= buf.Length
      modifies this`packetno, this`sent
      ensures packetno == Next(old(packetno))
      ensures srcsz < 0 ==> sent == old(sent)
      ensures srcsz >= 0 ==>
        var c := if srcsz > PAYLOAD then PAYLOAD else srcsz;
        var payload := if header == SOH then Padded(buf[at..at + c]) else Zeros(PAYLOAD);
        sent == old(sent) + [Packet(header, old(packetno), payload)]
    {
      hide Crc16, Padded, Zeros;
      var xbuff := new byte[PACKET];
      var c := srcsz;
      xbuff[0] := header;
      xbuff[1] := packetno;
      xbuff[2] := 255 - packetno;
      packetno := Next(packetno);
      if c > PAYLOAD {
        c := PAYLOAD;
      }
      if c >= 0 {
        ghost var lead := xbuff[..3];
        assert lead == [header, old(packetno), 255 - old(packetno)];
        Fill(xbuff, at, c, header);
        ghost var payload := xbuff[3..131];
        var ccrc := Crc16Ccitt(xbuff, 3, PAYLOAD);
        xbuff[131] := ccrc / 0x100;
        xbuff[132] := ccrc % 0x100;
        assert xbuff[..3] == lead && xbuff[3..131] == payload && xbuff[131..] == [ccrc / 0x100, ccrc % 0x100];
        assert xbuff[..] == lead + payload + [ccrc / 0x100, ccrc % 0x100];
        sent := sent + [xbuff[..]];
      }
    }

    /** fread of a block, which stops short only at the end of the file. */
    method Fread(file: seq<byte>, pos: nat) returns (n: nat)
      requires pos <= |file| && buf.Length == BLOCK + 1
      modifies buf
      ensures n == if |file| - pos < BLOCK then |file| - pos else BLOCK
      ensures buf[..n] == file[pos..pos + n]
    {
      n := if |file| - pos < BLOCK then |file| - pos else BLOCK;
      var i := 0;
      while i < n
        invariant 0 <= i <= n && buf[..i] == file[pos..pos + i]
      {
        buf[i] := file[pos + i];
        i := i + 1;
      }
    }

    /** A part of the buffer is a part of the file. */
    lemma BufferPart(file: seq<byte>, pos: nat, n: nat, at: nat, c: nat)
      requires pos + n <= |file| && n <= buf.Length && buf[..n] == file[pos..pos + n]
      requires at + c <= n
      ensures buf[at..at + c] == file[pos + at..pos + at + c]
    {
      PartOfPart(buf[..], 0, n, at, at + c);
      PartOfPart(file, pos, pos + n, at, at + c);
      assert buf[..][at..at + c] == buf[at..at + c] && buf[..][0..n] == buf[..n];
    }

    /** The inner loop: the packets of the block in the buffer, which is file[pos..pos + n]. */
    method SendBlock(n: nat, ghost file: seq<byte>, ghost pos: nat)
      requires buf.Length == BLOCK + 1 && 0 < n <= BLOCK && pos + n <= |file|
      requires n == BLOCK || pos + n == |file|
      requires buf[..n] == file[pos..pos + n]
      modifies this`packetno, this`sent
      ensures old(sent) + DataPackets(file[pos..], old(packetno)) == sent + DataPackets(file[pos + n..], packetno)
      ensures |sent| >= |old(sent)| && packetno == NumberOf(old(packetno), |sent| - |old(sent)|)
    {
      hide Packet, Padded, Zeros, DataPackets, NumberOf, Next;
      var dataSend := 0;
      NumbersAdd(packetno, 0, 0);
      while true
        invariant 0 <= dataSend < n && dataSend % PAYLOAD == 0
        invariant old(sent) + DataPackets(file[pos..], old(packetno)) ==
          sent + DataPackets(file[pos + dataSend..], packetno)
        invariant |sent| >= |old(sent)| && packetno == NumberOf(old(packetno), |sent| - |old(sent)|)
        decreases n - dataSend
      {
        NumbersAdd(packetno, 0, 0);
        NumbersAdd(old(packetno), |sent| - |old(sent)|, 1);
        if dataSend < n - PAYLOAD {
          NextInBlock(file, pos, n, dataSend, PAYLOAD, packetno);
          BufferPart(file, pos, n, dataSend, PAYLOAD);
          ghost var before, rest := sent, DataPackets(file[pos + dataSend + PAYLOAD..], Next(packetno));
          Transmit(dataSend, PAYLOAD, SOH);
          assert before + ([sent[|before|]] + rest) == sent + rest;
          dataSend := dataSend + PAYLOAD;
        } else {
          NextInBlock(file, pos, n, dataSend, n - dataSend, packetno);
          BufferPart(file, pos, n, dataSend, n - dataSend);
          Transmit(dataSend, n - dataSend, SOH);
          break;
        }
      }
    }

    /** The sending loops of zigbee_fota_task, and the end of the transmission. */
    method SendImage(file: seq<byte>)
      requires buf.Length == BLOCK + 1
      modifies this, buf
      ensures sent == old(sent) + Transmission(file, old(packetno))
      ensures |sent| >= |old(sent)|
      ensures var ps, n := sent[|old(sent)|..], (|file| + 127) / 128;
        && |ps| == n + 1
        && (forall k :: 0 <= k < n ==>
              && |ps[k]| == 133 && ps[k][0] == 1 && ps[k][1] == (old(packetno) + k) % 256
              && ps[k][2] == 255 - ps[k][1]
              && (forall i :: 0 <= i < 128 ==>
                    ps[k][3..131][i] == if 128 * k + i < |file| then file[128 * k + i] else 0)
              && ps[k][131] as int * 0x100 + ps[k][132] as int == Crc16(ps[k][3..131]))
        && |ps[n]| == 133 && ps[n][0] == 4 && ps[n][1] == (old(packetno) + n) % 256 && ps[n][2] == 255 - ps[n][1]
        && (forall i :: 3 <= i < 131 ==> ps[n][i] == 0)
        && ps[n][131] as int * 0x100 + ps[n][132] as int == Crc16(ps[n][3..131])
    {
      hide *;
      SendAll(file);
      TransmissionBytes(file, old(packetno));
      assert sent[|old(sent)|..] == Transmission(file, old(packetno));
    }

    method SendAll(file: seq<byte>)
      requires buf.Length == BLOCK + 1
      modifies this, buf
      ensures sent == old(sent) + Transmission(file, old(packetno))
    {
      hide Packet, Padded, Zeros, NumberOf, Next, DataPackets;
      SendPackets(file);
      Emit(0, 0, EOT);
    }

    /** The two loops: block by block, and within a block packet by packet. */
    method SendPackets(file: seq<byte>)
      requires buf.Length == BLOCK + 1
      modifies this, buf
      ensures var packets := DataPackets(file, old(packetno));
        sent == old(sent) + packets && packetno == NumberOf(old(packetno), |packets|)
    {
      hide Packet, Padded, Zeros, NumberOf, Next;
      NumbersAdd(packetno, 0, 0);
      var remaining, pos := |file|, 0;
      assert file[0..] == file;
      while remaining != 0
        invariant 0 <= pos <= |file| && remaining == |file| - pos
        invariant old(sent) + DataPackets(file, old(packetno)) == sent + DataPackets(file[pos..], packetno)
        invariant |sent| >= |old(sent)| && packetno == NumberOf(old(packetno), |sent| - |old(sent)|)
        decreases remaining
      {
        var dataRead := Fread(file, pos);
        if dataRead <= 0 {
          break;
        }
        ghost var before := |sent|;
        SendBlock(dataRead, file, pos);
        NumbersAdd(old(packetno), before - |old(sent)|, |sent| - before);
        pos, remaining := pos + dataRead, remaining - dataRead;
      }
      assert sent + [] == sent;
    }
  }

  /** From the file to the receiver: what a sender sends is taken, and gives the file. */
  method Transfer(file: seq<byte>) returns (got: Option<seq<byte>>)
    ensures got == Some(file + Zeros(Padding(|file|)))
    ensures got.value[..|file|] == file && |got.value| % 128 == 0 && |got.value| < |file| + 128
    ensures forall i :: |file| <= i < |got.value| ==> got.value[i] == 0
  {
    hide *;
    var sender := new Sender();
    sender.SendImage(file);
    TransmissionIsTaken(file);
    assert [] + Transmission(file, 1) == Transmission(file, 1);
    got := Receive(sender.sent, 1);
    FileThenZeros(file);
  }

  lemma TransmissionIsTaken(file: seq<byte>)
    ensures Receive(Transmission(file, 1), 1) == Some(file + Zeros(Padding(|file|)))
  {
    hide Packet, Zeros, Receive;
    var no := NumberOf(1, |DataPackets(file, 1)|);
    PacketHeader(EOT, no, Zeros(PAYLOAD));
    ReceiveUndoesSend(file, 1, Packet(EOT, no, Zeros(PAYLOAD)));
  }

  lemma FileThenZeros(file: seq<byte>)
    ensures var got := file + Zeros(Padding(|file|));
      && got[..|file|] == file && |got| % 128 == 0 && |got| < |file| + 128
      && forall i :: |file| <= i < |got| ==> got[i] == 0
  {
  }
}
