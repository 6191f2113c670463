// Objects over a byte stream: what is sent arrives whole and in order, however the bytes are cut.
module JsonStreams {
  import opened HBtreeRecords
  import opened Options
  import opened PageCodec

  datatype Json = Json(text: string)

  const TAG := 0x736a_6271
  const VERSION := 1
  const JSON_HEADER_SIZE := 12

  /** The binary form of objects after the size field, and how it is read with that field. */
  datatype Codec = Codec(fits: Json -> bool, rest: Json -> Bytes, read: Bytes -> Option<Json>)

  function Base(o: Json, c: Codec): Bytes
    requires 4 + |c.rest(o)| < 0x1_0000_0000
  {
    LE32(4 + |c.rest(o)|) + c.rest(o)
  }

  ghost predicate Fits(o: Json, c: Codec) {
    c.fits(o) && 8 <= |c.rest(o)| && 4 + |c.rest(o)| < 0x1_0000_0000
  }

  ghost predicate Lawful(c: Codec) {
    forall o :: Fits(o, c) ==> c.read(Base(o, c)) == Some(o)
  }

  function Encode(o: Json, c: Codec): (r: Bytes)
    requires 4 + |c.rest(o)| < 0x1_0000_0000
    ensures |r| == 12 + |c.rest(o)|
  {
    LE32(TAG) + LE32(VERSION) + Base(o, c)
  }

  /** An object starts with the letters qbjs, the version and its size, least significant byte first. */
  lemma EncodeStarts(o: Json, c: Codec)
    requires 4 + |c.rest(o)| < 0x1_0000_0000
    ensures Encode(o, c)[..8] == [0x71, 0x62, 0x6a, 0x73, 1, 0, 0, 0]
    ensures Encode(o, c)[8..12] == LE32(4 + |c.rest(o)|) && Encode(o, c)[12..] == c.rest(o)
  {
    LittleEndian(TAG);
    LittleEndian(VERSION);
    hide LE32;
    assert Encode(o, c)[..8] == LE32(TAG) + LE32(VERSION);
  }

  ghost predicate AllFit(os: seq<Json>, c: Codec) {
    forall i :: 0 <= i < |os| ==> Fits(os[i], c)
  }

  ghost function EncodeAll(os: seq<Json>, c: Codec): Bytes
    requires AllFit(os, c)
  {
    if os == [] then [] else Encode(os[0], c) + EncodeAll(os[1..], c)
  }

  lemma {:induction false} EncodeAllSum(a: seq<Json>, b: seq<Json>, c: Codec)
    requires AllFit(a, c) && AllFit(b, c)
    ensures AllFit(a + b, c) && EncodeAll(a + b, c) == EncodeAll(a, c) + EncodeAll(b, c)
  {
    if a == [] {
      assert a + b == b;
    } else {
      EncodeAllSum(a[1..], b, c);
      assert (a + b)[1..] == a[1..] + b;
    }
  }

  // ---- decoding ----------------------------------------------------------------------------------------------

  function DocumentSize(buf: Bytes): nat
    requires |buf| >= JSON_HEADER_SIZE
  {
    8 + Read32(buf, 8)
  }

  predicate GoodHeader(buf: Bytes)
    requires |buf| >= JSON_HEADER_SIZE
  {
    Read32(buf, 0) == TAG && Read32(buf, 4) == VERSION
  }

  /** fromBinaryData: a document that is not there in full is none. */
  function FromBinaryData(buf: Bytes, c: Codec): Option<Json>
    requires |buf| >= JSON_HEADER_SIZE
  {
    if DocumentSize(buf) > |buf| then None else c.read(buf[8..DocumentSize(buf)])
  }

  datatype Drained = Drained(got: seq<Json>, left: Bytes)

  /** The objects that a buffer holds, and what is left of it. */
  function Drain(buf: Bytes, c: Codec): Drained {
    if |buf| <= JSON_HEADER_SIZE then Drained([], buf)
    else if !GoodHeader(buf) then Drained([], [])
    else
      var o := FromBinaryData(buf, c);
      if o.None? then Drained([], buf)
      else if DocumentSize(buf) > |buf| then Drained([], buf)
      else
        var d := Drain(buf[DocumentSize(buf)..], c);
        Drained([o.value] + d.got, d.left)
  }

  /** The header of an encoded object, in a buffer that starts with it. */
  lemma HeaderOf(buf: Bytes, o: Json, c: Codec)
    requires Fits(o, c) && |buf| > JSON_HEADER_SIZE && (buf <= Encode(o, c) || Encode(o, c) <= buf)
    ensures GoodHeader(buf) && DocumentSize(buf) == |Encode(o, c)|
  {
    hide LE32;
    var e := Encode(o, c);
    assert buf[..12] == e[..12];
    assert buf[0..4] == buf[..12][0..4] == LE32(TAG);
    assert buf[4..8] == buf[..12][4..8] == LE32(VERSION);
    assert buf[8..12] == buf[..12][8..12] == LE32(4 + |c.rest(o)|);
    ReadBack32(buf, 0, TAG);
    ReadBack32(buf, 4, VERSION);
    ReadBack32(buf, 8, 4 + |c.rest(o)|);
  }

  /** Decoding took the objects of `rest` that are in the buffer in full, and left a part of the next. */
  ghost predicate Took(d: Drained, buf: Bytes, rest: seq<Json>, c: Codec)
    requires AllFit(rest, c)
  {
    && d.got <= rest && buf == EncodeAll(rest[..|d.got|], c) + d.left
    && d.left <= EncodeAll(rest[|d.got|..], c)
    && if |d.got| < |rest| then |d.left| < |Encode(rest[|d.got|], c)| else d.left == []
  }

  lemma TookNone(buf: Bytes, rest: seq<Json>, c: Codec)
    requires AllFit(rest, c) && buf <= EncodeAll(rest, c) && (rest != [] ==> |buf| < |Encode(rest[0], c)|)
    ensures Took(Drained([], buf), buf, rest, c)
  {
    hide Encode;
    assert rest[0..] == rest && rest[..0] == [];
  }

  lemma TookOneMore(d: Drained, buf: Bytes, o: Json, rest: seq<Json>, c: Codec)
    requires Fits(o, c) && AllFit(rest, c) && Took(d, buf, rest, c)
    ensures AllFit([o] + rest, c) && Took(Drained([o] + d.got, d.left), Encode(o, c) + buf, [o] + rest, c)
  {
    hide Encode;
    var more, n := [o] + rest, |d.got|;
    assert more[..n + 1] == [o] + rest[..n] && more[n + 1..] == rest[n..];
    assert more[..n + 1][1..] == rest[..n];
    assert Encode(o, c) + (EncodeAll(rest[..n], c) + d.left) == (Encode(o, c) + EncodeAll(rest[..n], c)) + d.left;
  }

  /** One step of decoding a buffer that starts with an object, or with a part of one. */
  lemma DrainStep(buf: Bytes, o: Json, c: Codec)
    requires Lawful(c) && Fits(o, c) && (buf <= Encode(o, c) || Encode(o, c) <= buf)
    ensures |buf| < |Encode(o, c)| ==> Drain(buf, c) == Drained([], buf)
    ensures |buf| >= |Encode(o, c)| ==>
      var d := Drain(buf[|Encode(o, c)|..], c); Drain(buf, c) == Drained([o] + d.got, d.left)
  {
    hide LE32, GoodHeader, DocumentSize;
    var e := Encode(o, c);
    if |buf| > JSON_HEADER_SIZE {
      HeaderOf(buf, o, c);
      if |buf| >= |e| {
        assert buf[8..|e|] == buf[..|e|][8..] == e[8..] == Base(o, c);
      }
    }
  }

  lemma PrefixOfSum(buf: Bytes, a: Bytes, b: Bytes)
    requires buf <= a + b
    ensures if |buf| < |a| then buf <= a else a <= buf && buf[|a|..] <= b && buf == a + buf[|a|..]
  {
    if |buf| < |a| {
      assert buf == (a + b)[..|buf|] == a[..|buf|];
    } else {
      assert a == (a + b)[..|a|] == buf[..|a|];
      assert buf[|a|..] == (a + b)[..|buf|][|a|..] == b[..|buf| - |a|];
    }
  }

  /** From a stretch of the stream, decoding takes exactly the objects that are there in full. */
  lemma {:induction false} DrainTakesWholeObjects(buf: Bytes, rest: seq<Json>, c: Codec)
    requires Lawful(c) && AllFit(rest, c) && buf <= EncodeAll(rest, c)
    ensures Took(Drain(buf, c), buf, rest, c)
    decreases |rest|
  {
    hide Encode, Took, Drain;
    if rest == [] {
      EmptyDrain(c);
      TookNone(buf, rest, c);
    } else {
      var e := Encode(rest[0], c);
      PrefixOfSum(buf, e, EncodeAll(rest[1..], c));
      DrainStep(buf, rest[0], c);
      if |buf| < |e| {
        TookNone(buf, rest, c);
      } else {
        DrainTakesWholeObjects(buf[|e|..], rest[1..], c);
        TookOneMore(Drain(buf[|e|..], c), buf[|e|..], rest[0], rest[1..], c);
        assert [rest[0]] + rest[1..] == rest;
      }
    }
  }

  lemma EmptyDrain(c: Codec)
    ensures Drain([], c) == Drained([], [])
  {
  }

  lemma HeaderBytes(buf: Bytes)
    requires |buf| >= JSON_HEADER_SIZE
    ensures GoodHeader(buf) <==> buf[..8] == [0x71, 0x62, 0x6a, 0x73, 1, 0, 0, 0]
  {
    var header := buf[..8];
    assert forall i :: 0 <= i < 8 ==> header[i] == buf[i];
    if GoodHeader(buf) {
      assert header[0] == 0x71 && header[1] == 0x62 && header[2] == 0x6a && header[3] == 0x73;
      assert header[4] == 1 && header[5] == 0 && header[6] == 0 && header[7] == 0;
    }
  }

  /** Bytes that are no object are dropped with all that came after them; the objects before them are taken, and what comes
      next is read as the start of an object. */
  lemma {:induction false} JunkIsDropped(os: seq<Json>, junk: Bytes, c: Codec)
    requires Lawful(c) && AllFit(os, c) && |junk| > JSON_HEADER_SIZE && junk[..8] != [0x71, 0x62, 0x6a, 0x73, 1, 0, 0, 0]
    ensures Drain(EncodeAll(os, c) + junk, c) == Drained(os, [])
  {
    hide GoodHeader, Encode, Lawful, FromBinaryData, DocumentSize;
    if os == [] {
      assert EncodeAll(os, c) + junk == junk;
      HeaderBytes(junk);
    } else {
      var e, buf := Encode(os[0], c), EncodeAll(os, c) + junk;
      assert buf == e + (EncodeAll(os[1..], c) + junk);
      DrainStep(buf, os[0], c);
      assert buf[|e|..] == EncodeAll(os[1..], c) + junk;
      JunkIsDropped(os[1..], junk, c);
      assert [os[0]] + os[1..] == os;
    }
  }

  // ---- the stream --------------------------------------------------------------------------------------------

  /** One direction of a device: bytes under way and bytes that have arrived. */
  class Pipe {
    var flight: Bytes
    var arrived: Bytes

    /** Takes what there is room for; no room at all below zero is an error. */
    method Write(data: Bytes, room: int) returns (n: int)
      modifies `flight
      ensures n == if room < 0 then -1 else if room < |data| then room else |data|
      ensures flight == old(flight) + if n < 0 then [] else data[..n]
    {
      n := if room < 0 then -1 else if room < |data| then room else |data|;
      if n >= 0 { flight := flight + data[..n]; }
    }

    method Arrive(count: nat)
      modifies this
      ensures arrived + flight == old(arrived + flight)
      ensures |flight| == if count < |old(flight)| then |old(flight)| - count else 0
    {
      var n := if count < |flight| then count else |flight|;
      assert flight == flight[..n] + flight[n..];
      arrived, flight := arrived + flight[..n], flight[n..];
    }
  }

  class JsonStream {
    const output: Pipe
    const input: Pipe
    const codec: Codec
    var writeBuffer: Bytes
    var readBuffer: Bytes
    var received: seq<Json>

    constructor (output: Pipe, input: Pipe, codec: Codec)
      ensures this.output == output && this.input == input && this.codec == codec
      ensures writeBuffer == [] && readBuffer == [] && received == []
    {
      this.output, this.input, this.codec := output, input, codec;
      writeBuffer, readBuffer, received := [], [], [];
    }

    /** send: what the device does not take is buffered; with an error the object is dropped. */
    method Send(o: Json, room: int) returns (ok: bool)
      requires 4 + |codec.rest(o)| < 0x1_0000_0000
      modifies `writeBuffer, output`flight
      ensures ok
      ensures output.flight + writeBuffer ==
        old(output.flight + writeBuffer) + if room < 0 && old(writeBuffer) == [] then [] else Encode(o, codec)
    {
      var data := Encode(o, codec);
      if writeBuffer == [] {
        var didWrite := output.Write(data, room);
        if 0 <= didWrite < |data| {
          writeBuffer := data[didWrite..];
          assert data == data[..didWrite] + data[didWrite..];
        }
      } else {
        writeBuffer := writeBuffer + data;
      }
      return true;
    }

    method DeviceBytesWritten(room: int)
      modifies `writeBuffer, output`flight
      ensures output.flight + writeBuffer == old(output.flight + writeBuffer)
      ensures |writeBuffer| == |old(writeBuffer)| - if room <= 0 then 0 else if room < |old(writeBuffer)| then room else |old(writeBuffer)|
    {
      if writeBuffer != [] {
        var didWrite := output.Write(writeBuffer, room);
        if didWrite >= 0 {
          assert writeBuffer == writeBuffer[..didWrite] + writeBuffer[didWrite..];
          writeBuffer := writeBuffer[didWrite..];
        }
      }
    }

    /** The inner loop: takes objects from the buffer as long as it starts with a whole one. */
    method Decode()
      modifies `readBuffer, `received
      ensures var d := Drain(old(readBuffer), codec); received == old(received) + d.got && readBuffer == d.left
    {
      hide GoodHeader, FromBinaryData;
      ghost var was := Drain(readBuffer, codec);
      while |readBuffer| > JSON_HEADER_SIZE
        invariant var d := Drain(readBuffer, codec); received + d.got == old(received) + was.got && d.left == was.left
        decreases |readBuffer|
      {
        if !GoodHeader(readBuffer) {
          readBuffer := [];
          break;
        }
        var doc := FromBinaryData(readBuffer, codec);
        if doc.None? || DocumentSize(readBuffer) > |readBuffer| {
          break;
        }
        ghost var d := Drain(readBuffer[DocumentSize(readBuffer)..], codec);
        assert received + ([doc.value] + d.got) == (received + [doc.value]) + d.got;
        received := received + [doc.value];
        readBuffer := readBuffer[DocumentSize(readBuffer)..];
      }
    }

    /** deviceReadyRead, while more bytes may arrive. The stream is the encoding of `rest` from here on; afterwards all
        that has arrived is decoded, and the objects received are those of it that are there in full. */
    method DeviceReadyRead(more: seq<nat>, ghost rest: seq<Json>, ghost tail: Bytes) returns (ghost n: nat)
      requires Lawful(codec) && AllFit(rest, codec)
      requires readBuffer + ((input.arrived + input.flight) + tail) == EncodeAll(rest, codec)
      modifies `readBuffer, `received, input
      ensures n <= |rest| && received == old(received) + rest[..n] && input.arrived == []
      ensures readBuffer + (input.flight + tail) == EncodeAll(rest[n..], codec)
      ensures old(input.arrived) != [] && n < |rest| ==> |readBuffer| < |Encode(rest[n], codec)|
      ensures more == [] ==> input.flight == old(input.flight)
    {
      hide Encode, EncodeAll, Drain, Lawful;
      n := 0;
      assert rest[0..] == rest && rest[..0] == [];
      var i := 0;
      while input.arrived != []
        invariant n <= |rest| && received == old(received) + rest[..n]
        invariant readBuffer + ((input.arrived + input.flight) + tail) == EncodeAll(rest[n..], codec)
        invariant i > 0 && n < |rest| ==> |readBuffer| < |Encode(rest[n], codec)|
        invariant old(input.arrived) != [] && input.arrived == [] ==> i > 0
        invariant more == [] ==> input.flight == old(input.flight)
        decreases |input.arrived| + |input.flight|
      {
        ghost var left := rest[n..];
        ghost var buffer := readBuffer;
        readBuffer := readBuffer + input.arrived;
        Regroup(buffer, input.arrived, input.flight, tail);
        input.arrived := [];
        RestOfStream(readBuffer, left, input.flight + tail, codec);
        ghost var d := Drain(readBuffer, codec);
        Decode();
        Onwards(rest, n, |d.got|);
        n := n + |d.got|;
        Regroup([], [], input.flight, tail);
        if i < |more| {
          input.Arrive(more[i]);
        }
        i := i + 1;
      }
      Regroup([], [], input.flight, tail);
    }
  }

  lemma Regroup(a: Bytes, b: Bytes, c: Bytes, d: Bytes)
    ensures a + ((b + c) + d) == (a + b) + (c + d)
    ensures [] + c == c
  {
  }

  lemma Onwards(rest: seq<Json>, n: nat, k: nat)
    requires n <= |rest| && k <= |rest[n..]|
    ensures rest[..n + k] == rest[..n] + rest[n..][..k] && rest[n + k..] == rest[n..][k..]
  {
  }

  /** What follows the decoded objects is the encoding of the others. */
  lemma RestOfStream(buffer: Bytes, rest: seq<Json>, tail: Bytes, c: Codec)
    requires Lawful(c) && AllFit(rest, c) && buffer + tail == EncodeAll(rest, c)
    ensures var d := Drain(buffer, c);
      && d.got <= rest && AllFit(rest[|d.got|..], c) && d.left + tail == EncodeAll(rest[|d.got|..], c)
      && (|d.got| < |rest| ==> |d.left| < |Encode(rest[|d.got|], c)|)
  {
    hide Encode, EncodeAll, Drain;
    assert buffer == (buffer + tail)[..|buffer|];
    DrainTakesWholeObjects(buffer, rest, c);
    var d := Drain(buffer, c);
    var n := |d.got|;
    EncodeAllSum(rest[..n], rest[n..], c);
    assert rest == rest[..n] + rest[n..];
    SamePrefix(EncodeAll(rest[..n], c), d.left, tail, EncodeAll(rest[n..], c));
  }

  lemma SamePrefix(a: Bytes, b: Bytes, c: Bytes, d: Bytes)
    requires (a + b) + c == a + d
    ensures b + c == d
  {
    assert ((a + b) + c)[|a|..] == b + c && (a + d)[|a|..] == d;
  }

  // ---- two ends of a stream ----------------------------------------------------------------------------------

  /** What a has sent, b has received a prefix of; the encoding of the rest is in b's buffer, the device and a's buffer. */
  ghost predicate Linked(a: JsonStream, b: JsonStream, sent: seq<Json>)
    reads a, b, b.input
  {
    && a != b && a.output == b.input && b.output != b.input && a.codec == b.codec && Lawful(a.codec) && AllFit(sent, a.codec)
    && |b.received| <= |sent| && b.received == sent[..|b.received|]
    && b.readBuffer + ((b.input.arrived + b.input.flight) + a.writeBuffer) == EncodeAll(sent[|b.received|..], a.codec)
  }

  /** Whatever happens next: a send, room on the device, bytes that arrive, a read. */
  datatype Step = Sends(o: Json, room: int) | Writes(room: int) | Arrives(count: nat) | Reads(more: seq<nat>)

  ghost predicate StepOk(s: Step, c: Codec) {
    s.Sends? ==> Fits(s.o, c)
  }

  method TakeStep(a: JsonStream, b: JsonStream, s: Step, ghost sent: seq<Json>) returns (ghost now: seq<Json>)
    requires Linked(a, b, sent) && StepOk(s, a.codec)
    modifies a`writeBuffer, b`readBuffer, b`received, b.input
    ensures Linked(a, b, now)
    ensures now == if s.Sends? && !(s.room < 0 && old(a.writeBuffer) == []) then sent + [s.o] else sent
    ensures s.Writes? && s.room >= |old(a.writeBuffer)| ==> a.writeBuffer == []
    ensures s.Arrives? && s.count >= |old(b.input.flight)| ==> b.input.flight == []
    ensures s.Arrives? || (s.Reads? && s.more == []) ==> a.writeBuffer == old(a.writeBuffer)
    ensures s.Reads? && s.more == [] && old(b.input.flight) == [] ==> b.input.flight == []
    ensures s.Writes? || s.Arrives? ==> UnderWay(a, b) == old(UnderWay(a, b)) && b.received == old(b.received)
    ensures s.Reads? ==> b.input.arrived == []
    ensures s.Reads? && old(b.input.arrived) != [] && |b.received| < |now| ==>
      |b.readBuffer| < |Encode(now[|b.received|], b.codec)|
  {
    hide Encode, EncodeAll, Lawful;
    ghost var n := |b.received|;
    now := sent;
    match s {
      case Sends(o, room) =>
        ghost var buffer, arrived, out := b.readBuffer, b.input.arrived, b.input.flight + a.writeBuffer;
        assert arrived + out == (b.input.arrived + b.input.flight) + a.writeBuffer;
        var dropped := room < 0 && a.writeBuffer == [];
        var ok := a.Send(o, room);
        assert (b.input.arrived + b.input.flight) + a.writeBuffer == arrived + (b.input.flight + a.writeBuffer);
        if !dropped {
          now := sent + [o];
          MoreToSend(sent, n, o, a.codec);
          assert buffer + (arrived + (out + Encode(o, a.codec))) == (buffer + (arrived + out)) + Encode(o, a.codec);
        } else {
          assert out + [] == out;
        }
      case Writes(room) =>
        ghost var arrived, out := b.input.arrived, b.input.flight + a.writeBuffer;
        assert arrived + out == (b.input.arrived + b.input.flight) + a.writeBuffer;
        a.DeviceBytesWritten(room);
        assert (b.input.arrived + b.input.flight) + a.writeBuffer == arrived + (b.input.flight + a.writeBuffer);
      case Arrives(count) =>
        b.input.Arrive(count);
      case Reads(more) =>
        ghost var rest := sent[n..];
        ghost var k := b.DeviceReadyRead(more, rest, a.writeBuffer);
        assert sent[..n + k] == sent[..n] + rest[..k] && sent[n + k..] == rest[k..];
        assert b.input.arrived + b.input.flight == b.input.flight;
    }
  }

  /** The bytes between the two streams. */
  function UnderWay(a: JsonStream, b: JsonStream): nat
    reads a, b, b.input
  {
    |b.input.arrived| + |b.input.flight| + |a.writeBuffer|
  }

  lemma MoreToSend(sent: seq<Json>, n: nat, o: Json, c: Codec)
    requires n <= |sent| && AllFit(sent, c) && Fits(o, c)
    ensures AllFit(sent + [o], c) && (sent + [o])[..n] == sent[..n]
    ensures EncodeAll((sent + [o])[n..], c) == EncodeAll(sent[n..], c) + Encode(o, c)
  {
    hide Encode;
    assert (sent + [o])[n..] == sent[n..] + [o];
    EncodeAllSum(sent[n..], [o], c);
    assert EncodeAll([o], c) == Encode(o, c) + EncodeAll([], c) == Encode(o, c);
  }

  /** The objects that the steps send. */
  function SentBy(steps: seq<Step>): seq<Json> {
    if steps == [] then []
    else SentBy(steps[..|steps| - 1]) + if steps[|steps| - 1].Sends? then [steps[|steps| - 1].o] else []
  }

  /** For every interleaving of sends, partial writes, arrivals and reads the receiver has a prefix of what was sent, and
      no byte is lost or made up. */
  method Run(a: JsonStream, b: JsonStream, steps: seq<Step>, ghost sent: seq<Json>) returns (ghost now: seq<Json>)
    requires Linked(a, b, sent) && forall i :: 0 <= i < |steps| ==> StepOk(steps[i], a.codec)
    modifies a`writeBuffer, b`readBuffer, b`received, b.input
    ensures Linked(a, b, now) && sent <= now
    ensures b.received <= now
    ensures (forall i :: 0 <= i < |steps| && steps[i].Sends? ==> steps[i].room >= 0) ==> now == sent + SentBy(steps)
  {
    hide Linked;
    now := sent;
    for i := 0 to |steps|
      invariant Linked(a, b, now) && sent <= now
      invariant (forall j :: 0 <= j < i && steps[j].Sends? ==> steps[j].room >= 0) ==> now == sent + SentBy(steps[..i])
    {
      assert steps[..i + 1][..i] == steps[..i];
      now := TakeStep(a, b, steps[i], now);
    }
    assert steps[..|steps|] == steps;
    Prefix(a, b, now);
  }

  lemma Prefix(a: JsonStream, b: JsonStream, sent: seq<Json>)
    requires Linked(a, b, sent)
    ensures b.received <= sent
  {
  }

  /** When nothing is under way and the receiver waits for more bytes, everything that was sent has been received. */
  lemma AllDelivered(a: JsonStream, b: JsonStream, sent: seq<Json>)
    requires Linked(a, b, sent) && a.writeBuffer == [] && b.input.flight == [] && b.input.arrived == []
    requires |b.received| < |sent| ==> |b.readBuffer| < |Encode(sent[|b.received|], b.codec)|
    ensures b.received == sent
  {
    hide Encode, Lawful;
    var n := |b.received|;
    assert b.readBuffer + (([] + []) + []) == b.readBuffer;
    FirstFits(sent[n..], a.codec);
  }

  lemma FirstFits(os: seq<Json>, c: Codec)
    requires AllFit(os, c)
    ensures os != [] ==> |Encode(os[0], c)| <= |EncodeAll(os, c)|
  {
  }

  /** What is under way can be delivered: once the device has taken the buffer and all bytes have arrived, one read receives
      everything that was sent. */
  method DeliverAll(a: JsonStream, b: JsonStream, ghost sent: seq<Json>)
    requires Linked(a, b, sent) && UnderWay(a, b) > 0
    modifies a`writeBuffer, b`readBuffer, b`received, b.input
    ensures Linked(a, b, sent) && b.received == sent
  {
    hide Encode, EncodeAll, Lawful, SentBy;
    ghost var now := TakeStep(a, b, Writes(|a.writeBuffer|), sent);
    now := TakeStep(a, b, Arrives(|b.input.flight|), now);
    now := TakeStep(a, b, Reads([]), now);
    assert now == sent;
    AllDelivered(a, b, sent);
  }
}
