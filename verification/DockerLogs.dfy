/** The demultiplexer of Docker's log stream: frames of an 8-byte header, whose last four bytes are
    the payload size in big-endian order, and the payload. */
module DockerLogs {
  import opened Bytes

  /** The payload size a header declares. */
  function FrameSize(header: seq<Byte>): nat
    requires |header| == 8
  {
    Uint32(header[4..])
  }

  function Min(a: int, b: int): int {
    if a < b then a else b
  }

  /** The payload bytes that `body` holds, frame after frame. */
  function Payload(body: seq<Byte>): seq<Byte> {
    if |body| < 8 then []
    else
      var end := Min(8 + FrameSize(body[..8]), |body|);
      body[8..end] + Payload(body[end..])
  }

  /** A body without payload bytes is taken to be unframed, and returned as it is. */
  function Logs(body: seq<Byte>): seq<Byte> {
    if Payload(body) == [] then body else Payload(body)
  }

  lemma {:induction false} PayloadStep(sb: seq<Byte>, body: seq<Byte>, i: nat, end: nat)
    requires i + 8 <= |body|
    requires end == Min(i + 8 + FrameSize(body[i..i + 8]), |body|)
    ensures sb + body[i + 8..end] + Payload(body[end..]) == sb + Payload(body[i..])
  {
    var rest, more := body[i..], Payload(body[end..]);
    assert rest[..8] == body[i..i + 8];
    assert rest[8..end - i] == body[i + 8..end];
    assert rest[end - i..] == body[end..];
    assert Payload(rest) == body[i + 8..end] + more;
    assert sb + body[i + 8..end] + more == sb + (body[i + 8..end] + more);
  }

  method ContainerLogs(body: seq<Byte>) returns (text: seq<Byte>)
    ensures text == Logs(body)
    ensures text == body || (Payload(body) != [] && text == Payload(body))
  {
    ghost var all := Payload(body);
    var sb: seq<Byte> := [];
    var i := 0;
    assert body[0..] == body && sb + all == all;
    while i + 8 <= |body|
      invariant 0 <= i <= |body|
      invariant sb + Payload(body[i..]) == all
      decreases |body| - i
    {
      var frameSize := FrameSize(body[i..i + 8]);
      var end := i + 8 + frameSize;
      if end > |body| {
        end := |body|;
      }
      PayloadStep(sb, body, i, end);
      sb := sb + body[i + 8..end];
      i := end;
    }
    assert Payload(body[i..]) == [] && sb == all;
    if |sb| == 0 {
      return body;
    }
    return sb;
  }

  // -------------------------------------------------------------------- framing

  /** A frame: the stream byte with its three padding bytes, and the payload. */
  datatype Frame = Frame(stream: seq<Byte>, payload: seq<Byte>)

  predicate ValidFrame(f: Frame) {
    |f.stream| == 4 && |f.payload| < TWO32
  }

  ghost predicate AllValid(frames: seq<Frame>) {
    forall i | 0 <= i < |frames| :: ValidFrame(frames[i])
  }

  function Header(f: Frame): (r: seq<Byte>)
    requires ValidFrame(f)
    ensures |r| == 8
  {
    f.stream + BigEndian(|f.payload|)
  }

  ghost function Encode(frames: seq<Frame>): seq<Byte>
    requires AllValid(frames)
  {
    if frames == [] then []
    else Header(frames[0]) + frames[0].payload + Encode(frames[1..])
  }

  ghost function Payloads(frames: seq<Frame>): seq<Byte> {
    if frames == [] then [] else frames[0].payload + Payloads(frames[1..])
  }

  lemma {:induction false} PayloadOfFrame(header: seq<Byte>, payload: seq<Byte>, rest: seq<Byte>)
    requires |header| == 8 && FrameSize(header) == |payload|
    ensures Payload(header + payload + rest) == payload + Payload(rest)
  {
    var body := header + payload + rest;
    assert body[..8] == header;
    assert body[8..8 + |payload|] == payload;
    assert body[8 + |payload|..] == rest;
  }

  lemma {:induction false} EncodeCons(frames: seq<Frame>, tail: seq<Byte>)
    requires AllValid(frames) && frames != []
    ensures Encode(frames) + tail == Header(frames[0]) + frames[0].payload + (Encode(frames[1..]) + tail)
  {
  }

  /** Whole frames give their payloads; what follows them is read as if it stood alone. */
  lemma {:induction false} PayloadOfFrames(frames: seq<Frame>, tail: seq<Byte>)
    requires AllValid(frames)
    ensures Payload(Encode(frames) + tail) == Payloads(frames) + Payload(tail)
  {
    if frames == [] {
      assert [] + tail == tail;
    } else {
      var f, rest := frames[0], frames[1..];
      Uint32OfBigEndian(|f.payload|);
      assert Header(f)[4..] == BigEndian(|f.payload|);
      calc {
        Payload(Encode(frames) + tail);
        { EncodeCons(frames, tail); }
        Payload(Header(f) + f.payload + (Encode(rest) + tail));
        { PayloadOfFrame(Header(f), f.payload, Encode(rest) + tail); }
        f.payload + Payload(Encode(rest) + tail);
        { PayloadOfFrames(rest, tail); }
        f.payload + (Payloads(rest) + Payload(tail));
        Payloads(frames) + Payload(tail);
      }
    }
  }

  /** Demultiplexing inverts framing, except that frames without any payload byte come back raw. */
  lemma {:induction false} DemuxInvertsFraming(frames: seq<Frame>)
    requires AllValid(frames)
    ensures Logs(Encode(frames)) == Payloads(frames) <==> frames == [] || Payloads(frames) != []
  {
    PayloadOfFrames(frames, []);
    assert Encode(frames) + [] == Encode(frames);
    if frames != [] {
      assert |Encode(frames)| >= 8;
    }
  }

  /** A last piece that is not a whole frame: no full header, or a header that declares more bytes
      than there are. */
  ghost predicate Cut(tail: seq<Byte>) {
    |tail| < 8 || FrameSize(tail[..8]) > |tail| - 8
  }

  lemma {:induction false} PayloadOfCut(tail: seq<Byte>)
    requires Cut(tail)
    ensures Payload(tail) == if |tail| < 8 then [] else tail[8..]
  {
    assert Payload(tail[|tail|..]) == [];
  }

  lemma {:induction false} SplitBytes(body: seq<Byte>) returns (frames: seq<Frame>, tail: seq<Byte>)
    ensures AllValid(frames) && Cut(tail) && body == Encode(frames) + tail
  {
    if Cut(body) {
      frames, tail := [], body;
    } else {
      var end := 8 + FrameSize(body[..8]);
      var f := Frame(body[..4], body[8..end]);
      BigEndianOfUint32(body[..8][4..]);
      assert body[..8][4..] == body[4..8];
      assert Header(f) == body[..4] + body[4..8] == body[..8];
      var more: seq<Frame>;
      more, tail := SplitBytes(body[end..]);
      frames := [f] + more;
      assert frames[1..] == more;
      assert body == body[..8] + body[8..end] + body[end..];
    }
  }

  /** Any bytes at all are some whole frames and a cut piece; they give the payloads and the bytes
      that the cut piece still has. */
  lemma {:induction false} AnyBytes(body: seq<Byte>) returns (frames: seq<Frame>, tail: seq<Byte>)
    ensures AllValid(frames) && Cut(tail) && body == Encode(frames) + tail
    ensures Payload(body) == Payloads(frames) + if |tail| < 8 then [] else tail[8..]
  {
    frames, tail := SplitBytes(body);
    PayloadOfFrames(frames, tail);
    PayloadOfCut(tail);
  }

  /** A frame byte by byte: four bytes that are skipped, the payload size with its most significant byte
      first, and the payload, which is cut short when there are fewer bytes. */
  lemma {:induction false} FrameBytes(stream: seq<Byte>, a: Byte, b: Byte, c: Byte, d: Byte, rest: seq<Byte>)
    requires |stream| == 4
    ensures var size := ((a as int * 256 + b as int) * 256 + c as int) * 256 + d as int;
            Payload(stream + [a, b, c, d] + rest) ==
              if size <= |rest| then rest[..size] + Payload(rest[size..]) else rest
  {
    var header := stream + [a, b, c, d];
    var size := FrameSize(header);
    assert header[4..] == [a, b, c, d];
    Uint32Means(a, b, c, d);
    if size <= |rest| {
      PayloadOfFrame(header, rest[..size], rest[size..]);
      assert header + rest[..size] + rest[size..] == header + rest;
    } else {
      var body := header + rest;
      assert body[..8] == header && body[8..] == rest;
      PayloadOfCut(body);
    }
  }
}
