/** Peer wire messages and their framing (`peer/message.rs`; BEP 3, BEP 6, BEP 10). */
module Wire {
  import opened Bytes

  datatype Message =
    | KeepAlive
    | Choke
    | Unchoke
    | Interested
    | NotInterested
    | Have(piece: u32)
    | Bitfield(bits: bytes)
    | Request(index: u32, begin: u32, length: u32)
    | Piece(index: u32, begin: u32, data: bytes)
    | Cancel(index: u32, begin: u32, length: u32)
    | Extended(extId: byte, payload: bytes)
    | HaveAll
    | HaveNone
    | RejectRequest(index: u32, begin: u32, length: u32)
    | AllowedFast(piece: u32)
    | SuggestPiece(piece: u32)

  datatype Error = NotEmpty | BadLength | UnknownId | TooLarge | Closed
  datatype Result<+T> = Ok(value: T) | Err(error: Error)

  const ID_PIECE: byte := 7

  // ---- encoding ----

  function Triple(index: u32, begin: u32, length: u32): (s: bytes)
    ensures |s| == 12
  {
    Be32(index) + Be32(begin) + Be32(length)
  }

  /** The frame after its length prefix. */
  function Body(m: Message): bytes
  {
    match m
    case KeepAlive => []
    case Choke => [0]
    case Unchoke => [1]
    case Interested => [2]
    case NotInterested => [3]
    case Have(i) => [4] + Be32(i)
    case Bitfield(b) => [5] + b
    case Request(i, b, l) => [6] + Triple(i, b, l)
    case Piece(i, b, data) => [7] + (Be32(i) + Be32(b) + data)
    case Cancel(i, b, l) => [8] + Triple(i, b, l)
    case Extended(id, payload) => [20] + ([id] + payload)
    case HaveAll => [14]
    case HaveNone => [15]
    case RejectRequest(i, b, l) => [16] + Triple(i, b, l)
    case AllowedFast(i) => [17] + Be32(i)
    case SuggestPiece(i) => [13] + Be32(i)
  }

  /** The length is cast to 32 bits. */
  function Frame(body: bytes): bytes
  {
    Be32(|body| % U32_LIMIT) + body
  }

  function Encode(m: Message): bytes
  {
    Frame(Body(m))
  }

  /** `write_message`: blocks are laid out in one pass, everything else goes through the encoder. */
  method WriteMessage(m: Message) returns (buf: bytes)
    ensures buf == Encode(m)
  {
    if m.Piece? {
      var bodyLen := 1 + 8 + |m.data|;
      buf := Be32(bodyLen % U32_LIMIT);
      buf := buf + [ID_PIECE];
      buf := buf + Be32(m.index);
      buf := buf + Be32(m.begin);
      buf := buf + m.data;
      assert buf == Be32(|Body(m)| % U32_LIMIT) + Body(m);
      return;
    }
    buf := Encode(m);
  }

  // ---- decoding ----

  function DecodeEmpty(p: bytes, m: Message): Result<Message>
  {
    if p == [] then Ok(m) else Err(NotEmpty)
  }

  function Decode(frame: bytes): Result<Message>
  {
    if frame == [] then Ok(KeepAlive)
    else
      var id, p := frame[0], frame[1..];
      if id == 0 then DecodeEmpty(p, Choke)
      else if id == 1 then DecodeEmpty(p, Unchoke)
      else if id == 2 then DecodeEmpty(p, Interested)
      else if id == 3 then DecodeEmpty(p, NotInterested)
      else if id == 4 then if |p| != 4 then Err(BadLength) else Ok(Have(ReadBe32(p)))
      else if id == 5 then Ok(Bitfield(p))
      else if id == 6 || id == 8 || id == 16 then
        if |p| != 12 then Err(BadLength)
        else
          var (i, b, l) := (ReadBe32(p[..4]), ReadBe32(p[4..8]), ReadBe32(p[8..]));
          Ok(if id == 6 then Request(i, b, l) else if id == 8 then Cancel(i, b, l) else RejectRequest(i, b, l))
      else if id == 7 then
        if |p| < 8 then Err(BadLength) else Ok(Piece(ReadBe32(p[..4]), ReadBe32(p[4..8]), p[8..]))
      else if id == 20 then if p == [] then Err(BadLength) else Ok(Extended(p[0], p[1..]))
      else if id == 14 then DecodeEmpty(p, HaveAll)
      else if id == 15 then DecodeEmpty(p, HaveNone)
      else if id == 17 || id == 13 then
        if |p| != 4 then Err(BadLength)
        else Ok(if id == 17 then AllowedFast(ReadBe32(p)) else SuggestPiece(ReadBe32(p)))
      else Err(UnknownId)
  }

  lemma TripleParts(i: u32, b: u32, l: u32)
    ensures
      var p := Triple(i, b, l);
      ReadBe32(p[..4]) == i && ReadBe32(p[4..8]) == b && ReadBe32(p[8..]) == l
  {
    var p := Triple(i, b, l);
    assert p[..4] == Be32(i) && p[4..8] == Be32(b) && p[8..] == Be32(l);
    ReadBe32OfBe32(i);
    ReadBe32OfBe32(b);
    ReadBe32OfBe32(l);
  }

  lemma PieceParts(i: u32, b: u32, data: bytes)
    ensures
      var p := Be32(i) + Be32(b) + data;
      ReadBe32(p[..4]) == i && ReadBe32(p[4..8]) == b && p[8..] == data
  {
    var p := Be32(i) + Be32(b) + data;
    assert p[..4] == Be32(i) && p[4..8] == Be32(b);
    ReadBe32OfBe32(i);
    ReadBe32OfBe32(b);
  }

  /** Every message is decoded from its own frame. */
  lemma DecodeOfBody(m: Message)
    ensures Decode(Body(m)) == Ok(m)
  {
    hide Be32;
    hide ReadBe32;
    hide Triple;
    var f := Body(m);
    if m.Request? || m.Cancel? || m.RejectRequest? {
      assert f[1..] == Triple(m.index, m.begin, m.length);
      TripleParts(m.index, m.begin, m.length);
    } else if m.Piece? {
      assert f[1..] == Be32(m.index) + Be32(m.begin) + m.data;
      PieceParts(m.index, m.begin, m.data);
    } else if m.Have? || m.AllowedFast? || m.SuggestPiece? {
      assert f[1..] == Be32(m.piece);
      ReadBe32OfBe32(m.piece);
    } else if m.Extended? {
      assert f[1..] == [m.extId] + m.payload;
    }
  }

  lemma TripleOfParts(p: bytes)
    requires |p| == 12
    ensures Triple(ReadBe32(p[..4]), ReadBe32(p[4..8]), ReadBe32(p[8..])) == p
  {
    Be32OfReadBe32(p[..4]);
    Be32OfReadBe32(p[4..8]);
    Be32OfReadBe32(p[8..]);
    assert p == p[..4] + p[4..8] + p[8..];
  }

  lemma PieceOfParts(p: bytes)
    requires |p| >= 8
    ensures Be32(ReadBe32(p[..4])) + Be32(ReadBe32(p[4..8])) + p[8..] == p
  {
    Be32OfReadBe32(p[..4]);
    Be32OfReadBe32(p[4..8]);
    assert p == p[..4] + p[4..8] + p[8..];
  }

  /** Every accepted frame is the one its message encodes to: no two frames mean the same. */
  lemma BodyOfDecode(frame: bytes)
    ensures Decode(frame).Ok? ==> Body(Decode(frame).value) == frame
  {
    hide Be32;
    hide ReadBe32;
    hide Triple;
    if Decode(frame).Ok? && frame != [] {
      var id, p := frame[0], frame[1..];
      assert frame == [id] + p;
      if id == 6 || id == 8 || id == 16 {
        TripleOfParts(p);
      } else if id == 7 {
        PieceOfParts(p);
      } else if id == 4 || id == 17 || id == 13 {
        Be32OfReadBe32(p);
      } else if id == 20 {
        assert p == [p[0]] + p[1..];
      }
    }
  }

  // ---- the layout ----

  /** The message ids of BEP 3, BEP 6 and BEP 10. */
  ghost function IdByte(m: Message): int
  {
    match m
    case KeepAlive => -1
    case Choke => 0 case Unchoke => 1 case Interested => 2 case NotInterested => 3
    case Have(_) => 4 case Bitfield(_) => 5 case Request(_, _, _) => 6 case Piece(_, _, _) => 7 case Cancel(_, _, _) => 8
    case SuggestPiece(_) => 13 case HaveAll => 14 case HaveNone => 15 case RejectRequest(_, _, _) => 16 case AllowedFast(_) => 17
    case Extended(_, _) => 20
  }

  /** Where everything stands in a frame: the id first, then the fields as big-endian numbers. */
  lemma Layout(m: Message)
    ensures
      var f := Body(m);
      && (m.KeepAlive? <==> f == [])
      && (!m.KeepAlive? ==> f[0] == IdByte(m))
      && (m.Choke? || m.Unchoke? || m.Interested? || m.NotInterested? || m.HaveAll? || m.HaveNone? ==> |f| == 1)
      && (m.Have? || m.AllowedFast? || m.SuggestPiece? ==> |f| == 5 && FromBigEndian(f[1..]) == m.piece)
      && (m.Bitfield? ==> f[1..] == m.bits)
      && (m.Request? || m.Cancel? || m.RejectRequest? ==>
            |f| == 13 && FromBigEndian(f[1..5]) == m.index && FromBigEndian(f[5..9]) == m.begin && FromBigEndian(f[9..]) == m.length)
      && (m.Piece? ==> |f| >= 9 && FromBigEndian(f[1..5]) == m.index && FromBigEndian(f[5..9]) == m.begin && f[9..] == m.data)
      && (m.Extended? ==> |f| >= 2 && f[1] == m.extId && f[2..] == m.payload)
  {
    hide Be32;
    hide FromBigEndian;
    var f := Body(m);
    if m.Request? || m.Cancel? || m.RejectRequest? {
      Be32Value(m.index);
      Be32Value(m.begin);
      Be32Value(m.length);
      assert f[1..5] == Be32(m.index) && f[5..9] == Be32(m.begin) && f[9..] == Be32(m.length);
    } else if m.Piece? {
      Be32Value(m.index);
      Be32Value(m.begin);
      assert f[1..5] == Be32(m.index) && f[5..9] == Be32(m.begin);
    } else if m.Have? || m.AllowedFast? || m.SuggestPiece? {
      Be32Value(m.piece);
      assert f[1..] == Be32(m.piece);
    }
  }

  /** The prefix is the frame's length, big-endian. */
  lemma PrefixIsLength(m: Message)
    ensures |Body(m)| < U32_LIMIT ==> FromBigEndian(Encode(m)[..4]) == |Body(m)| && Encode(m)[4..] == Body(m)
  {
    hide Body;
    hide Be32;
    hide FromBigEndian;
    if |Body(m)| < U32_LIMIT {
      Be32Value(|Body(m)|);
      assert Encode(m)[..4] == Be32(|Body(m)|);
    }
  }

  // ---- framing ----

  datatype Read = Got(frame: bytes, rest: bytes) | Failed(error: Error)

  /** `read_frame` on the bytes still to come; a stream that ends early fails. */
  function ReadFrame(stream: bytes, maxLen: u32): (r: Read)
    ensures r.Got? ==> |r.rest| < |stream| && |r.frame| <= maxLen
  {
    if |stream| < 4 then Failed(Closed)
    else
      var len := ReadBe32(stream[..4]);
      if len == 0 then Got([], stream[4..])
      else if len > maxLen then Failed(TooLarge)
      else if |stream| < 4 + len then Failed(Closed)
      else Got(stream[4..4 + len], stream[4 + len..])
  }

  /** `read_frame_into`: the variant with a reused buffer, whatever the buffer held before. */
  method ReadFrameInto(stream: bytes, maxLen: u32, buf: bytes) returns (ok: Result<bytes>, buf': bytes)
    ensures
      var r := ReadFrame(stream, maxLen);
      if r.Got? then ok == Ok(r.rest) && buf' == r.frame else ok == Err(r.error)
  {
    buf' := buf;
    if |stream| < 4 { return Err(Closed), buf'; }
    var len := ReadBe32(stream[..4]);
    if len > maxLen { return Err(TooLarge), buf'; }
    buf' := [];
    if len == 0 { return Ok(stream[4..]), buf'; }
    if |stream| < 4 + len { return Err(Closed), buf'; }
    buf' := stream[4..4 + len];
    ok := Ok(stream[4 + len..]);
  }

  /** Frame after frame until the stream ends exactly at a frame boundary. */
  function ReadAll(stream: bytes, maxLen: u32): Result<seq<Message>>
    decreases |stream|
  {
    if stream == [] then Ok([])
    else
      var f := ReadFrame(stream, maxLen);
      if f.Failed? then Err(f.error)
      else
        var m := Decode(f.frame);
        if m.Err? then Err(m.error)
        else
          var rest := ReadAll(f.rest, maxLen);
          if rest.Err? then rest else Ok([m.value] + rest.value)
  }

  function EncodeAll(ms: seq<Message>): bytes
  {
    if ms == [] then [] else Encode(ms[0]) + EncodeAll(ms[1..])
  }

  ghost predicate FitAll(ms: seq<Message>, maxLen: u32)
  {
    forall m :: m in ms ==> |Body(m)| <= maxLen
  }

  lemma ReadFrameOf(body: bytes, tail: bytes, maxLen: u32)
    requires |body| <= maxLen
    ensures ReadFrame(Frame(body) + tail, maxLen) == Got(body, tail)
  {
    var s := Frame(body) + tail;
    var prefix := Be32(|body|);
    assert |body| % U32_LIMIT == |body|;
    assert s[..4] == prefix;
    ReadBe32OfBe32(|body|);
    assert s[4..4 + |body|] == body && s[4 + |body|..] == tail;
  }

  lemma FrameOfRead(stream: bytes, maxLen: u32)
    ensures
      var r := ReadFrame(stream, maxLen);
      r.Got? ==> Frame(r.frame) + r.rest == stream
  {
    var r := ReadFrame(stream, maxLen);
    if r.Got? {
      Be32OfReadBe32(stream[..4]);
      assert stream == stream[..4] + r.frame + r.rest;
    }
  }

  lemma {:induction false} ReadsBack(ms: seq<Message>, maxLen: u32)
    requires FitAll(ms, maxLen)
    ensures ReadAll(EncodeAll(ms), maxLen) == Ok(ms)
  {
    hide Body;
    hide Decode;
    hide ReadFrame;
    if ms != [] {
      assert ms[0] in ms;
      ReadFrameOf(Body(ms[0]), EncodeAll(ms[1..]), maxLen);
      DecodeOfBody(ms[0]);
      ReadsBack(ms[1..], maxLen);
      assert ms == [ms[0]] + ms[1..];
    }
  }

  lemma {:induction false} AcceptedStream(stream: bytes, maxLen: u32)
    ensures
      var r := ReadAll(stream, maxLen);
      r.Ok? ==> EncodeAll(r.value) == stream && FitAll(r.value, maxLen)
    decreases |stream|
  {
    hide Body;
    hide Decode;
    hide ReadFrame;
    hide Frame;
    var r := ReadAll(stream, maxLen);
    if stream != [] && r.Ok? {
      var f := ReadFrame(stream, maxLen);
      FrameOfRead(stream, maxLen);
      BodyOfDecode(f.frame);
      AcceptedStream(f.rest, maxLen);
      assert r.value[1..] == ReadAll(f.rest, maxLen).value;
    }
  }

  /** A stream reads as a list of messages exactly when it is their encoding and every frame is within the
      limit: the wire format decodes uniquely. */
  lemma UniqueDecoding(stream: bytes, ms: seq<Message>, maxLen: u32)
    ensures ReadAll(stream, maxLen) == Ok(ms) <==> stream == EncodeAll(ms) && FitAll(ms, maxLen)
  {
    if ReadAll(stream, maxLen) == Ok(ms) {
      AcceptedStream(stream, maxLen);
    }
    if stream == EncodeAll(ms) && FitAll(ms, maxLen) {
      ReadsBack(ms, maxLen);
    }
  }
}
