/**
 What a user of the streams of xdr.c can rely on: one call, any sequence of calls, and an
 encoder and a decoder meeting over one block of memory.
 */
module XdrSessions {
  import opened Basics
  import opened XdrWords
  import opened XdrFormat
  import opened XdrEncoding
  import opened XdrRoundTrip
  import opened XdrStream

  /** All of the encoding fits, and every variable array in it has room; see EncodeSucceedsIff. */
  predicate HasSpace(d: Descriptor, v: Value, space: nat)
    requires HasType(d, v)
  {
    && CountsFit(d, v) && |Wire(AsWritten, d, v)| <= space
    && Room(AsWritten, d, v, space - |Wire(AsWritten, d, v)|)
  }

  /** w as the beginning of the encoding. */
  lemma SendLeaves(d: Descriptor, v: Value, space: nat) returns (w: Written, wire: Bytes)
    requires HasType(d, v)
    ensures w == Encode(AsWritten, d, v, space) && wire == Wire(AsWritten, d, v)
    ensures |w.bytes| <= |wire| && w.bytes == wire[..|w.bytes|] && (w.status == Ok <==> |w.bytes| == |wire|)
    ensures w.status == Ok <==> HasSpace(d, v, space)
  {
    w, wire := Encode(AsWritten, d, v, space), Wire(AsWritten, d, v);
    EncodeLeaves(AsWritten, d, v, space, w);
    EncodeSucceedsIff(AsWritten, d, v, space);
  }

  /**
   Encoding any value leaves a clean prefix: the memory between the old and the new position
   is the beginning of the value's encoding, all other memory is as it was, and the call
   succeeds exactly when the whole encoding is there to be had.
   */
  method Send(s: Stream, d: Descriptor, v: Value) returns (status: Status)
    requires s.Valid() && HasType(d, v)
    modifies s`data, s`pos, s.memory
    ensures s.Valid()
    ensures var wire, n, space := Wire(AsWritten, d, v), s.pos - old(s.pos), s.limit - old(s.pos);
            && 0 <= n <= |wire| && s.Image() == Overwrite(old(s.Image()), s.base + old(s.pos), wire[..n])
            && (status == Ok <==> n == |wire|)
            && (status == Ok <==> HasSpace(d, v, space))
  {
    ghost var w, wire := SendLeaves(d, v, s.limit - s.pos);
    status := s.EncodeValue(d, v);
  }

  datatype Call = Encoder(d: Descriptor, v: Value) | Decoder(d: Descriptor)

  datatype Reply = Reply(status: Status, value: Value)

  /**
   What a call may answer that found `rest` on the stream and passed over as many bytes as there
   are in `piece`, which is what they then hold. An encoder leaves the beginning of the encoding,
   and all of it exactly on success; a decoder leaves what it found.
   */
  ghost predicate Answers(call: Call, reply: Reply, piece: Bytes, rest: Bytes) {
    match call
    case Encoder(d, v) =>
      && HasType(d, v) && Encode(AsWritten, d, v, |rest|) == Written(piece, reply.status)
      && piece <= Wire(AsWritten, d, v) && (reply.status == Ok <==> piece == Wire(AsWritten, d, v))
    case Decoder(d) =>
      piece <= rest && Agrees(reply.status, reply.value, |piece|, Decode(AsWritten, d, rest))
  }

  function Concat(pieces: seq<Bytes>): Bytes {
    if pieces == [] then [] else Concat(Init(pieces)) + Last(pieces)
  }

  /** Call after call, each finding what was on the stream at the start, less what the others passed over. */
  ghost predicate Session(calls: seq<Call>, replies: seq<Reply>, pieces: seq<Bytes>, rest: Bytes) {
    && |calls| == |replies| == |pieces|
    && forall i :: 0 <= i < |calls| ==> Turn(calls[i], replies[i], pieces, i, rest)
  }

  ghost predicate Turn(call: Call, reply: Reply, pieces: seq<Bytes>, i: nat, rest: Bytes)
    requires i < |pieces|
  {
    |Concat(pieces[..i])| <= |rest| && Answers(call, reply, pieces[i], rest[|Concat(pieces[..i])|..])
  }

  lemma ConcatOneMore(pieces: seq<Bytes>, piece: Bytes)
    ensures Concat(pieces + [piece]) == Concat(pieces) + piece
  {
    assert Init(pieces + [piece]) == pieces;
  }

  lemma SessionOneMore(calls: seq<Call>, replies: seq<Reply>, pieces: seq<Bytes>, rest: Bytes, call: Call, reply: Reply,
                       piece: Bytes)
    requires Session(calls, replies, pieces, rest)
    requires |Concat(pieces)| <= |rest| && Answers(call, reply, piece, rest[|Concat(pieces)|..])
    ensures Session(calls + [call], replies + [reply], pieces + [piece], rest)
  {
    var n := |calls|;
    var longer := pieces + [piece];
    forall i | 0 <= i < n + 1 ensures Turn((calls + [call])[i], (replies + [reply])[i], longer, i, rest) {
      if i < n {
        assert Turn(calls[i], replies[i], pieces, i, rest);
        assert longer[..i] == pieces[..i];
      } else {
        assert longer[..n] == pieces;
      }
    }
  }

  /** Writing leaves what lies behind; writing what is there already changes nothing. */
  lemma BehindPut(m: Bytes, base: nat, at: nat, w: Bytes, n: Bytes, to: nat, limit: nat)
    requires Puts(m, base, at, w, n, to) && to <= limit && base + limit <= |m|
    ensures n[base + to..base + limit] == m[base + at..base + limit][|w|..]
  {
  }

  lemma PassedOver(m: Bytes, base: nat, at: nat, to: nat, rest: Bytes)
    requires at <= to <= at + |rest| && base + at + |rest| <= |m| && rest == m[base + at..base + at + |rest|]
    ensures Puts(m, base, at, rest[..to - at], m, to)
  {
    assert rest[..to - at] == m[base + at..base + to];
  }

  /** An encoder's piece is what it leaves; see Send. */
  method PerformEncoder(s: Stream, d: Descriptor, v: Value) returns (status: Status, ghost piece: Bytes)
    requires s.Valid() && HasType(d, v)
    modifies s`data, s`pos, s.memory
    ensures s.Wrote(old(s.Image()), old(s.pos), piece)
    ensures Encode(AsWritten, d, v, s.limit - old(s.pos)) == Written(piece, status)
  {
    ghost var w := Encode(AsWritten, d, v, s.limit - s.pos);
    status := s.EncodeValue(d, v);
    piece := w.bytes;
  }

  /** A decoder's piece is what it takes off the stream. */
  method PerformDecoder(s: Stream, d: Descriptor) returns (status: Status, value: Value, ghost piece: Bytes)
    requires s.Valid()
    modifies s`data, s`pos
    ensures s.Wrote(old(s.Image()), old(s.pos), piece) && piece <= old(s.Rest())
    ensures Agrees(status, value, |piece|, Decode(AsWritten, d, old(s.Rest())))
  {
    ghost var m, at, rest := s.Image(), s.pos, s.Rest();
    status, value := s.DecodeValue(d);
    piece := rest[..s.pos - at];
    PassedOver(m, s.base, at, s.pos, rest);
  }

  lemma EncoderAnswers(d: Descriptor, v: Value, status: Status, value: Value, piece: Bytes, rest: Bytes)
    requires HasType(d, v) && Encode(AsWritten, d, v, |rest|) == Written(piece, status)
    ensures Answers(Encoder(d, v), Reply(status, value), piece, rest) && |piece| <= |rest|
  {
    EncodeLeaves(AsWritten, d, v, |rest|, Written(piece, status));
  }

  /** One call, whatever comes of it. */
  method Perform(s: Stream, call: Call) returns (reply: Reply, ghost piece: Bytes)
    requires s.Valid() && (call.Encoder? ==> HasType(call.d, call.v))
    modifies s`data, s`pos, s.memory
    ensures s.Wrote(old(s.Image()), old(s.pos), piece)
    ensures |piece| <= |old(s.Rest())| && Answers(call, reply, piece, old(s.Rest()))
    ensures s.Rest() == old(s.Rest())[|piece|..]
  {
    ghost var m, at, rest := s.Image(), s.pos, s.Rest();
    var status, value := Ok, Nothing;
    match call {
      case Encoder(d, v) =>
        status, piece := PerformEncoder(s, d, v);
        EncoderAnswers(d, v, status, value, piece, rest);
      case Decoder(d) => status, value, piece := PerformDecoder(s, d);
    }
    BehindPut(m, s.base, at, piece, s.Image(), s.pos, s.limit);
    reply := Reply(status, value);
  }

  /** The same for a call that comes after others. */
  method PerformNext(s: Stream, call: Call, ghost m: Bytes, ghost at: nat, ghost done: Bytes, ghost rest: Bytes)
    returns (reply: Reply, ghost piece: Bytes)
    requires call.Encoder? ==> HasType(call.d, call.v)
    requires Stands(s, m, at, done, rest)
    modifies s`data, s`pos, s.memory
    ensures Answers(call, reply, piece, rest[|done|..])
    ensures Stands(s, m, at, done + piece, rest)
  {
    ghost var mid, here := s.Image(), s.pos;
    reply, piece := Perform(s, call);
    s.WroteBoth(m, at, done, mid, here, piece);
    DropTwice(rest, |done|, |piece|);
  }

  /** s has written `done` since it stood at position `at` of memory m, with `rest` to come. */
  ghost predicate Stands(s: Stream, m: Bytes, at: nat, done: Bytes, rest: Bytes)
    reads s, s.memory
  {
    s.Wrote(m, at, done) && |done| <= |rest| && s.Rest() == rest[|done|..]
  }

  predicate Typed(calls: seq<Call>) {
    forall i :: 0 <= i < |calls| && calls[i].Encoder? ==> HasType(calls[i].d, calls[i].v)
  }

  /**
   Any sequence of calls, failed ones included. The memory passed over holds the pieces of the
   calls one after the other and no other memory is touched; every decoder reads what the stream
   held at that place from the start, whatever was written before it; the position never goes
   back or past the limit, and data stays at base plus position.
   */
  method PerformAll(s: Stream, calls: seq<Call>) returns (replies: seq<Reply>, ghost pieces: seq<Bytes>)
    requires s.Valid() && Typed(calls)
    modifies s`data, s`pos, s.memory
    ensures s.Valid() && s.pos == old(s.pos) + |Concat(pieces)|
    ensures s.Image() == Overwrite(old(s.Image()), s.base + old(s.pos), Concat(pieces))
    ensures Session(calls, replies, pieces, old(s.Rest()))
  {
    ghost var m, at, rest := s.Image(), s.pos, s.Rest();
    replies, pieces := [], [];
    s.WroteNothing();
    for i := 0 to |calls|
      invariant Stands(s, m, at, Concat(pieces), rest)
      invariant Session(calls[..i], replies, pieces, rest)
    {
      var reply;
      ghost var piece;
      reply, piece := PerformNext(s, calls[i], m, at, Concat(pieces), rest);
      SessionNext(calls, i, replies, pieces, rest, reply, piece);
      replies, pieces := replies + [reply], pieces + [piece];
    }
    assert calls[..|calls|] == calls;
  }

  lemma SessionNext(calls: seq<Call>, i: nat, replies: seq<Reply>, pieces: seq<Bytes>, rest: Bytes, reply: Reply,
                    piece: Bytes)
    requires i < |calls| && Session(calls[..i], replies, pieces, rest)
    requires |Concat(pieces)| <= |rest| && Answers(calls[i], reply, piece, rest[|Concat(pieces)|..])
    ensures Session(calls[..i + 1], replies + [reply], pieces + [piece], rest)
    ensures Concat(pieces + [piece]) == Concat(pieces) + piece
  {
    ConcatOneMore(pieces, piece);
    SessionOneMore(calls[..i], replies, pieces, rest, calls[i], reply, piece);
    assert calls[..i + 1] == calls[..i] + [calls[i]];
  }

  /**
   A value encoded into a block of memory and decoded from the start of it comes back, with
   C strings cut at their first NUL, and both sides stop at the same place.
   */
  method Transfer(block: array<byte>, d: Descriptor, v: Value) returns (sent: Status, received: Status, back: Value)
    requires HasType(d, v)
    modifies block
    ensures sent == Ok ==> received == Ok && back == Clean(v)
    ensures sent == Ok <==> HasSpace(d, v, block.Length)
    ensures sent == Ok ==> Wire(AsWritten, d, v) <= block[..]
  {
    sent := SendFromStart(block, d, v);
    if sent == Ok {
      EncodedComesBack(d, v, block[..]);
    }
    received, back := ReceiveFromStart(block, d);
  }

  method SendFromStart(block: array<byte>, d: Descriptor, v: Value) returns (sent: Status)
    requires HasType(d, v)
    modifies block
    ensures sent == Ok <==> HasSpace(d, v, block.Length)
    ensures sent == Ok ==> Wire(AsWritten, d, v) <= block[..]
  {
    var writer := new Stream(block, 0, block.Length);
    sent := Send(writer, d, v);
    if sent == Ok {
      OverwrittenFront(old(block[..]), Wire(AsWritten, d, v), |Wire(AsWritten, d, v)|);
    }
  }

  lemma OverwrittenFront(m: Bytes, w: Bytes, n: nat)
    requires n == |w| <= |m|
    ensures w <= Overwrite(m, 0, w[..n])
  {
    assert w[..n] == w;
  }

  method ReceiveFromStart(block: array<byte>, d: Descriptor) returns (received: Status, back: Value)
    ensures var r := Decode(AsWritten, d, block[..]); Agrees(received, back, r.used, r)
  {
    var reader := new Stream(block, 0, block.Length);
    assert reader.Rest() == block[..];
    received, back := reader.DecodeValue(d);
  }

  lemma EncodedComesBack(d: Descriptor, v: Value, b: Bytes)
    requires HasType(d, v) && HasSpace(d, v, |b|) && Wire(AsWritten, d, v) <= b
    ensures Decode(AsWritten, d, b) == Got(Clean(v), |Wire(AsWritten, d, v)|)
  {
    DecodeReturns(AsWritten, d, v, b);
  }

  // ----- tn_xdr_decode_var_array as it stands

  /**
   The function without the test after tn_xdr_decode_length. When that fails, declen has
   whatever value its memory had; `stale` is that value.
   */
  function DecodeVarArrayUntested(p: Padding, e: Descriptor, b: Bytes, stale: nat): Read<Value> {
    var len := TakeLength(b);
    var declen := if len.Got? then len.value else stale;
    AsMany(Shift(DecodeAll(p, Repeat(e, declen), b[len.used..]), len.used))
  }

  /**
   It is the tested decoder for every value of declen if and only if the length decodes. When
   it does not, and declen happened to be zero, an empty array is returned as a success.
   */
  lemma UntestedVarArrayIff(p: Padding, e: Descriptor, b: Bytes)
    ensures (forall stale: nat :: DecodeVarArrayUntested(p, e, b, stale) == Decode(p, VarArray(e), b))
       <==> TakeLength(b).Got?
    ensures TakeLength(b).Failed? ==> DecodeVarArrayUntested(p, e, b, 0) == Got(Many([]), TakeLength(b).used)
  {
    if TakeLength(b).Failed? {
      assert DecodeVarArrayUntested(p, e, b, 0) == Got(Many([]), TakeLength(b).used);
      assert Decode(p, VarArray(e), b).Failed?;
    }
  }
}
