/**
 xdr.c and xdr.h as code over a stream: a data pointer moving through a block of memory, a
 position and a limit. Every method is proved to leave exactly the bytes, the position and
 the status that XdrFormat.dfy says, whether it succeeds or fails.
 */
module XdrStream {
  import opened Basics
  import opened XdrWords
  import opened XdrFormat
  import opened XdrEncoding
  import opened XdrRoundTrip

  /** m with w written over it from `at` on. */
  function Overwrite(m: Bytes, at: nat, w: Bytes): (r: Bytes)
    requires at + |w| <= |m|
    ensures |r| == |m|
  {
    m[..at] + w + m[at + |w|..]
  }

  lemma OverwriteTwice(m: Bytes, at: nat, w1: Bytes, w2: Bytes)
    requires at + |w1| + |w2| <= |m|
    ensures Overwrite(Overwrite(m, at, w1), at + |w1|, w2) == Overwrite(m, at, w1 + w2)
  {
  }

  /** Writing w from position `at` on turns memory m into n and the position into `to`. */
  predicate Puts(m: Bytes, base: nat, at: nat, w: Bytes, n: Bytes, to: nat) {
    to == at + |w| && base + to <= |m| && n == Overwrite(m, base + at, w)
  }

  lemma PutsTwice(m: Bytes, base: nat, at: nat, w1: Bytes, mid: Bytes, here: nat, w2: Bytes, n: Bytes, to: nat)
    requires Puts(m, base, at, w1, mid, here) && Puts(mid, base, here, w2, n, to)
    ensures Puts(m, base, at, w1 + w2, n, to)
  {
    OverwriteTwice(m, base + at, w1, w2);
  }

  lemma OverwriteNothing(m: Bytes, at: nat)
    requires at <= |m|
    ensures Overwrite(m, at, []) == m
  {
  }

  /**
   An encoding loop before element i, having written `done`, with `left` bytes to go: what the
   rest of it does completes `whole`.
   */
  ghost predicate Encoded(p: Padding, ds: seq<Descriptor>, vs: seq<Value>, i: nat, done: Bytes, left: nat,
                          whole: Written)
  {
    && i <= |vs| == |ds| && HaveTypes(ds[i..], vs[i..])
    && whole == Then(Written(done, Ok), EncodeAll(p, ds[i..], vs[i..], left))
  }

  lemma EncodeStart(p: Padding, ds: seq<Descriptor>, vs: seq<Value>, space: nat)
    requires HaveTypes(ds, vs)
    ensures Encoded(p, ds, vs, 0, [], space, EncodeAll(p, ds, vs, space))
  {
    assert ds[0..] == ds && vs[0..] == vs;
    var w := EncodeAll(p, ds, vs, space);
    assert [] + w.bytes == w.bytes;
  }

  lemma EncodeTurn(p: Padding, ds: seq<Descriptor>, vs: seq<Value>, i: nat, done: Bytes, left: nat, whole: Written,
                   d: Descriptor, v: Value)
    returns (w: Written)
    requires i < |vs| && Encoded(p, ds, vs, i, done, left, whole) && d == ds[i] && v == vs[i]
    ensures HasType(d, v) && w == Encode(p, d, v, left)
    ensures if w.status == Ok then Encoded(p, ds, vs, i + 1, done + w.bytes, Left(left, w), whole)
            else whole == Written(done + w.bytes, w.status)
  {
    DropTwice(ds, i, 1);
    DropTwice(vs, i, 1);
    w := Encode(p, ds[i], vs[i], left);
    ThenTwice(done, w, EncodeAll(p, ds[i + 1..], vs[i + 1..], Left(left, w)));
  }

  lemma ThenTwice(done: Bytes, w: Written, rest: Written)
    ensures Then(Written(done, Ok), Then(w, rest)) == Then(Written(done + w.bytes, w.status), rest)
  {
    assert done + (w.bytes + rest.bytes) == (done + w.bytes) + rest.bytes;
  }

  lemma EncodeEnd(p: Padding, ds: seq<Descriptor>, vs: seq<Value>, done: Bytes, left: nat, whole: Written)
    requires Encoded(p, ds, vs, |vs|, done, left, whole)
    ensures whole == Written(done, Ok)
  {
    assert done + [] == done;
  }

  lemma UnionUnfold(arms: seq<Descriptor>, discr: nat, v: Value, space: nat)
    requires discr < |arms| && discr < TWO_32 && HasType(arms[discr], v)
    ensures Encode(AsWritten, Union(arms), Arm(discr, v), space) == (
              if space < 4 then Written([], NoSpace)
              else var rest := Encode(AsWritten, arms[discr], v, space - 4);
                   Written(CastWord(discr) + rest.bytes, rest.status))
  {
  }

  /** What a decoding loop that has `done` and took `used` bytes will end with. */
  function Onwards(done: seq<Value>, used: nat, r: Read<seq<Value>>): Read<seq<Value>> {
    if r.Got? then Got(done + r.value, used + r.used) else Failed(r.status, used + r.used)
  }

  /**
   A decoding loop before element i, with `items` so far and `used` bytes of b taken: what the
   rest of it does completes `whole`.
   */
  ghost predicate Decoded(p: Padding, ds: seq<Descriptor>, i: nat, items: seq<Value>, used: nat, b: Bytes,
                          whole: Read<seq<Value>>)
  {
    i <= |ds| && used <= |b| && whole == Onwards(items, used, DecodeAll(p, ds[i..], b[used..]))
  }

  lemma DecodeStart(p: Padding, ds: seq<Descriptor>, b: Bytes)
    ensures Decoded(p, ds, 0, [], 0, b, DecodeAll(p, ds, b))
  {
    assert ds[0..] == ds && b[0..] == b;
    var r := DecodeAll(p, ds, b);
    if r.Got? {
      assert [] + r.value == r.value;
    }
  }

  lemma DecodeEnd(p: Padding, ds: seq<Descriptor>, items: seq<Value>, used: nat, b: Bytes, whole: Read<seq<Value>>)
    requires Decoded(p, ds, |ds|, items, used, b, whole)
    ensures whole == Got(items, used)
  {
    assert items + [] == items;
  }

  lemma DropTwice<T>(s: seq<T>, m: nat, n: nat)
    requires m + n <= |s|
    ensures s[m..][n..] == s[m + n..]
  {
  }

  lemma OnwardsOneMore(items: seq<Value>, used: nat, v: Value, more: nat, rest: Read<seq<Value>>)
    ensures Onwards(items, used, Prepend(v, Shift(rest, more))) == Onwards(items + [v], used + more, rest)
  {
    if rest.Got? {
      assert items + ([v] + rest.value) == (items + [v]) + rest.value;
    }
  }

  lemma DecodeTurn(p: Padding, ds: seq<Descriptor>, i: nat, items: seq<Value>, used: nat, b: Bytes,
                   whole: Read<seq<Value>>)
    returns (r: Read<Value>)
    requires i < |ds| && Decoded(p, ds, i, items, used, b, whole)
    ensures r == Decode(p, ds[i], b[used..]) && used + r.used <= |b|
    ensures if r.Got? then Decoded(p, ds, i + 1, items + [r.value], used + r.used, b, whole)
            else whole == Failed(r.status, used + r.used)
  {
    DropTwice(ds, i, 1);
    r := Decode(p, ds[i], b[used..]);
    if r.Got? {
      DropTwice(b, used, r.used);
      OnwardsOneMore(items, used, r.value, r.used, DecodeAll(p, ds[i + 1..], b[used + r.used..]));
    }
  }

  class Stream {
    const memory: array<byte>
    const base: nat  // where data pointed when pos was 0
    const limit: nat
    var data: nat
    var pos: nat

    ghost predicate Valid()
      reads this
    {
      pos <= limit && data == base + pos && base + limit <= memory.Length
    }

    ghost function Image(): (r: Bytes)
      reads memory
      ensures |r| == memory.Length
    {
      memory[..]
    }

    /** The bytes between the position and the limit. */
    ghost function Rest(): (r: Bytes)
      requires Valid()
      reads this, memory
      ensures |r| == limit - pos
    {
      memory[data..base + limit]
    }

    /** Exactly w was written, from position `at` on, to memory that looked like `image`. */
    ghost predicate Wrote(image: Bytes, at: nat, w: Bytes)
      reads this, memory
    {
      Valid() && Puts(image, base, at, w, Image(), pos)
    }

    /** Two writes in a row are one; mid and here are the memory and the position between them. */
    lemma WroteBoth(image: Bytes, at: nat, w1: Bytes, mid: Bytes, here: nat, w2: Bytes)
      requires Puts(image, base, at, w1, mid, here) && Wrote(mid, here, w2)
      ensures Wrote(image, at, w1 + w2)
    {
      PutsTwice(image, base, at, w1, mid, here, w2, Image(), pos);
    }

    lemma WroteNothing()
      requires Valid()
      ensures Wrote(Image(), pos, [])
    {
      OverwriteNothing(Image(), data);
    }

    lemma RestIs(at: nat, rest: Bytes)
      requires Valid() && at <= pos && rest == memory[base + at..base + limit]
      ensures Rest() == rest[pos - at..]
    {
    }

    /** TN_XDR_STREAM_STATIC_ARRAY, for any part of an array. */
    constructor (block: array<byte>, start: nat, size: nat)
      requires start + size <= block.Length
      ensures Valid() && pos == 0 && memory == block && base == start && limit == size
    {
      memory, base, limit := block, start, size;
      data, pos := start, 0;
    }

    // ----- the memory reader and writer

    method MemReader(sz: nat) returns (dest: Bytes)
      requires data + sz <= memory.Length
      modifies this`data
      ensures dest == old(memory[data..data + sz]) && data == old(data) + sz
    {
      dest := memory[data..data + sz];
      data := data + sz;
    }

    method MemWriter(src: Bytes)
      requires data + |src| <= memory.Length
      modifies this`data, memory
      ensures data == old(data) + |src| && Image() == Overwrite(old(Image()), old(data), src)
    {
      forall i | 0 <= i < |src| {
        memory[data + i] := src[i];
      }
      data := data + |src|;
    }

    method ReadFromStream(sz: nat) returns (status: Status, dest: Bytes)
      requires Valid()
      modifies this`data, this`pos
      ensures Valid()
      ensures var r := Take(sz, old(Rest()));
              pos == old(pos) + r.used && if r.Got? then status == Ok && dest == r.value else status == r.status
    {
      if limit - pos < sz {
        return NoMessage, [];
      }
      ghost var rest := Rest();
      assert rest[..sz] == memory[data..data + sz];
      dest := MemReader(sz);
      pos := pos + sz;
      status := Ok;
    }

    method WriteToStream(src: Bytes) returns (status: Status)
      requires Valid()
      modifies this`data, this`pos, memory
      ensures var w := Put(src, limit - old(pos));
              status == w.status && Wrote(old(Image()), old(pos), w.bytes)
    {
      if limit - pos < |src| {
        WroteNothing();
        return NoSpace;
      }
      MemWriter(src);
      pos := pos + |src|;
      status := Ok;
    }

    // ----- integers

    /** tn_xdr_encode_int32 and tn_xdr_encode_uint32. */
    method EncodeWord(n: int) returns (status: Status)
      requires Valid()
      modifies this`data, this`pos, memory
      ensures var w := Put(CastWord(n), limit - old(pos));
              status == w.status && Wrote(old(Image()), old(pos), w.bytes)
    {
      status := WriteToStream(CastWord(n));
    }

    /** tn_xdr_decode_int32 and tn_xdr_decode_uint32. */
    method DecodeWord(signed: bool) returns (status: Status, n: int)
      requires Valid()
      modifies this`data, this`pos
      ensures Valid()
      ensures var r := TakeWord(signed, old(Rest()));
              pos == old(pos) + r.used && if r.Got? then status == Ok && n == r.value else status == r.status
    {
      var val;
      status, val := ReadFromStream(4);
      n := 0;
      if status == Ok {
        n := FromWord(signed, Unword(val));
      }
    }

    /** tn_xdr_encode_int64 and tn_xdr_encode_uint64. */
    method EncodeHyper(n: int) returns (status: Status)
      requires Valid()
      modifies this`data, this`pos, memory
      ensures var w := PutHyper(n, limit - old(pos));
              status == w.status && Wrote(old(Image()), old(pos), w.bytes)
    {
      var high, low := SplitHyper(n);
      status := EncodeHalves(high, low);
    }

    method EncodeHalves(high: int, low: nat) returns (status: Status)
      requires Valid() && low < TWO_32
      modifies this`data, this`pos, memory
      ensures var w := PutHalves(high, low, limit - old(pos));
              status == w.status && Wrote(old(Image()), old(pos), w.bytes)
    {
      ghost var image, at := Image(), pos;
      status := EncodeWord(high);
      if status == Ok {
        ghost var mid, here := Image(), pos;
        status := EncodeWord(low);
        WroteBoth(image, at, CastWord(high), mid, here, Put(CastWord(low), limit - at - 4).bytes);
      }
    }

    /** tn_xdr_decode_int64 and tn_xdr_decode_uint64. */
    method DecodeHyper(signed: bool) returns (status: Status, n: int)
      requires Valid()
      modifies this`data, this`pos
      ensures Valid()
      ensures var r := TakeHyper(signed, old(Rest()));
              pos == old(pos) + r.used && if r.Got? then status == Ok && n == r.value else status == r.status
    {
      ghost var rest := Rest();
      var high, low;
      n := 0;
      status, high := DecodeWord(signed);
      if status == Ok {
        assert Rest() == rest[4..];
        status, low := DecodeWord(false);
        if status == Ok {
          n := JoinHyper(high, low);
        }
      }
    }

    /** The encoder of each scalar type; the small ones widen their value. */
    method EncodeScalar(k: Kind, n: int) returns (status: Status)
      requires Valid()
      modifies this`data, this`pos, memory
      ensures var w := PutScalar(k, n, limit - old(pos));
              status == w.status && Wrote(old(Image()), old(pos), w.bytes)
    {
      if Wide(k) {
        status := EncodeHyper(n);
      } else {
        status := EncodeWord(n);
      }
    }

    method DecodeScalar(k: Kind) returns (status: Status, v: Value)
      requires Valid()
      modifies this`data, this`pos
      ensures Valid() && Agrees(status, v, pos - old(pos), TakeScalar(k, old(Rest())))
    {
      var buf;
      v := Nothing;
      if Wide(k) {
        status, buf := DecodeHyper(Signed(k));
      } else {
        status, buf := DecodeWord(Signed(k));
        if status == Ok && (buf < Min(k) || buf > Max(k)) {
          status := Overflow;
        }
      }
      if status == Ok {
        v := Number(buf);
      }
    }

    // ----- lengths, padding and bytes

    method EncodeLength(length: nat) returns (status: Status)
      requires Valid()
      modifies this`data, this`pos, memory
      ensures var w := PutLength(length, limit - old(pos));
              status == w.status && Wrote(old(Image()), old(pos), w.bytes)
    {
      WroteNothing();
      if length > 0xffff_ffff {
        return Overflow;
      }
      if limit - pos < length + 4 {
        return NoSpace;
      }
      status := EncodeWord(length);
    }

    method DecodeLength() returns (status: Status, length: nat)
      requires Valid()
      modifies this`data, this`pos
      ensures Valid()
      ensures var r := TakeLength(old(Rest()));
              pos == old(pos) + r.used && if r.Got? then status == Ok && length == r.value else status == r.status
    {
      length := 0;
      var len32;
      status, len32 := DecodeWord(false);
      if status != Ok {
        return;
      }
      if limit - pos < len32 {
        return Protocol, 0;
      }
      length := len32;
    }

    method AddPadding(len: nat) returns (status: Status)
      requires Valid()
      modifies this`data, this`pos, memory
      ensures var w := Put(Zeros(PadCount(AsWritten, len)), limit - old(pos));
              status == w.status && Wrote(old(Image()), old(pos), w.bytes)
    {
      if len % 4 == 0 {
        WroteNothing();
        assert Zeros(PadCount(AsWritten, len)) == [];
        return Ok;
      }
      status := WriteToStream(Zeros(len % 4));
    }

    method SkipPadding(len: nat) returns (status: Status)
      requires Valid()
      modifies this`data, this`pos
      ensures Valid()
      ensures var pad := PadCount(AsWritten, len);
              var r := Take(pad, old(Rest()));
              && pos == old(pos) + r.used
              && status == if r.Failed? then r.status else if r.value == Zeros(pad) then Ok else Protocol
    {
      if len % 4 == 0 {
        assert Rest()[..0] == Zeros(0);
        return Ok;
      }
      var scratch;
      status, scratch := ReadFromStream(len % 4);
      if status != Ok {
        return;
      }
      status := if scratch == Zeros(len % 4) then Ok else Protocol;
    }

    method EncodeBytes(b: Bytes) returns (status: Status)
      requires Valid()
      modifies this`data, this`pos, memory
      ensures var w := PutBytes(AsWritten, b, limit - old(pos));
              status == w.status && Wrote(old(Image()), old(pos), w.bytes)
    {
      ghost var image, at := Image(), pos;
      status := WriteToStream(b);
      if status == Ok {
        ghost var mid, here := Image(), pos;
        status := AddPadding(|b|);
        WroteBoth(image, at, b, mid, here, Put(Zeros(PadCount(AsWritten, |b|)), limit - at - |b|).bytes);
      }
    }

    method DecodeBytes(len: nat) returns (status: Status, b: Bytes)
      requires Valid()
      modifies this`data, this`pos
      ensures Valid()
      ensures var r := TakeBytes(AsWritten, len, old(Rest()));
              pos == old(pos) + r.used && if r.Got? then status == Ok && b == r.value else status == r.status
    {
      ghost var rest := Rest();
      status, b := ReadFromStream(len);
      if status == Ok {
        ghost var pad := PadCount(AsWritten, len);
        assert Rest() == rest[len..];
        assert len + pad <= |rest| ==> rest[len..][..pad] == rest[len..len + pad];
        status := SkipPadding(len);
      }
    }

    method EncodeVarBytes(b: Bytes) returns (status: Status)
      requires Valid()
      modifies this`data, this`pos, memory
      ensures var w := PutVarBytes(AsWritten, b, limit - old(pos));
              status == w.status && Wrote(old(Image()), old(pos), w.bytes)
    {
      ghost var image, at := Image(), pos;
      status := EncodeLength(|b|);
      if status != Ok {
        return;
      }
      ghost var mid, here := Image(), pos;
      status := EncodeBytes(b);
      WroteBoth(image, at, CastWord(|b|), mid, here, PutBytes(AsWritten, b, limit - at - 4).bytes);
    }

    method DecodeVarBytes() returns (status: Status, b: Bytes)
      requires Valid()
      modifies this`data, this`pos
      ensures Valid()
      ensures var r := TakeVarBytes(AsWritten, old(Rest()));
              pos == old(pos) + r.used && if r.Got? then status == Ok && b == r.value else status == r.status
    {
      ghost var rest := Rest();
      var len;
      b := [];
      status, len := DecodeLength();
      if status != Ok {
        return;
      }
      assert Rest() == rest[4..];
      if len > 0 {
        status, b := DecodeBytes(len);
      }
    }

    /** tn_xdr_encode_cstring: strlen, then the bytes before the NUL. */
    method EncodeCString(chars: Bytes) returns (status: Status)
      requires Valid()
      modifies this`data, this`pos, memory
      ensures var w := PutVarBytes(AsWritten, UpToNul(chars), limit - old(pos));
              status == w.status && Wrote(old(Image()), old(pos), w.bytes)
    {
      status := EncodeVarBytes(UpToNul(chars));
    }

    // ----- composites, each element through its descriptor

    /** Where an encoding loop stands that started at position `at` of memory that looked like `image`. */
    ghost predicate Encoding(ds: seq<Descriptor>, vs: seq<Value>, i: nat, done: Bytes, image: Bytes, at: nat,
                             whole: Written)
      reads this, memory
    {
      Wrote(image, at, done) && Encoded(AsWritten, ds, vs, i, done, limit - pos, whole)
    }

    /** One turn of such a loop. */
    method EncodeElement(d: Descriptor, v: Value, ghost ds: seq<Descriptor>, ghost vs: seq<Value>, ghost i: nat,
                         ghost done: Bytes, ghost image: Bytes, ghost at: nat, ghost whole: Written)
      returns (status: Status, ghost done': Bytes)
      requires i < |vs| && Encoding(ds, vs, i, done, image, at, whole) && d == ds[i] && v == vs[i]
      modifies this`data, this`pos, memory
      ensures if status == Ok then Encoding(ds, vs, i + 1, done', image, at, whole)
              else Wrote(image, at, done') && whole == Written(done', status)
      decreases v, 3
    {
      ghost var left := limit - pos;
      ghost var w := EncodeTurn(AsWritten, ds, vs, i, done, left, whole, d, v);
      status, done' := EncodeAfter(d, v, done, image, at, left, w);
    }

    /** EncodeValue, in terms of where the writing began. */
    method EncodeAfter(d: Descriptor, v: Value, ghost done: Bytes, ghost image: Bytes, ghost at: nat,
                       ghost left: nat, ghost w: Written)
      returns (status: Status, ghost done': Bytes)
      requires HasType(d, v) && Wrote(image, at, done) && left == limit - pos && w == Encode(AsWritten, d, v, left)
      modifies this`data, this`pos, memory
      ensures status == w.status && done' == done + w.bytes && Wrote(image, at, done') && limit - pos == Left(left, w)
      decreases v, 2
    {
      ghost var mid, here := Image(), pos;
      status := EncodeValue(d, v);
      WroteBoth(image, at, done, mid, here, w.bytes);
      done' := done + w.bytes;
    }

    method EncodeArray(elt: Descriptor, items: seq<Value>) returns (status: Status)
      requires Valid() && HaveTypes(Repeat(elt, |items|), items)
      modifies this`data, this`pos, memory
      ensures var w := EncodeAll(AsWritten, Repeat(elt, |items|), items, limit - old(pos));
              status == w.status && Wrote(old(Image()), old(pos), w.bytes)
      decreases items, 0
    {
      ghost var ds := Repeat(elt, |items|);
      ghost var image, at := Image(), pos;
      ghost var whole := EncodeAll(AsWritten, ds, items, limit - pos);
      ghost var done: Bytes := [];
      WroteNothing();
      EncodeStart(AsWritten, ds, items, limit - pos);
      for i := 0 to |items|
        invariant Encoding(ds, items, i, done, image, at, whole)
      {
        status, done := EncodeElement(elt, items[i], ds, items, i, done, image, at, whole);
        if status != Ok {
          return;
        }
      }
      EncodeEnd(AsWritten, ds, items, done, limit - pos, whole);
      status := Ok;
    }

    method EncodeStruct(elts: seq<Descriptor>, items: seq<Value>) returns (status: Status)
      requires Valid() && HaveTypes(elts, items)
      modifies this`data, this`pos, memory
      ensures var w := EncodeAll(AsWritten, elts, items, limit - old(pos));
              status == w.status && Wrote(old(Image()), old(pos), w.bytes)
      decreases items, 0
    {
      ghost var image, at := Image(), pos;
      ghost var whole := EncodeAll(AsWritten, elts, items, limit - pos);
      ghost var done: Bytes := [];
      WroteNothing();
      EncodeStart(AsWritten, elts, items, limit - pos);
      for i := 0 to |elts|
        invariant Encoding(elts, items, i, done, image, at, whole)
      {
        status, done := EncodeElement(elts[i], items[i], elts, items, i, done, image, at, whole);
        if status != Ok {
          return;
        }
      }
      EncodeEnd(AsWritten, elts, items, done, limit - pos, whole);
      status := Ok;
    }

    method EncodeVarArray(elt: Descriptor, items: seq<Value>) returns (status: Status)
      requires Valid() && HasType(VarArray(elt), Many(items))
      modifies this`data, this`pos, memory
      ensures var w := Encode(AsWritten, VarArray(elt), Many(items), limit - old(pos));
              status == w.status && Wrote(old(Image()), old(pos), w.bytes)
      decreases items, 2
    {
      ghost var image, at := Image(), pos;
      status := EncodeLength(|items|);
      if status != Ok {
        return;
      }
      ghost var rest := EncodeAll(AsWritten, Repeat(elt, |items|), items, limit - pos);
      ghost var mid, here := Image(), pos;
      status := EncodeArray(elt, items);
      WroteBoth(image, at, CastWord(|items|), mid, here, rest.bytes);
    }

    /** The caller must pass a discriminant that names an arm. */
    method EncodeUnion(arms: seq<Descriptor>, discr: nat, v: Value) returns (status: Status)
      requires Valid() && discr < |arms| && discr < TWO_32 && HasType(arms[discr], v)
      modifies this`data, this`pos, memory
      ensures var w := Encode(AsWritten, Union(arms), Arm(discr, v), limit - old(pos));
              status == w.status && Wrote(old(Image()), old(pos), w.bytes)
      decreases v, 2
    {
      ghost var image, at := Image(), pos;
      UnionUnfold(arms, discr, v, limit - at);
      status := EncodeWord(discr);
      if status != Ok {
        return;
      }
      ghost var rest := Encode(AsWritten, arms[discr], v, limit - pos);
      ghost var mid, here := Image(), pos;
      status := EncodeValue(arms[discr], v);
      WroteBoth(image, at, CastWord(discr), mid, here, rest.bytes);
    }

    /** elt->encode(stream, data) for the descriptor of any shape. */
    method EncodeValue(d: Descriptor, v: Value) returns (status: Status)
      requires Valid() && HasType(d, v)
      modifies this`data, this`pos, memory
      ensures var w := Encode(AsWritten, d, v, limit - old(pos));
              status == w.status && Wrote(old(Image()), old(pos), w.bytes)
      decreases v, 1
    {
      match d {
        case Void =>
          WroteNothing();
          status := Ok;
        case Scalar(k) => status := EncodeScalar(k, v.n);
        case Opaque(_) => status := EncodeBytes(v.bytes);
        case VarOpaque => status := EncodeVarBytes(v.bytes);
        case CString => status := EncodeCString(v.chars);
        case Union(arms) => status := EncodeUnion(arms, v.discr, v.value);
        case VarArray(e) => status := EncodeVarArray(e, v.items);
        case Array(e, _) => status := EncodeArray(e, v.items);
        case Struct(fields) => status := EncodeStruct(fields, v.items);
      }
    }

    /** Where a decoding loop stands that started at position `at`, before `rest`. */
    ghost predicate Decoding(ds: seq<Descriptor>, i: nat, items: seq<Value>, at: nat, rest: Bytes,
                             whole: Read<seq<Value>>)
      reads this, memory
    {
      && Valid() && at <= pos && rest == memory[base + at..base + limit]
      && Decoded(AsWritten, ds, i, items, pos - at, rest, whole)
    }

    /** One turn of such a loop. */
    method DecodeElement(d: Descriptor, ghost ds: seq<Descriptor>, ghost i: nat, items: seq<Value>, ghost at: nat,
                         ghost rest: Bytes, ghost whole: Read<seq<Value>>)
      returns (status: Status, items': seq<Value>)
      requires Decoding(ds, i, items, at, rest, whole) && i < |ds| && d == ds[i]
      modifies this`data, this`pos
      ensures Valid() && at <= pos
      ensures if status == Ok then Decoding(ds, i + 1, items', at, rest, whole)
              else whole == Failed(status, pos - at)
      decreases Height(d), 1
    {
      RestIs(at, rest);
      ghost var r := DecodeTurn(AsWritten, ds, i, items, pos - at, rest, whole);
      var v;
      status, v := DecodeValue(d);
      items' := items + [v];
    }

    method DecodeArray(elt: Descriptor, len: nat) returns (status: Status, items: seq<Value>)
      requires Valid()
      modifies this`data, this`pos
      ensures Valid() && AllAgree(status, items, pos - old(pos), DecodeAll(AsWritten, Repeat(elt, len), old(Rest())))
      decreases Height(elt), 2
    {
      ghost var at, rest, ds := pos, Rest(), Repeat(elt, len);
      ghost var whole := DecodeAll(AsWritten, ds, rest);
      items := [];
      DecodeStart(AsWritten, ds, rest);
      for i := 0 to len
        invariant Decoding(ds, i, items, at, rest, whole)
      {
        status, items := DecodeElement(elt, ds, i, items, at, rest, whole);
        if status != Ok {
          return;
        }
      }
      status := Ok;
      DecodeEnd(AsWritten, ds, items, pos - at, rest, whole);
    }

    method DecodeStruct(elts: seq<Descriptor>) returns (status: Status, items: seq<Value>)
      requires Valid()
      modifies this`data, this`pos
      ensures Valid() && AllAgree(status, items, pos - old(pos), DecodeAll(AsWritten, elts, old(Rest())))
      decreases MaxHeight(elts), 2
    {
      ghost var at, rest := pos, Rest();
      ghost var whole := DecodeAll(AsWritten, elts, rest);
      items := [];
      DecodeStart(AsWritten, elts, rest);
      for i := 0 to |elts|
        invariant Decoding(elts, i, items, at, rest, whole)
      {
        status, items := DecodeElement(elts[i], elts, i, items, at, rest, whole);
        if status != Ok {
          return;
        }
      }
      status := Ok;
      DecodeEnd(AsWritten, elts, items, pos - at, rest, whole);
    }

    /** tn_xdr_decode_var_array, with the test of rc that it leaves out after the length. */
    method DecodeVarArray(elt: Descriptor) returns (status: Status, v: Value)
      requires Valid()
      modifies this`data, this`pos
      ensures Valid() && Agrees(status, v, pos - old(pos), Decode(AsWritten, VarArray(elt), old(Rest())))
      decreases Height(elt), 3
    {
      ghost var rest := Rest();
      var declen, items;
      v := Nothing;
      status, declen := DecodeLength();
      if status != Ok {
        return;
      }
      assert Rest() == rest[4..];
      status, items := DecodeArray(elt, declen);
      v := Many(items);
    }

    method DecodeUnion(arms: seq<Descriptor>) returns (status: Status, v: Value)
      requires Valid()
      modifies this`data, this`pos
      ensures Valid() && Agrees(status, v, pos - old(pos), Decode(AsWritten, Union(arms), old(Rest())))
      decreases MaxHeight(arms), 1
    {
      ghost var rest := Rest();
      var discr, value;
      v := Nothing;
      status, discr := DecodeWord(false);
      if status != Ok {
        return;
      }
      if discr >= |arms| {
        return Protocol, Nothing;
      }
      assert Rest() == rest[4..];
      status, value := DecodeValue(arms[discr]);
      v := Arm(discr, value);
    }

    method DecodeValue(d: Descriptor) returns (status: Status, v: Value)
      requires Valid()
      modifies this`data, this`pos
      ensures Valid() && Agrees(status, v, pos - old(pos), Decode(AsWritten, d, old(Rest())))
      decreases Height(d), 0
    {
      v := Nothing;
      match d {
        case Void => status := Ok;
        case Scalar(k) => status, v := DecodeScalar(k);
        case Opaque(n) =>
          var b;
          status, b := DecodeBytes(n);
          v := Blob(b);
        case VarOpaque =>
          var b;
          status, b := DecodeVarBytes();
          v := Blob(b);
        case CString =>
          var b;
          status, b := DecodeVarBytes();
          v := Text(b);
        case Union(arms) => status, v := DecodeUnion(arms);
        case VarArray(e) => status, v := DecodeVarArray(e);
        case Array(e, n) =>
          var items;
          status, items := DecodeArray(e, n);
          v := Many(items);
        case Struct(fields) =>
          var items;
          status, items := DecodeStruct(fields);
          v := Many(items);
      }
    }
  }

  method SplitHyper(n: int) returns (high: int, low: nat)
    ensures high == High(n) && low == Low(n)
  {
    ShiftAndMaskSplit(n);
    high, low := ShiftRight(n, 32), BitAnd(n, 0xffff_ffff);
  }

  method JoinHyper(high: int, low: nat) returns (n: int)
    requires low < TWO_32
    ensures n == JoinHalves(high, low)
  {
    ShiftAndOrJoin(high, low);
    n := BitOr(ShiftLeft(high, 32), low);
  }

  predicate AllAgree(status: Status, vs: seq<Value>, used: int, r: Read<seq<Value>>) {
    used == r.used && if r.Got? then status == Ok && vs == r.value else status == r.status
  }

  /** A decoder's result and the bytes it took, against what they must be. */
  predicate Agrees(status: Status, v: Value, used: int, r: Read<Value>) {
    used == r.used && if r.Got? then status == Ok && v == r.value else status == r.status
  }
}
