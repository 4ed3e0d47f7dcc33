/**
 What the encoder achieves: all of Wire when it succeeds, a prefix of it when it fails, and
 success exactly when everything fits.
 */
module XdrEncoding {
  import opened Basics
  import opened XdrWords
  import opened XdrFormat

  /** w is what an encoder may leave behind that was to write `wire` into `space` bytes. */
  predicate Meets(w: Written, wire: Bytes, space: nat, fits: bool) {
    && w.bytes <= wire && |w.bytes| <= space
    && (w.status == Ok <==> fits && |wire| <= space)
    && (w.status == Ok <==> w.bytes == wire)
    && (w.status != Ok ==> w.status == NoSpace || w.status == Overflow)
  }

  /** Two encoders one after the other; `fits2` is about the second as it is then called. */
  lemma ThenMeets(w1: Written, wire1: Bytes, fits1: bool, w2: Written, wire2: Bytes, fits2: bool,
                  space: nat, fits: bool)
    requires Meets(w1, wire1, space, fits1)
    requires w1.status == Ok ==> Meets(w2, wire2, Left(space, w1), fits2)
    requires |wire1| + |wire2| <= space ==> (fits <==> fits1 && fits2)
    ensures Meets(Then(w1, w2), wire1 + wire2, space, fits)
  {
    if w1.status != Ok {
      assert w1.bytes <= wire1 <= wire1 + wire2;
    }
  }

  lemma PutScalarMeets(k: Kind, n: int, space: nat)
    ensures Meets(PutScalar(k, n, space), ScalarWire(k, n), space, true)
  {
    if Wide(k) {
      var high := Put(CastWord(High(n)), space);
      ThenMeets(high, CastWord(High(n)), true,
                Put(CastWord(Low(n)), Left(space, high)), CastWord(Low(n)), true, space, true);
    }
  }

  lemma PutBytesMeets(p: Padding, b: Bytes, space: nat)
    ensures Meets(PutBytes(p, b, space), Padded(p, b), space, true)
  {
    var zeros := Zeros(PadCount(p, |b|));
    ThenMeets(Put(b, space), b, true, Put(zeros, Left(space, Put(b, space))), zeros, true, space, true);
  }

  lemma PutLengthMeets(len: nat, space: nat)
    ensures Meets(PutLength(len, space), CastWord(len), space, len <= UINT32_MAX && len + 4 <= space)
  {
  }

  lemma PutVarBytesMeets(p: Padding, b: Bytes, space: nat)
    ensures Meets(PutVarBytes(p, b, space), CastWord(|b|) + Padded(p, b), space, |b| <= UINT32_MAX)
  {
    var len := PutLength(|b|, space);
    PutLengthMeets(|b|, space);
    PutBytesMeets(p, b, Left(space, len));
    ThenMeets(len, CastWord(|b|), |b| <= UINT32_MAX && |b| + 4 <= space,
              PutBytes(p, b, Left(space, len)), Padded(p, b), true, space, |b| <= UINT32_MAX);
  }

  predicate Fits(p: Padding, d: Descriptor, v: Value, space: nat)
    requires HasType(d, v)
  {
    CountsFit(d, v) && (|Wire(p, d, v)| <= space ==> Room(p, d, v, space - |Wire(p, d, v)|))
  }

  predicate AllFit(p: Padding, ds: seq<Descriptor>, vs: seq<Value>, space: nat)
    requires HaveTypes(ds, vs)
  {
    AllCountsFit(ds, vs) && (|WireAll(p, ds, vs)| <= space ==> AllRoom(p, ds, vs, space - |WireAll(p, ds, vs)|))
  }

  lemma {:induction false} EncodeMeets(p: Padding, d: Descriptor, v: Value, space: nat)
    requires HasType(d, v)
    ensures Meets(Encode(p, d, v, space), Wire(p, d, v), space, Fits(p, d, v, space))
    decreases v, 1
  {
    match d
    case Void =>
    case Scalar(k) => PutScalarMeets(k, v.n, space);
    case Opaque(n) => EncodeOpaqueMeets(p, n, v, space);
    case VarOpaque => EncodeVarOpaqueMeets(p, v, space);
    case CString => EncodeCStringMeets(p, v, space);
    case Union(arms) => EncodeUnionMeets(p, d, v, space);
    case VarArray(_) => EncodeVarArrayMeets(p, d, v, space);
    case Array(_, _) => EncodeFixedMeets(p, d, v, space);
    case Struct(_) => EncodeFixedMeets(p, d, v, space);
  }

  lemma EncodeOpaqueMeets(p: Padding, n: nat, v: Value, space: nat)
    requires HasType(Opaque(n), v)
    ensures Meets(Encode(p, Opaque(n), v, space), Wire(p, Opaque(n), v), space, Fits(p, Opaque(n), v, space))
  {
    PutBytesMeets(p, v.bytes, space);
  }

  lemma EncodeVarOpaqueMeets(p: Padding, v: Value, space: nat)
    requires HasType(VarOpaque, v)
    ensures Meets(Encode(p, VarOpaque, v, space), Wire(p, VarOpaque, v), space, Fits(p, VarOpaque, v, space))
  {
    PutVarBytesMeets(p, v.bytes, space);
  }

  lemma EncodeCStringMeets(p: Padding, v: Value, space: nat)
    requires HasType(CString, v)
    ensures Meets(Encode(p, CString, v, space), Wire(p, CString, v), space, Fits(p, CString, v, space))
  {
    PutVarBytesMeets(p, UpToNul(v.chars), space);
  }

  lemma {:induction false} EncodeFixedMeets(p: Padding, d: Descriptor, v: Value, space: nat)
    requires HasType(d, v) && (d.Array? || d.Struct?)
    ensures Meets(Encode(p, d, v, space), Wire(p, d, v), space, Fits(p, d, v, space))
    decreases v, 0
  {
    EncodeAllMeets(p, Parts(d, |v.items|), v.items, space);
  }

  lemma {:induction false} EncodeUnionMeets(p: Padding, d: Descriptor, v: Value, space: nat)
    requires HasType(d, v) && d.Union?
    ensures Meets(Encode(p, d, v, space), Wire(p, d, v), space, Fits(p, d, v, space))
    decreases v, 0
  {
    var arm := d.arms[v.discr];
    var discr := Put(CastWord(v.discr), space);
    EncodeMeets(p, arm, v.value, Left(space, discr));
    ThenMeets(discr, CastWord(v.discr), true, Encode(p, arm, v.value, Left(space, discr)), Wire(p, arm, v.value),
              Fits(p, arm, v.value, Left(space, discr)), space, Fits(p, d, v, space));
  }

  lemma {:induction false} EncodeVarArrayMeets(p: Padding, d: Descriptor, v: Value, space: nat)
    requires HasType(d, v) && d.VarArray?
    ensures Meets(Encode(p, d, v, space), Wire(p, d, v), space, Fits(p, d, v, space))
    decreases v, 0
  {
    var ds, n := Parts(d, |v.items|), |v.items|;
    var len := PutLength(n, space);
    PutLengthMeets(n, space);
    EncodeAllMeets(p, ds, v.items, Left(space, len));
    ThenMeets(len, CastWord(n), n <= UINT32_MAX && n + 4 <= space,
              EncodeAll(p, ds, v.items, Left(space, len)), WireAll(p, ds, v.items),
              AllFit(p, ds, v.items, Left(space, len)), space, Fits(p, d, v, space));
  }

  lemma {:induction false} EncodeAllMeets(p: Padding, ds: seq<Descriptor>, vs: seq<Value>, space: nat)
    requires HaveTypes(ds, vs)
    ensures Meets(EncodeAll(p, ds, vs, space), WireAll(p, ds, vs), space, AllFit(p, ds, vs, space))
    decreases vs, 0
  {
    if vs != [] {
      var first := Encode(p, ds[0], vs[0], space);
      EncodeMeets(p, ds[0], vs[0], space);
      EncodeAllMeets(p, ds[1..], vs[1..], Left(space, first));
      ThenMeets(first, Wire(p, ds[0], vs[0]), Fits(p, ds[0], vs[0], space),
                EncodeAll(p, ds[1..], vs[1..], Left(space, first)), WireAll(p, ds[1..], vs[1..]),
                AllFit(p, ds[1..], vs[1..], Left(space, first)), space, AllFit(p, ds, vs, space));
    }
  }

  /** What the encoder leaves is a prefix of the encoding, and all of it exactly when it succeeds. */
  lemma EncodeLeaves(p: Padding, d: Descriptor, v: Value, space: nat, w: Written)
    requires HasType(d, v) && w == Encode(p, d, v, space)
    ensures w.bytes <= Wire(p, d, v) && |w.bytes| <= space && (w.status == Ok <==> w.bytes == Wire(p, d, v))
  {
    EncodeMeets(p, d, v, space);
  }

  // ----- main results

  /**
   Space accounting, exactly. The encoder succeeds if and only if all counts fit 32 bits, the
   encoding fits the space, and every variable array in it has Room in what the stream offers.
   What it wrote is a prefix of the encoding, and all of it exactly when it succeeds.
   */
  lemma EncodeSucceedsIff(p: Padding, d: Descriptor, v: Value, space: nat)
    requires HasType(d, v)
    ensures var w := Encode(p, d, v, space);
            && w.bytes <= Wire(p, d, v) && |w.bytes| <= space
            && (w.status == Ok <==> w.bytes == Wire(p, d, v))
            && (w.status == Ok <==>
                  CountsFit(d, v) && |Wire(p, d, v)| <= space && Room(p, d, v, space - |Wire(p, d, v)|))
            && (w.status != Ok ==> w.status == NoSpace || w.status == Overflow)
  {
    EncodeMeets(p, d, v, space);
  }

  /** No value of this shape takes any bytes. */
  predicate Empty(d: Descriptor) {
    match d
    case Void => true
    case Opaque(n) => n == 0
    case Array(e, n) => n == 0 || Empty(e)
    case Struct(fields) => forall i :: 0 <= i < |fields| ==> Empty(fields[i])
    case _ => false
  }

  lemma {:induction false} EmptyIff(p: Padding, d: Descriptor, v: Value)
    requires HasType(d, v)
    ensures |Wire(p, d, v)| == 0 <==> Empty(d)
    decreases v, 1
  {
    match d
    case Array(e, n) => AllEmptyIff(p, Repeat(e, n), v.items);
      assert Empty(d) <==> forall i :: 0 <= i < n ==> Empty(Repeat(e, n)[i]);
    case Struct(fields) => AllEmptyIff(p, fields, v.items);
    case _ =>
  }

  lemma {:induction false} AllEmptyIff(p: Padding, ds: seq<Descriptor>, vs: seq<Value>)
    requires HaveTypes(ds, vs)
    ensures |WireAll(p, ds, vs)| == 0 <==> forall i :: 0 <= i < |ds| ==> Empty(ds[i])
    decreases vs, 0
  {
    if vs != [] {
      EmptyIff(p, ds[0], vs[0]);
      AllEmptyIff(p, ds[1..], vs[1..]);
      assert forall i :: 0 < i < |ds| ==> ds[i] == ds[1..][i - 1];
    }
  }

  /** Every variable array anywhere in the shape has elements of at least one byte. */
  predicate Substantial(d: Descriptor) {
    match d
    case Array(e, _) => Substantial(e)
    case VarArray(e) => Substantial(e) && !Empty(e)
    case Struct(fields) => forall i :: 0 <= i < |fields| ==> Substantial(fields[i])
    case Union(arms) => forall i :: 0 <= i < |arms| ==> Substantial(arms[i])
    case _ => true
  }

  lemma {:induction false} SubstantialHasRoom(p: Padding, d: Descriptor, v: Value, extra: nat)
    requires HasType(d, v) && Substantial(d)
    ensures Room(p, d, v, extra)
    decreases v, 1
  {
    match d
    case Union(arms) => SubstantialHasRoom(p, arms[v.discr], v.value, extra);
    case VarArray(e) =>
      AllSubstantialHaveRoom(p, Parts(d, |v.items|), v.items, extra);
      AtLeastOneEach(p, Parts(d, |v.items|), v.items);
    case Array(_, _) => AllSubstantialHaveRoom(p, Parts(d, |v.items|), v.items, extra);
    case Struct(_) => AllSubstantialHaveRoom(p, Parts(d, |v.items|), v.items, extra);
    case _ =>
  }

  lemma {:induction false} AllSubstantialHaveRoom(p: Padding, ds: seq<Descriptor>, vs: seq<Value>, extra: nat)
    requires HaveTypes(ds, vs) && forall i :: 0 <= i < |ds| ==> Substantial(ds[i])
    ensures AllRoom(p, ds, vs, extra)
    decreases vs, 0
  {
    if vs != [] {
      assert forall i :: 0 <= i < |ds| - 1 ==> ds[1..][i] == ds[i + 1];
      SubstantialHasRoom(p, ds[0], vs[0], |WireAll(p, ds[1..], vs[1..])| + extra);
      AllSubstantialHaveRoom(p, ds[1..], vs[1..], extra);
    }
  }

  lemma {:induction false} AtLeastOneEach(p: Padding, ds: seq<Descriptor>, vs: seq<Value>)
    requires HaveTypes(ds, vs) && forall i :: 0 <= i < |ds| ==> !Empty(ds[i])
    ensures |vs| <= |WireAll(p, ds, vs)|
    decreases |vs|
  {
    if vs != [] {
      EmptyIff(p, ds[0], vs[0]);
      AtLeastOneEach(p, ds[1..], vs[1..]);
    }
  }

  /** With no empty elements, the early check of tn_xdr_encode_length rejects nothing that fits. */
  lemma SubstantialSucceedsIff(p: Padding, d: Descriptor, v: Value, space: nat)
    requires HasType(d, v) && Substantial(d) && CountsFit(d, v)
    ensures Encode(p, d, v, space).status == Ok <==> |Wire(p, d, v)| <= space
  {
    EncodeSucceedsIff(p, d, v, space);
    if |Wire(p, d, v)| <= space {
      SubstantialHasRoom(p, d, v, space - |Wire(p, d, v)|);
    }
  }

  lemma {:induction false} EmptyHasRoom(p: Padding, d: Descriptor, v: Value, extra: nat)
    requires HasType(d, v) && Empty(d)
    ensures Room(p, d, v, extra)
    decreases v, 1
  {
    match d
    case Array(e, n) => AllEmptyHaveRoom(p, Repeat(e, n), v.items, extra);
    case Struct(fields) => AllEmptyHaveRoom(p, fields, v.items, extra);
    case _ =>
  }

  lemma {:induction false} AllEmptyHaveRoom(p: Padding, ds: seq<Descriptor>, vs: seq<Value>, extra: nat)
    requires HaveTypes(ds, vs) && forall i :: 0 <= i < |ds| ==> Empty(ds[i])
    ensures AllRoom(p, ds, vs, extra)
    decreases vs, 0
  {
    if vs != [] {
      assert forall i :: 0 <= i < |ds| - 1 ==> ds[1..][i] == ds[i + 1];
      EmptyHasRoom(p, ds[0], vs[0], |WireAll(p, ds[1..], vs[1..])| + extra);
      AllEmptyHaveRoom(p, ds[1..], vs[1..], extra);
    }
  }

  /** With empty elements it does: an array of n of them takes four bytes, and needs n more that stay unused. */
  lemma EmptyElementsNeedSpace(p: Padding, e: Descriptor, v: Value, space: nat)
    requires HasType(VarArray(e), v) && Empty(e) && CountsFit(VarArray(e), v)
    ensures |Wire(p, VarArray(e), v)| == 4
    ensures Encode(p, VarArray(e), v, space).status == Ok <==> |v.items| + 4 <= space
  {
    var ds := Parts(VarArray(e), |v.items|);
    AllEmptyIff(p, ds, v.items);
    EncodeSucceedsIff(p, VarArray(e), v, space);
    if |v.items| + 4 <= space {
      AllEmptyHaveRoom(p, ds, v.items, space - 4);
    }
  }

  // ----- alignment

  /** How many byte fields of odd length a value has. */
  function OddBlobs(d: Descriptor, v: Value): nat
    requires HasType(d, v)
    decreases v, 1
  {
    match d
    case Opaque(_) => |v.bytes| % 2
    case VarOpaque => |v.bytes| % 2
    case CString => |UpToNul(v.chars)| % 2
    case Union(arms) => OddBlobs(arms[v.discr], v.value)
    case VarArray(_) => AllOddBlobs(Parts(d, |v.items|), v.items)
    case Array(_, _) => AllOddBlobs(Parts(d, |v.items|), v.items)
    case Struct(_) => AllOddBlobs(Parts(d, |v.items|), v.items)
    case _ => 0
  }

  function AllOddBlobs(ds: seq<Descriptor>, vs: seq<Value>): nat
    requires HaveTypes(ds, vs)
    decreases vs, 0
  {
    if vs == [] then 0 else OddBlobs(ds[0], vs[0]) + AllOddBlobs(ds[1..], vs[1..])
  }

  /** Every odd field is two bytes off. */
  predicate OffByTwos(size: nat, odd: nat) {
    size % 4 == 2 * (odd % 2)
  }

  lemma OffByTwosAdd(a: nat, x: nat, b: nat, y: nat)
    requires OffByTwos(a, x) && OffByTwos(b, y)
    ensures OffByTwos(a + b, x + y)
  {
  }

  lemma FourMore(a: nat, x: nat)
    ensures OffByTwos(4 + a, x) <==> OffByTwos(a, x)
    ensures (4 + a) % 4 == a % 4
  {
  }

  lemma PaddedSize(b: Bytes)
    ensures OffByTwos(|Padded(AsWritten, b)|, |b| % 2)
    ensures |Padded(Rfc4506, b)| % 4 == 0
  {
    var q, r := |b| / 4, |b| % 4;
    OverFours(q, r);
    OverFours(q, r + r);
    OverFours(q, r + (4 - r) % 4);
  }

  lemma OverFours(q: nat, r: nat)
    ensures (4 * q + r) % 4 == r % 4 && (4 * q + r) % 2 == r % 2
  {
    ModIs(4 * q + r, 4, q + r / 4, r % 4);
    ModIs(4 * q + r, 2, 2 * q + r / 2, r % 2);
  }

  lemma {:induction false} SizeOff(d: Descriptor, v: Value)
    requires HasType(d, v)
    ensures OffByTwos(|Wire(AsWritten, d, v)|, OddBlobs(d, v))
    ensures |Wire(Rfc4506, d, v)| % 4 == 0
    decreases v, 1
  {
    match d
    case Opaque(_) => PaddedSize(v.bytes);
    case VarOpaque => VarBytesSize(v.bytes);
    case CString => VarBytesSize(UpToNul(v.chars));
    case Union(arms) => UnionSizeOff(d, v);
    case VarArray(_) => VarArraySizeOff(d, v);
    case Array(_, _) => AllSizesOff(Parts(d, |v.items|), v.items);
    case Struct(_) => AllSizesOff(Parts(d, |v.items|), v.items);
    case _ =>
  }

  lemma VarBytesSize(b: Bytes)
    ensures OffByTwos(4 + |Padded(AsWritten, b)|, |b| % 2)
    ensures (4 + |Padded(Rfc4506, b)|) % 4 == 0
  {
    PaddedSize(b);
    FourMore(|Padded(AsWritten, b)|, |b| % 2);
    FourMore(|Padded(Rfc4506, b)|, 0);
  }

  lemma {:induction false} UnionSizeOff(d: Descriptor, v: Value)
    requires HasType(d, v) && d.Union?
    ensures OffByTwos(|Wire(AsWritten, d, v)|, OddBlobs(d, v))
    ensures |Wire(Rfc4506, d, v)| % 4 == 0
    decreases v, 0
  {
    var arm := d.arms[v.discr];
    SizeOff(arm, v.value);
    FourMore(|Wire(AsWritten, arm, v.value)|, OddBlobs(arm, v.value));
    FourMore(|Wire(Rfc4506, arm, v.value)|, 0);
  }

  lemma {:induction false} VarArraySizeOff(d: Descriptor, v: Value)
    requires HasType(d, v) && d.VarArray?
    ensures OffByTwos(|Wire(AsWritten, d, v)|, OddBlobs(d, v))
    ensures |Wire(Rfc4506, d, v)| % 4 == 0
    decreases v, 0
  {
    var ds := Parts(d, |v.items|);
    var a, b := |WireAll(AsWritten, ds, v.items)|, |WireAll(Rfc4506, ds, v.items)|;
    assert |Wire(AsWritten, d, v)| == 4 + a && |Wire(Rfc4506, d, v)| == 4 + b;
    AllSizesOff(ds, v.items);
    FourMore(a, AllOddBlobs(ds, v.items));
    FourMore(b, 0);
  }

  lemma {:induction false} AllSizesOff(ds: seq<Descriptor>, vs: seq<Value>)
    requires HaveTypes(ds, vs)
    ensures OffByTwos(|WireAll(AsWritten, ds, vs)|, AllOddBlobs(ds, vs))
    ensures |WireAll(Rfc4506, ds, vs)| % 4 == 0
    decreases vs, 0
  {
    if vs != [] {
      SizeOff(ds[0], vs[0]);
      AllSizesOff(ds[1..], vs[1..]);
      OffByTwosAdd(|Wire(AsWritten, ds[0], vs[0])|, OddBlobs(ds[0], vs[0]),
                   |WireAll(AsWritten, ds[1..], vs[1..])|, AllOddBlobs(ds[1..], vs[1..]));
      OffByTwosAdd(|Wire(Rfc4506, ds[0], vs[0])|, 0, |WireAll(Rfc4506, ds[1..], vs[1..])|, 0);
    }
  }

  /** The size as a whole; two fields that are two bytes off each make up for one another. */
  lemma TotalAlignedIff(d: Descriptor, v: Value)
    requires HasType(d, v)
    ensures |Wire(AsWritten, d, v)| % 4 == 0 <==> OddBlobs(d, v) % 2 == 0
    ensures |Wire(Rfc4506, d, v)| % 4 == 0
  {
    SizeOff(d, v);
  }

  /** v and every item in it, at any depth, takes a multiple of four bytes. */
  predicate Aligned(d: Descriptor, v: Value)
    requires HasType(d, v)
    decreases v, 1
  {
    && |Wire(AsWritten, d, v)| % 4 == 0
    && match d
       case Union(arms) => Aligned(arms[v.discr], v.value)
       case VarArray(_) => AllAligned(Parts(d, |v.items|), v.items)
       case Array(_, _) => AllAligned(Parts(d, |v.items|), v.items)
       case Struct(_) => AllAligned(Parts(d, |v.items|), v.items)
       case _ => true
  }

  predicate AllAligned(ds: seq<Descriptor>, vs: seq<Value>)
    requires HaveTypes(ds, vs)
    decreases vs, 0
  {
    vs != [] ==> Aligned(ds[0], vs[0]) && AllAligned(ds[1..], vs[1..])
  }

  /**
   Sections 4.9 to 4.11 of RFC 4506 ask for a multiple of four bytes for every byte field. The
   code's padding gives one to all of them exactly when no byte field has an odd length.
   */
  lemma {:induction false} AlignedIff(d: Descriptor, v: Value)
    requires HasType(d, v)
    ensures Aligned(d, v) <==> OddBlobs(d, v) == 0
    decreases v, 1
  {
    SizeOff(d, v);
    match d
    case Union(arms) => AlignedIff(arms[v.discr], v.value);
    case VarArray(_) => AllAlignedIff(Parts(d, |v.items|), v.items);
    case Array(_, _) => AllAlignedIff(Parts(d, |v.items|), v.items);
    case Struct(_) => AllAlignedIff(Parts(d, |v.items|), v.items);
    case _ =>
  }

  lemma {:induction false} AllAlignedIff(ds: seq<Descriptor>, vs: seq<Value>)
    requires HaveTypes(ds, vs)
    ensures AllAligned(ds, vs) <==> AllOddBlobs(ds, vs) == 0
    decreases vs, 0
  {
    if vs != [] {
      AlignedIff(ds[0], vs[0]);
      AllAlignedIff(ds[1..], vs[1..]);
    }
  }

  lemma EvenPadding(b: Bytes)
    ensures |b| % 2 == 0 ==> Padded(AsWritten, b) == Padded(Rfc4506, b)
  {
    if |b| % 2 == 0 {
      assert |b| % 4 == 0 || |b| % 4 == 2;
    }
  }

  /** v and every item in it, at any depth, is encoded as RFC 4506 asks. */
  predicate Conforms(d: Descriptor, v: Value)
    requires HasType(d, v)
    decreases v, 1
  {
    && Wire(AsWritten, d, v) == Wire(Rfc4506, d, v)
    && match d
       case Union(arms) => Conforms(arms[v.discr], v.value)
       case VarArray(_) => AllConform(Parts(d, |v.items|), v.items)
       case Array(_, _) => AllConform(Parts(d, |v.items|), v.items)
       case Struct(_) => AllConform(Parts(d, |v.items|), v.items)
       case _ => true
  }

  predicate AllConform(ds: seq<Descriptor>, vs: seq<Value>)
    requires HaveTypes(ds, vs)
    decreases vs, 0
  {
    vs != [] ==> Conforms(ds[0], vs[0]) && AllConform(ds[1..], vs[1..])
  }

  /** The same values are the ones that the code encodes as RFC 4506 asks, item for item. */
  lemma {:induction false} ConformsIff(d: Descriptor, v: Value)
    requires HasType(d, v)
    ensures Conforms(d, v) <==> OddBlobs(d, v) == 0
    decreases v, 1
  {
    SizeOff(d, v);
    if OddBlobs(d, v) == 0 {
      AlignedWire(d, v);
    }
    match d
    case Union(arms) => ConformsIff(arms[v.discr], v.value);
    case VarArray(_) => AllConformIff(Parts(d, |v.items|), v.items);
    case Array(_, _) => AllConformIff(Parts(d, |v.items|), v.items);
    case Struct(_) => AllConformIff(Parts(d, |v.items|), v.items);
    case _ =>
  }

  lemma {:induction false} AllConformIff(ds: seq<Descriptor>, vs: seq<Value>)
    requires HaveTypes(ds, vs)
    ensures AllConform(ds, vs) <==> AllOddBlobs(ds, vs) == 0
    decreases vs, 0
  {
    if vs != [] {
      ConformsIff(ds[0], vs[0]);
      AllConformIff(ds[1..], vs[1..]);
    }
  }

  /** Then the whole encoding is the one of RFC 4506, byte for byte. */
  lemma {:induction false} AlignedWire(d: Descriptor, v: Value)
    requires HasType(d, v) && OddBlobs(d, v) == 0
    ensures Wire(AsWritten, d, v) == Wire(Rfc4506, d, v)
    decreases v, 1
  {
    match d
    case Opaque(_) => EvenPadding(v.bytes);
    case VarOpaque => EvenPadding(v.bytes);
    case CString => EvenPadding(UpToNul(v.chars));
    case Union(arms) => AlignedWire(arms[v.discr], v.value);
    case VarArray(_) => AllAlignedWire(Parts(d, |v.items|), v.items);
    case Array(_, _) => AllAlignedWire(Parts(d, |v.items|), v.items);
    case Struct(_) => AllAlignedWire(Parts(d, |v.items|), v.items);
    case _ =>
  }

  lemma {:induction false} AllAlignedWire(ds: seq<Descriptor>, vs: seq<Value>)
    requires HaveTypes(ds, vs) && AllOddBlobs(ds, vs) == 0
    ensures WireAll(AsWritten, ds, vs) == WireAll(Rfc4506, ds, vs)
    decreases vs, 0
  {
    if vs != [] {
      AlignedWire(ds[0], vs[0]);
      AllAlignedWire(ds[1..], vs[1..]);
    }
  }

  lemma FirstAndRest(p: Padding, d: Descriptor, v: Value, ds: seq<Descriptor>, vs: seq<Value>, all: seq<Descriptor>,
                     items: seq<Value>)
    requires HasType(d, v) && HaveTypes(ds, vs) && all == [d] + ds && items == [v] + vs
    ensures HaveTypes(all, items) && WireAll(p, all, items) == Wire(p, d, v) + WireAll(p, ds, vs)
    ensures AllOddBlobs(all, items) == OddBlobs(d, v) + AllOddBlobs(ds, vs)
  {
    assert all[1..] == ds && items[1..] == vs;
  }

  lemma OneField(p: Padding, b: Bytes)
    ensures HaveTypes([Opaque(|b|)], [Blob(b)]) && WireAll(p, [Opaque(|b|)], [Blob(b)]) == Padded(p, b)
    ensures AllOddBlobs([Opaque(|b|)], [Blob(b)]) == |b| % 2
  {
    FirstAndRest(p, Opaque(|b|), Blob(b), [], [], [Opaque(|b|)], [Blob(b)]);
    assert Padded(p, b) + [] == Padded(p, b);
  }

  /** Two byte fields, one after the other. */
  lemma TwoFields(p: Padding, d: Descriptor, v: Value, a: Bytes, b: Bytes)
    requires d == Struct([Opaque(|a|), Opaque(|b|)]) && v == Many([Blob(a), Blob(b)])
    ensures HasType(d, v) && Wire(p, d, v) == Padded(p, a) + Padded(p, b) && OddBlobs(d, v) == |a| % 2 + |b| % 2
  {
    OneField(p, b);
    FirstAndRest(p, Opaque(|a|), Blob(a), [Opaque(|b|)], [Blob(b)], d.fields, v.items);
  }

  lemma PaddedByte(x: byte)
    ensures Padded(AsWritten, [x]) == [x, 0] && Padded(Rfc4506, [x]) == [x, 0, 0, 0]
  {
  }

  lemma PaddedZeros()
    ensures Padded(AsWritten, Zeros(3)) == Zeros(6) && Padded(Rfc4506, Zeros(3)) == Zeros(4)
  {
  }

  /**
   One byte each: four bytes in all, and neither field aligned. A decoder that follows RFC 4506
   does not take it, because the second byte stands where it looks for padding.
   */
  lemma OffsetsCancel(d: Descriptor, v: Value, x: byte, y: byte)
    requires d == Struct([Opaque(1), Opaque(1)]) && v == Many([Blob([x]), Blob([y])]) && y != 0
    ensures HasType(d, v) && Wire(AsWritten, d, v) == [x, 0, y, 0] && !Aligned(d, v)
    ensures Decode(Rfc4506, d, [x, 0, y, 0]) == Failed(Protocol, 4)
  {
    TwoFields(AsWritten, d, v, [x], [y]);
    PaddedByte(x);
    PaddedByte(y);
    AlignedIff(d, v);
    BadPadding(d.fields, [x, 0, y, 0]);
  }

  lemma BadPadding(ds: seq<Descriptor>, b: Bytes)
    requires ds == [Opaque(1), Opaque(1)] && |b| == 4 && b[2] != 0
    ensures DecodeAll(Rfc4506, ds, b) == Failed(Protocol, 4)
  {
    assert b[1..4][1] == b[2] && Zeros(3)[1] == 0;
    assert TakeBytes(Rfc4506, 1, b) == Failed(Protocol, 4);
  }

  /** The converse of AlignedWire fails: zeros can stand where padding should, as in these two fields. */
  lemma ZerosPassForPadding(d: Descriptor, v: Value, x: byte)
    requires d == Struct([Opaque(1), Opaque(3)]) && v == Many([Blob([x]), Blob(Zeros(3))])
    ensures HasType(d, v) && OddBlobs(d, v) == 2 && Wire(AsWritten, d, v) == Wire(Rfc4506, d, v)
  {
    TwoFields(AsWritten, d, v, [x], Zeros(3));
    TwoFields(Rfc4506, d, v, [x], Zeros(3));
    PaddedByte(x);
    PaddedZeros();
    assert [x, 0] + Zeros(6) == [x, 0, 0, 0] + Zeros(4);
  }
}
