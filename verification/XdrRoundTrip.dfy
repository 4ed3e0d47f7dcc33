/**
 The decoder undoes the encoder, and the encoder undoes the decoder, for every nested shape.
 */
module XdrRoundTrip {
  import opened Basics
  import opened XdrWords
  import opened XdrFormat
  import opened XdrEncoding

  /** What a decoder makes of a value: a C string ends at its first NUL. */
  function Clean(v: Value): Value {
    match v
    case Text(chars) => Text(UpToNul(chars))
    case Many(items) => Many(CleanAll(items))
    case Arm(n, w) => Arm(n, Clean(w))
    case _ => v
  }

  function CleanAll(vs: seq<Value>): (r: seq<Value>)
    ensures |r| == |vs|
  {
    if vs == [] then [] else [Clean(vs[0])] + CleanAll(vs[1..])
  }

  predicate NulFree(v: Value) {
    match v
    case Text(chars) => 0 !in chars
    case Many(items) => AllNulFree(items)
    case Arm(_, w) => NulFree(w)
    case _ => true
  }

  predicate AllNulFree(vs: seq<Value>) {
    vs != [] ==> NulFree(vs[0]) && AllNulFree(vs[1..])
  }

  lemma {:induction false} CleanIff(v: Value)
    ensures Clean(v) == v <==> NulFree(v)
    decreases v, 1
  {
    match v
    case Text(chars) =>
    case Many(items) => AllCleanIff(items);
    case Arm(_, w) => CleanIff(w);
    case _ =>
  }

  lemma {:induction false} AllCleanIff(vs: seq<Value>)
    ensures CleanAll(vs) == vs <==> AllNulFree(vs)
    decreases vs, 0
  {
    if vs != [] {
      CleanIff(vs[0]);
      AllCleanIff(vs[1..]);
      assert vs == [vs[0]] + vs[1..];
      assert CleanAll(vs)[1..] == CleanAll(vs[1..]);
    }
  }

  // ----- decoding what was encoded

  /** What decoding must give for a value of which the stream starts with the encoding. */
  predicate Returns<T(==)>(r: Read<T>, value: T, used: nat, room: bool) {
    if room then r == Got(value, used) else r.Failed? && r.status == Protocol
  }

  lemma WordRoundTrip(signed: bool, n: int, b: Bytes)
    requires if signed then -0x8000_0000 <= n < 0x8000_0000 else 0 <= n < TWO_32
    requires CastWord(n) <= b
    ensures TakeWord(signed, b) == Got(n, 4)
  {
    UnwordWord(if n < 0 then n + TWO_32 else n);
    assert b[..4] == CastWord(n);
  }

  lemma Prefixes(a: Bytes, c: Bytes, b: Bytes)
    requires a + c <= b
    ensures a <= b && c <= b[|a|..]
  {
    assert b[..|a|] == a;
    assert b[|a|..][..|c|] == b[|a|..|a| + |c|] == c;
  }

  lemma TwoWordsRoundTrip(signed: bool, high: int, low: nat, w1: Bytes, w2: Bytes, b: Bytes)
    requires low < TWO_32 && if signed then -0x8000_0000 <= high < 0x8000_0000 else 0 <= high < TWO_32
    requires w1 == CastWord(high) && w2 == CastWord(low) && w1 + w2 <= b
    ensures TakeHyper(signed, b) == Got(JoinHalves(high, low), 8)
  {
    Prefixes(w1, w2, b);
    WordRoundTrip(signed, high, b);
    WordRoundTrip(false, low, b[4..]);
  }

  lemma HyperRoundTrip(signed: bool, n: int, b: Bytes)
    requires if signed then -0x8000_0000_0000_0000 <= n < 0x8000_0000_0000_0000 else 0 <= n < TWO_64
    requires HyperWire(n) <= b
    ensures TakeHyper(signed, b) == Got(n, 8)
  {
    TwoWordsRoundTrip(signed, High(n), Low(n), CastWord(High(n)), CastWord(Low(n)), b);
  }

  /** What the range test leaves of a word or of two. */
  lemma Ranges(k: Kind, n: int)
    requires Min(k) <= n <= Max(k)
    ensures Wide(k) ==> if Signed(k) then -0x8000_0000_0000_0000 <= n < 0x8000_0000_0000_0000 else 0 <= n < TWO_64
    ensures !Wide(k) ==> if Signed(k) then -0x8000_0000 <= n < 0x8000_0000 else 0 <= n < TWO_32
  {
  }

  lemma ScalarRoundTrip(k: Kind, n: int, b: Bytes)
    requires Min(k) <= n <= Max(k) && ScalarWire(k, n) <= b
    ensures TakeScalar(k, b) == Got(Number(n), |ScalarWire(k, n)|)
  {
    Ranges(k, n);
    if Wide(k) {
      HyperRoundTrip(Signed(k), n, b);
    } else {
      WordRoundTrip(Signed(k), n, b);
    }
  }

  lemma LengthRoundTrip(n: nat, b: Bytes)
    requires n <= UINT32_MAX && CastWord(n) <= b
    ensures TakeLength(b) == if |b| - 4 < n then Failed(Protocol, 4) else Got(n, 4)
  {
    WordRoundTrip(false, n, b);
  }

  lemma BytesRoundTrip(p: Padding, s: Bytes, b: Bytes)
    requires Padded(p, s) <= b
    ensures TakeBytes(p, |s|, b) == Got(s, |Padded(p, s)|)
  {
    var pad := PadCount(p, |s|);
    Prefixes(s, Zeros(pad), b);
    assert b[..|s|] == s;
    assert b[|s|..|s| + pad] == b[|s|..][..pad] == Zeros(pad);
  }

  lemma VarBytesRoundTrip(p: Padding, s: Bytes, b: Bytes)
    requires |s| <= UINT32_MAX && CastWord(|s|) + Padded(p, s) <= b
    ensures TakeVarBytes(p, b) == Got(s, 4 + |Padded(p, s)|)
  {
    Prefixes(CastWord(|s|), Padded(p, s), b);
    LengthRoundTrip(|s|, b);
    BytesRoundTrip(p, s, b[4..]);
  }

  lemma {:induction false} DecodeReturns(p: Padding, d: Descriptor, v: Value, b: Bytes)
    requires HasType(d, v) && CountsFit(d, v) && Wire(p, d, v) <= b
    ensures Returns(Decode(p, d, b), Clean(v), |Wire(p, d, v)|, Room(p, d, v, |b| - |Wire(p, d, v)|))
    decreases v, 1
  {
    match d
    case Union(arms) => DecodeUnionReturns(p, d, v, b);
    case VarArray(_) => DecodeVarArrayReturns(p, d, v, b);
    case Array(_, _) => DecodeAllReturns(p, Parts(d, |v.items|), v.items, b);
    case Struct(_) => DecodeAllReturns(p, Parts(d, |v.items|), v.items, b);
    case _ => DecodeLeafReturns(p, d, v, b);
  }

  predicate Leaf(d: Descriptor) {
    !d.Union? && !d.VarArray? && !d.Array? && !d.Struct?
  }

  lemma DecodeLeafReturns(p: Padding, d: Descriptor, v: Value, b: Bytes)
    requires HasType(d, v) && CountsFit(d, v) && Wire(p, d, v) <= b && Leaf(d)
    ensures Decode(p, d, b) == Got(Clean(v), |Wire(p, d, v)|)
  {
    match d
    case Void =>
    case Scalar(k) => DecodeScalarReturns(p, k, v, b);
    case Opaque(n) => DecodeOpaqueReturns(p, n, v, b);
    case VarOpaque => DecodeVarOpaqueReturns(p, v, b);
    case CString => DecodeCStringReturns(p, v, b);
  }

  lemma DecodeScalarReturns(p: Padding, k: Kind, v: Value, b: Bytes)
    requires HasType(Scalar(k), v) && Wire(p, Scalar(k), v) <= b
    ensures Decode(p, Scalar(k), b) == Got(v, |Wire(p, Scalar(k), v)|)
  {
    ScalarRoundTrip(k, v.n, b);
  }

  lemma DecodeOpaqueReturns(p: Padding, n: nat, v: Value, b: Bytes)
    requires HasType(Opaque(n), v) && Wire(p, Opaque(n), v) <= b
    ensures Decode(p, Opaque(n), b) == Got(v, |Wire(p, Opaque(n), v)|)
  {
    BytesRoundTrip(p, v.bytes, b);
  }

  lemma DecodeVarOpaqueReturns(p: Padding, v: Value, b: Bytes)
    requires HasType(VarOpaque, v) && CountsFit(VarOpaque, v) && Wire(p, VarOpaque, v) <= b
    ensures Decode(p, VarOpaque, b) == Got(v, |Wire(p, VarOpaque, v)|)
  {
    VarBytesRoundTrip(p, v.bytes, b);
  }

  lemma DecodeCStringReturns(p: Padding, v: Value, b: Bytes)
    requires HasType(CString, v) && CountsFit(CString, v) && Wire(p, CString, v) <= b
    ensures Decode(p, CString, b) == Got(Clean(v), |Wire(p, CString, v)|)
  {
    VarBytesRoundTrip(p, UpToNul(v.chars), b);
  }

  lemma {:induction false} DecodeUnionReturns(p: Padding, d: Descriptor, v: Value, b: Bytes)
    requires HasType(d, v) && CountsFit(d, v) && Wire(p, d, v) <= b && d.Union?
    ensures Returns(Decode(p, d, b), Clean(v), |Wire(p, d, v)|, Room(p, d, v, |b| - |Wire(p, d, v)|))
    decreases v, 0
  {
    var arm := d.arms[v.discr];
    Prefixes(CastWord(v.discr), Wire(p, arm, v.value), b);
    WordRoundTrip(false, v.discr, b);
    DecodeReturns(p, arm, v.value, b[4..]);
  }

  lemma {:induction false} DecodeVarArrayReturns(p: Padding, d: Descriptor, v: Value, b: Bytes)
    requires HasType(d, v) && CountsFit(d, v) && Wire(p, d, v) <= b && d.VarArray?
    ensures Returns(Decode(p, d, b), Clean(v), |Wire(p, d, v)|, Room(p, d, v, |b| - |Wire(p, d, v)|))
    decreases v, 0
  {
    var n, ds := |v.items|, Parts(d, |v.items|);
    Prefixes(CastWord(n), WireAll(p, ds, v.items), b);
    LengthRoundTrip(n, b);
    DecodeAllReturns(p, ds, v.items, b[4..]);
    DecodeVarArrayIs(p, d.elt, n, b);
  }

  lemma DecodeVarArrayIs(p: Padding, e: Descriptor, n: nat, b: Bytes)
    requires |b| >= 4 && TakeLength(b) == if |b| - 4 < n then Failed(Protocol, 4) else Got(n, 4)
    ensures Decode(p, VarArray(e), b)
         == if |b| - 4 < n then Failed(Protocol, 4) else AsMany(Shift(DecodeAll(p, Repeat(e, n), b[4..]), 4))
  {
  }

  lemma {:induction false} DecodeAllReturns(p: Padding, ds: seq<Descriptor>, vs: seq<Value>, b: Bytes)
    requires HaveTypes(ds, vs) && AllCountsFit(ds, vs) && WireAll(p, ds, vs) <= b
    ensures Returns(DecodeAll(p, ds, b), CleanAll(vs), |WireAll(p, ds, vs)|,
                    AllRoom(p, ds, vs, |b| - |WireAll(p, ds, vs)|))
    decreases vs, 0
  {
    if vs != [] {
      var first := Wire(p, ds[0], vs[0]);
      Prefixes(first, WireAll(p, ds[1..], vs[1..]), b);
      DecodeReturns(p, ds[0], vs[0], b);
      DecodeAllReturns(p, ds[1..], vs[1..], b[|first|..]);
    }
  }

  /** b begins with the encoding of v, whose counts fit their words. */
  predicate Begins(p: Padding, d: Descriptor, v: Value, b: Bytes) {
    HasType(d, v) && CountsFit(d, v) && Wire(p, d, v) <= b
  }

  lemma BothNeedRoom(p: Padding, d: Descriptor, v: Value, b: Bytes) returns (r: Read<Value>, used: nat, room: bool)
    requires Begins(p, d, v, b)
    ensures r == Decode(p, d, b) && used == |Wire(p, d, v)| && Returns(r, Clean(v), used, room)
    ensures Encode(p, d, v, |b|).status == Ok <==> room
  {
    r, used, room := Decode(p, d, b), |Wire(p, d, v)|, Room(p, d, v, |b| - |Wire(p, d, v)|);
    DecodeReturns(p, d, v, b);
    EncodeSucceedsIff(p, d, v, |b|);
  }

  /**
   Round trip. From bytes b that begin with the encoding of v, whatever follows it, decoding
   gives v back and stops exactly behind the encoding if encoding v into a stream of that same
   size succeeds, and fails with EPROTO if it does not.
   */
  lemma RoundTrip(p: Padding, d: Descriptor, v: Value, b: Bytes)
    requires Begins(p, d, v, b)
    ensures if Encode(p, d, v, |b|).status == Ok then Decode(p, d, b) == Got(Clean(v), |Wire(p, d, v)|)
            else Decode(p, d, b).Failed? && Decode(p, d, b).status == Protocol
  {
    var _, _, _ := BothNeedRoom(p, d, v, b);
  }

  /** What an encoder wrote at the front of a stream, a decoder reads back from that stream. */
  lemma EncodeThenDecode(p: Padding, d: Descriptor, v: Value, b: Bytes)
    requires HasType(d, v) && NulFree(v)
    requires Encode(p, d, v, |b|).status == Ok && Encode(p, d, v, |b|).bytes <= b
    ensures Decode(p, d, b) == Got(v, |Encode(p, d, v, |b|).bytes|)
  {
    EncodeSucceedsIff(p, d, v, |b|);
    RoundTrip(p, d, v, b);
    CleanIff(v);
  }

  /** With elements of at least one byte, no trailing bytes are needed. */
  lemma SubstantialRoundTrip(p: Padding, d: Descriptor, v: Value, b: Bytes)
    requires HasType(d, v) && CountsFit(d, v) && Substantial(d) && NulFree(v) && Wire(p, d, v) <= b
    ensures Decode(p, d, b) == Got(v, |Wire(p, d, v)|)
  {
    DecodeReturns(p, d, v, b);
    SubstantialHasRoom(p, d, v, |b| - |Wire(p, d, v)|);
    CleanIff(v);
  }

  // ----- encoding what was decoded

  lemma WordCanonical(signed: bool, b: Bytes)
    requires TakeWord(signed, b).Got?
    ensures var n := TakeWord(signed, b).value;
            && CastWord(n) == b[..4]
            && (if signed then -0x8000_0000 <= n < 0x8000_0000 else 0 <= n < TWO_32)
  {
    WordUnword(b[..4]);
  }

  lemma HyperOfHalves(high: int, low: nat, first: Bytes, second: Bytes)
    requires low < TWO_32 && CastWord(high) == first && CastWord(low) == second
    ensures HyperWire(JoinHalves(high, low)) == first + second
    ensures JoinHalves(high, low) == high * TWO_32 + low
  {
    JoinSplit(high, low);
  }

  lemma HyperCanonical(signed: bool, b: Bytes)
    requires TakeHyper(signed, b).Got?
    ensures |b| >= 8 && HyperWire(TakeHyper(signed, b).value) == b[..8] && TakeHyper(signed, b).used == 8
    ensures var n := TakeHyper(signed, b).value;
            if signed then -0x8000_0000_0000_0000 <= n < 0x8000_0000_0000_0000 else 0 <= n < TWO_64
  {
    var high, low := TakeWord(signed, b).value, TakeWord(false, b[4..]).value;
    WordCanonical(signed, b);
    WordCanonical(false, b[4..]);
    HyperOfHalves(high, low, b[..4], b[4..][..4]);
    Assemble(b, 4, 4);
  }

  lemma WideRange(k: Kind, n: int)
    requires Wide(k)
    requires if Signed(k) then -0x8000_0000_0000_0000 <= n < 0x8000_0000_0000_0000 else 0 <= n < TWO_64
    ensures Min(k) <= n <= Max(k)
  {
  }

  lemma ScalarCanonical(k: Kind, b: Bytes)
    requires TakeScalar(k, b).Got?
    ensures var Got(v, used) := TakeScalar(k, b);
            && v.Number? && Min(k) <= v.n <= Max(k)
            && used == |ScalarWire(k, v.n)| <= |b| && ScalarWire(k, v.n) == b[..used]
  {
    if Wide(k) {
      HyperCanonical(Signed(k), b);
      WideRange(k, TakeHyper(Signed(k), b).value);
    } else {
      WordCanonical(Signed(k), b);
    }
  }

  lemma Assemble(b: Bytes, m: nat, n: nat)
    requires m + n <= |b|
    ensures b[..m + n] == b[..m] + b[m..][..n]
  {
  }

  lemma BytesCanonical(p: Padding, n: nat, b: Bytes)
    requires TakeBytes(p, n, b).Got?
    ensures var Got(s, used) := TakeBytes(p, n, b);
            |s| == n && used == |Padded(p, s)| && Padded(p, s) == b[..used]
  {
    var pad := PadCount(p, n);
    assert b[..n + pad] == b[..n] + b[n..n + pad];
  }

  lemma LengthCanonical(b: Bytes)
    requires TakeLength(b).Got?
    ensures TakeLength(b).value <= UINT32_MAX && |b| >= 4 && CastWord(TakeLength(b).value) == b[..4]
  {
    WordCanonical(false, b);
  }

  lemma VarBytesCanonical(p: Padding, b: Bytes)
    requires TakeVarBytes(p, b).Got?
    ensures var Got(s, used) := TakeVarBytes(p, b);
            && |s| <= UINT32_MAX && used == 4 + |Padded(p, s)| <= |b|
            && CastWord(|s|) + Padded(p, s) == b[..used]
  {
    var n := TakeLength(b).value;
    LengthCanonical(b);
    BytesCanonical(p, n, b[4..]);
    var s := TakeBytes(p, n, b[4..]).value;
    Joined(b, CastWord(n), Padded(p, s), |Padded(p, s)|);
  }

  // ----- a decoded value has its shape

  lemma {:induction false} DecodeTyped(p: Padding, d: Descriptor, b: Bytes)
    requires Decode(p, d, b).Got?
    ensures var v := Decode(p, d, b).value; HasType(d, v) && CountsFit(d, v)
    decreases Height(d), 0
  {
    match d
    case Scalar(k) => ScalarCanonical(k, b);
    case VarOpaque => VarBytesCanonical(p, b);
    case CString => VarBytesCanonical(p, b);
    case Union(arms) =>
      WordCanonical(false, b);
      DecodeTyped(p, arms[TakeWord(false, b).value], b[4..]);
    case VarArray(_) =>
      var n := TakeLength(b).value;
      PartsAreLower(d, n);
      DecodeAllTyped(p, Parts(d, n), b[4..]);
    case Array(_, _) =>
      PartsAreLower(d, 0);
      DecodeAllTyped(p, Parts(d, 0), b);
    case Struct(_) =>
      PartsAreLower(d, 0);
      DecodeAllTyped(p, Parts(d, 0), b);
    case _ =>
  }

  lemma {:induction false} DecodeAllTyped(p: Padding, ds: seq<Descriptor>, b: Bytes)
    requires DecodeAll(p, ds, b).Got?
    ensures var vs := DecodeAll(p, ds, b).value; HaveTypes(ds, vs) && AllCountsFit(ds, vs)
    decreases MaxHeight(ds), 1, |ds|
  {
    if ds != [] {
      var first := Decode(p, ds[0], b);
      DecodeTyped(p, ds[0], b);
      DecodeAllTyped(p, ds[1..], b[first.used..]);
      var rest := DecodeAll(p, ds[1..], b[first.used..]).value;
      assert ([first.value] + rest)[1..] == rest;
    }
  }

  // ----- and, unless it holds a NUL, its encoding is what was read

  lemma {:induction false} DecodeCanonical(p: Padding, d: Descriptor, b: Bytes)
    requires Decode(p, d, b).Got?
    requires HasType(d, Decode(p, d, b).value) && NulFree(Decode(p, d, b).value)
    ensures Wire(p, d, Decode(p, d, b).value) == b[..Decode(p, d, b).used]
    decreases Height(d), 0, 1
  {
    match d
    case Void =>
    case Scalar(k) => ScalarCanonical(k, b);
    case Opaque(n) => DecodeOpaqueCanonical(p, n, b);
    case VarOpaque => DecodeVarOpaqueCanonical(p, b);
    case CString => DecodeCStringCanonical(p, b);
    case Union(arms) => DecodeUnionCanonical(p, arms, b);
    case VarArray(e) => DecodeVarArrayCanonical(p, e, b);
    case Array(_, _) =>
      PartsAreLower(d, 0);
      DecodeAllCanonical(p, Parts(d, 0), b);
    case Struct(_) =>
      PartsAreLower(d, 0);
      DecodeAllCanonical(p, Parts(d, 0), b);
  }

  lemma DecodeOpaqueCanonical(p: Padding, n: nat, b: Bytes)
    requires Decode(p, Opaque(n), b).Got? && HasType(Opaque(n), Decode(p, Opaque(n), b).value)
    ensures Wire(p, Opaque(n), Decode(p, Opaque(n), b).value) == b[..Decode(p, Opaque(n), b).used]
  {
    BytesCanonical(p, n, b);
  }

  lemma DecodeVarOpaqueCanonical(p: Padding, b: Bytes)
    requires Decode(p, VarOpaque, b).Got?
    ensures var Got(v, used) := Decode(p, VarOpaque, b); HasType(VarOpaque, v) && Wire(p, VarOpaque, v) == b[..used]
  {
    VarBytesCanonical(p, b);
  }

  lemma DecodeCStringCanonical(p: Padding, b: Bytes)
    requires Decode(p, CString, b).Got? && NulFree(Decode(p, CString, b).value)
    ensures var Got(v, used) := Decode(p, CString, b); HasType(CString, v) && Wire(p, CString, v) == b[..used]
  {
    VarBytesCanonical(p, b);
  }

  lemma {:induction false} DecodeUnionCanonical(p: Padding, arms: seq<Descriptor>, b: Bytes)
    requires Decode(p, Union(arms), b).Got?
    requires HasType(Union(arms), Decode(p, Union(arms), b).value) && NulFree(Decode(p, Union(arms), b).value)
    ensures Wire(p, Union(arms), Decode(p, Union(arms), b).value) == b[..Decode(p, Union(arms), b).used]
    decreases Height(Union(arms)), 0, 0
  {
    var n := UnionDecodes(p, arms, b);
    var inner := Decode(p, arms[n], b[4..]);
    DecodeCanonical(p, arms[n], b[4..]);
    Joined(b, CastWord(n), Wire(p, arms[n], inner.value), inner.used);
  }

  lemma Joined(b: Bytes, first: Bytes, second: Bytes, used: nat)
    requires |first| + used <= |b| && first == b[..|first|] && second == b[|first|..][..used]
    ensures first + second == b[..|first| + used]
  {
  }

  lemma UnionDecodes(p: Padding, arms: seq<Descriptor>, b: Bytes) returns (n: nat)
    requires Decode(p, Union(arms), b).Got?
    ensures n < |arms| && n < TWO_32 && |b| >= 4 && CastWord(n) == b[..4]
    ensures Decode(p, arms[n], b[4..]).Got?
    ensures var inner := Decode(p, arms[n], b[4..]);
            Decode(p, Union(arms), b) == Got(Arm(n, inner.value), 4 + inner.used)
  {
    WordCanonical(false, b);
    n := TakeWord(false, b).value;
  }

  lemma {:induction false} DecodeVarArrayCanonical(p: Padding, e: Descriptor, b: Bytes)
    requires Decode(p, VarArray(e), b).Got?
    requires HasType(VarArray(e), Decode(p, VarArray(e), b).value) && NulFree(Decode(p, VarArray(e), b).value)
    ensures Wire(p, VarArray(e), Decode(p, VarArray(e), b).value) == b[..Decode(p, VarArray(e), b).used]
    decreases Height(VarArray(e)), 0, 0
  {
    var n := VarArrayDecodes(p, e, b);
    var inner := DecodeAll(p, Repeat(e, n), b[4..]);
    PartsAreLower(VarArray(e), n);
    DecodeAllCanonical(p, Repeat(e, n), b[4..]);
    Joined(b, CastWord(n), WireAll(p, Repeat(e, n), inner.value), inner.used);
  }

  lemma VarArrayDecodes(p: Padding, e: Descriptor, b: Bytes) returns (n: nat)
    requires Decode(p, VarArray(e), b).Got?
    ensures n < TWO_32 && |b| >= 4 && CastWord(n) == b[..4] && DecodeAll(p, Repeat(e, n), b[4..]).Got?
    ensures var inner := DecodeAll(p, Repeat(e, n), b[4..]);
            |inner.value| == n && Decode(p, VarArray(e), b) == Got(Many(inner.value), 4 + inner.used)
  {
    LengthCanonical(b);
    n := TakeLength(b).value;
  }

  lemma {:induction false} DecodeAllCanonical(p: Padding, ds: seq<Descriptor>, b: Bytes)
    requires DecodeAll(p, ds, b).Got?
    requires HaveTypes(ds, DecodeAll(p, ds, b).value) && AllNulFree(DecodeAll(p, ds, b).value)
    ensures WireAll(p, ds, DecodeAll(p, ds, b).value) == b[..DecodeAll(p, ds, b).used]
    decreases MaxHeight(ds), 1, |ds|
  {
    if ds != [] {
      var first := Decode(p, ds[0], b);
      var rest := DecodeAll(p, ds[1..], b[first.used..]);
      assert ([first.value] + rest.value)[1..] == rest.value;
      DecodeCanonical(p, ds[0], b);
      DecodeAllCanonical(p, ds[1..], b[first.used..]);
      Assemble(b, first.used, rest.used);
    }
  }

  /**
   Canonicity. Whatever decodes, encoding the result into a stream of the same size reproduces
   the consumed bytes, if and only if no C string in it has a NUL.
   */
  lemma DecodeThenEncodeIff(p: Padding, d: Descriptor, b: Bytes)
    requires Decode(p, d, b).Got?
    ensures var Got(v, used) := Decode(p, d, b);
            && HasType(d, v) && used <= |b|
            && (Encode(p, d, v, |b|) == Written(b[..used], Ok) <==> NulFree(v))
  {
    var Got(v, used) := Decode(p, d, b);
    DecodeTyped(p, d, b);
    EncodeSucceedsIff(p, d, v, |b|);
    if NulFree(v) {
      DecodeCanonical(p, d, b);
      DecodeReturns(p, d, v, b);
    } else if Encode(p, d, v, |b|) == Written(b[..used], Ok) {
      DecodeReturns(p, d, v, b);
      CleanIff(v);
    }
  }

  /** A NUL inside a C string is decoded as part of it, and ends it when it is encoded again. */
  lemma EmbeddedNulIsLost()
    ensures var b: Bytes := [0, 0, 0, 2, 65, 0, 0, 0];
            && Decode(AsWritten, CString, b) == Got(Text([65, 0]), 8)
            && Encode(AsWritten, CString, Text([65, 0]), 8) == Written([0, 0, 0, 1, 65, 0], Ok)
  {
    var b: Bytes := [0, 0, 0, 2, 65, 0, 0, 0];
    assert b[..4] == [0, 0, 0, 2] && Unword([0, 0, 0, 2]) == 2;
    assert TakeLength(b) == Got(2, 4);
    assert b[4..] == [65, 0, 0, 0] && b[4..][..2] == [65, 0] && b[4..][2..4] == Zeros(2);
    assert TakeBytes(AsWritten, 2, b[4..]) == Got([65, 0], 4);
    var t: Bytes := [65, 0];
    assert UpToNul(t[1..]) == [] && UpToNul(t) == [65];
    assert CastWord(1) == [0, 0, 0, 1];
    assert Put([65], 4) == Written([65], Ok) && Zeros(1) == [0];
    assert PutBytes(AsWritten, [65], 4) == Written([65, 0], Ok);
  }

  /** No two byte strings decode to one value (without a NUL in a C string). */
  lemma OneEncoding(p: Padding, d: Descriptor, b1: Bytes, b2: Bytes)
    requires Decode(p, d, b1).Got? && Decode(p, d, b2).Got?
    requires Decode(p, d, b1).value == Decode(p, d, b2).value && NulFree(Decode(p, d, b1).value)
    ensures b1[..Decode(p, d, b1).used] == b2[..Decode(p, d, b2).used]
  {
    DecodeTyped(p, d, b1);
    DecodeCanonical(p, d, b1);
    DecodeCanonical(p, d, b2);
  }
}
