/**
 What xdr.c puts on the wire and takes off it, for values of any nested shape. Wire is the
 encoding itself; Encode and Decode are the encoder and the decoder with every check, every
 partial write and every error the code has, but on byte sequences instead of a stream.
 */
module XdrFormat {
  import opened Basics
  import opened XdrWords

  datatype Status = Ok | NoMessage | NoSpace | Protocol | Overflow

  // ----- scalars

  datatype Kind = Int32 | UInt32 | Int64 | UInt64 | Float | Double | Bool | Int8 | UInt8 | Int16 | UInt16

  /** Written as two words rather than one. */
  predicate Wide(k: Kind) {
    k == Int64 || k == UInt64 || k == Double
  }

  /** Read as a signed word (or, when wide, with a signed upper word). */
  predicate Signed(k: Kind) {
    k == Int32 || k == Int64 || k == Bool || k == Int8 || k == Int16
  }

  function Min(k: Kind): int {
    match k
    case Int32 => -0x8000_0000
    case Int64 => -0x8000_0000_0000_0000
    case Int8 => -0x80
    case Int16 => -0x8000
    case _ => 0
  }

  // Float and Double are the bit patterns of their values.
  function Max(k: Kind): int {
    match k
    case Int32 => 0x7fff_ffff
    case UInt32 => 0xffff_ffff
    case Int64 => 0x7fff_ffff_ffff_ffff
    case UInt64 => 0xffff_ffff_ffff_ffff
    case Float => 0xffff_ffff
    case Double => 0xffff_ffff_ffff_ffff
    case Bool => 1
    case Int8 => 0x7f
    case UInt8 => 0xff
    case Int16 => 0x7fff
    case UInt16 => 0xffff
  }

  function HyperWire(n: int): (r: Bytes)
    ensures |r| == 8
  {
    CastWord(High(n)) + CastWord(Low(n))
  }

  function ScalarWire(k: Kind, n: int): (r: Bytes)
    ensures |r| == if Wide(k) then 8 else 4
  {
    if Wide(k) then HyperWire(n) else CastWord(n)
  }

  /** A word as a signed or an unsigned number. */
  function FromWord(signed: bool, n: nat): int
    requires n < TWO_32
  {
    if signed && n >= 0x8000_0000 then n - TWO_32 else n
  }

  // ----- padding

  /**
   AsWritten is what xdr_add_padding and xdr_skip_padding do. Rfc4506 is what sections 4.9 to
   4.11 of RFC 4506 ask for. Everything below holds of both.
   */
  datatype Padding = AsWritten | Rfc4506

  function PadCount(p: Padding, len: nat): (r: nat)
    ensures r < 4
  {
    match p
    case AsWritten => len % 4
    case Rfc4506 => (4 - len % 4) % 4
  }

  function Zeros(n: nat): (r: Bytes)
    ensures |r| == n && forall i :: 0 <= i < n ==> r[i] == 0
  {
    seq(n, _ => 0)
  }

  function Padded(p: Padding, b: Bytes): (r: Bytes)
    ensures |r| == |b| + PadCount(p, |b|)
  {
    b + Zeros(PadCount(p, |b|))
  }

  // ----- shapes and values

  datatype Descriptor =
    | Void
    | Scalar(kind: Kind)
    | Opaque(size: nat)
    | VarOpaque
    | CString
    | Array(elt: Descriptor, len: nat)
    | VarArray(elt: Descriptor)
    | Struct(fields: seq<Descriptor>)
    | Union(arms: seq<Descriptor>)

  // Text is the buffer a C string lives in, without the NUL that was put after it.
  datatype Value =
    | Nothing
    | Number(n: int)
    | Blob(bytes: Bytes)
    | Text(chars: Bytes)
    | Many(items: seq<Value>)
    | Arm(discr: nat, value: Value)

  /** strlen: the characters before the first NUL. */
  function UpToNul(s: Bytes): (r: Bytes)
    ensures r <= s && 0 !in r
    ensures r == s <==> 0 !in s
    ensures |r| < |s| ==> s[|r|] == 0
  {
    if s == [] || s[0] == 0 then [] else [s[0]] + UpToNul(s[1..])
  }

  function Repeat(d: Descriptor, n: nat): (r: seq<Descriptor>)
    ensures |r| == n && forall i :: 0 <= i < n ==> r[i] == d
  {
    seq(n, _ => d)
  }

  /** The descriptors of the items of a composite value, one for each. */
  function Parts(d: Descriptor, count: nat): seq<Descriptor> {
    match d
    case Array(e, n) => Repeat(e, n)
    case VarArray(e) => Repeat(e, count)
    case Struct(fields) => fields
    case _ => []
  }

  predicate HasType(d: Descriptor, v: Value)
    decreases v, 1
  {
    match d
    case Void => v.Nothing?
    case Scalar(k) => v.Number? && Min(k) <= v.n <= Max(k)
    case Opaque(n) => v.Blob? && |v.bytes| == n
    case VarOpaque => v.Blob?
    case CString => v.Text?
    case Union(arms) => v.Arm? && v.discr < |arms| && v.discr < TWO_32 && HasType(arms[v.discr], v.value)
    case _ => v.Many? && HaveTypes(Parts(d, |v.items|), v.items)
  }

  predicate HaveTypes(ds: seq<Descriptor>, vs: seq<Value>)
    decreases vs, 0
  {
    |ds| == |vs| && (vs != [] ==> HasType(ds[0], vs[0]) && HaveTypes(ds[1..], vs[1..]))
  }

  // ----- the encoding

  function Wire(p: Padding, d: Descriptor, v: Value): Bytes
    requires HasType(d, v)
    decreases v, 1
  {
    match d
    case Void => []
    case Scalar(k) => ScalarWire(k, v.n)
    case Opaque(_) => Padded(p, v.bytes)
    case VarOpaque => CastWord(|v.bytes|) + Padded(p, v.bytes)
    case CString => CastWord(|UpToNul(v.chars)|) + Padded(p, UpToNul(v.chars))
    case Union(arms) => CastWord(v.discr) + Wire(p, arms[v.discr], v.value)
    case VarArray(_) => CastWord(|v.items|) + WireAll(p, Parts(d, |v.items|), v.items)
    case _ => WireAll(p, Parts(d, |v.items|), v.items)
  }

  function WireAll(p: Padding, ds: seq<Descriptor>, vs: seq<Value>): Bytes
    requires HaveTypes(ds, vs)
    decreases vs, 0
  {
    if vs == [] then [] else Wire(p, ds[0], vs[0]) + WireAll(p, ds[1..], vs[1..])
  }

  /** Every count the code writes as a uint32_t fits one. */
  predicate CountsFit(d: Descriptor, v: Value)
    requires HasType(d, v)
    decreases v, 1
  {
    match d
    case VarOpaque => |v.bytes| <= UINT32_MAX
    case CString => |UpToNul(v.chars)| <= UINT32_MAX
    case Union(arms) => CountsFit(arms[v.discr], v.value)
    case VarArray(_) => |v.items| <= UINT32_MAX && AllCountsFit(Parts(d, |v.items|), v.items)
    case Array(_, _) => AllCountsFit(Parts(d, |v.items|), v.items)
    case Struct(_) => AllCountsFit(Parts(d, |v.items|), v.items)
    case _ => true
  }

  predicate AllCountsFit(ds: seq<Descriptor>, vs: seq<Value>)
    requires HaveTypes(ds, vs)
    decreases vs, 0
  {
    vs != [] ==> CountsFit(ds[0], vs[0]) && AllCountsFit(ds[1..], vs[1..])
  }

  /**
   With `extra` bytes of the stream after the encoding of v, no variable array in it has more
   elements than there are bytes after its count. Both sides of the codec check this.
   */
  predicate Room(p: Padding, d: Descriptor, v: Value, extra: nat)
    requires HasType(d, v)
    decreases v, 1
  {
    match d
    case Union(arms) => Room(p, arms[v.discr], v.value, extra)
    case VarArray(_) =>
      var ds := Parts(d, |v.items|);
      |v.items| <= |WireAll(p, ds, v.items)| + extra && AllRoom(p, ds, v.items, extra)
    case Array(_, _) => AllRoom(p, Parts(d, |v.items|), v.items, extra)
    case Struct(_) => AllRoom(p, Parts(d, |v.items|), v.items, extra)
    case _ => true
  }

  predicate AllRoom(p: Padding, ds: seq<Descriptor>, vs: seq<Value>, extra: nat)
    requires HaveTypes(ds, vs)
    decreases vs, 0
  {
    vs != [] ==>
      && Room(p, ds[0], vs[0], |WireAll(p, ds[1..], vs[1..])| + extra)
      && AllRoom(p, ds[1..], vs[1..], extra)
  }

  // ----- the encoder

  /** The bytes an encoder put on the stream, and what it returned. */
  datatype Written = Written(bytes: Bytes, status: Status)

  /** tn_xdr_write_to_stream with `space` bytes left. */
  function Put(b: Bytes, space: nat): Written {
    if space < |b| then Written([], NoSpace) else Written(b, Ok)
  }

  function Then(first: Written, second: Written): Written {
    if first.status == Ok then Written(first.bytes + second.bytes, second.status) else first
  }

  /** What is left of `space`; only asked for after a write that fitted. */
  function Left(space: nat, w: Written): nat {
    if |w.bytes| <= space then space - |w.bytes| else 0
  }

  /** Two words, of which the first is on the stream even when the second no longer fits. */
  function PutHalves(high: int, low: nat, space: nat): Written
  {
    var first := Put(CastWord(high), space);
    Then(first, Put(CastWord(low), Left(space, first)))
  }

  function PutHyper(n: int, space: nat): Written {
    PutHalves(High(n), Low(n), space)
  }

  function PutScalar(k: Kind, n: int, space: nat): Written {
    if Wide(k) then PutHyper(n, space) else Put(CastWord(n), space)
  }

  /** tn_xdr_encode_length: the count must fit a word, and that many bytes must fit after it. */
  function PutLength(len: nat, space: nat): Written {
    if len > UINT32_MAX then Written([], Overflow)
    else if space < len + 4 then Written([], NoSpace)
    else Put(CastWord(len), space)
  }

  function PutBytes(p: Padding, b: Bytes, space: nat): Written {
    var data := Put(b, space);
    Then(data, Put(Zeros(PadCount(p, |b|)), Left(space, data)))
  }

  function PutVarBytes(p: Padding, b: Bytes, space: nat): Written {
    var len := PutLength(|b|, space);
    Then(len, PutBytes(p, b, Left(space, len)))
  }

  function Encode(p: Padding, d: Descriptor, v: Value, space: nat): Written
    requires HasType(d, v)
    decreases v, 1
  {
    match d
    case Void => Written([], Ok)
    case Scalar(k) => PutScalar(k, v.n, space)
    case Opaque(_) => PutBytes(p, v.bytes, space)
    case VarOpaque => PutVarBytes(p, v.bytes, space)
    case CString => PutVarBytes(p, UpToNul(v.chars), space)
    case Union(arms) =>
      var discr := Put(CastWord(v.discr), space);
      Then(discr, Encode(p, arms[v.discr], v.value, Left(space, discr)))
    case VarArray(_) =>
      var len := PutLength(|v.items|, space);
      Then(len, EncodeAll(p, Parts(d, |v.items|), v.items, Left(space, len)))
    case _ => EncodeAll(p, Parts(d, |v.items|), v.items, space)
  }

  function EncodeAll(p: Padding, ds: seq<Descriptor>, vs: seq<Value>, space: nat): Written
    requires HaveTypes(ds, vs)
    decreases vs, 0
  {
    if vs == [] then Written([], Ok)
    else
      var first := Encode(p, ds[0], vs[0], space);
      Then(first, EncodeAll(p, ds[1..], vs[1..], Left(space, first)))
  }

  // ----- the decoder

  /** A decoded value, or the status returned; either way the bytes taken off the stream. */
  datatype Read<+T> = Got(value: T, used: nat) | Failed(status: Status, used: nat)

  function Shift<T>(r: Read<T>, n: nat): Read<T> {
    if r.Got? then Got(r.value, r.used + n) else Failed(r.status, r.used + n)
  }

  /** tn_xdr_read_from_stream with b left on the stream. */
  function Take(n: nat, b: Bytes): (r: Read<Bytes>)
    ensures r.used <= |b| && (r.Failed? ==> r.status != Ok)
  {
    if |b| < n then Failed(NoMessage, 0) else Got(b[..n], n)
  }

  function TakeWord(signed: bool, b: Bytes): (r: Read<int>)
    ensures r.used <= |b| && (r.Failed? ==> r.status != Ok)
    ensures r.Got? && !signed ==> 0 <= r.value < TWO_32
  {
    if |b| < 4 then Failed(NoMessage, 0) else Got(FromWord(signed, Unword(b[..4])), 4)
  }

  /** The range test of the small-value decoders; the wider ones cannot fail it. */
  function InRange(k: Kind, n: int, used: nat): Read<Value> {
    if n < Min(k) || n > Max(k) then Failed(Overflow, used) else Got(Number(n), used)
  }

  /** Two words joined into a 64-bit number. */
  function TakeHyper(signed: bool, b: Bytes): (r: Read<int>)
    ensures r.used <= |b| && (r.Failed? ==> r.status != Ok)
  {
    match TakeWord(signed, b)
    case Failed(s, u) => Failed(s, u)
    case Got(high, _) =>
      match TakeWord(false, b[4..])
      case Failed(s, u) => Failed(s, 4 + u)
      case Got(low, _) => Got(JoinHalves(high, low), 8)
  }

  function TakeScalar(k: Kind, b: Bytes): (r: Read<Value>)
    ensures r.used <= |b| && (r.Failed? ==> r.status != Ok)
  {
    match if Wide(k) then TakeHyper(Signed(k), b) else TakeWord(Signed(k), b)
    case Failed(s, u) => Failed(s, u)
    case Got(n, u) => if Wide(k) then Got(Number(n), u) else InRange(k, n, u)
  }

  /** tn_xdr_decode_length: no count above the bytes left is accepted. */
  function TakeLength(b: Bytes): (r: Read<nat>)
    ensures r.used <= |b| && (r.Failed? ==> r.status != Ok)
    ensures r.Got? ==> r.used == 4 && r.value <= |b| - 4 && r.value <= UINT32_MAX
  {
    match TakeWord(false, b)
    case Failed(s, u) => Failed(s, u)
    case Got(n, _) => if |b| - 4 < n then Failed(Protocol, 4) else Got(n, 4)
  }

  function TakeBytes(p: Padding, n: nat, b: Bytes): (r: Read<Bytes>)
    ensures r.used <= |b| && (r.Failed? ==> r.status != Ok)
    ensures r.Got? ==> |r.value| == n
  {
    var pad := PadCount(p, n);
    if |b| < n then Failed(NoMessage, 0)
    else if |b| < n + pad then Failed(NoMessage, n)
    else if b[n..n + pad] != Zeros(pad) then Failed(Protocol, n + pad)
    else Got(b[..n], n + pad)
  }

  function TakeVarBytes(p: Padding, b: Bytes): (r: Read<Bytes>)
    ensures r.used <= |b| && (r.Failed? ==> r.status != Ok)
  {
    match TakeLength(b)
    case Failed(s, u) => Failed(s, u)
    case Got(n, _) => Shift(TakeBytes(p, n, b[4..]), 4)
  }

  /** The nesting depth, by which decoding ends. */
  function Height(d: Descriptor): nat {
    match d
    case Array(e, _) => 1 + Height(e)
    case VarArray(e) => 1 + Height(e)
    case Struct(fields) => 1 + MaxHeight(fields)
    case Union(arms) => 1 + MaxHeight(arms)
    case _ => 0
  }

  function MaxHeight(ds: seq<Descriptor>): (r: nat)
    ensures forall i :: 0 <= i < |ds| ==> Height(ds[i]) <= r
  {
    if ds == [] then 0
    else
      var rest := MaxHeight(ds[1..]);
      assert forall i :: 0 < i < |ds| ==> ds[i] == ds[1..][i - 1];
      if Height(ds[0]) > rest then Height(ds[0]) else rest
  }

  lemma {:induction false} MaxHeightOfRepeat(d: Descriptor, n: nat)
    ensures MaxHeight(Repeat(d, n)) <= Height(d)
    decreases n
  {
    if n > 0 {
      MaxHeightOfRepeat(d, n - 1);
      assert Repeat(d, n)[1..] == Repeat(d, n - 1);
    }
  }

  lemma PartsAreLower(d: Descriptor, count: nat)
    requires d.Array? || d.VarArray? || d.Struct?
    ensures MaxHeight(Parts(d, count)) < Height(d)
  {
    if d.Array? {
      MaxHeightOfRepeat(d.elt, d.len);
    } else if d.VarArray? {
      MaxHeightOfRepeat(d.elt, count);
    }
  }

  function Decode(p: Padding, d: Descriptor, b: Bytes): (r: Read<Value>)
    ensures r.used <= |b| && (r.Failed? ==> r.status != Ok)
    decreases Height(d), 0, 0
  {
    match d
    case Void => Got(Nothing, 0)
    case Scalar(k) => TakeScalar(k, b)
    case Opaque(n) => AsBlob(TakeBytes(p, n, b))
    case VarOpaque => AsBlob(TakeVarBytes(p, b))
    case CString => AsText(TakeVarBytes(p, b))
    case Union(arms) =>
      (match TakeWord(false, b)
       case Failed(s, u) => Failed(s, u)
       case Got(n, _) =>
         if n >= |arms| then Failed(Protocol, 4) else AsArm(n, Shift(Decode(p, arms[n], b[4..]), 4)))
    case VarArray(_) =>
      (match TakeLength(b)
       case Failed(s, u) => Failed(s, u)
       case Got(n, _) =>
         PartsAreLower(d, n);
         AsMany(Shift(DecodeAll(p, Parts(d, n), b[4..]), 4)))
    case _ =>
      PartsAreLower(d, 0);
      AsMany(DecodeAll(p, Parts(d, 0), b))
  }

  function DecodeAll(p: Padding, ds: seq<Descriptor>, b: Bytes): (r: Read<seq<Value>>)
    ensures r.used <= |b| && (r.Failed? ==> r.status != Ok)
    ensures r.Got? ==> |r.value| == |ds|
    decreases MaxHeight(ds), 1, |ds|
  {
    if ds == [] then Got([], 0)
    else
      match Decode(p, ds[0], b)
      case Failed(s, u) => Failed(s, u)
      case Got(v, u) => Prepend(v, Shift(DecodeAll(p, ds[1..], b[u..]), u))
  }

  function AsBlob(r: Read<Bytes>): Read<Value> {
    match r case Failed(s, u) => Failed(s, u) case Got(b, u) => Got(Blob(b), u)
  }

  function AsText(r: Read<Bytes>): Read<Value> {
    match r case Failed(s, u) => Failed(s, u) case Got(b, u) => Got(Text(b), u)
  }

  function AsMany(r: Read<seq<Value>>): Read<Value> {
    match r case Failed(s, u) => Failed(s, u) case Got(vs, u) => Got(Many(vs), u)
  }

  function AsArm(discr: nat, r: Read<Value>): Read<Value> {
    match r case Failed(s, u) => Failed(s, u) case Got(v, u) => Got(Arm(discr, v), u)
  }

  function Prepend(v: Value, r: Read<seq<Value>>): Read<seq<Value>> {
    match r case Failed(s, u) => Failed(s, u) case Got(vs, u) => Got([v] + vs, u)
  }
}
