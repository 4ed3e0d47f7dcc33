/**
 The format in literal bytes, ranges and statuses: where each byte of an encoding stands, what
 every word decodes to, and which status every refusal has.
 */
module XdrLayout {
  import opened Basics
  import opened XdrWords
  import opened XdrFormat
  import opened XdrEncoding
  import opened XdrRoundTrip

  /** Four bytes, the most significant one first, as section 4.2 of RFC 4506 has them. */
  function FourBytes(b: Bytes): nat
    requires |b| >= 4
  {
    b[0] as nat * 0x100_0000 + b[1] as nat * 0x1_0000 + b[2] as nat * 0x100 + b[3]
  }

  /** The same in two's complement. */
  function SignedFour(b: Bytes): int
    requires |b| >= 4
  {
    if b[0] < 0x80 then FourBytes(b) else FourBytes(b) - 0x1_0000_0000
  }

  function EightBytes(b: Bytes): nat
    requires |b| >= 8
  {
    FourBytes(b) * 0x1_0000_0000 + FourBytes(b[4..])
  }

  function SignedEight(b: Bytes): int
    requires |b| >= 8
  {
    if b[0] < 0x80 then EightBytes(b) else EightBytes(b) - 0x1_0000_0000_0000_0000
  }

  // ----- scalars

  /** A number if it lies in the range of the C type, EOVERFLOW with the word consumed if not. */
  function Ranged(n: int, min: int, max: int): Read<Value> {
    if min <= n <= max then Got(Number(n), 4) else Failed(Overflow, 4)
  }

  lemma FourIsUnword(b: Bytes)
    requires |b| >= 4
    ensures Unword(b[..4]) == FourBytes(b) && (FourBytes(b) >= 0x8000_0000 <==> b[0] >= 0x80)
  {
  }

  lemma TakeWordIs(b: Bytes)
    requires |b| >= 4
    ensures TakeWord(true, b) == Got(SignedFour(b), 4) && TakeWord(false, b) == Got(FourBytes(b), 4)
    ensures -0x8000_0000 <= SignedFour(b) <= 0x7fff_ffff && FourBytes(b) <= 0xffff_ffff
  {
    FourIsUnword(b);
  }

  /** Every four bytes decode as a 32-bit type. */
  lemma WordDecodes(p: Padding, b: Bytes)
    requires |b| >= 4
    ensures Decode(p, Scalar(Int32), b) == Got(Number(SignedFour(b)), 4)
    ensures Decode(p, Scalar(UInt32), b) == Got(Number(FourBytes(b)), 4)
    ensures Decode(p, Scalar(Float), b) == Got(Number(FourBytes(b)), 4)
  {
    TakeWordIs(b);
  }

  /** They decode as a smaller type exactly when the number is in its range. */
  lemma SmallDecodes(p: Padding, b: Bytes)
    requires |b| >= 4
    ensures Decode(p, Scalar(Bool), b) == Ranged(SignedFour(b), 0, 1)
    ensures Decode(p, Scalar(Int8), b) == Ranged(SignedFour(b), -128, 127)
    ensures Decode(p, Scalar(Int16), b) == Ranged(SignedFour(b), -32768, 32767)
  {
    TakeWordIs(b);
  }

  lemma SmallUnsignedDecodes(p: Padding, b: Bytes)
    requires |b| >= 4
    ensures Decode(p, Scalar(UInt8), b) == Ranged(FourBytes(b), 0, 255)
    ensures Decode(p, Scalar(UInt16), b) == Ranged(FourBytes(b), 0, 65535)
  {
    TakeWordIs(b);
  }

  /** Every eight bytes decode as a 64-bit type. */
  lemma HyperDecodes(p: Padding, b: Bytes)
    requires |b| >= 8
    ensures Decode(p, Scalar(Int64), b) == Got(Number(SignedEight(b)), 8)
    ensures Decode(p, Scalar(UInt64), b) == Got(Number(EightBytes(b)), 8)
    ensures Decode(p, Scalar(Double), b) == Got(Number(EightBytes(b)), 8)
  {
    TakeWordIs(b);
    TakeWordIs(b[4..]);
  }

  /** Too few bytes: ENOMSG, and of eight the first four are gone if they were there. */
  lemma ShortScalars(p: Padding, k: Kind, b: Bytes)
    ensures |b| < 4 ==> Decode(p, Scalar(k), b) == Failed(NoMessage, 0)
    ensures 4 <= |b| < 8 && k in {Int64, UInt64, Double} ==> Decode(p, Scalar(k), b) == Failed(NoMessage, 4)
  {
  }

  /** The range of each C type; Float and Double are bit patterns. */
  lemma ScalarTypes(n: int)
    ensures HasType(Scalar(Int32), Number(n)) <==> -0x8000_0000 <= n <= 0x7fff_ffff
    ensures HasType(Scalar(UInt32), Number(n)) <==> 0 <= n <= 0xffff_ffff
    ensures HasType(Scalar(Float), Number(n)) <==> 0 <= n <= 0xffff_ffff
    ensures HasType(Scalar(Int64), Number(n)) <==> -0x8000_0000_0000_0000 <= n <= 0x7fff_ffff_ffff_ffff
    ensures HasType(Scalar(UInt64), Number(n)) <==> 0 <= n <= 0xffff_ffff_ffff_ffff
    ensures HasType(Scalar(Double), Number(n)) <==> 0 <= n <= 0xffff_ffff_ffff_ffff
    ensures HasType(Scalar(Bool), Number(n)) <==> 0 <= n <= 1
    ensures HasType(Scalar(Int8), Number(n)) <==> -128 <= n <= 127
    ensures HasType(Scalar(UInt8), Number(n)) <==> 0 <= n <= 255
    ensures HasType(Scalar(Int16), Number(n)) <==> -32768 <= n <= 32767
    ensures HasType(Scalar(UInt16), Number(n)) <==> 0 <= n <= 65535
  {
  }

  // ----- composite types

  lemma {:induction false} HaveTypesIff(ds: seq<Descriptor>, vs: seq<Value>)
    ensures HaveTypes(ds, vs) <==> |ds| == |vs| && forall i :: 0 <= i < |ds| ==> HasType(ds[i], vs[i])
    decreases vs
  {
    if |ds| == |vs| > 0 {
      HaveTypesIff(ds[1..], vs[1..]);
      assert forall i :: 0 < i < |ds| ==> ds[i] == ds[1..][i - 1] && vs[i] == vs[1..][i - 1];
    }
  }

  /** What a value of a composite type is: as many items as there should be, each of its own type. */
  lemma CompositeTypes(e: Descriptor, n: nat, fields: seq<Descriptor>, v: Value)
    ensures HasType(Array(e, n), v) <==>
              v.Many? && |v.items| == n && forall i :: 0 <= i < n ==> HasType(e, v.items[i])
    ensures HasType(VarArray(e), v) <==> v.Many? && forall i :: 0 <= i < |v.items| ==> HasType(e, v.items[i])
    ensures HasType(Struct(fields), v) <==>
              v.Many? && |v.items| == |fields| && forall i :: 0 <= i < |fields| ==> HasType(fields[i], v.items[i])
    ensures HasType(Union(fields), v) <==>
              v.Arm? && v.discr < |fields| && v.discr < 0x1_0000_0000 && HasType(fields[v.discr], v.value)
  {
    if v.Many? {
      HaveTypesIff(Repeat(e, n), v.items);
      HaveTypesIff(Repeat(e, |v.items|), v.items);
      HaveTypesIff(fields, v.items);
    }
  }

  /** Which shapes are Substantial: what counts is the elements of variable arrays, anywhere in the shape. */
  lemma SubstantialShapes(e: Descriptor, n: nat, fields: seq<Descriptor>, k: Kind)
    ensures Substantial(VarArray(e)) <==> Substantial(e) && !Empty(e)
    ensures Substantial(Array(e, n)) <==> Substantial(e)
    ensures Substantial(Struct(fields)) <==> forall i :: 0 <= i < |fields| ==> Substantial(fields[i])
    ensures Substantial(Union(fields)) <==> forall i :: 0 <= i < |fields| ==> Substantial(fields[i])
    ensures Substantial(Void) && Substantial(Scalar(k)) && Substantial(Opaque(n))
    ensures Substantial(VarOpaque) && Substantial(CString)
  {
  }

  // ----- layouts

  /** The four bytes of a number. */
  function WordBytes(n: nat): Bytes {
    [n / 0x100_0000 % 256, n / 0x1_0000 % 256, n / 0x100 % 256, n % 256]
  }

  lemma CastIsWordBytes(n: nat)
    requires n < 0x1_0000_0000
    ensures CastWord(n) == WordBytes(n)
  {
  }

  /** How many zeros follow n bytes: what the code puts there, and what RFC 4506 asks for. */
  function ZerosAfter(p: Padding, n: nat): nat {
    match p
    case AsWritten => n % 4
    case Rfc4506 => if n % 4 == 0 then 0 else 4 - n % 4
  }

  lemma PaddedIs(p: Padding, b: Bytes)
    ensures Padded(p, b) == b + seq(ZerosAfter(p, |b|), _ => 0)
  {
    assert PadCount(p, |b|) == ZerosAfter(p, |b|);
  }

  lemma ByteFieldLayout(p: Padding, b: Bytes)
    ensures HasType(Opaque(|b|), Blob(b)) && HasType(VarOpaque, Blob(b))
    ensures Wire(p, Opaque(|b|), Blob(b)) == b + seq(ZerosAfter(p, |b|), _ => 0)
    ensures |b| < 0x1_0000_0000 ==>
              Wire(p, VarOpaque, Blob(b)) == WordBytes(|b|) + (b + seq(ZerosAfter(p, |b|), _ => 0))
  {
    PaddedIs(p, b);
    if |b| < 0x1_0000_0000 {
      CastIsWordBytes(|b|);
    }
  }

  /** A C string is what stands before its first NUL, or all of its buffer when there is none. */
  lemma CStringLayout(p: Padding, chars: Bytes, n: nat)
    requires n <= |chars| && n < 0x1_0000_0000 && 0 !in chars[..n] && (n < |chars| ==> chars[n] == 0)
    ensures HasType(CString, Text(chars))
    ensures Wire(p, CString, Text(chars)) == WordBytes(n) + (chars[..n] + seq(ZerosAfter(p, n), _ => 0))
  {
    StrLenIs(chars, n);
    PaddedIs(p, chars[..n]);
    CastIsWordBytes(n);
  }

  lemma StrLenIs(chars: Bytes, n: nat)
    requires n <= |chars| && 0 !in chars[..n] && (n < |chars| ==> chars[n] == 0)
    ensures UpToNul(chars) == chars[..n]
  {
    var r := UpToNul(chars);
    forall i | 0 <= i < n ensures chars[i] != 0 {
      assert chars[i] == chars[..n][i];
    }
    forall i | 0 <= i < |r| ensures chars[i] != 0 {
      assert chars[i] == r[i];
    }
  }

  /** Reading a C string takes all its bytes, those behind a NUL too. */
  lemma CStringReadsAll(p: Padding, s: Bytes, b: Bytes)
    requires |s| < 0x1_0000_0000 && WordBytes(|s|) + (s + seq(ZerosAfter(p, |s|), _ => 0)) <= b
    ensures Decode(p, CString, b) == Got(Text(s), 4 + |s| + ZerosAfter(p, |s|))
  {
    CastIsWordBytes(|s|);
    PaddedIs(p, s);
    VarBytesRoundTrip(p, s, b);
  }

  /** A discriminant, and the arm it names. */
  lemma UnionLayout(p: Padding, arms: seq<Descriptor>, i: nat, v: Value)
    requires i < |arms| && i < 0x1_0000_0000 && HasType(arms[i], v)
    ensures HasType(Union(arms), Arm(i, v)) && Wire(p, Union(arms), Arm(i, v)) == WordBytes(i) + Wire(p, arms[i], v)
  {
    CastIsWordBytes(i);
  }

  /** The elements of an array, after their count if it is a variable one. */
  lemma ArrayLayout(p: Padding, e: Descriptor, items: seq<Value>)
    requires |items| < 0x1_0000_0000 && HaveTypes(Repeat(e, |items|), items)
    ensures HasType(Array(e, |items|), Many(items)) && HasType(VarArray(e), Many(items))
    ensures Wire(p, Array(e, |items|), Many(items)) == WireAll(p, Repeat(e, |items|), items)
    ensures Wire(p, VarArray(e), Many(items)) == WordBytes(|items|) + WireAll(p, Repeat(e, |items|), items)
  {
    CastIsWordBytes(|items|);
  }

  lemma StructLayout(p: Padding, fields: seq<Descriptor>, items: seq<Value>)
    requires HaveTypes(fields, items)
    ensures HasType(Struct(fields), Many(items)) && Wire(p, Struct(fields), Many(items)) == WireAll(p, fields, items)
  {
  }

  /** The items of an array or a structure stand one after the other, in order. */
  lemma {:induction false} ItemsInOrder(p: Padding, ds1: seq<Descriptor>, vs1: seq<Value>, ds2: seq<Descriptor>,
                                        vs2: seq<Value>)
    requires HaveTypes(ds1, vs1) && HaveTypes(ds2, vs2)
    ensures HaveTypes(ds1 + ds2, vs1 + vs2)
    ensures WireAll(p, ds1 + ds2, vs1 + vs2) == WireAll(p, ds1, vs1) + WireAll(p, ds2, vs2)
    decreases vs1
  {
    if vs1 == [] {
      assert ds1 + ds2 == ds2 && vs1 + vs2 == vs2;
    } else {
      ItemsInOrder(p, ds1[1..], vs1[1..], ds2, vs2);
      assert ds1 + ds2 == [ds1[0]] + (ds1[1..] + ds2) && vs1 + vs2 == [vs1[0]] + (vs1[1..] + vs2);
      FirstAndRest(p, ds1[0], vs1[0], ds1[1..] + ds2, vs1[1..] + vs2, ds1 + ds2, vs1 + vs2);
      Regroup(Wire(p, ds1[0], vs1[0]), WireAll(p, ds1[1..], vs1[1..]), WireAll(p, ds2, vs2));
    }
  }

  lemma Regroup(a: Bytes, b: Bytes, c: Bytes)
    ensures a + (b + c) == (a + b) + c
  {
  }

  lemma OneItem(p: Padding, d: Descriptor, v: Value)
    requires HasType(d, v)
    ensures HaveTypes([d], [v]) && WireAll(p, [d], [v]) == Wire(p, d, v)
  {
    FirstAndRest(p, d, v, [], [], [d], [v]);
    assert Wire(p, d, v) + [] == Wire(p, d, v);
  }

  // ----- refusals

  /** Writing is all or nothing; reading too. */
  lemma PlainRefusals(b: Bytes, n: nat, space: nat)
    ensures Put(b, space) == if |b| <= space then Written(b, Ok) else Written([], NoSpace)
    ensures Take(n, b) == if n <= |b| then Got(b[..n], n) else Failed(NoMessage, 0)
  {
  }

  /**
   A count is refused before it is written, with EOVERFLOW above 32 bits and ENOSPC without that
   many bytes after it.
   */
  lemma CountRefusals(n: nat, space: nat)
    ensures n >= 0x1_0000_0000 ==> PutLength(n, space) == Written([], Overflow)
    ensures n < 0x1_0000_0000 && space < n + 4 ==> PutLength(n, space) == Written([], NoSpace)
    ensures n < 0x1_0000_0000 && n + 4 <= space ==> PutLength(n, space) == Written(WordBytes(n), Ok)
  {
    if n < 0x1_0000_0000 {
      CastIsWordBytes(n);
    }
  }

  /** Only the first half of what is written in two parts may be left behind. */
  lemma HalfRefusals(p: Padding, n: int, b: Bytes, space: nat)
    ensures space < 4 ==> PutHyper(n, space) == Written([], NoSpace)
    ensures 4 <= space < 8 ==> PutHyper(n, space) == Written(HyperWire(n)[..4], NoSpace)
    ensures 8 <= space ==> PutHyper(n, space) == Written(HyperWire(n), Ok)
    ensures space < |b| ==> PutBytes(p, b, space) == Written([], NoSpace)
    ensures |b| <= space < |b| + ZerosAfter(p, |b|) ==> PutBytes(p, b, space) == Written(b, NoSpace)
    ensures |b| + ZerosAfter(p, |b|) <= space ==>
              PutBytes(p, b, space) == Written(b + seq(ZerosAfter(p, |b|), _ => 0), Ok)
  {
    PaddedIs(p, b);
    assert b + [] == b;
    assert HyperWire(n)[..4] == CastWord(High(n)) == CastWord(High(n)) + [];
  }

  /** A count that is read: ENOMSG without four bytes, EPROTO with fewer bytes behind it than it says. */
  lemma ReadCount(b: Bytes)
    ensures |b| < 4 ==> TakeLength(b) == Failed(NoMessage, 0)
    ensures |b| >= 4 ==>
              TakeLength(b) == if FourBytes(b) <= |b| - 4 then Got(FourBytes(b), 4) else Failed(Protocol, 4)
  {
    if |b| >= 4 {
      FourIsUnword(b);
    }
  }

  /** A byte field that is read: ENOMSG without the bytes or the padding, EPROTO if a padding byte is not zero. */
  lemma ReadBytes(p: Padding, n: nat, b: Bytes)
    ensures var pad := ZerosAfter(p, n);
            TakeBytes(p, n, b) == (
              if |b| < n then Failed(NoMessage, 0)
              else if |b| < n + pad then Failed(NoMessage, n)
              else if exists i :: n <= i < n + pad && b[i] != 0 then Failed(Protocol, n + pad)
              else Got(b[..n], n + pad))
  {
    var pad := ZerosAfter(p, n);
    assert PadCount(p, n) == pad;
    if n + pad <= |b| {
      var rest := b[n..n + pad];
      assert forall i :: n <= i < n + pad ==> b[i] == rest[i - n];
      if rest != Zeros(pad) {
        var j :| 0 <= j < pad && rest[j] != 0;
        assert b[n + j] != 0;
      }
    }
  }

  /** A discriminant that is read: ENOMSG without four bytes, EPROTO if it names no arm. */
  lemma ReadDiscriminant(p: Padding, arms: seq<Descriptor>, b: Bytes)
    ensures |b| < 4 ==> Decode(p, Union(arms), b) == Failed(NoMessage, 0)
    ensures |b| >= 4 && FourBytes(b) >= |arms| ==> Decode(p, Union(arms), b) == Failed(Protocol, 4)
    ensures |b| >= 4 && FourBytes(b) < |arms| && Decode(p, arms[FourBytes(b)], b[4..]).Got? ==>
              var r := Decode(p, arms[FourBytes(b)], b[4..]);
              Decode(p, Union(arms), b) == Got(Arm(FourBytes(b), r.value), 4 + r.used)
    ensures |b| >= 4 && FourBytes(b) < |arms| && Decode(p, arms[FourBytes(b)], b[4..]).Failed? ==>
              var r := Decode(p, arms[FourBytes(b)], b[4..]);
              Decode(p, Union(arms), b) == Failed(r.status, 4 + r.used)
  {
    if |b| >= 4 {
      FourIsUnword(b);
    }
  }

  // ----- items stop at the first refusal

  /** Reading items: the first one that is refused ends it, with its status and with what it consumed. */
  lemma ReadItems(p: Padding, d: Descriptor, ds: seq<Descriptor>, b: Bytes)
    ensures DecodeAll(p, [], b) == Got([], 0)
    ensures var first := Decode(p, d, b);
            var rest := DecodeAll(p, ds, b[first.used..]);
            DecodeAll(p, [d] + ds, b) == (
              if first.Failed? then Failed(first.status, first.used)
              else if rest.Failed? then Failed(rest.status, first.used + rest.used)
              else Got([first.value] + rest.value, first.used + rest.used))
  {
    assert ([d] + ds)[1..] == ds;
  }

  /** Arrays and structures are read as their items. */
  lemma ReadComposite(p: Padding, e: Descriptor, n: nat, fields: seq<Descriptor>, b: Bytes)
    ensures Decode(p, Array(e, n), b) == ReadMany(DecodeAll(p, Repeat(e, n), b), 0)
    ensures Decode(p, Struct(fields), b) == ReadMany(DecodeAll(p, fields, b), 0)
  {
  }

  /** A variable array is read as its items, behind its count. */
  lemma ReadVarArray(p: Padding, e: Descriptor, b: Bytes)
    ensures var len := TakeLength(b);
            Decode(p, VarArray(e), b) == if len.Failed? then Failed(len.status, len.used)
                                         else ReadMany(DecodeAll(p, Repeat(e, len.value), b[4..]), 4)
  {
  }

  /** Items that were read behind `before` other bytes. */
  function ReadMany(r: Read<seq<Value>>, before: nat): Read<Value> {
    match r
    case Failed(s, u) => Failed(s, before + u)
    case Got(vs, u) => Got(Many(vs), before + u)
  }

  /** Writing items: the first one that is refused ends it, with its status and with what it left. */
  lemma WriteItems(p: Padding, d: Descriptor, v: Value, ds: seq<Descriptor>, vs: seq<Value>, space: nat)
    requires HasType(d, v) && HaveTypes(ds, vs) && HaveTypes([d] + ds, [v] + vs)
    ensures var first := Encode(p, d, v, space);
            var rest := EncodeAll(p, ds, vs, if |first.bytes| <= space then space - |first.bytes| else 0);
            EncodeAll(p, [d] + ds, [v] + vs, space) == (
              if first.status != Ok then first else Written(first.bytes + rest.bytes, rest.status))
  {
    assert ([d] + ds)[1..] == ds && ([v] + vs)[1..] == vs;
  }

  // ----- which of the two refusals an encoder returns

  /** How many items there are in v, at all depths. */
  function Items(v: Value): nat {
    match v
    case Many(items) => |items| + AllItems(items)
    case Arm(_, w) => Items(w)
    case _ => 0
  }

  function AllItems(vs: seq<Value>): nat {
    if vs == [] then 0 else Items(vs[0]) + AllItems(vs[1..])
  }

  /** ENOSPC only below `need` bytes of space, EOVERFLOW only when a count is too large. */
  predicate Refused(w: Written, need: nat, space: nat, counts: bool) {
    (w.status == NoSpace ==> space < need) && (w.status == Overflow ==> !counts)
  }

  lemma ThenRefused(w1: Written, size1: nat, need1: nat, counts1: bool, w2: Written, need2: nat, counts2: bool,
                    space: nat, need: nat, counts: bool)
    requires Refused(w1, need1, space, counts1) && (w1.status == Ok ==> |w1.bytes| == size1 <= space)
    requires w1.status == Ok ==> Refused(w2, need2, Left(space, w1), counts2)
    requires need1 <= need && size1 + need2 <= need && (counts ==> counts1 && counts2)
    ensures Refused(Then(w1, w2), need, space, counts)
  {
  }

  lemma CountRefused(n: nat, space: nat)
    ensures var w := PutLength(n, space);
            Refused(w, n + 4, space, n < 0x1_0000_0000) && (w.status == Ok ==> |w.bytes| == 4 <= space)
  {
  }

  lemma VarBytesRefused(p: Padding, b: Bytes, space: nat)
    ensures Refused(PutVarBytes(p, b, space), 4 + |Padded(p, b)|, space, |b| < 0x1_0000_0000)
  {
    var len := PutLength(|b|, space);
    CountRefused(|b|, space);
    PutBytesMeets(p, b, Left(space, len));
    ThenRefused(len, 4, |b| + 4, |b| < 0x1_0000_0000, PutBytes(p, b, Left(space, len)), |Padded(p, b)|, true,
                space, 4 + |Padded(p, b)|, |b| < 0x1_0000_0000);
  }

  lemma LeafRefused(p: Padding, d: Descriptor, v: Value, space: nat)
    requires HasType(d, v) && Leaf(d)
    ensures Refused(Encode(p, d, v, space), |Wire(p, d, v)|, space, CountsFit(d, v))
  {
    match d
    case Void =>
    case Scalar(k) => PutScalarMeets(k, v.n, space);
    case Opaque(_) => PutBytesMeets(p, v.bytes, space);
    case VarOpaque => VarBytesRefused(p, v.bytes, space);
    case CString => VarBytesRefused(p, UpToNul(v.chars), space);
  }

  lemma {:induction false} EncodeRefused(p: Padding, d: Descriptor, v: Value, space: nat)
    requires HasType(d, v)
    ensures Refused(Encode(p, d, v, space), |Wire(p, d, v)| + Items(v), space, CountsFit(d, v))
    decreases v, 1
  {
    match d
    case Union(_) => UnionRefused(p, d, v, space);
    case VarArray(_) => VarArrayRefused(p, d, v, space);
    case Array(_, _) => AllRefused(p, Parts(d, |v.items|), v.items, space);
    case Struct(_) => AllRefused(p, Parts(d, |v.items|), v.items, space);
    case _ => LeafRefused(p, d, v, space);
  }

  lemma {:induction false} UnionRefused(p: Padding, d: Descriptor, v: Value, space: nat)
    requires HasType(d, v) && d.Union?
    ensures Refused(Encode(p, d, v, space), |Wire(p, d, v)| + Items(v), space, CountsFit(d, v))
    decreases v, 0
  {
    var arm := d.arms[v.discr];
    var discr := Put(CastWord(v.discr), space);
    EncodeRefused(p, arm, v.value, Left(space, discr));
    ThenRefused(discr, 4, 4, true, Encode(p, arm, v.value, Left(space, discr)),
                |Wire(p, arm, v.value)| + Items(v.value), CountsFit(arm, v.value),
                space, |Wire(p, d, v)| + Items(v), CountsFit(d, v));
  }

  lemma {:induction false} VarArrayRefused(p: Padding, d: Descriptor, v: Value, space: nat)
    requires HasType(d, v) && d.VarArray?
    ensures Refused(Encode(p, d, v, space), |Wire(p, d, v)| + Items(v), space, CountsFit(d, v))
    decreases v, 0
  {
    var ds, n := Parts(d, |v.items|), |v.items|;
    var len := PutLength(n, space);
    CountRefused(n, space);
    AllRefused(p, ds, v.items, Left(space, len));
    ThenRefused(len, 4, n + 4, n < 0x1_0000_0000, EncodeAll(p, ds, v.items, Left(space, len)),
                |WireAll(p, ds, v.items)| + AllItems(v.items), AllCountsFit(ds, v.items),
                space, |Wire(p, d, v)| + Items(v), CountsFit(d, v));
  }

  lemma {:induction false} AllRefused(p: Padding, ds: seq<Descriptor>, vs: seq<Value>, space: nat)
    requires HaveTypes(ds, vs)
    ensures Refused(EncodeAll(p, ds, vs, space), |WireAll(p, ds, vs)| + AllItems(vs), space, AllCountsFit(ds, vs))
    decreases vs, 0
  {
    if vs != [] {
      var first := Encode(p, ds[0], vs[0], space);
      EncodeRefused(p, ds[0], vs[0], space);
      EncodeLeaves(p, ds[0], vs[0], space, first);
      AllRefused(p, ds[1..], vs[1..], Left(space, first));
      ThenRefused(first, |Wire(p, ds[0], vs[0])|, |Wire(p, ds[0], vs[0])| + Items(vs[0]), CountsFit(ds[0], vs[0]),
                  EncodeAll(p, ds[1..], vs[1..], Left(space, first)),
                  |WireAll(p, ds[1..], vs[1..])| + AllItems(vs[1..]), AllCountsFit(ds[1..], vs[1..]),
                  space, |WireAll(p, ds, vs)| + AllItems(vs), AllCountsFit(ds, vs));
    }
  }

  /**
   EOVERFLOW is returned only when some count is above 32 bits; and where space is ample it is
   returned then, and nothing else is refused.
   */
  lemma RefusalIs(p: Padding, d: Descriptor, v: Value, space: nat)
    requires HasType(d, v)
    ensures Encode(p, d, v, space).status == Overflow ==> !CountsFit(d, v)
    ensures |Wire(p, d, v)| + Items(v) <= space ==>
              Encode(p, d, v, space).status == if CountsFit(d, v) then Ok else Overflow
  {
    EncodeRefused(p, d, v, space);
    EncodeSucceedsIff(p, d, v, space);
  }
}
