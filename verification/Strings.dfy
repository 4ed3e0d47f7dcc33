/**
 dstring.c on real buffers: a string is a length and a pointer into a blob that other
 strings may share. No operation here has a modifies clause on a blob, so none can change
 what an earlier string says; each is proved to mean what ByteStrings.dfy says.
 */
module Strings {
  import opened Basics
  import opened EditDistance
  import opened ByteStrings

  datatype Pointer = Null | At(blob: array<byte>, off: nat)

  datatype String = String(len: nat, str: Pointer)

  const EMPTY := String(0, Null)

  // The largest size_t.
  const SIZE_MAX: nat := 0xffff_ffff_ffff_ffff

  /** Null with length zero, or a slice of a blob with one more allocated byte after it. */
  predicate Valid(s: String) {
    match s.str
    case Null => s.len == 0
    case At(blob, off) => off + s.len + 1 <= blob.Length
  }

  function Blobs(s: String): set<object> {
    if s.str.At? then {s.str.blob} else {}
  }

  function Text(s: String): (t: Bytes)
    requires Valid(s)
    reads Blobs(s)
    ensures |t| == s.len
  {
    match s.str
    case Null => []
    case At(blob, off) => blob[off..off + s.len]
  }

  /** A NUL stands right behind s. */
  predicate Terminated(s: String)
    requires Valid(s)
    reads Blobs(s)
  {
    s.str.At? && s.str.blob[s.str.off + s.len] == 0
  }

  /** What the comment in tn_str2cstr claims of every string: a NUL stands somewhere behind it, in its own blob. */
  ghost predicate Ended(s: String)
    requires Valid(s)
    reads Blobs(s)
  {
    s.str.At? ==> NulFrom(s.str.blob, s.str.off + s.len)
  }

  ghost predicate NulFrom(blob: array<byte>, from: nat)
    reads blob
  {
    exists k :: from <= k && NulAt(blob, k)
  }

  predicate NulAt(blob: array<byte>, k: nat)
    reads blob
  {
    k < blob.Length && blob[k] == 0
  }

  /** Bytes from..to of s, as another string in the same blob. */
  function Part(s: String, from: nat, to: nat): String
    requires Valid(s) && s.str.At? && from <= to <= s.len
  {
    String(to - from, At(s.str.blob, s.str.off + from))
  }

  lemma PartIs(s: String, from: nat, to: nat)
    requires Valid(s) && s.str.At? && from <= to <= s.len
    ensures Valid(Part(s, from, to)) && Text(Part(s, from, to)) == Text(s)[from..to]
  {
  }

  /** Slices keep what the comment claims. */
  lemma PartStaysEnded(s: String, from: nat, to: nat)
    requires Valid(s) && s.str.At? && from <= to <= s.len && Ended(s)
    ensures Ended(Part(s, from, to))
  {
    var k :| s.str.off + s.len <= k && NulAt(s.str.blob, k);
    assert s.str.off + from + (to - from) <= k;
  }

  lemma TerminatedIsEnded(s: String)
    requires Valid(s) && Terminated(s)
    ensures Ended(s)
  {
    assert NulAt(s.str.blob, s.str.off + s.len);
  }

  /** A string that fills its blob but for one byte is ended by that byte or not at all. */
  lemma LastByteEnds(s: String)
    requires Valid(s) && s.str.At? && s.str.off + s.len + 1 == s.str.blob.Length
    ensures Ended(s) <==> s.str.blob[s.str.off + s.len] == 0
  {
    assert s.str.blob[s.str.off + s.len] == 0 ==> NulAt(s.str.blob, s.str.off + s.len);
  }

  /** The first n bytes of s. */
  function FirstBytes(s: String, n: nat): (r: String)
    requires Valid(s) && n <= s.len
    ensures Valid(r)
  {
    if n == 0 then EMPTY else Part(s, 0, n)
  }

  lemma FirstBytesAre(s: String, n: nat)
    requires Valid(s) && n <= s.len
    ensures Text(FirstBytes(s, n)) == Text(s)[..n]
  {
    if n > 0 {
      PartIs(s, 0, n);
    }
  }

  // ----- comparisons

  /** memcmp, of which only the sign is used. */
  function MemCmp(a: Bytes, b: Bytes): (r: int)
    requires |a| == |b|
    ensures r == 0 <==> a == b
    decreases |a|
  {
    if a == [] then 0
    else if a[0] != b[0] then (if a[0] < b[0] then -1 else 1)
    else
      assert a == [a[0]] + a[1..] && b == [b[0]] + b[1..];
      MemCmp(a[1..], b[1..])
  }

  function StrCmp(s1: String, s2: String): (r: int)
    requires Valid(s1) && Valid(s2)
    reads Blobs(s1), Blobs(s2)
    ensures r == Compare(Text(s1), Text(s2))
  {
    var minLen := if s1.len < s2.len then s1.len else s2.len;
    var result := MemCmp(Text(s1)[..minLen], Text(s2)[..minLen]);
    CompareByLength(Text(s1), Text(s2));
    if result != 0 then result
    else if s1.len < s2.len then -1
    else if s1.len > s2.len then 1
    else 0
  }

  lemma {:induction false} CompareByLength(s: Bytes, t: Bytes)
    ensures var n := if |s| < |t| then |s| else |t|;
            var m := MemCmp(s[..n], t[..n]);
            Compare(s, t) == if m != 0 then m else if |s| < |t| then -1 else if |s| > |t| then 1 else 0
    decreases |s|
  {
    if s != [] && t != [] {
      CompareByLength(s[1..], t[1..]);
      var n := if |s| < |t| then |s| else |t|;
      assert s[..n][1..] == s[1..][..n - 1] && t[..n][1..] == t[1..][..n - 1];
    }
  }

  predicate StrIsPrefix(prefix: String, str: String)
    requires Valid(prefix) && Valid(str)
    reads Blobs(prefix), Blobs(str)
    ensures StrIsPrefix(prefix, str) <==> Text(prefix) <= Text(str)
  {
    prefix.len <= str.len && MemCmp(Text(str)[..prefix.len], Text(prefix)) == 0
  }

  predicate StrIsSuffix(suffix: String, str: String)
    requires Valid(suffix) && Valid(str)
    reads Blobs(suffix), Blobs(str)
    ensures StrIsSuffix(suffix, str) <==> IsSuffix(Text(suffix), Text(str))
  {
    suffix.len <= str.len && MemCmp(Text(str)[str.len - suffix.len..], Text(suffix)) == 0
  }

  // ----- slices

  /** An integer as a size_t. */
  function SizeT(n: int): (r: nat)
    ensures r <= SIZE_MAX
  {
    n % (SIZE_MAX + 1)
  }

  lemma SizeTIs(n: int)
    ensures 0 <= n <= SIZE_MAX ==> SizeT(n) == n
    ensures SIZE_MAX < n <= 2 * SIZE_MAX ==> SizeT(n) == n - (SIZE_MAX + 1)
    ensures n < 0 <= n + SIZE_MAX ==> SizeT(n) == n + SIZE_MAX + 1
  {
  }

  /**
   tn_substr with its size_t sum: pos + len is taken modulo 2^64 before it is compared.
   */
  function SubStr(s: String, pos: nat, len: nat): String
    requires Valid(s)
  {
    if pos >= s.len then EMPTY
    else
      var n := if SizeT(pos + len) > s.len then s.len - pos else len;
      if n == 0 then EMPTY else String(n, At(s.str.blob, s.str.off + pos))
  }

  /** The part of t that starts at pos and is at most len long. */
  function Slice(t: Bytes, pos: nat, len: nat): (r: Bytes)
    ensures |r| == if pos >= |t| then 0 else if pos + len > |t| then |t| - pos else len
    ensures forall i :: 0 <= i < |r| ==> r[i] == t[pos + i]
  {
    if pos >= |t| then [] else if pos + len > |t| then t[pos..] else t[pos..pos + len]
  }

  lemma SubStrIsSlice(s: String, pos: nat, len: nat)
    requires Valid(s) && (pos >= s.len || pos + len <= SIZE_MAX)
    ensures Valid(SubStr(s, pos, len)) && Blobs(SubStr(s, pos, len)) <= Blobs(s)
    ensures Text(SubStr(s, pos, len)) == Slice(Text(s), pos, len)
  {
    if pos < s.len {
      SizeTIs(pos + len);
      var n := |Slice(Text(s), pos, len)|;
      PartIs(s, pos, pos + n);
      assert SubStr(s, pos, len) == if n == 0 then EMPTY else Part(s, pos, pos + n);
    }
  }

  /** When the sum wraps, the length asked for is returned as it is, and passes the end of the string. */
  lemma SubStrPassesEnd(s: String, pos: nat, len: nat)
    requires Valid(s) && pos < s.len <= SIZE_MAX && len <= SIZE_MAX
    requires pos + len >= 0x1_0000_0000_0000_0000
    ensures SubStr(s, pos, len) == String(len, At(s.str.blob, s.str.off + pos)) && len > s.len - pos
  {
    SizeTIs(pos + len);
  }

  /** Exactly when the sum does not wrap is the result inside the string. */
  lemma SubStrStaysInsideIff(s: String, pos: nat, len: nat)
    requires Valid(s) && s.len <= SIZE_MAX && pos <= SIZE_MAX && len <= SIZE_MAX
    ensures SubStr(s, pos, len).len == |Slice(Text(s), pos, len)| <==> pos >= s.len || pos + len <= SIZE_MAX
  {
    if pos < s.len && pos + len > SIZE_MAX {
      SizeTIs(pos + len);
    }
  }

  // ----- buffers

  /** tn_alloc_blob, which clears nothing; fill is what the memory happens to hold. */
  method AllocBlob(size: nat, fill: nat -> byte) returns (buf: array<byte>)
    ensures fresh(buf) && buf.Length == size && forall i :: 0 <= i < size ==> buf[i] == fill(i)
  {
    buf := new byte[size];
    forall i | 0 <= i < size {
      buf[i] := fill(i);
    }
  }

  /** memcpy(buf + at, s.str, s.len); the result is where the next one would go. */
  method Append(buf: array<byte>, at: nat, s: String) returns (end: nat)
    requires Valid(s) && at + s.len <= buf.Length && buf !in Blobs(s)
    modifies buf
    ensures end == at + s.len && buf[..end] == old(buf[..at]) + Text(s) && buf[end..] == old(buf[end..])
  {
    forall i | 0 <= i < s.len {
      buf[at + i] := s.str.blob[s.str.off + i];
    }
    end := at + s.len;
    assert buf[..at] == old(buf[..at]) && buf[at..end] == Text(s);
  }

  method StrCat(s1: String, s2: String) returns (r: String)
    requires Valid(s1) && Valid(s2)
    ensures Valid(r) && Text(r) == Text(s1) + Text(s2)
    ensures s2.len == 0 ==> r == s1
    ensures s1.len == 0 && s2.len > 0 ==> r == s2
    ensures s1.len > 0 && s2.len > 0 ==> Terminated(r) && fresh(r.str.blob)
    ensures Ended(s1) && Ended(s2) ==> Ended(r)
  {
    if s2.len == 0 {
      return s1;
    }
    if s1.len == 0 {
      return s2;
    }
    var buf := new byte[s1.len + s2.len + 1];
    var end := AppendTwo(buf, 0, s1, s2);
    buf[end] := 0;
    r := String(s1.len + s2.len, At(buf, 0));
    TerminatedIsEnded(r);
  }

  method StrAddCh(s: String, ch: byte) returns (r: String)
    requires Valid(s)
    ensures Valid(r) && Text(r) == Text(s) + [ch] && Terminated(r) && fresh(r.str.blob)
  {
    var buf := new byte[s.len + 2];
    var end := Append(buf, 0, s);
    buf[end] := ch;
    buf[end + 1] := 0;
    r := String(s.len + 1, At(buf, 0));
  }

  ghost predicate AllValid(strs: seq<String>) {
    forall i :: 0 <= i < |strs| ==> Valid(strs[i])
  }

  ghost predicate AllEnded(strs: seq<String>)
    requires AllValid(strs)
    reads AllBlobs(strs)
  {
    forall i :: 0 <= i < |strs| ==> Ended(strs[i])
  }

  ghost function AllBlobs(strs: seq<String>): set<object> {
    set i | 0 <= i < |strs| && strs[i].str.At? :: strs[i].str.blob as object
  }

  ghost function Texts(strs: seq<String>): (r: seq<Bytes>)
    requires AllValid(strs)
    reads AllBlobs(strs)
    ensures |r| == |strs| && forall i :: 0 <= i < |r| ==> r[i] == Text(strs[i])
  {
    seq(|strs|, i requires 0 <= i < |strs| reads AllBlobs(strs) => Text(strs[i]))
  }

  lemma JoinNext(strs: seq<Bytes>, sep: Bytes, n: nat)
    requires 0 < n < |strs|
    ensures Join(strs[..n + 1], sep) == Join(strs[..n], sep) + sep + strs[n]
  {
    JoinSnoc(strs[..n], sep, strs[n]);
    assert strs[..n + 1] == strs[..n] + [strs[n]];
  }

  lemma {:induction false} JoinGrows(strs: seq<Bytes>, sep: Bytes, n: nat)
    requires 0 < n <= |strs|
    ensures |Join(strs[..n], sep)| <= |Join(strs, sep)|
    decreases |strs| - n
  {
    if n < |strs| {
      JoinNext(strs, sep, n);
      JoinGrows(strs, sep, n + 1);
    } else {
      assert strs[..n] == strs;
    }
  }

  lemma JoinOne(strs: seq<Bytes>, sep: Bytes)
    requires strs != []
    ensures Join(strs[..1], sep) == strs[0] && Join(strs[..|strs|], sep) == Join(strs, sep)
  {
    assert strs[..|strs|] == strs;
  }

  /** texts are what strs say. */
  ghost predicate Say(strs: seq<String>, texts: seq<Bytes>)
    reads AllBlobs(strs)
  {
    && |strs| == |texts|
    && forall i :: 0 <= i < |strs| ==> Valid(strs[i]) && Text(strs[i]) == texts[i]
  }

  lemma SayTexts(strs: seq<String>, texts: seq<Bytes>)
    requires AllValid(strs)
    ensures Say(strs, texts) <==> Texts(strs) == texts
  {
  }

  /**
   Two passes: the first adds the lengths up, the second fills the buffer exactly. texts and
   glue are what the arguments say.
   */
  method StrCats(strs: seq<String>, sep: String, ghost texts: seq<Bytes>, ghost glue: Bytes) returns (r: String)
    requires Say(strs, texts) && Valid(sep) && Text(sep) == glue
    ensures Valid(r) && Text(r) == Join(texts, glue)
    ensures |strs| == 0 ==> r == EMPTY
    ensures |strs| == 1 ==> r == strs[0]
    ensures |strs| > 1 ==> Terminated(r) && fresh(r.str.blob)
  {
    if |strs| == 0 {
      r := EMPTY;
    } else if |strs| == 1 {
      r := strs[0];
    } else {
      r := CopyJoined(strs, sep, texts, glue);
    }
  }

  method CopyJoined(strs: seq<String>, sep: String, ghost texts: seq<Bytes>, ghost glue: Bytes) returns (r: String)
    requires strs != [] && Say(strs, texts) && Valid(sep) && Text(sep) == glue
    ensures Valid(r) && Text(r) == Join(texts, glue) && Terminated(r) && fresh(r.str.blob)
  {
    var len := JoinedLength(strs, sep, texts);
    ghost var used := AllBlobs(strs) + Blobs(sep);
    var buf := new byte[len + 1];
    assert buf !in used;
    FillJoined(buf, strs, sep, texts, glue);
    buf[len] := 0;
    r := String(len, At(buf, 0));
  }

  method JoinedLength(strs: seq<String>, sep: String, ghost texts: seq<Bytes>) returns (len: nat)
    requires strs != [] && Say(strs, texts) && Valid(sep)
    ensures len == |Join(texts, Text(sep))|
  {
    ghost var glue := Text(sep);
    JoinOne(texts, glue);
    len := strs[0].len;
    var i := 1;
    while i < |strs|
      invariant 1 <= i <= |strs|
      invariant len == |Join(texts[..i], glue)|
    {
      JoinNext(texts, glue, i);
      len := len + sep.len;
      len := len + strs[i].len;
      i := i + 1;
    }
  }

  method FillJoined(buf: array<byte>, strs: seq<String>, sep: String, ghost texts: seq<Bytes>, ghost glue: Bytes)
    requires strs != [] && Say(strs, texts) && Valid(sep) && Text(sep) == glue
    requires buf !in AllBlobs(strs) && buf !in Blobs(sep)
    requires buf.Length == |Join(texts, glue)| + 1
    modifies buf
    ensures buf[..buf.Length - 1] == Join(texts, glue)
  {
    var ptr := AppendFirst(buf, strs, sep, texts, glue);
    var i := 1;
    while i < |strs|
      invariant 1 <= i <= |strs|
      invariant Say(strs, texts) && Text(sep) == glue
      invariant ptr == |Join(texts[..i], glue)| < buf.Length
      invariant buf[..ptr] == Join(texts[..i], glue)
    {
      ptr := AppendNext(buf, ptr, strs, sep, i, texts, glue);
      i := i + 1;
    }
    JoinOne(texts, glue);
  }

  method AppendFirst(buf: array<byte>, strs: seq<String>, sep: String, ghost texts: seq<Bytes>, ghost glue: Bytes)
    returns (end: nat)
    requires strs != [] && Say(strs, texts) && Valid(sep) && Text(sep) == glue
    requires buf !in AllBlobs(strs) && buf !in Blobs(sep) && buf.Length == |Join(texts, glue)| + 1
    modifies buf
    ensures end == |Join(texts[..1], glue)| < buf.Length && buf[..end] == Join(texts[..1], glue)
    ensures Say(strs, texts) && Text(sep) == glue
  {
    JoinOne(texts, glue);
    JoinGrows(texts, glue, 1);
    Apart(buf, strs, 0);
    end := Append(buf, 0, strs[0]);
  }

  /** One turn of that loop. */
  method AppendNext(buf: array<byte>, at: nat, strs: seq<String>, sep: String, i: nat,
                    ghost texts: seq<Bytes>, ghost glue: Bytes)
    returns (end: nat)
    requires 0 < i < |strs| && Say(strs, texts) && Valid(sep) && Text(sep) == glue
    requires buf !in AllBlobs(strs) && buf !in Blobs(sep)
    requires buf.Length == |Join(texts, glue)| + 1 && at == |Join(texts[..i], glue)| < buf.Length
    requires buf[..at] == Join(texts[..i], glue)
    modifies buf
    ensures end == |Join(texts[..i + 1], glue)| < buf.Length && buf[..end] == Join(texts[..i + 1], glue)
    ensures Say(strs, texts) && Text(sep) == glue
  {
    JoinNext(texts, glue, i);
    JoinGrows(texts, glue, i + 1);
    Apart(buf, strs, i);
    end := AppendTwo(buf, at, sep, strs[i]);
  }

  lemma Apart(buf: array<byte>, strs: seq<String>, i: nat)
    requires i < |strs| && buf !in AllBlobs(strs)
    ensures buf !in Blobs(strs[i])
  {
    assert strs[i].str.At? ==> strs[i].str.blob as object in AllBlobs(strs);
  }

  method AppendTwo(buf: array<byte>, at: nat, s1: String, s2: String) returns (end: nat)
    requires Valid(s1) && Valid(s2) && at + s1.len + s2.len <= buf.Length && buf !in Blobs(s1) && buf !in Blobs(s2)
    modifies buf
    ensures end == at + s1.len + s2.len && buf[..end] == old(buf[..at]) + Text(s1) + Text(s2)
    ensures buf[end..] == old(buf[end..])
  {
    end := Append(buf, at, s1);
    end := Append(buf, end, s2);
  }

  /** Text without the part at pos, at most len long. */
  function Without(t: Bytes, pos: nat, len: nat): Bytes {
    if pos >= |t| then t else t[..pos] + t[pos + |Slice(t, pos, len)|..]
  }

  /** The size_t sum of pos and len is not their sum, and pos is inside a string of n bytes. */
  predicate CutWraps(n: nat, pos: nat, len: nat) {
    pos < n && pos + len > SIZE_MAX
  }

  /** What tn_strcut leaves of t: a cut that wraps repeats the bytes from the wrapped sum to pos. */
  function Remains(t: Bytes, pos: nat, len: nat): Bytes
    requires len <= SIZE_MAX
  {
    if CutWraps(|t|, pos, len) then t[..pos] + t[pos + len - (SIZE_MAX + 1)..] else Without(t, pos, len)
  }

  /** What is cut out and what is left make up the whole. */
  lemma CutAndSlice(t: Bytes, pos: nat, len: nat)
    ensures |Without(t, pos, len)| + |Slice(t, pos, len)| == |t|
    ensures pos <= |t| ==> Without(t, pos, len)[..pos] + Slice(t, pos, len) + Without(t, pos, len)[pos..] == t
    ensures pos > |t| ==> Without(t, pos, len) == t
  {
    if pos < |t| {
      var n := |Slice(t, pos, len)|;
      assert Slice(t, pos, len) == t[pos..pos + n];
      assert Without(t, pos, len)[..pos] == t[..pos] && Without(t, pos, len)[pos..] == t[pos + n..];
    }
  }

  /** A cut that wraps puts in again what stands between the wrapped sum and pos. */
  lemma WrappingCutRepeats(t: Bytes, pos: nat, len: nat)
    requires pos < |t| && len <= SIZE_MAX && pos + len >= 0x1_0000_0000_0000_0000
    ensures var w := pos + len - 0x1_0000_0000_0000_0000;
            w < pos && Remains(t, pos, len) == t[..pos] + t[w..pos] + t[pos..]
  {
    var w := pos + len - (SIZE_MAX + 1);
    assert t[w..] == t[w..pos] + t[pos..];
  }

  lemma RemainsLength(t: Bytes, pos: nat, len: nat)
    requires len <= SIZE_MAX && CutWraps(|t|, pos, len)
    ensures |Remains(t, pos, len)| == |t| + (SIZE_MAX + 1) - len > |t| >= |Without(t, pos, len)|
  {
  }

  lemma RemainsIs(t: Bytes, pos: nat, len: nat, end: nat)
    requires pos < |t| && len <= SIZE_MAX
    requires end == if pos + len > SIZE_MAX then pos + len - (SIZE_MAX + 1) else pos + len
    ensures end >= |t| ==> Remains(t, pos, len) == t[..pos]
    ensures end < |t| && pos == 0 ==> Remains(t, pos, len) == t[end..]
    ensures end < |t| ==> Remains(t, pos, len) == t[..pos] + t[end..]
  {
    assert t[|t|..] == [];
  }

  lemma RemainsAll(t: Bytes, pos: nat, len: nat)
    requires len <= SIZE_MAX && pos <= SIZE_MAX && (pos >= |t| || len == 0)
    ensures Remains(t, pos, len) == t
  {
  }

  /** tn_strcut removes what tn_substr should give exactly when the sum does not wrap. */
  lemma RemainsWithoutIff(t: Bytes, pos: nat, len: nat)
    requires len <= SIZE_MAX
    ensures Remains(t, pos, len) == Without(t, pos, len) <==> pos >= |t| || pos + len <= SIZE_MAX
  {
    if CutWraps(|t|, pos, len) {
      RemainsLength(t, pos, len);
    }
  }

  /** "Cut to the end" said with the largest len: "abcdef" becomes "abbcdef". */
  lemma CutToEndRepeats()
    ensures Remains([97, 98, 99, 100, 101, 102], 2, SIZE_MAX) == [97, 98, 98, 99, 100, 101, 102]
    ensures Without([97, 98, 99, 100, 101, 102], 2, SIZE_MAX) == [97, 98]
  {
    var t: Bytes := [97, 98, 99, 100, 101, 102];
    assert t[..2] == [97, 98] && t[1..] == [98, 99, 100, 101, 102];
    assert |Slice(t, 2, SIZE_MAX)| == 4;
  }

  // The largest object there can be (PTRDIFF_MAX).
  const OBJECT_MAX: nat := 0x7fff_ffff_ffff_ffff

  /**
   What tn_strcut allocates, as a size_t, holds the two pieces it copies unless the cut wraps
   and is hardly longer than the string; an object of C is too small for that.
   */
  predicate CutFits(n: nat, pos: nat, len: nat) {
    n <= SIZE_MAX && pos <= SIZE_MAX && len <= SIZE_MAX && (CutWraps(n, pos, len) ==> n + 1 < len)
  }

  lemma CutFitsIff(n: nat, pos: nat, len: nat)
    requires 0 < pos < n <= SIZE_MAX && 0 < len <= SIZE_MAX && SizeT(pos + len) < n
    ensures CutFits(n, pos, len) <==> pos + (n - SizeT(pos + len)) <= SizeT(n - len + 1)
  {
    SizeTIs(pos + len);
    SizeTIs(n - len + 1);
  }

  lemma CutOfObjectFits(n: nat, pos: nat, len: nat)
    requires n <= OBJECT_MAX && pos <= SIZE_MAX && len <= SIZE_MAX
    ensures CutFits(n, pos, len)
  {
  }

  /** The case of tn_strcut that copies; in all others its result is a view of the argument. */
  predicate CutCopies(n: nat, pos: nat, len: nat) {
    0 < pos < n && 0 < len && SizeT(pos + len) < n
  }

  function CutView(s: String, pos: nat, len: nat): String
    requires Valid(s) && !CutCopies(s.len, pos, len)
  {
    if pos >= s.len || len == 0 then s
    else if pos == 0 && len < s.len then Part(s, len, s.len)
    else FirstBytes(s, pos)
  }

  /** tn_strcut, with its size_t sums and differences; fill is what the allocated memory holds. */
  method StrCut(s: String, pos: nat, len: nat, fill: nat -> byte) returns (r: String)
    requires Valid(s) && CutFits(s.len, pos, len)
    ensures Valid(r) && Text(r) == Remains(Text(s), pos, len)
    ensures !CutCopies(s.len, pos, len) ==> r == CutView(s, pos, len)
    ensures CutCopies(s.len, pos, len) ==> r.str.At? && fresh(r.str.blob) && (Ended(r) <==> fill(r.len) == 0)
  {
    ghost var t := Text(s);
    if !CutCopies(s.len, pos, len) {
      CutViewSays(s, pos, len);
    }
    if pos >= s.len || len == 0 {
      return s;
    }
    var end := SizeT(pos + len);
    CutSizes(s.len, pos, len, end);
    if end >= s.len {
      r := if pos == 0 then EMPTY else Part(s, 0, pos);
    } else if pos == 0 {
      r := Part(s, len, s.len);
    } else {
      RemainsIs(t, pos, len, end);
      r := CutMiddle(s, pos, end, SizeT(s.len - len), SizeT(s.len - len + 1), fill, t);
      assert Text(s) == t;
    }
  }

  lemma CutViewSays(s: String, pos: nat, len: nat)
    requires Valid(s) && CutFits(s.len, pos, len) && !CutCopies(s.len, pos, len)
    ensures Valid(CutView(s, pos, len)) && Text(CutView(s, pos, len)) == Remains(Text(s), pos, len)
  {
    if pos >= s.len || len == 0 {
      RemainsAll(Text(s), pos, len);
    } else {
      var end := SizeT(pos + len);
      CutSizes(s.len, pos, len, end);
      RemainsIs(Text(s), pos, len, end);
      if end >= s.len {
        FirstBytesAre(s, pos);
      } else {
        PartIs(s, len, s.len);
      }
    }
  }

  /** The size_t sums and differences of tn_strcut. */
  lemma CutSizes(n: nat, pos: nat, len: nat, end: nat)
    requires CutFits(n, pos, len) && pos < n && 0 < len && end == SizeT(pos + len)
    ensures end == if pos + len > SIZE_MAX then pos + len - (SIZE_MAX + 1) else pos + len
    ensures end < n ==> SizeT(n - len) == pos + (n - end) && SizeT(n - len + 1) == pos + (n - end) + 1
  {
    SizeTIs(pos + len);
    SizeTIs(n - len);
    SizeTIs(n - len + 1);
  }

  /** The part before pos and the part from end on, which may overlap, in a new blob of that size. */
  method CutMiddle(s: String, pos: nat, end: nat, len: nat, size: nat, fill: nat -> byte, ghost t: Bytes)
    returns (r: String)
    requires Valid(s) && 0 < pos <= s.len && end < s.len && len == pos + (s.len - end) && size == len + 1
    requires Text(s) == t
    ensures Valid(r) && Text(r) == t[..pos] + t[end..]
    ensures r.str.At? && fresh(r.str.blob) && (Ended(r) <==> fill(r.len) == 0)
  {
    PartIs(s, 0, pos);
    PartIs(s, end, s.len);
    r := CopyBoth(Part(s, 0, pos), Part(s, end, s.len), len, size, fill);
  }

  /** Two strings copied into a new blob; the byte after them is left as it was allocated. */
  method CopyBoth(s1: String, s2: String, len: nat, size: nat, fill: nat -> byte) returns (r: String)
    requires Valid(s1) && Valid(s2) && len == s1.len + s2.len && size == len + 1
    ensures Valid(r) && Text(r) == Text(s1) + Text(s2)
    ensures r.str.At? && fresh(r.str.blob) && (Ended(r) <==> fill(r.len) == 0)
  {
    var buf := AllocBlob(size, fill);
    assert buf[len..][0] == fill(len);
    var end := AppendTwo(buf, 0, s1, s2);
    assert buf[len..][0] == buf[len];
    r := String(len, At(buf, 0));
    LastByteEnds(r);
  }

  /** The bytes of s followed by NUL, in s's own blob when they already stand there. */
  method Str2CStr(s: String) returns (p: Pointer)
    requires Valid(s)
    ensures p.At? && p.off + s.len < p.blob.Length
    ensures p.blob[p.off..p.off + s.len] == Text(s) && p.blob[p.off + s.len] == 0
    ensures p == s.str <==> Terminated(s)
    ensures p == s.str || fresh(p.blob)
  {
    if s.str.Null? {
      var empty := new byte[1];
      empty[0] := 0;
      return At(empty, 0);
    }
    if s.str.blob[s.str.off + s.len] == 0 {
      return s.str;
    }
    var buf := new byte[s.len + 1];
    var end := Append(buf, 0, s);
    buf[end] := 0;
    p := At(buf, 0);
  }

  // ----- searches

  /** s.str[i] */
  function CharAt(s: String, i: nat): byte
    requires Valid(s) && i < s.len
    reads Blobs(s)
    ensures CharAt(s, i) == Text(s)[i]
  {
    s.str.blob[s.str.off + i]
  }

  method StrLcPrefix(s1: String, s2: String) returns (r: String)
    requires Valid(s1) && Valid(s2)
    ensures r.len <= s1.len && r == FirstBytes(s1, r.len) && Text(r) == CommonPrefix(Text(s1), Text(s2))
  {
    ghost var t1, t2 := Text(s1), Text(s2);
    var minSize := if s1.len < s2.len then s1.len else s2.len;
    var i := 0;
    while i < minSize
      invariant 0 <= i <= minSize && AgreeTo(t1, t2, 0) == AgreeTo(t1, t2, i)
    {
      if CharAt(s1, i) != CharAt(s2, i) {
        break;
      }
      i := i + 1;
    }
    r := if i == 0 then EMPTY else String(i, s1.str);
    PrefixIsFirstBytes(s1, t1, t2, i);
  }

  lemma PrefixIsFirstBytes(s: String, t1: Bytes, t2: Bytes, i: nat)
    requires Valid(s) && Text(s) == t1 && i == AgreeTo(t1, t2, 0)
    ensures i <= s.len && Text(FirstBytes(s, i)) == CommonPrefix(t1, t2)
  {
    FirstBytesAre(s, i);
  }

  /** The last i bytes of s. */
  function LastBytes(s: String, i: nat): (r: String)
    requires Valid(s) && i <= s.len
    ensures Valid(r)
  {
    if i == 0 then EMPTY else Part(s, s.len - i, s.len)
  }

  lemma LastBytesAre(s: String, i: nat)
    requires Valid(s) && i <= s.len
    ensures Text(LastBytes(s, i)) == Text(s)[s.len - i..]
  {
    if i > 0 {
      PartIs(s, s.len - i, s.len);
    }
  }

  method StrLcSuffix(s1: String, s2: String) returns (r: String)
    requires Valid(s1) && Valid(s2)
    ensures r.len <= s1.len && r == LastBytes(s1, r.len) && Text(r) == CommonSuffix(Text(s1), Text(s2))
  {
    ghost var t1, t2 := Text(s1), Text(s2);
    var minSize := if s1.len < s2.len then s1.len else s2.len;
    var i := 0;
    while i < minSize
      invariant 0 <= i <= minSize && AgreeBackTo(t1, t2, 0) == AgreeBackTo(t1, t2, i)
    {
      if CharAt(s1, s1.len - i - 1) != CharAt(s2, s2.len - i - 1) {
        break;
      }
      i := i + 1;
    }
    r := if i == 0 then EMPTY else String(i, At(s1.str.blob, s1.str.off + s1.len - i));
    SuffixIsLastBytes(s1, t1, t2, i);
  }

  lemma SuffixIsLastBytes(s: String, t1: Bytes, t2: Bytes, i: nat)
    requires Valid(s) && Text(s) == t1 && i == AgreeBackTo(t1, t2, 0)
    ensures i <= s.len && Text(LastBytes(s, i)) == CommonSuffix(t1, t2)
    ensures i > 0 ==> s.str.At? && LastBytes(s, i) == String(i, At(s.str.blob, s.str.off + s.len - i))
  {
    LastBytesAre(s, i);
  }

  ghost predicate OccursAt(sub: Bytes, s: Bytes, i: int) {
    0 <= i && i + |sub| <= |s| && s[i..i + |sub|] == sub
  }

  /** The first occurrence; `pos` is what it was when there is none. */
  method StrStr(s: String, sub: String, pos: nat) returns (found: bool, pos': nat)
    requires Valid(s) && Valid(sub)
    ensures found <==> exists i :: OccursAt(Text(sub), Text(s), i)
    ensures found ==> OccursAt(Text(sub), Text(s), pos') && forall i :: OccursAt(Text(sub), Text(s), i) ==> pos' <= i
    ensures !found ==> pos' == pos
  {
    ghost var t, u := Text(s), Text(sub);
    if sub.len == 0 {
      assert OccursAt(u, t, 0);
      return true, 0;
    }
    if sub.len > s.len {
      return false, pos;
    }
    var i := 0;
    while i < s.len - sub.len + 1
      invariant 0 <= i <= s.len - sub.len + 1
      invariant forall k :: 0 <= k < i ==> !OccursAt(u, t, k)
    {
      var j := 0;
      while j < sub.len
        invariant 0 <= j <= sub.len
        invariant t[i..i + j] == u[..j]
      {
        if CharAt(s, i + j) != CharAt(sub, j) {
          break;
        }
        assert t[i..i + j + 1] == t[i..i + j] + [t[i + j]];
        assert u[..j + 1] == u[..j] + [u[j]];
        j := j + 1;
      }
      if j == sub.len {
        assert OccursAt(u, t, i);
        return true, i;
      }
      assert t[i + j] != u[j];
      assert t[i..i + |u|][j] == t[i + j];
      i := i + 1;
    }
    return false, pos;
  }

  // ----- tokens

  /** A tn_string that is written through a pointer. */
  class StringVar {
    var value: String

    constructor (s: String)
      ensures value == s
    {
      value := s;
    }
  }

  /**
   tn_strtok: tok (which may be null) is pointed at the first token and src moved past it;
   neither is touched when there is no token.
   */
  method StrTok(src: StringVar, p: byte -> bool, tok: StringVar?) returns (found: bool)
    requires Valid(src.value) && src != tok
    modifies src, tok
    ensures var s := old(src.value);
            var i := Scan(p, old(Text(s)), 0);
            var j := Scan(Not(p), old(Text(s)), i);
            && found == (i < s.len)
            && src.value == (if found then Part(s, j, s.len) else s)
            && (tok != null ==> tok.value == if found then Part(s, i, j) else old(tok.value))
  {
    var s := src.value;
    var start := SkipWhile(s, p, 0);
    if start == s.len {
      return false;
    }
    var i := SkipWhile(s, Not(p), start);
    if tok != null {
      tok.value := Part(s, start, i);
    }
    src.value := Part(s, i, s.len);
    return true;
  }

  /** Either loop of tn_strtok. */
  method SkipWhile(s: String, p: byte -> bool, from: nat) returns (i: nat)
    requires Valid(s) && from <= s.len
    ensures i == Scan(p, Text(s), from)
  {
    i := from;
    while i < s.len
      invariant from <= i <= s.len
      invariant Scan(p, Text(s), from) == Scan(p, Text(s), i)
    {
      if !p(CharAt(s, i)) {
        break;
      }
      i := i + 1;
    }
  }

  /** The parts of s that the spans name. */
  predicate AreParts(tokens: seq<String>, s: String, spans: seq<Span>)
    requires Valid(s) && s.str.At?
  {
    && |tokens| == |spans|
    && forall k :: 0 <= k < |spans| ==>
         spans[k].from <= spans[k].to <= s.len && tokens[k] == Part(s, spans[k].from, spans[k].to)
  }

  /** tail is the end of s, in the same blob. */
  predicate EndsIn(tail: String, s: String)
    requires Valid(s) && s.str.At?
  {
    tail.len <= s.len && tail == Part(s, s.len - tail.len, s.len)
  }

  lemma PartsSay(tokens: seq<String>, s: String, spans: seq<Span>)
    requires Valid(s) && s.str.At? && AreParts(tokens, s, spans)
    ensures AllValid(tokens) && Texts(tokens) == SpanTexts(Text(s), spans)
  {
    forall k | 0 <= k < |spans| ensures Valid(tokens[k]) && Text(tokens[k]) == Text(s)[spans[k].from..spans[k].to] {
      PartIs(s, spans[k].from, spans[k].to);
    }
  }

  /** Calls tn_strtok until it returns false. Every token is a slice of the string's own blob. */
  method Tokenize(s: String, p: byte -> bool) returns (tokens: seq<String>, tail: String)
    requires Valid(s)
    ensures AllValid(tokens) && Texts(tokens) == Tokens(p, Text(s))
    ensures Valid(tail) && Text(tail) == Tail(p, Text(s))
    ensures if s.str.At? then AreParts(tokens, s, Spans(p, Text(s), 0)) && EndsIn(tail, s)
            else tokens == [] && tail == s
  {
    if s.str.Null? {
      return [], s;
    }
    ghost var text := Text(s);
    assert text[0..] == text;
    TokensOfSpans(p, text, 0);
    ghost var at;
    tokens, tail, at := TakeAll(s, p, text);
    PartsSay(tokens, s, Spans(p, text, 0));
    PartIs(s, at, s.len);
  }

  /** The loop of a caller, up to the first call that finds nothing. */
  method TakeAll(s: String, p: byte -> bool, ghost text: Bytes)
    returns (tokens: seq<String>, tail: String, ghost at: nat)
    requires Valid(s) && s.str.At? && Text(s) == text
    ensures AreParts(tokens, s, Spans(p, text, 0))
    ensures at <= |text| && tail == Part(s, at, s.len) && text[at..] == Tail(p, text)
  {
    var src := new StringVar(s);
    var tok := new StringVar(EMPTY);
    tokens, at := [], 0;
    ghost var spans: seq<Span> := [];
    MidwayStart(p, text);
    var found := true;
    while found
      invariant src != tok && fresh(src) && fresh(tok)
      invariant Text(s) == text && at <= |text| && src.value == Part(s, at, s.len)
      invariant AreParts(tokens, s, spans)
      invariant Midway(p, text, spans, at)
      invariant !found ==> Scan(p, text, at) == |text|
      decreases found, s.len - at
    {
      found := TakeToken(src, p, tok, s, text, at);
      if found {
        ghost var i := Scan(p, text, at);
        ghost var j := Scan(Not(p), text, i);
        MidwayStep(p, text, spans, at);
        PartsOneMore(tokens, s, spans, Span(i, j));
        tokens, spans, at := tokens + [tok.value], spans + [Span(i, j)], j;
      }
    }
    tail := src.value;
    MidwayEnd(p, text, spans, at);
  }

  /** Where that loop stands: the spans taken so far, and from where the rest is to come. */
  ghost predicate Midway(p: byte -> bool, text: Bytes, spans: seq<Span>, at: nat) {
    at <= |text| && spans + Spans(p, text, at) == Spans(p, text, 0) && Tail(p, text[at..]) == Tail(p, text)
  }

  lemma MidwayStart(p: byte -> bool, text: Bytes)
    ensures Midway(p, text, [], 0)
  {
    assert text[0..] == text;
  }

  lemma MidwayStep(p: byte -> bool, text: Bytes, spans: seq<Span>, at: nat)
    requires Midway(p, text, spans, at) && Scan(p, text, at) < |text|
    ensures var i := Scan(p, text, at);
            var j := Scan(Not(p), text, i);
            j > at && Midway(p, text, spans + [Span(i, j)], j)
  {
    TailFrom(p, text, at);
    var i := Scan(p, text, at);
    var j := Scan(Not(p), text, i);
    assert spans + ([Span(i, j)] + Spans(p, text, j)) == (spans + [Span(i, j)]) + Spans(p, text, j);
  }

  lemma MidwayEnd(p: byte -> bool, text: Bytes, spans: seq<Span>, at: nat)
    requires Midway(p, text, spans, at) && Scan(p, text, at) == |text|
    ensures spans == Spans(p, text, 0) && text[at..] == Tail(p, text)
  {
    TailFrom(p, text, at);
    assert spans + [] == spans;
  }

  lemma PartsOneMore(tokens: seq<String>, s: String, spans: seq<Span>, next: Span)
    requires Valid(s) && s.str.At? && AreParts(tokens, s, spans) && next.from <= next.to <= s.len
    ensures AreParts(tokens + [Part(s, next.from, next.to)], s, spans + [next])
  {
  }

  /** One call of tn_strtok, in terms of where src stands in the whole string. */
  method TakeToken(src: StringVar, p: byte -> bool, tok: StringVar, s: String, ghost text: Bytes, ghost at: nat)
    returns (found: bool)
    requires Valid(s) && s.str.At? && Text(s) == text && src != tok
    requires at <= |text| && src.value == Part(s, at, s.len)
    modifies src, tok
    ensures var i := Scan(p, text, at);
            var j := Scan(Not(p), text, i);
            && found == (i < |text|)
            && (if found then src.value == Part(s, j, s.len) && tok.value == Part(s, i, j)
                else src.value == old(src.value))
  {
    FirstTokenOfPart(s, p, text, at);
    ghost var i := Scan(p, text, at);
    ghost var j := Scan(Not(p), text, i);
    PartOfPart(s, at, i, j);
    PartOfPart(s, at, j, s.len);
    found := StrTok(src, p, tok);
  }

  lemma FirstTokenOfPart(s: String, p: byte -> bool, text: Bytes, at: nat)
    requires Valid(s) && s.str.At? && Text(s) == text && at <= s.len
    ensures Valid(Part(s, at, s.len))
    ensures var rest := Text(Part(s, at, s.len));
            && Scan(p, rest, 0) == Scan(p, text, at) - at
            && Scan(Not(p), rest, Scan(p, text, at) - at) == Scan(Not(p), text, Scan(p, text, at)) - at
  {
    PartIs(s, at, s.len);
    assert Text(Part(s, at, s.len)) == text[at..];
    FirstTokenOfSuffix(p, text, at);
  }

  lemma PartOfPart(s: String, at: nat, from: nat, to: nat)
    requires Valid(s) && s.str.At? && at <= from <= to <= s.len
    ensures Valid(Part(s, at, s.len)) && Part(Part(s, at, s.len), from - at, to - at) == Part(s, from, to)
  {
  }

  // ----- character by character

  /** tn_strmap; the byte after the result is left as it was allocated, with fill in it. */
  method StrMap(s: String, f: byte -> byte, fill: nat -> byte) returns (r: String)
    requires Valid(s)
    ensures Valid(r) && Text(r) == Mapped(f, Text(s))
    ensures s.len == 0 ==> r == EMPTY
    ensures s.len > 0 ==> r.str.At? && fresh(r.str.blob) && (Ended(r) <==> fill(s.len) == 0)
  {
    if s.len == 0 {
      return EMPTY;
    }
    ghost var text, blobs := Text(s), Blobs(s);
    var buf := AllocBlob(s.len + 1, fill);
    assert buf !in blobs;
    var i := 0;
    while i < s.len
      invariant 0 <= i <= s.len && Text(s) == text && buf[s.len] == fill(s.len)
      invariant forall k :: 0 <= k < i ==> buf[k] == Mapped(f, text)[k]
    {
      buf[i] := f(CharAt(s, i));
      i := i + 1;
    }
    r := String(s.len, At(buf, 0));
    assert buf[..s.len] == Mapped(f, text);
    LastByteEnds(r);
  }

  /** "a", mapped to itself: nothing but the memory's contents decides whether a NUL is left behind it. */
  method MappedWithoutNul() returns (s: String, r: String)
    ensures Valid(s) && Text(s) == [97] && Terminated(s)
    ensures Valid(r) && Text(r) == [97] && !Ended(r)
  {
    var literal := new byte[] [97, 0];
    s := String(1, At(literal, 0));
    r := StrMap(s, c => c, _ => 1);
  }

  /** The same for "abc" without its second character. */
  method CutWithoutNul() returns (s: String, r: String)
    ensures Valid(s) && Text(s) == [97, 98, 99] && Terminated(s)
    ensures Valid(r) && Text(r) == [97, 99] && !Ended(r)
  {
    var literal := new byte[] [97, 98, 99, 0];
    s := String(3, At(literal, 0));
    r := StrCut(s, 1, 1, _ => 1);
  }

  lemma KeptNext(p: byte -> bool, s: Bytes, i: nat)
    requires i < |s|
    ensures Kept(p, s[..i + 1]) == Kept(p, s[..i]) + if p(s[i]) then [s[i]] else []
  {
    assert Init(s[..i + 1]) == s[..i] && Last(s[..i + 1]) == s[i];
  }

  /** tn_strfilter; the buffer is cut to size at the end, which copies it. */
  method StrFilter(s: String, p: byte -> bool) returns (r: String)
    requires Valid(s)
    ensures Valid(r) && Text(r) == Kept(p, Text(s))
    ensures if s.len == 0 then r == EMPTY else Terminated(r) && fresh(r.str.blob)
  {
    if s.len == 0 {
      return EMPTY;
    }
    ghost var text := Text(s);
    var buf := new byte[s.len + 1];
    var i, j := 0, 0;
    while i < s.len
      invariant 0 <= j <= i <= s.len
      invariant Text(s) == text && buf[..j] == Kept(p, text[..i])
    {
      KeptNext(p, text, i);
      if p(CharAt(s, i)) {
        buf[j] := CharAt(s, i);
        j := j + 1;
      }
      i := i + 1;
    }
    assert text[..i] == text;
    buf[j] := 0;
    var exact := Resize(buf, j + 1);
    r := String(j, At(exact, 0));
    assert Text(r) == exact[..][..j] == buf[..j];
    assert exact[..][j] == buf[j];
  }

  /** tn_realloc to a smaller size. */
  method Resize(buf: array<byte>, n: nat) returns (exact: array<byte>)
    requires n <= buf.Length
    ensures fresh(exact) && exact.Length == n && exact[..] == buf[..n]
  {
    exact := new byte[n];
    forall k | 0 <= k < n {
      exact[k] := buf[k];
    }
  }

  method StrRepeat(s: String, n: nat) returns (r: String)
    requires Valid(s)
    ensures Valid(r) && Text(r) == Repeated(Text(s), n)
    ensures n == 0 || s.len == 0 ==> r == EMPTY
    ensures n == 1 && s.len > 0 ==> r == s
    ensures n > 1 && s.len > 0 ==> Terminated(r) && fresh(r.str.blob)
  {
    ghost var text := Text(s);
    RepeatedSmall(text, n);
    if n == 0 || s.len == 0 {
      return EMPTY;
    }
    if n == 1 {
      return s;
    }
    r := CopyRepeated(s, n, text);
    assert Text(s) == text;
  }

  lemma RepeatedSmall(text: Bytes, n: nat)
    ensures n == 0 || text == [] ==> Repeated(text, n) == []
    ensures n == 1 ==> Repeated(text, n) == text
  {
    if n == 1 {
      assert Repeated(text, 1) == Repeated(text, 0) + text;
    }
  }

  lemma {:induction false} RepeatedGrows(text: Bytes, i: nat, n: nat)
    requires i <= n
    ensures |Repeated(text, i)| <= |Repeated(text, n)|
    decreases n - i
  {
    if i < n {
      RepeatedGrows(text, i, n - 1);
      assert |Repeated(text, n)| == |Repeated(text, n - 1)| + |text|;
    }
  }

  method CopyRepeated(s: String, n: nat, ghost text: Bytes) returns (r: String)
    requires Valid(s) && Text(s) == text
    ensures Valid(r) && Text(r) == Repeated(text, n) && Terminated(r) && fresh(r.str.blob)
  {
    ghost var blobs := Blobs(s);
    var size := n * s.len;
    assert size == |Repeated(text, n)|;
    var buf := new byte[size + 1];
    assert buf !in blobs;
    FillRepeated(buf, s, n, text);
    buf[size] := 0;
    r := String(size, At(buf, 0));
  }

  method FillRepeated(buf: array<byte>, s: String, n: nat, ghost text: Bytes)
    requires Valid(s) && Text(s) == text && buf !in Blobs(s)
    requires buf.Length == |Repeated(text, n)| + 1
    modifies buf
    ensures buf[..buf.Length - 1] == Repeated(text, n)
  {
    var i, at := 0, 0;
    while i < n
      invariant 0 <= i <= n && at == |Repeated(text, i)| <= |Repeated(text, n)|
      invariant Text(s) == text && buf[..at] == Repeated(text, i)
    {
      RepeatedGrows(text, i + 1, n);
      RepeatedNext(text, i);
      at := Append(buf, at, s);
      i := i + 1;
    }
  }

  lemma RepeatedNext(text: Bytes, i: nat)
    ensures Repeated(text, i + 1) == Repeated(text, i) + text
  {
  }

  // ----- distance

  /** The distance is zero exactly when tn_strcmp is. */
  lemma DistanceZeroIffEqual(s1: String, s2: String)
    requires Valid(s1) && Valid(s2)
    ensures Distance(Text(s1), Text(s2)) == 0 <==> StrCmp(s1, s2) == 0
  {
    CompareZeroIff(Text(s1), Text(s2));
    DistanceZeroIff(Text(s1), Text(s2));
  }

  /** Row i of the table: the distance of s[..i] to every prefix of t. */
  ghost function Row(s: Bytes, t: Bytes, i: nat): (r: seq<nat>)
    requires i <= |s|
    ensures |r| == |t| + 1 && forall j :: 0 <= j <= |t| ==> r[j] == Distance(s[..i], t[..j])
  {
    seq(|t| + 1, j requires 0 <= j <= |t| => Distance(s[..i], t[..j]))
  }

  /** How a row of the table comes from the one above it, x being the character added. */
  ghost predicate RowFrom(above: seq<nat>, row: seq<nat>, first: nat, x: byte, t: Bytes) {
    && |above| == |row| == |t| + 1
    && row[0] == first
    && forall j :: 1 <= j <= |t| ==> CellFrom(above, row, j, x, t)
  }

  ghost predicate CellFrom(above: seq<nat>, row: seq<nat>, j: nat, x: byte, t: Bytes)
    requires |above| == |row| == |t| + 1 && 1 <= j <= |t|
  {
    row[j] == Min3(row[j - 1] + 1, above[j] + 1, above[j - 1] + Mismatch(t[j - 1], x))
  }

  lemma CellIs(s: Bytes, t: Bytes, i: nat, j: nat)
    requires 0 < i <= |s| && 0 < j <= |t|
    ensures Distance(s[..i], t[..j]) == Min3(Distance(s[..i], t[..j - 1]) + 1, Distance(s[..i - 1], t[..j]) + 1,
              Distance(s[..i - 1], t[..j - 1]) + Mismatch(t[j - 1], s[i - 1]))
  {
    assert Init(s[..i]) == s[..i - 1] && Init(t[..j]) == t[..j - 1];
    assert Last(s[..i]) == s[i - 1] && Last(t[..j]) == t[j - 1];
  }

  lemma RowsFollow(s: Bytes, t: Bytes, i: nat)
    requires 0 < i <= |s|
    ensures |Row(s, t, i - 1)| == |Row(s, t, i)| == |t| + 1
    ensures RowFrom(Row(s, t, i - 1), Row(s, t, i), i, s[i - 1], t)
  {
    var above, row := Row(s, t, i - 1), Row(s, t, i);
    var x := s[i - 1];
    forall j | 1 <= j <= |t| ensures CellFrom(above, row, j, x, t) {
      CellFollows(s, t, i, j, above, row);
    }
    FirstCellIs(s, t, i);
  }

  lemma CellFollows(s: Bytes, t: Bytes, i: nat, j: nat, above: seq<nat>, row: seq<nat>)
    requires 0 < i <= |s| && 0 < j <= |t| && |above| == |row| == |t| + 1
    requires forall k :: 0 <= k <= |t| ==> row[k] == Distance(s[..i], t[..k])
    requires forall k :: 0 <= k <= |t| ==> above[k] == Distance(s[..i - 1], t[..k])
    ensures CellFrom(above, row, j, s[i - 1], t)
  {
    CellIs(s, t, i, j);
  }

  lemma FirstCellIs(s: Bytes, t: Bytes, i: nat)
    requires 0 < i <= |s|
    ensures Distance(s[..i], t[..0]) == i
  {
    assert s[..i] != [] && t[..0] == [];
  }

  /** The table whose last cell is the distance; row 0 counts from zero. */
  lemma Table(s: Bytes, t: Bytes) returns (rows: seq<seq<nat>>)
    ensures IsTable(rows, s, t)
    ensures forall j :: 0 <= j <= |t| ==> rows[0][j] == j
    ensures rows[|s|][|t|] == Distance(s, t)
  {
    rows := seq(|s| + 1, i requires 0 <= i <= |s| => Row(s, t, i));
    forall i | 1 <= i <= |s| ensures RowFrom(rows[i - 1], rows[i], i, s[i - 1], t) {
      RowsFollow(s, t, i);
    }
    assert s[..|s|] == s && t[..|t|] == t;
  }

  ghost predicate IsTable(rows: seq<seq<nat>>, s: Bytes, t: Bytes) {
    && |rows| == |s| + 1
    && (forall i :: 0 <= i <= |s| ==> |rows[i]| == |t| + 1)
    && (forall i :: 1 <= i <= |s| ==> RowFrom(rows[i - 1], rows[i], i, s[i - 1], t))
  }

  method StrDistance(s1: String, s2: String) returns (d: nat)
    requires Valid(s1) && Valid(s2)
    ensures d == Distance(Text(s1), Text(s2))
    ensures IsLeastEdits(d, Text(s1), Text(s2))
  {
    if StrCmp(s1, s2) == 0 {
      CompareZeroIff(Text(s1), Text(s2));
      DistanceZeroIff(Text(s1), Text(s2));
      d := 0;
    } else if s1.len == 0 {
      d := s2.len;
    } else if s2.len == 0 {
      d := s1.len;
    } else {
      d := TableDistance(s1, s2);
    }
    DistanceIsLeastEdits(Text(s1), Text(s2));
  }

  /** tn_strdistance from line 761 on. */
  method TableDistance(s1: String, s2: String) returns (d: nat)
    requires Valid(s1) && Valid(s2)
    ensures d == Distance(Text(s1), Text(s2))
  {
    ghost var s, t := Text(s1), Text(s2);
    ghost var rows := Table(s, t);
    ghost var blobs := Blobs(s1) + Blobs(s2);
    var prevRow := new nat[s2.len + 1];
    var curRow := new nat[s2.len + 1];
    assert prevRow !in blobs && curRow !in blobs;
    FillFirstRow(prevRow);
    var i := 1;
    while i <= s1.len
      invariant 1 <= i <= s1.len + 1
      invariant prevRow != curRow && fresh(prevRow) && fresh(curRow) && prevRow !in blobs && curRow !in blobs
      invariant curRow.Length == s2.len + 1 && Holds(prevRow, rows[i - 1])
      invariant Text(s1) == s && Text(s2) == t
    {
      FillRow(prevRow, curRow, s1, s2, i, rows);
      prevRow, curRow := curRow, prevRow;
      i := i + 1;
    }
    d := prevRow[s2.len];
  }

  method FillFirstRow(row: array<nat>)
    modifies row
    ensures forall k :: 0 <= k < row.Length ==> row[k] == k
  {
    var i := 0;
    while i < row.Length
      invariant 0 <= i <= row.Length
      invariant forall k :: 0 <= k < i ==> row[k] == k
    {
      row[i] := i;
      i := i + 1;
    }
  }

  ghost predicate Holds(a: array<nat>, row: seq<nat>)
    reads a
  {
    a.Length == |row| && forall k :: 0 <= k < |row| ==> a[k] == row[k]
  }

  /** The inner loop of tn_strdistance, for row i. */
  method FillRow(prevRow: array<nat>, curRow: array<nat>, s1: String, s2: String, i: nat, ghost rows: seq<seq<nat>>)
    requires Valid(s1) && Valid(s2) && 1 <= i <= s1.len
    requires prevRow != curRow && curRow.Length == s2.len + 1
    requires IsTable(rows, Text(s1), Text(s2)) && Holds(prevRow, rows[i - 1])
    modifies curRow
    ensures Holds(curRow, rows[i])
  {
    ghost var above, row := rows[i - 1], rows[i];
    var x := CharAt(s1, i - 1);
    assert RowFrom(above, row, i, x, Text(s2));
    curRow[0] := i;
    var j := 1;
    while j <= s2.len
      invariant 1 <= j <= s2.len + 1
      invariant forall k :: 0 <= k < j ==> curRow[k] == row[k]
    {
      assert CellFrom(above, row, j, x, Text(s2));
      var substitution := prevRow[j - 1] + Mismatch(CharAt(s2, j - 1), x);
      curRow[j] := Min3(curRow[j - 1] + 1, prevRow[j] + 1, substitution);
      j := j + 1;
    }
  }
}
