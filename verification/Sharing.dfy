/**
 Any sequence of string operations, over a pool of strings that share blobs: the pointers
 and the bytes of every string already in the pool are there at the end, and each new string
 says what its operation means on plain byte sequences.
 */
module Sharing {
  import opened Basics
  import opened ByteStrings
  import opened Strings

  // Arguments are places in the pool; fill is what the allocated memory holds.
  datatype Operation =
    | Cat(i: nat, j: nat)
    | AddCh(i: nat, ch: byte)
    | Cats(args: seq<nat>, sep: nat)
    | Sub(i: nat, pos: nat, len: nat)
    | Cut(i: nat, pos: nat, len: nat, fill: nat -> byte)
    | LcPrefix(i: nat, j: nat)
    | LcSuffix(i: nat, j: nat)
    | Copy(i: nat) // tn_str2cstr, seen again as a string
    | Token(i: nat, p: byte -> bool) // tn_strtok on a copy of the string variable
    | Map(i: nat, f: byte -> byte, fill: nat -> byte)
    | Filter(i: nat, p: byte -> bool)
    | Times(i: nat, n: nat)

  /** What the callee asks of its arguments, in a pool whose strings have these lengths. */
  predicate Callable(op: Operation, lens: seq<nat>) {
    match op
    case Cat(i, j) => i < |lens| && j < |lens|
    case AddCh(i, _) => i < |lens|
    case Cats(args, sep) => sep < |lens| && forall k :: 0 <= k < |args| ==> args[k] < |lens|
    case Sub(i, pos, len) => i < |lens| && (pos >= lens[i] || pos + len <= SIZE_MAX)
    case Cut(i, pos, len, _) => i < |lens| && CutFits(lens[i], pos, len)
    case LcPrefix(i, j) => i < |lens| && j < |lens|
    case LcSuffix(i, j) => i < |lens| && j < |lens|
    case Copy(i) => i < |lens|
    case Token(i, _) => i < |lens|
    case Map(i, _, _) => i < |lens|
    case Filter(i, _) => i < |lens|
    case Times(i, _) => i < |lens|
  }

  function Lengths(texts: seq<Bytes>): (r: seq<nat>)
    ensures |r| == |texts|
  {
    seq(|texts|, i requires 0 <= i < |texts| => |texts[i]|)
  }

  function Pick(texts: seq<Bytes>, args: seq<nat>): (r: seq<Bytes>)
    requires forall k :: 0 <= k < |args| ==> args[k] < |texts|
    ensures |r| == |args| && forall k :: 0 <= k < |r| ==> r[k] == texts[args[k]]
  {
    seq(|args|, k requires 0 <= k < |args| => texts[args[k]])
  }

  /** r is the result of op on strings that say texts. */
  ghost predicate Means(op: Operation, texts: seq<Bytes>, r: Bytes)
    requires Callable(op, Lengths(texts))
  {
    match op
    case Cat(i, j) => r == texts[i] + texts[j]
    case AddCh(i, ch) => r == texts[i] + [ch]
    case Cats(args, sep) => r == Join(Pick(texts, args), texts[sep])
    case Sub(i, pos, len) => r == Slice(texts[i], pos, len)
    case Cut(i, pos, len, _) => r == Remains(texts[i], pos, len)
    case LcPrefix(i, j) => r == CommonPrefix(texts[i], texts[j])
    case LcSuffix(i, j) => r == CommonSuffix(texts[i], texts[j])
    case Copy(i) => r == texts[i]
    case Token(i, p) => r == FirstToken(p, texts[i])
    case Map(i, f, _) => r == Mapped(f, texts[i])
    case Filter(i, p) => r == Kept(p, texts[i])
    case Times(i, n) => r == Repeated(texts[i], n)
  }

  /** The two operations that leave the byte behind their result as it was allocated. */
  predicate LeavesByte(op: Operation, lens: seq<nat>)
    requires Callable(op, lens)
  {
    match op
    case Cut(i, pos, len, _) => CutCopies(lens[i], pos, len)
    case Map(i, _, _) => lens[i] > 0
    case _ => false
  }

  /** That byte happens to be a NUL, or is not left. */
  predicate Ends(op: Operation, lens: seq<nat>, r: Bytes)
    requires Callable(op, lens)
  {
    LeavesByte(op, lens) ==> op.fill(|r|) == 0
  }

  function WithFill(op: Operation, fill: nat -> byte): Operation {
    match op
    case Cut(i, pos, len, _) => Cut(i, pos, len, fill)
    case Map(i, f, _) => Map(i, f, fill)
    case _ => op
  }

  /** The result is ended whatever the memory holds exactly when the operation leaves no byte. */
  lemma AlwaysEndsIff(op: Operation, lens: seq<nat>, r: Bytes)
    requires Callable(op, lens)
    ensures (forall fill: nat -> byte :: Ends(WithFill(op, fill), lens, r)) <==> !LeavesByte(op, lens)
  {
    if LeavesByte(op, lens) {
      var ones: nat -> byte := _ => 1;
      assert !Ends(WithFill(op, ones), lens, r);
    }
  }

  /** Every result follows from the strings before it, and those are all still there. */
  ghost predicate Explains(ops: seq<Operation>, before: seq<Bytes>, after: seq<Bytes>) {
    && |after| == |before| + |ops|
    && before == after[..|before|]
    && forall k :: 0 <= k < |ops| ==>
         Callable(ops[k], Lengths(after[..|before| + k])) && Means(ops[k], after[..|before| + k], after[|before| + k])
  }

  /** No operation of the sequence left a byte that is not a NUL. */
  ghost predicate AllEnd(ops: seq<Operation>, before: seq<Bytes>, after: seq<Bytes>)
    requires Explains(ops, before, after)
  {
    forall k :: 0 <= k < |ops| ==> Ends(ops[k], Lengths(after[..|before| + k]), after[|before| + k])
  }

  lemma AllEndOneMore(ops: seq<Operation>, op: Operation, before: seq<Bytes>, after: seq<Bytes>, r: Bytes)
    requires Explains(ops, before, after) && Callable(op, Lengths(after)) && Explains(ops + [op], before, after + [r])
    ensures AllEnd(ops + [op], before, after + [r]) <==> AllEnd(ops, before, after) && Ends(op, Lengths(after), r)
  {
    var more, longer := ops + [op], after + [r];
    forall k | 0 <= k < |ops| ensures longer[..|before| + k] == after[..|before| + k] && more[k] == ops[k] {
    }
    assert longer[..|before| + |ops|] == after;
    if AllEnd(more, before, longer) {
      assert Ends(more[|ops|], Lengths(longer[..|before| + |ops|]), longer[|before| + |ops|]);
      forall k | 0 <= k < |ops| ensures Ends(ops[k], Lengths(after[..|before| + k]), after[|before| + k]) {
        assert Ends(more[k], Lengths(longer[..|before| + k]), longer[|before| + k]);
      }
    }
  }

  function Refilled(ops: seq<Operation>, fill: nat -> byte): (r: seq<Operation>)
    ensures |r| == |ops| && forall k :: 0 <= k < |r| ==> r[k] == WithFill(ops[k], fill)
  {
    seq(|ops|, k requires 0 <= k < |ops| => WithFill(ops[k], fill))
  }

  ghost predicate SomeByteIsLeft(ops: seq<Operation>, before: seq<Bytes>, after: seq<Bytes>)
    requires Explains(ops, before, after)
  {
    exists k :: 0 <= k < |ops| && LeavesByte(ops[k], Lengths(after[..|before| + k]))
  }

  lemma RefilledExplains(ops: seq<Operation>, before: seq<Bytes>, after: seq<Bytes>, fill: nat -> byte)
    requires Explains(ops, before, after)
    ensures Explains(Refilled(ops, fill), before, after)
  {
    forall k | 0 <= k < |ops|
      ensures Callable(Refilled(ops, fill)[k], Lengths(after[..|before| + k]))
      ensures Means(Refilled(ops, fill)[k], after[..|before| + k], after[|before| + k])
    {
      assert Refilled(ops, fill)[k] == WithFill(ops[k], fill);
    }
  }

  /** A sequence ends all its results, whatever the memory holds, exactly when it leaves no byte. */
  lemma SequenceAlwaysEndsIff(ops: seq<Operation>, before: seq<Bytes>, after: seq<Bytes>)
    requires Explains(ops, before, after)
    ensures (forall fill: nat -> byte :: Explains(Refilled(ops, fill), before, after)
                                      && AllEnd(Refilled(ops, fill), before, after))
       <==> !SomeByteIsLeft(ops, before, after)
  {
    forall fill: nat -> byte ensures Explains(Refilled(ops, fill), before, after) {
      RefilledExplains(ops, before, after, fill);
    }
    if SomeByteIsLeft(ops, before, after) {
      var k :| 0 <= k < |ops| && LeavesByte(ops[k], Lengths(after[..|before| + k]));
      LeftByteShows(ops, before, after, k, _ => 1);
    } else {
      forall fill: nat -> byte ensures AllEnd(Refilled(ops, fill), before, after) {
        NoByteIsLeft(ops, before, after, fill);
      }
    }
  }

  lemma LeftByteShows(ops: seq<Operation>, before: seq<Bytes>, after: seq<Bytes>, k: nat, fill: nat -> byte)
    requires Explains(ops, before, after) && Explains(Refilled(ops, fill), before, after)
    requires k < |ops| && LeavesByte(ops[k], Lengths(after[..|before| + k])) && forall i :: fill(i) != 0
    ensures !AllEnd(Refilled(ops, fill), before, after)
  {
    assert Refilled(ops, fill)[k] == WithFill(ops[k], fill);
    assert !Ends(Refilled(ops, fill)[k], Lengths(after[..|before| + k]), after[|before| + k]);
  }

  lemma NoByteIsLeft(ops: seq<Operation>, before: seq<Bytes>, after: seq<Bytes>, fill: nat -> byte)
    requires Explains(ops, before, after) && Explains(Refilled(ops, fill), before, after)
    requires !SomeByteIsLeft(ops, before, after)
    ensures AllEnd(Refilled(ops, fill), before, after)
  {
    forall k | 0 <= k < |ops|
      ensures Ends(Refilled(ops, fill)[k], Lengths(after[..|before| + k]), after[|before| + k])
    {
      assert Refilled(ops, fill)[k] == WithFill(ops[k], fill);
      assert !LeavesByte(ops[k], Lengths(after[..|before| + k]));
    }
  }

  lemma ExplainsOneMore(ops: seq<Operation>, op: Operation, before: seq<Bytes>, after: seq<Bytes>, r: Bytes)
    requires Explains(ops, before, after) && Callable(op, Lengths(after)) && Means(op, after, r)
    ensures Explains(ops + [op], before, after + [r])
  {
    var longer := after + [r];
    forall k | 0 <= k < |ops + [op]|
      ensures Callable((ops + [op])[k], Lengths(longer[..|before| + k]))
      ensures Means((ops + [op])[k], longer[..|before| + k], longer[|before| + k])
    {
      assert longer[..|before| + k] == if k < |ops| then after[..|before| + k] else after;
    }
  }

  // ----- each operation, on arguments of which the text and the ending are known

  /** s says t, and is ended or not as e says. */
  ghost predicate Shows(s: String, t: Bytes, e: bool)
    reads Blobs(s)
  {
    Valid(s) && Text(s) == t && Ended(s) == e
  }

  method CatSaying(s1: String, s2: String, ghost t1: Bytes, ghost t2: Bytes, ghost e1: bool, ghost e2: bool)
    returns (r: String)
    requires Shows(s1, t1, e1) && Shows(s2, t2, e2)
    ensures Valid(r) && Text(r) == t1 + t2 && (e1 && e2 ==> Ended(r))
  {
    r := StrCat(s1, s2);
    assert Shows(s1, t1, e1) && Shows(s2, t2, e2);
  }

  method AddChSaying(s: String, ch: byte, ghost t: Bytes) returns (r: String)
    requires Valid(s) && Text(s) == t
    ensures Valid(r) && Text(r) == t + [ch] && Ended(r)
  {
    r := StrAddCh(s, ch);
    TerminatedIsEnded(r);
  }

  method CutSaying(s: String, pos: nat, len: nat, fill: nat -> byte, ghost t: Bytes, ghost e: bool) returns (r: String)
    requires Shows(s, t, e) && CutFits(s.len, pos, len)
    ensures Valid(r) && Text(r) == Remains(t, pos, len)
    ensures e ==> (Ended(r) <==> CutCopies(s.len, pos, len) ==> fill(r.len) == 0)
  {
    r := StrCut(s, pos, len, fill);
    assert Shows(s, t, e);
    if e {
      CutEnds(s, pos, len, r, fill(r.len));
    }
  }

  lemma CutEnds(s: String, pos: nat, len: nat, r: String, left: byte)
    requires Valid(s) && CutFits(s.len, pos, len) && Ended(s) && Valid(r)
    requires if CutCopies(s.len, pos, len) then Ended(r) <==> left == 0 else r == CutView(s, pos, len)
    ensures Ended(r) <==> CutCopies(s.len, pos, len) ==> left == 0
  {
    if !CutCopies(s.len, pos, len) {
      CutViewIsEnded(s, pos, len);
    }
  }

  lemma CutViewIsEnded(s: String, pos: nat, len: nat)
    requires Valid(s) && CutFits(s.len, pos, len) && !CutCopies(s.len, pos, len) && Ended(s)
    ensures Valid(CutView(s, pos, len)) && Ended(CutView(s, pos, len))
  {
    CutViewSays(s, pos, len);
    if pos < s.len && len > 0 {
      if pos == 0 && len < s.len {
        PartStaysEnded(s, len, s.len);
      } else {
        FirstBytesEnded(s, pos);
      }
    }
  }

  lemma FirstBytesEnded(s: String, n: nat)
    requires Valid(s) && n <= s.len && Ended(s)
    ensures Ended(FirstBytes(s, n))
  {
    if n > 0 {
      PartStaysEnded(s, 0, n);
    }
  }

  method LcPrefixSaying(s1: String, s2: String, ghost t1: Bytes, ghost t2: Bytes, ghost e1: bool, ghost e2: bool)
    returns (r: String)
    requires Shows(s1, t1, e1) && Shows(s2, t2, e2)
    ensures Valid(r) && Text(r) == CommonPrefix(t1, t2) && (e1 ==> Ended(r))
  {
    r := StrLcPrefix(s1, s2);
    assert Shows(s1, t1, e1) && Shows(s2, t2, e2);
    if e1 {
      FirstBytesEnded(s1, r.len);
    }
  }

  method LcSuffixSaying(s1: String, s2: String, ghost t1: Bytes, ghost t2: Bytes, ghost e1: bool, ghost e2: bool)
    returns (r: String)
    requires Shows(s1, t1, e1) && Shows(s2, t2, e2)
    ensures Valid(r) && Text(r) == CommonSuffix(t1, t2) && (e1 ==> Ended(r))
  {
    r := StrLcSuffix(s1, s2);
    assert Shows(s1, t1, e1) && Shows(s2, t2, e2);
    if e1 {
      LastBytesEnded(s1, r.len);
    }
  }

  lemma LastBytesEnded(s: String, n: nat)
    requires Valid(s) && n <= s.len && Ended(s)
    ensures Ended(LastBytes(s, n))
  {
    if n > 0 {
      PartStaysEnded(s, s.len - n, s.len);
    }
  }

  method CopySaying(s: String, ghost t: Bytes) returns (r: String)
    requires Valid(s) && Text(s) == t
    ensures Valid(r) && Text(r) == t && Ended(r)
  {
    var p := Str2CStr(s);
    r := String(s.len, p);
    TerminatedIsEnded(r);
  }

  method TokenSaying(s: String, p: byte -> bool, ghost t: Bytes, ghost e: bool) returns (r: String)
    requires Shows(s, t, e)
    ensures Valid(r) && Text(r) == FirstToken(p, t) && (e ==> Ended(r))
  {
    ghost var i, j := Scan(p, t, 0), Scan(Not(p), t, Scan(p, t, 0));
    var src := new StringVar(s);
    var tok := new StringVar(EMPTY);
    var found := StrTok(src, p, tok);
    r := tok.value;
    assert Shows(s, t, e);
    if found {
      TokenPart(s, i, j);
    } else {
      assert FirstToken(p, t) == [];
    }
  }

  lemma TokenPart(s: String, i: nat, j: nat)
    requires Valid(s) && s.str.At? && i <= j <= s.len
    ensures Valid(Part(s, i, j)) && Text(Part(s, i, j)) == Text(s)[i..j] && (Ended(s) ==> Ended(Part(s, i, j)))
  {
    PartIs(s, i, j);
    if Ended(s) {
      PartStaysEnded(s, i, j);
    }
  }

  method MapSaying(s: String, f: byte -> byte, fill: nat -> byte, ghost t: Bytes) returns (r: String)
    requires Valid(s) && Text(s) == t
    ensures Valid(r) && Text(r) == Mapped(f, t)
    ensures Ended(r) <==> s.len > 0 ==> fill(s.len) == 0
  {
    r := StrMap(s, f, fill);
    assert Text(s) == t;
  }

  method FilterSaying(s: String, p: byte -> bool, ghost t: Bytes) returns (r: String)
    requires Valid(s) && Text(s) == t
    ensures Valid(r) && Text(r) == Kept(p, t) && Ended(r)
  {
    r := StrFilter(s, p);
    assert Text(s) == t;
    if s.len > 0 {
      TerminatedIsEnded(r);
    }
  }

  method TimesSaying(s: String, n: nat, ghost t: Bytes, ghost e: bool) returns (r: String)
    requires Shows(s, t, e)
    ensures Valid(r) && Text(r) == Repeated(t, n) && (e ==> Ended(r))
  {
    r := StrRepeat(s, n);
    assert Shows(s, t, e);
    if n > 1 && s.len > 0 {
      TerminatedIsEnded(r);
    }
  }

  /** The pool's strings say texts, and are ended or not as ends says. */
  ghost predicate PoolShows(pool: seq<String>, texts: seq<Bytes>, ends: seq<bool>)
    reads AllBlobs(pool)
  {
    && |pool| == |texts| == |ends|
    && forall i :: 0 <= i < |pool| ==> Shows(pool[i], texts[i], ends[i])
  }

  predicate AllTrue(ends: seq<bool>) {
    forall i :: 0 <= i < |ends| ==> ends[i]
  }

  lemma PoolSays(pool: seq<String>, texts: seq<Bytes>, ends: seq<bool>)
    requires PoolShows(pool, texts, ends)
    ensures AllValid(pool) && Texts(pool) == texts && Say(pool, texts) && (AllEnded(pool) <==> AllTrue(ends))
  {
    forall i | 0 <= i < |pool| ensures Valid(pool[i]) && Text(pool[i]) == texts[i] && Ended(pool[i]) == ends[i] {
      assert Shows(pool[i], texts[i], ends[i]);
    }
    SayTexts(pool, texts);
  }

  lemma PoolShowsOneMore(pool: seq<String>, texts: seq<Bytes>, ends: seq<bool>, s: String, t: Bytes, e: bool)
    requires PoolShows(pool, texts, ends) && Shows(s, t, e)
    ensures PoolShows(pool + [s], texts + [t], ends + [e])
  {
  }

  lemma PoolShowsPrefix(pool: seq<String>, texts: seq<Bytes>, ends: seq<bool>, n: nat)
    requires PoolShows(pool, texts, ends) && n <= |pool|
    ensures PoolShows(pool[..n], texts[..n], ends[..n])
  {
    forall i | 0 <= i < n ensures Shows(pool[..n][i], texts[..n][i], ends[..n][i]) {
      assert Shows(pool[i], texts[i], ends[i]);
    }
  }

  method CatsOf(pool: seq<String>, ghost texts: seq<Bytes>, ghost ends: seq<bool>, args: seq<nat>, sep: nat)
    returns (r: String)
    requires PoolShows(pool, texts, ends) && sep < |pool| && forall k :: 0 <= k < |args| ==> args[k] < |texts|
    ensures Valid(r) && Text(r) == Join(Pick(texts, args), texts[sep]) && (AllTrue(ends) ==> Ended(r))
  {
    assert Shows(pool[sep], texts[sep], ends[sep]);
    var strs := seq(|args|, k requires 0 <= k < |args| && args[k] < |pool| => pool[args[k]]);
    PoolSays(pool, texts, ends);
    ghost var e := |args| == 1 && ends[args[0]];
    assert |args| == 1 ==> Shows(strs[0], texts[args[0]], ends[args[0]]);
    r := StrCats(strs, pool[sep], Pick(texts, args), texts[sep]);
    if |args| > 1 {
      TerminatedIsEnded(r);
    } else if |args| == 1 {
      assert Shows(strs[0], texts[args[0]], ends[args[0]]);
    }
  }

  lemma SubStrStaysEnded(s: String, pos: nat, len: nat)
    requires Valid(s) && (pos >= s.len || pos + len <= SIZE_MAX)
    ensures Valid(SubStr(s, pos, len)) && (Ended(s) ==> Ended(SubStr(s, pos, len)))
  {
    SubStrIsSlice(s, pos, len);
    var r := SubStr(s, pos, len);
    if Ended(s) && r.str.At? {
      PartStaysEnded(s, pos, pos + r.len);
    }
  }

  method Perform(op: Operation, pool: seq<String>, ghost texts: seq<Bytes>, ghost ends: seq<bool>) returns (r: String)
    requires PoolShows(pool, texts, ends) && Callable(op, Lengths(texts))
    ensures Valid(r) && Means(op, texts, Text(r))
    ensures AllTrue(ends) ==> (Ended(r) <==> Ends(op, Lengths(texts), Text(r)))
  {
    match op {
      case Cat(i, j) => r := CatSaying(pool[i], pool[j], texts[i], texts[j], ends[i], ends[j]);
      case AddCh(i, ch) => r := AddChSaying(pool[i], ch, texts[i]);
      case Cats(args, sep) => r := CatsOf(pool, texts, ends, args, sep);
      case Sub(i, pos, len) =>
        SubStrIsSlice(pool[i], pos, len);
        r := SubStr(pool[i], pos, len);
        SubStrStaysEnded(pool[i], pos, len);
      case Cut(i, pos, len, fill) => r := CutSaying(pool[i], pos, len, fill, texts[i], ends[i]);
      case LcPrefix(i, j) => r := LcPrefixSaying(pool[i], pool[j], texts[i], texts[j], ends[i], ends[j]);
      case LcSuffix(i, j) => r := LcSuffixSaying(pool[i], pool[j], texts[i], texts[j], ends[i], ends[j]);
      case Copy(i) => r := CopySaying(pool[i], texts[i]);
      case Token(i, p) => r := TokenSaying(pool[i], p, texts[i], ends[i]);
      case Map(i, f, fill) => r := MapSaying(pool[i], f, fill, texts[i]);
      case Filter(i, p) => r := FilterSaying(pool[i], p, texts[i]);
      case Times(i, n) => r := TimesSaying(pool[i], n, texts[i], ends[i]);
    }
  }

  method PerformNext(op: Operation, pool: seq<String>, ghost texts: seq<Bytes>, ghost ends: seq<bool>)
    returns (callable: bool, r: String)
    requires PoolShows(pool, texts, ends)
    ensures callable <==> Callable(op, Lengths(texts))
    ensures callable ==> Valid(r) && Means(op, texts, Text(r))
    ensures callable && AllTrue(ends) ==> (Ended(r) <==> Ends(op, Lengths(texts), Text(r)))
    ensures PoolShows(pool, texts, ends)
  {
    var lens := PoolLengths(pool);
    assert lens == Lengths(texts);
    callable, r := Callable(op, lens), EMPTY;
    if callable {
      r := Perform(op, pool, texts, ends);
    }
  }

  /** If all strings of the pool were ended at first, they all are now exactly when no byte was left. */
  ghost predicate Tracks(done: seq<Operation>, before: seq<Bytes>, after: seq<Bytes>, ends: seq<bool>) {
    && Explains(done, before, after) && |ends| == |after|
    && (AllTrue(ends[..|before|]) ==> (AllTrue(ends) <==> AllEnd(done, before, after)))
  }

  lemma TracksOneMore(done: seq<Operation>, op: Operation, before: seq<Bytes>, after: seq<Bytes>, ends: seq<bool>,
                      r: Bytes, e: bool)
    requires Tracks(done, before, after, ends) && Callable(op, Lengths(after)) && Means(op, after, r)
    requires AllTrue(ends) ==> (e <==> Ends(op, Lengths(after), r))
    ensures Tracks(done + [op], before, after + [r], ends + [e])
  {
    ExplainsOneMore(done, op, before, after, r);
    AllEndOneMore(done, op, before, after, r);
    assert (ends + [e])[..|before|] == ends[..|before|];
    AllTrueOneMore(ends, e);
  }

  lemma AllTrueOneMore(ends: seq<bool>, e: bool)
    ensures AllTrue(ends + [e]) <==> AllTrue(ends) && e
  {
    if AllTrue(ends + [e]) {
      assert (ends + [e])[|ends|] == e;
      forall i | 0 <= i < |ends| ensures ends[i] {
        assert (ends + [e])[i] == ends[i];
      }
    }
  }

  /** One more operation, if it is callable. */
  method PerformAnother(op: Operation, pool: seq<String>, ghost done: seq<Operation>, ghost before: seq<Bytes>,
                        ghost after: seq<Bytes>, ghost ends: seq<bool>)
    returns (callable: bool, pool': seq<String>, ghost after': seq<Bytes>, ghost ends': seq<bool>)
    requires PoolShows(pool, after, ends) && Tracks(done, before, after, ends)
    ensures pool <= pool' && PoolShows(pool', after', ends') && callable == Callable(op, Lengths(after))
    ensures if callable then Tracks(done + [op], before, after', ends')
            else after' == after && Tracks(done, before, after', ends')
  {
    var r;
    callable, r := PerformNext(op, pool, after, ends);
    pool', after', ends' := pool, after, ends;
    if callable {
      TracksOneMore(done, op, before, after, ends, Text(r), Ended(r));
      PoolShowsOneMore(pool, after, ends, r, Text(r), Ended(r));
      pool', after', ends' := pool + [r], after + [Text(r)], ends + [Ended(r)];
    }
  }

  /**
   Performs operations until one is not callable; n is how many that were. If all strings were
   ended, they all are in the end exactly when no operation left a byte that is not a NUL.
   */
  method PerformAll(ops: seq<Operation>, pool: seq<String>) returns (pool': seq<String>, n: nat)
    requires AllValid(pool)
    ensures n <= |ops| && pool <= pool' && AllValid(pool')
    ensures Explains(ops[..n], Texts(pool), Texts(pool'))
    ensures AllEnded(pool) ==> (AllEnded(pool') <==> AllEnd(ops[..n], Texts(pool), Texts(pool')))
    ensures n < |ops| ==> !Callable(ops[n], Lengths(Texts(pool')))
  {
    ghost var before, ends := Texts(pool), EndsOf(pool);
    ghost var after;
    pool', n, after, ends := PerformEach(ops, pool, before, ends);
    assert pool'[..|pool|] == pool && after[..|pool|] == before;
    PoolShowsPrefix(pool', after, ends, |pool|);
    PoolSays(pool', after, ends);
    PoolSays(pool, before, ends[..|pool|]);
  }

  /** The loop of PerformAll. */
  method PerformEach(ops: seq<Operation>, pool: seq<String>, ghost before: seq<Bytes>, ghost first: seq<bool>)
    returns (pool': seq<String>, n: nat, ghost after: seq<Bytes>, ghost ends: seq<bool>)
    requires PoolShows(pool, before, first)
    ensures n <= |ops| && pool <= pool' && PoolShows(pool', after, ends)
    ensures Tracks(ops[..n], before, after, ends)
    ensures n < |ops| ==> !Callable(ops[n], Lengths(after))
  {
    pool', n, after, ends := pool, 0, before, first;
    ghost var done: seq<Operation> := [];
    TracksNone(before, first);
    while n < |ops|
      invariant n <= |ops| && pool <= pool' && done == ops[..n]
      invariant PoolShows(pool', after, ends) && Tracks(done, before, after, ends)
    {
      var callable;
      callable, pool', after, ends := PerformAnother(ops[n], pool', done, before, after, ends);
      if !callable {
        return;
      }
      TakeOneMore(ops, n);
      done := done + [ops[n]];
      n := n + 1;
    }
  }

  lemma TracksNone(before: seq<Bytes>, ends: seq<bool>)
    requires |before| == |ends|
    ensures Tracks([], before, before, ends)
  {
    assert ends[..|before|] == ends && before[..|before|] == before;
  }

  lemma TakeOneMore(ops: seq<Operation>, n: nat)
    requires n < |ops|
    ensures ops[..n + 1] == ops[..n] + [ops[n]]
  {
  }

  ghost function EndsOf(pool: seq<String>): (r: seq<bool>)
    requires AllValid(pool)
    reads AllBlobs(pool)
    ensures PoolShows(pool, Texts(pool), r)
  {
    seq(|pool|, i requires 0 <= i < |pool| reads AllBlobs(pool) => Ended(pool[i]))
  }

  function PoolLengths(pool: seq<String>): seq<nat> {
    seq(|pool|, i requires 0 <= i < |pool| => pool[i].len)
  }
}
