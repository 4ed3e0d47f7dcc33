/**
 What the operations of dstring.c mean, on plain byte sequences, and the laws that relate
 them: the order of tn_strcmp, the runs that tn_strtok finds, and joining against splitting.
 */
module ByteStrings {
  import opened Basics
  import opened EditDistance

  // ----- order

  /** Lexicographic order on unsigned bytes. */
  function Compare(s: Bytes, t: Bytes): (r: int)
    ensures -1 <= r <= 1
  {
    if s == [] then (if t == [] then 0 else -1)
    else if t == [] then 1
    else if s[0] < t[0] then -1
    else if s[0] > t[0] then 1
    else Compare(s[1..], t[1..])
  }

  /** k is the first place where s and t differ, and s has the smaller byte there. */
  predicate SmallerAt(s: Bytes, t: Bytes, k: nat) {
    k < |s| && k < |t| && s[..k] == t[..k] && s[k] < t[k]
  }

  /** What the order is: s comes before t exactly when it is a proper prefix, or smaller where they first differ. */
  lemma {:induction false} CompareNegativeIff(s: Bytes, t: Bytes)
    ensures Compare(s, t) < 0 <==> (s <= t && |s| < |t|) || exists k :: SmallerAt(s, t, k)
    decreases |s|
  {
    if s != [] && t != [] {
      forall k: nat
        ensures SmallerAt(s, t, k) <==> if k == 0 then s[0] < t[0] else s[0] == t[0] && SmallerAt(s[1..], t[1..], k - 1)
      {
        SmallerLater(s, t, k);
      }
      CompareNegativeIff(s[1..], t[1..]);
      if s[0] == t[0] {
        if k: nat :| SmallerAt(s[1..], t[1..], k) {
          assert SmallerAt(s, t, k + 1);
        }
        assert s == [s[0]] + s[1..] && t == [t[0]] + t[1..];
      } else {
        assert s[0] < t[0] ==> SmallerAt(s, t, 0);
      }
    }
  }

  lemma SmallerLater(s: Bytes, t: Bytes, k: nat)
    requires s != [] && t != []
    ensures SmallerAt(s, t, k) <==> if k == 0 then s[0] < t[0] else s[0] == t[0] && SmallerAt(s[1..], t[1..], k - 1)
  {
    if 0 < k < |s| && k < |t| {
      TakeCons(s, k);
      TakeCons(t, k);
      assert s[..k][0] == s[0] && t[..k][0] == t[0];
      assert s[..k][1..] == s[1..][..k - 1] && t[..k][1..] == t[1..][..k - 1];
    }
  }

  lemma TakeCons(s: Bytes, k: nat)
    requires 0 < k <= |s|
    ensures s[..k] == [s[0]] + s[1..][..k - 1] && s[..k][1..] == s[1..][..k - 1]
  {
  }

  lemma {:induction false} CompareZeroIff(s: Bytes, t: Bytes)
    ensures Compare(s, t) == 0 <==> s == t
    decreases |s|
  {
    if s != [] && t != [] {
      CompareZeroIff(s[1..], t[1..]);
      assert s == [s[0]] + s[1..] && t == [t[0]] + t[1..];
    }
  }

  lemma {:induction false} CompareAntisymmetric(s: Bytes, t: Bytes)
    ensures Compare(s, t) == -Compare(t, s)
    decreases |s|
  {
    if s != [] && t != [] {
      CompareAntisymmetric(s[1..], t[1..]);
    }
  }

  lemma {:induction false} CompareTransitive(s: Bytes, t: Bytes, u: Bytes)
    requires Compare(s, t) <= 0 && Compare(t, u) <= 0
    ensures Compare(s, u) <= 0
    ensures Compare(s, t) < 0 || Compare(t, u) < 0 ==> Compare(s, u) < 0
    decreases |s|
  {
    if s != [] && t != [] && u != [] && s[0] == t[0] == u[0] {
      CompareTransitive(s[1..], t[1..], u[1..]);
    }
  }

  /** A common prefix does not affect the order, so a prefix comes no later than its extension. */
  lemma {:induction false} CompareAfterPrefix(p: Bytes, s: Bytes, t: Bytes)
    ensures Compare(p + s, p + t) == Compare(s, t)
    decreases |p|
  {
    if p == [] {
      assert p + s == s && p + t == t;
    } else {
      CompareAfterPrefix(p[1..], s, t);
      assert (p + s)[1..] == p[1..] + s && (p + t)[1..] == p[1..] + t;
    }
  }

  lemma PrefixComesFirst(p: Bytes, s: Bytes)
    requires p <= s
    ensures Compare(p, s) <= 0
    ensures Compare(p, s) == 0 <==> |p| == |s|
  {
    CompareAfterPrefix(p, [], s[|p|..]);
    assert p + [] == p && p + s[|p|..] == s;
  }

  // ----- runs of characters

  /** The first place at or after i where p fails, or the end. */
  function Scan(p: byte -> bool, s: Bytes, i: nat): (j: nat)
    requires i <= |s|
    ensures i <= j <= |s|
    ensures forall k :: i <= k < j ==> p(s[k])
    ensures j < |s| ==> !p(s[j])
    decreases |s| - i
  {
    if i < |s| && p(s[i]) then Scan(p, s, i + 1) else i
  }

  lemma {:induction false} ScanIs(p: byte -> bool, s: Bytes, i: nat, j: nat)
    requires i <= j <= |s| && (forall k :: i <= k < j ==> p(s[k])) && (j < |s| ==> !p(s[j]))
    ensures Scan(p, s, i) == j
    decreases j - i
  {
    if i < j {
      ScanIs(p, s, i + 1, j);
    }
  }

  function Not(p: byte -> bool): byte -> bool {
    (c: byte) => !p(c)
  }

  predicate All(p: byte -> bool, s: Bytes) {
    forall k :: 0 <= k < |s| ==> p(s[k])
  }

  /** What calling tn_strtok until it returns false yields, p telling the delimiters. */
  function Tokens(p: byte -> bool, s: Bytes): seq<Bytes>
    decreases |s|
  {
    var i := Scan(p, s, 0);
    if i == |s| then []
    else
      var j := Scan(Not(p), s, i);
      [s[i..j]] + Tokens(p, s[j..])
  }

  /** The first token, or nothing. */
  function FirstToken(p: byte -> bool, s: Bytes): Bytes {
    var i := Scan(p, s, 0);
    s[i..Scan(Not(p), s, i)]
  }

  // ----- character by character

  function Mapped(f: byte -> byte, s: Bytes): (r: Bytes)
    ensures |r| == |s| && forall i :: 0 <= i < |r| ==> r[i] == f(s[i])
  {
    seq(|s|, i requires 0 <= i < |s| => f(s[i]))
  }

  function Kept(p: byte -> bool, s: Bytes): (r: Bytes)
    ensures |r| <= |s|
  {
    if s == [] then [] else Kept(p, Init(s)) + if p(Last(s)) then [Last(s)] else []
  }

  function Repeated(s: Bytes, n: nat): (r: Bytes)
    ensures |r| == n * |s|
  {
    if n == 0 then [] else Repeated(s, n - 1) + s
  }

  /** places are, in order, the places of the characters of s that p accepts, and kept are those. */
  predicate ArePlaces(p: byte -> bool, s: Bytes, places: seq<nat>, kept: Bytes) {
    && |places| == |kept|
    && (forall k :: 0 <= k < |places| ==> places[k] < |s| && kept[k] == s[places[k]])
    && (forall j, k :: 0 <= j < k < |places| ==> places[j] < places[k])
    && (forall i :: 0 <= i < |s| ==> (p(s[i]) <==> i in places))
  }

  lemma PlacesOneMore(p: byte -> bool, s: Bytes, x: byte, places: seq<nat>, kept: Bytes)
    requires ArePlaces(p, s, places, kept)
    ensures p(x) ==> ArePlaces(p, s + [x], places + [|s|], kept + [x])
    ensures !p(x) ==> ArePlaces(p, s + [x], places, kept)
  {
  }

  /** Those characters are kept, and no others. */
  lemma {:induction false} KeptPlaces(p: byte -> bool, s: Bytes) returns (places: seq<nat>)
    ensures ArePlaces(p, s, places, Kept(p, s))
    decreases |s|
  {
    places := [];
    if s != [] {
      places := KeptPlaces(p, Init(s));
      PlacesOneMore(p, Init(s), Last(s), places, Kept(p, Init(s)));
      assert Init(s) + [Last(s)] == s;
      if p(Last(s)) {
        places := places + [|s| - 1];
      } else {
        assert Kept(p, s) == Kept(p, Init(s)) + [];
      }
    }
  }

  /** Each of the n stretches is s. */
  lemma {:induction false} RepeatedStretch(s: Bytes, n: nat, j: nat)
    requires j < n
    ensures (j + 1) * |s| <= n * |s| && Repeated(s, n)[j * |s|..(j + 1) * |s|] == s
    decreases n
  {
    if j < n - 1 {
      RepeatedStretch(s, n - 1, j);
      assert Repeated(s, n)[..(n - 1) * |s|] == Repeated(s, n - 1);
      assert Repeated(s, n)[j * |s|..(j + 1) * |s|] == Repeated(s, n - 1)[j * |s|..(j + 1) * |s|];
    }
  }

  // ----- tokens are the maximal runs of non-delimiters

  datatype Span = Span(from: nat, to: nat)

  /** s[a..b] is a non-empty run of non-delimiters that cannot be extended either way. */
  predicate MaximalRun(p: byte -> bool, s: Bytes, r: Span) {
    && r.from < r.to <= |s|
    && (forall k :: r.from <= k < r.to ==> !p(s[k]))
    && (r.from > 0 ==> p(s[r.from - 1]))
    && (r.to < |s| ==> p(s[r.to]))
  }

  function Spans(p: byte -> bool, s: Bytes, from: nat): (r: seq<Span>)
    requires from <= |s|
    ensures forall k :: 0 <= k < |r| ==> r[k].from <= r[k].to <= |s|
    decreases |s| - from
  {
    var i := Scan(p, s, from);
    if i == |s| then []
    else
      var j := Scan(Not(p), s, i);
      [Span(i, j)] + Spans(p, s, j)
  }

  /** A place where a token may have ended, or the very start. */
  predicate Boundary(p: byte -> bool, s: Bytes, from: nat) {
    from == 0 || from == |s| || (from < |s| && p(s[from]))
  }

  lemma {:induction false} SpansAreMaximalRuns(p: byte -> bool, s: Bytes, from: nat)
    requires from <= |s| && Boundary(p, s, from)
    ensures forall r :: r in Spans(p, s, from) <==> MaximalRun(p, s, r) && from <= r.from
    decreases |s| - from
  {
    var i := Scan(p, s, from);
    if i == |s| {
      forall r | MaximalRun(p, s, r) ensures r.from < from {
        assert !p(s[r.from]);
      }
    } else {
      var j := Scan(Not(p), s, i);
      SpansAreMaximalRuns(p, s, j);
      assert MaximalRun(p, s, Span(i, j));
      forall r | MaximalRun(p, s, r) && from <= r.from < j ensures r == Span(i, j) {
        FirstRun(p, s, from, i, j, r);
      }
    }
  }

  lemma {:induction false} SpansAreInOrder(p: byte -> bool, s: Bytes, from: nat)
    requires from <= |s| && Boundary(p, s, from)
    ensures forall k :: 0 <= k < |Spans(p, s, from)| - 1 ==> Spans(p, s, from)[k].to < Spans(p, s, from)[k + 1].from
    decreases |s| - from
  {
    var i := Scan(p, s, from);
    if i < |s| {
      var j := Scan(Not(p), s, i);
      SpansAreInOrder(p, s, j);
      if j < |s| {
        assert Scan(p, s, j) > j;
      }
    }
  }

  lemma FirstRun(p: byte -> bool, s: Bytes, from: nat, i: nat, j: nat, r: Span)
    requires from <= i < j <= |s| && (forall k :: from <= k < i ==> p(s[k])) && (forall k :: i <= k < j ==> !p(s[k]))
    requires j < |s| ==> p(s[j])
    requires i == from ==> i == 0 || p(s[i - 1])
    requires MaximalRun(p, s, r) && from <= r.from < j
    ensures r == Span(i, j)
  {
    assert !p(s[r.from]);
    assert r.from > 0 ==> p(s[r.from - 1]);
    assert r.from == i;
    assert r.to < |s| ==> p(s[r.to]);
  }

  /** The scans of a suffix are the scans of the string from there. */
  lemma ScanOfSuffix(p: byte -> bool, s: Bytes, from: nat, i: nat)
    requires from <= i <= |s|
    ensures Scan(p, s[from..], i - from) == Scan(p, s, i) - from
  {
    ScanIs(p, s[from..], i - from, Scan(p, s, i) - from);
  }

  lemma FirstTokenOfSuffix(p: byte -> bool, s: Bytes, from: nat)
    requires from <= |s|
    ensures var i := Scan(p, s, from);
            Scan(p, s[from..], 0) == i - from && Scan(Not(p), s[from..], i - from) == Scan(Not(p), s, i) - from
  {
    ScanOfSuffix(p, s, from, from);
    ScanOfSuffix(Not(p), s, from, Scan(p, s, from));
  }

  lemma SliceOfSuffix(s: Bytes, from: nat, i: nat, j: nat)
    requires from <= i <= j <= |s|
    ensures s[from..][i - from..j - from] == s[i..j] && s[from..][j - from..] == s[j..]
  {
  }

  function SpanTexts(s: Bytes, spans: seq<Span>): (r: seq<Bytes>)
    requires forall k :: 0 <= k < |spans| ==> spans[k].from <= spans[k].to <= |s|
    ensures |r| == |spans| && forall k :: 0 <= k < |r| ==> r[k] == s[spans[k].from..spans[k].to]
  {
    if spans == [] then [] else [s[spans[0].from..spans[0].to]] + SpanTexts(s, spans[1..])
  }

  lemma TextsCons(s: Bytes, first: Span, spans: seq<Span>)
    requires first.from <= first.to <= |s|
    requires forall k :: 0 <= k < |spans| ==> spans[k].from <= spans[k].to <= |s|
    ensures SpanTexts(s, [first] + spans) == [s[first.from..first.to]] + SpanTexts(s, spans)
  {
    assert ([first] + spans)[1..] == spans;
  }

  lemma TokensUnfold(p: byte -> bool, s: Bytes, i: nat, j: nat, token: Bytes, rest: Bytes)
    requires i == Scan(p, s, 0) < |s| && j == Scan(Not(p), s, i)
    requires token == s[i..j] && rest == s[j..]
    ensures Tokens(p, s) == [token] + Tokens(p, rest)
  {
  }

  /** The first token of s[from..], in terms of s. */
  lemma TokensFrom(p: byte -> bool, s: Bytes, from: nat, i: nat, j: nat)
    requires from <= i < |s| && i == Scan(p, s, from) && j == Scan(Not(p), s, i)
    ensures Tokens(p, s[from..]) == [s[i..j]] + Tokens(p, s[j..])
  {
    ScanOfSuffix(p, s, from, from);
    ScanOfSuffix(Not(p), s, from, i);
    SliceOfSuffix(s, from, i, j);
    TokensUnfold(p, s[from..], i - from, j - from, s[i..j], s[j..]);
  }

  /** The tokens are the texts of the spans, in their order. */
  lemma {:induction false} TokensOfSpans(p: byte -> bool, s: Bytes, from: nat)
    requires from <= |s|
    ensures Tokens(p, s[from..]) == SpanTexts(s, Spans(p, s, from))
    decreases |s| - from
  {
    var i := Scan(p, s, from);
    if i < |s| {
      var j := Scan(Not(p), s, i);
      TokensOfSpans(p, s, j);
      TokensFrom(p, s, from, i, j);
      TextsCons(s, Span(i, j), Spans(p, s, j));
    } else {
      ScanOfSuffix(p, s, from, from);
    }
  }

  /** Main result on tokens: exactly the maximal runs of non-delimiters, in order. */
  lemma TokensAreTheMaximalRuns(p: byte -> bool, s: Bytes)
    ensures |Tokens(p, s)| == |Spans(p, s, 0)|
    ensures forall k :: 0 <= k < |Spans(p, s, 0)| ==>
              Tokens(p, s)[k] == s[Spans(p, s, 0)[k].from..Spans(p, s, 0)[k].to]
    ensures forall r :: r in Spans(p, s, 0) <==> MaximalRun(p, s, r)
    ensures forall k :: 0 <= k < |Spans(p, s, 0)| - 1 ==> Spans(p, s, 0)[k].to < Spans(p, s, 0)[k + 1].from
  {
    assert s[0..] == s;
    SpansAreMaximalRuns(p, s, 0);
    SpansAreInOrder(p, s, 0);
    TokensOfSpans(p, s, 0);
  }

  // ----- nothing is lost

  /** The delimiters skipped before each token. */
  function Gaps(p: byte -> bool, s: Bytes): (r: seq<Bytes>)
    ensures |r| == |Tokens(p, s)|
    decreases |s|
  {
    var i := Scan(p, s, 0);
    if i == |s| then []
    else [s[..i]] + Gaps(p, s[Scan(Not(p), s, i)..])
  }

  /** What is left of the string when tn_strtok first returns false. */
  function Tail(p: byte -> bool, s: Bytes): Bytes
    decreases |s|
  {
    var i := Scan(p, s, 0);
    if i == |s| then s else Tail(p, s[Scan(Not(p), s, i)..])
  }

  function Interleave(gaps: seq<Bytes>, tokens: seq<Bytes>, tail: Bytes): Bytes
    requires |gaps| == |tokens|
  {
    if gaps == [] then tail else gaps[0] + tokens[0] + Interleave(gaps[1..], tokens[1..], tail)
  }

  lemma CutInThree(s: Bytes, i: nat, j: nat)
    requires i <= j <= |s|
    ensures s == s[..i] + s[i..j] + s[j..]
  {
  }

  lemma {:induction false} NothingIsLost(p: byte -> bool, s: Bytes)
    ensures Interleave(Gaps(p, s), Tokens(p, s), Tail(p, s)) == s
    decreases |s|
  {
    var i := Scan(p, s, 0);
    if i < |s| {
      var j := Scan(Not(p), s, i);
      NothingIsLost(p, s[j..]);
      CutInThree(s, i, j);
    }
  }

  lemma {:induction false} GapsAreDelimiters(p: byte -> bool, s: Bytes)
    ensures All(p, Tail(p, s))
    ensures forall g :: g in Gaps(p, s) ==> All(p, g)
    decreases |s|
  {
    var i := Scan(p, s, 0);
    if i < |s| {
      GapsAreDelimiters(p, s[Scan(Not(p), s, i)..]);
    }
  }

  lemma {:induction false} TokensAreNot(p: byte -> bool, s: Bytes)
    ensures forall t :: t in Tokens(p, s) ==> t != [] && All(Not(p), t)
    decreases |s|
  {
    var i := Scan(p, s, 0);
    if i < |s| {
      var j := Scan(Not(p), s, i);
      TokensAreNot(p, s[j..]);
      assert All(Not(p), s[i..j]);
    }
  }

  lemma TailUnfold(p: byte -> bool, s: Bytes, i: nat, rest: Bytes)
    requires i == Scan(p, s, 0) < |s| && rest == s[Scan(Not(p), s, i)..]
    ensures Tail(p, s) == Tail(p, rest)
  {
  }

  /** The tail of text[at..], in terms of text. */
  lemma TailFrom(p: byte -> bool, text: Bytes, at: nat)
    requires at <= |text|
    ensures var i := Scan(p, text, at);
            Tail(p, text[at..]) == if i == |text| then text[at..] else Tail(p, text[Scan(Not(p), text, i)..])
  {
    var i := Scan(p, text, at);
    ScanOfSuffix(p, text, at, at);
    if i < |text| {
      var j := Scan(Not(p), text, i);
      ScanOfSuffix(Not(p), text, at, i);
      SliceOfSuffix(text, at, i, j);
      TailUnfold(p, text[at..], i - at, text[j..]);
    }
  }

  // ----- joining and splitting

  function Join(strs: seq<Bytes>, sep: Bytes): Bytes {
    if strs == [] then []
    else if |strs| == 1 then strs[0]
    else strs[0] + sep + Join(strs[1..], sep)
  }

  lemma {:induction false} JoinSnoc(strs: seq<Bytes>, sep: Bytes, last: Bytes)
    requires strs != []
    ensures Join(strs + [last], sep) == Join(strs, sep) + sep + last
    decreases |strs|
  {
    assert (strs + [last])[1..] == strs[1..] + [last];
    if |strs| > 1 {
      JoinSnoc(strs[1..], sep, last);
    } else {
      assert strs[1..] + [last] == [last];
    }
  }

  lemma TokensOfSuffix(p: byte -> bool, t: Bytes, n: nat)
    requires n <= |t| && forall k :: 0 <= k < n ==> p(t[k])
    ensures Tokens(p, t) == Tokens(p, t[n..])
  {
    var i := Scan(p, t, n);
    ScanIs(p, t, 0, i);
    if i < |t| {
      TokensUnfold(p, t, i, Scan(Not(p), t, i), t[i..Scan(Not(p), t, i)], t[Scan(Not(p), t, i)..]);
      TokensFrom(p, t, n, i, Scan(Not(p), t, i));
    } else {
      ScanOfSuffix(p, t, n, n);
    }
  }

  lemma TokensAfterDelimiters(p: byte -> bool, d: Bytes, s: Bytes)
    requires All(p, d)
    ensures Tokens(p, d + s) == Tokens(p, s)
  {
    assert (d + s)[|d|..] == s;
    TokensOfSuffix(p, d + s, |d|);
  }

  lemma TokensOfHead(p: byte -> bool, t: Bytes, rest: Bytes)
    requires t != [] && All(Not(p), t) && (rest != [] ==> p(rest[0]))
    ensures Tokens(p, t + rest) == [t] + Tokens(p, rest)
  {
    assert Not(p)(t[0]);
    ScanIs(p, t + rest, 0, 0);
    ScanIs(Not(p), t + rest, 0, |t|);
    assert (t + rest)[..|t|] == t && (t + rest)[|t|..] == rest;
  }

  lemma {:induction false} SplitOfJoin(p: byte -> bool, strs: seq<Bytes>, sep: Bytes)
    requires sep != [] && All(p, sep)
    requires forall k :: 0 <= k < |strs| ==> strs[k] != [] && All(Not(p), strs[k])
    ensures Tokens(p, Join(strs, sep)) == strs
    decreases |strs|
  {
    if |strs| == 1 {
      TokensOfHead(p, strs[0], []);
      assert strs[0] + [] == strs[0];
      assert strs == [strs[0]] + Tokens(p, []);
    } else if |strs| > 1 {
      var rest := Join(strs[1..], sep);
      SplitOfJoin(p, strs[1..], sep);
      assert strs[0] + sep + rest == strs[0] + (sep + rest);
      TokensOfHead(p, strs[0], sep + rest);
      TokensAfterDelimiters(p, sep, rest);
    }
  }

  /** With a non-empty separator of delimiters, splitting undoes joining for just these lists. */
  lemma SplitOfJoinIff(p: byte -> bool, strs: seq<Bytes>, sep: Bytes)
    requires sep != [] && All(p, sep)
    ensures Tokens(p, Join(strs, sep)) == strs
       <==> forall k :: 0 <= k < |strs| ==> strs[k] != [] && All(Not(p), strs[k])
  {
    if forall k :: 0 <= k < |strs| ==> strs[k] != [] && All(Not(p), strs[k]) {
      SplitOfJoin(p, strs, sep);
    } else {
      TokensAreNot(p, Join(strs, sep));
      if Tokens(p, Join(strs, sep)) == strs {
        forall k | 0 <= k < |strs| ensures strs[k] != [] && All(Not(p), strs[k]) {
          assert strs[k] in Tokens(p, Join(strs, sep));
        }
      }
    }
  }

  // ----- common prefixes and suffixes

  predicate IsSuffix(q: Bytes, s: Bytes) {
    |q| <= |s| && s[|s| - |q|..] == q
  }

  lemma IsSuffixIff(q: Bytes, s: Bytes)
    ensures IsSuffix(q, s) <==> exists front: Bytes :: s == front + q
  {
    if IsSuffix(q, s) {
      assert s == s[..|s| - |q|] + q;
    }
  }

  /** r is a prefix of both, and every other common prefix is a prefix of r. */
  ghost predicate LongestCommonPrefix(r: Bytes, s: Bytes, t: Bytes) {
    r <= s && r <= t && forall q: Bytes :: q <= s && q <= t ==> |q| <= |r| && q <= r
  }

  ghost predicate LongestCommonSuffix(r: Bytes, s: Bytes, t: Bytes) {
    && IsSuffix(r, s) && IsSuffix(r, t)
    && forall q: Bytes :: IsSuffix(q, s) && IsSuffix(q, t) ==> |q| <= |r| && IsSuffix(q, r)
  }

  /** The first place at or after i where s and t differ, or the end of the shorter one. */
  function AgreeTo(s: Bytes, t: Bytes, i: nat): (j: nat)
    requires i <= |s| && i <= |t|
    ensures i <= j <= |s| && j <= |t|
    decreases |s| - i
  {
    if i < |s| && i < |t| && s[i] == t[i] then AgreeTo(s, t, i + 1) else i
  }

  /** The same, counting from the end. */
  function AgreeBackTo(s: Bytes, t: Bytes, i: nat): (j: nat)
    requires i <= |s| && i <= |t|
    ensures i <= j <= |s| && j <= |t|
    decreases |s| - i
  {
    if i < |s| && i < |t| && s[|s| - i - 1] == t[|t| - i - 1] then AgreeBackTo(s, t, i + 1) else i
  }

  function CommonPrefix(s: Bytes, t: Bytes): Bytes {
    s[..AgreeTo(s, t, 0)]
  }

  function CommonSuffix(s: Bytes, t: Bytes): Bytes {
    s[|s| - AgreeBackTo(s, t, 0)..]
  }

  lemma {:induction false} AgreeUpTo(s: Bytes, t: Bytes, i: nat)
    requires i <= |s| && i <= |t| && s[..i] == t[..i]
    ensures var j := AgreeTo(s, t, i);
            s[..j] == t[..j] && (j == |s| || j == |t| || s[j] != t[j])
    decreases |s| - i
  {
    if i < |s| && i < |t| && s[i] == t[i] {
      assert s[..i + 1] == s[..i] + [s[i]] && t[..i + 1] == t[..i] + [t[i]];
      AgreeUpTo(s, t, i + 1);
    }
  }

  lemma {:induction false} AgreeBackUpTo(s: Bytes, t: Bytes, i: nat)
    requires i <= |s| && i <= |t|
    ensures var j := AgreeBackTo(s, t, i);
            && (j == |s| || j == |t| || s[|s| - j - 1] != t[|t| - j - 1])
            && forall k :: |s| - j <= k < |s| - i ==> s[k] == t[k + |t| - |s|]
    decreases |s| - i
  {
    if i < |s| && i < |t| && s[|s| - i - 1] == t[|t| - i - 1] {
      AgreeBackUpTo(s, t, i + 1);
    }
  }

  lemma SameEnd(s: Bytes, t: Bytes, j: nat)
    requires j <= |s| && j <= |t| && forall k :: |s| - j <= k < |s| ==> s[k] == t[k + |t| - |s|]
    ensures s[|s| - j..] == t[|t| - j..]
  {
  }

  lemma CommonPrefixAgrees(q: Bytes, s: Bytes, t: Bytes)
    requires q <= s && q <= t
    ensures forall k :: 0 <= k < |q| ==> s[k] == t[k]
  {
  }

  lemma CommonPrefixIsLongest(s: Bytes, t: Bytes)
    ensures LongestCommonPrefix(CommonPrefix(s, t), s, t)
  {
    AgreeUpTo(s, t, 0);
    forall q: Bytes | q <= s && q <= t ensures |q| <= AgreeTo(s, t, 0) && q <= CommonPrefix(s, t) {
      CommonPrefixAgrees(q, s, t);
    }
  }

  lemma CommonSuffixAgrees(q: Bytes, s: Bytes, t: Bytes, i: nat)
    requires IsSuffix(q, s) && IsSuffix(q, t)
    ensures i < |q| ==> s[|s| - i - 1] == t[|t| - i - 1]
  {
    if i < |q| {
      assert s[|s| - |q|..][|q| - i - 1] == t[|t| - |q|..][|q| - i - 1];
    }
  }

  lemma SuffixOfSuffix(q: Bytes, s: Bytes, i: nat)
    requires IsSuffix(q, s) && |q| <= i <= |s|
    ensures IsSuffix(q, s[|s| - i..])
  {
    assert s[|s| - i..][i - |q|..] == s[|s| - |q|..];
  }

  lemma CommonSuffixIsBoth(s: Bytes, t: Bytes)
    ensures IsSuffix(CommonSuffix(s, t), s) && IsSuffix(CommonSuffix(s, t), t)
  {
    AgreeBackUpTo(s, t, 0);
    SameEnd(s, t, AgreeBackTo(s, t, 0));
  }

  lemma CommonSuffixIsLongest(s: Bytes, t: Bytes)
    ensures LongestCommonSuffix(CommonSuffix(s, t), s, t)
  {
    CommonSuffixIsBoth(s, t);
    AgreeBackUpTo(s, t, 0);
    var i := AgreeBackTo(s, t, 0);
    forall q: Bytes | IsSuffix(q, s) && IsSuffix(q, t) ensures |q| <= i && IsSuffix(q, CommonSuffix(s, t)) {
      CommonSuffixAgrees(q, s, t, i);
      SuffixOfSuffix(q, s, i);
    }
  }

  /** The two strings without their common prefix and then the common suffix of the remainders. */
  function Core(s: Bytes, t: Bytes): (r: (Bytes, Bytes)) {
    var p := |CommonPrefix(s, t)|;
    var q := |CommonSuffix(s[p..], t[p..])|;
    (s[p..|s| - q], t[p..|t| - q])
  }

  lemma CommonEndsAre(s: Bytes, t: Bytes)
    ensures CommonPrefix(s, t) <= s && CommonPrefix(s, t) <= t
    ensures IsSuffix(CommonSuffix(s, t), s) && IsSuffix(CommonSuffix(s, t), t)
  {
    CommonPrefixIsLongest(s, t);
    CommonSuffixIsBoth(s, t);
  }

  lemma StrippingKeepsDistance(s: Bytes, t: Bytes)
    ensures Distance(Core(s, t).0, Core(s, t).1) == Distance(s, t)
  {
    var r := CommonPrefix(s, t);
    var q := CommonSuffix(s[|r|..], t[|r|..]);
    CommonEndsAre(s, t);
    CommonEndsAre(s[|r|..], t[|r|..]);
    StrippingBoth(s, t, r, q, Core(s, t).0, Core(s, t).1);
  }

  /** The two common ends, r and q, put what is left together again. */
  lemma CorePutsTogether(s: Bytes, t: Bytes) returns (r: Bytes, q: Bytes)
    ensures r == CommonPrefix(s, t) && q == CommonSuffix(s[|r|..], t[|r|..])
    ensures IsAround(s, r, Core(s, t).0, q) && IsAround(t, r, Core(s, t).1, q)
  {
    r := CommonPrefix(s, t);
    q := CommonSuffix(s[|r|..], t[|r|..]);
    CommonEndsAre(s, t);
    CommonEndsAre(s[|r|..], t[|r|..]);
    BothAround(s, t, r, q, Core(s, t).0, Core(s, t).1);
  }

  lemma BothAround(s: Bytes, t: Bytes, r: Bytes, q: Bytes, a: Bytes, b: Bytes)
    requires r <= s && r <= t && IsSuffix(q, s[|r|..]) && IsSuffix(q, t[|r|..])
    requires a == s[|r|..|s| - |q|] && b == t[|r|..|t| - |q|]
    ensures IsAround(s, r, a, q) && IsAround(t, r, b, q)
  {
    PutTogether(s, r, q, a);
    PutTogether(t, r, q, b);
  }

  /** s is a between r and q. */
  predicate IsAround(s: Bytes, r: Bytes, a: Bytes, q: Bytes) {
    s == r + (a + q)
  }

  lemma PutTogether(s: Bytes, r: Bytes, q: Bytes, a: Bytes)
    requires r <= s && IsSuffix(q, s[|r|..]) && a == s[|r|..|s| - |q|]
    ensures IsAround(s, r, a, q)
  {
    Surrounded(s, r, q);
  }

  /** And what is left has no common end any more. */
  lemma CoreEndsDiffer(s: Bytes, t: Bytes, a: Bytes, b: Bytes)
    requires (a, b) == Core(s, t) && a != [] && b != []
    ensures a[0] != b[0] && Last(a) != Last(b)
  {
    var m := |CommonPrefix(s, t)|;
    var s', t' := s[m..], t[m..];
    var n := |CommonSuffix(s', t')|;
    MiddleEnds(s, m, n, a);
    MiddleEnds(t, m, n, b);
    FirstDiffer(s, t, m);
    LastDiffer(s', t', n);
    assert s'[|s'| - n - 1] == s[|s| - n - 1] && t'[|t'| - n - 1] == t[|t| - n - 1];
  }

  lemma MiddleEnds(s: Bytes, m: nat, n: nat, a: Bytes)
    requires m + n < |s| && a == s[m..|s| - n]
    ensures a != [] && a[0] == s[m] && Last(a) == s[|s| - n - 1]
  {
  }

  lemma FirstDiffer(s: Bytes, t: Bytes, n: nat)
    requires n == |CommonPrefix(s, t)|
    ensures n < |s| && n < |t| ==> s[n] != t[n]
  {
    AgreeUpTo(s, t, 0);
  }

  lemma LastDiffer(s: Bytes, t: Bytes, n: nat)
    requires n == |CommonSuffix(s, t)|
    ensures n < |s| && n < |t| ==> s[|s| - n - 1] != t[|t| - n - 1]
  {
    AgreeBackUpTo(s, t, 0);
  }

  lemma StrippingBoth(s: Bytes, t: Bytes, r: Bytes, q: Bytes, a: Bytes, b: Bytes)
    requires r <= s && r <= t && IsSuffix(q, s[|r|..]) && IsSuffix(q, t[|r|..])
    requires a == s[|r|..|s| - |q|] && b == t[|r|..|t| - |q|]
    ensures Distance(a, b) == Distance(s, t)
  {
    Surrounded(s, r, q);
    Surrounded(t, r, q);
    SamePrefix(r, a + q, b + q);
    SameSuffix(a, b, q);
  }

  lemma Surrounded(s: Bytes, r: Bytes, q: Bytes)
    requires r <= s && IsSuffix(q, s[|r|..])
    ensures s == r + (s[|r|..|s| - |q|] + q)
  {
    assert s == r + s[|r|..];
    assert s[|r|..] == s[|r|..|s| - |q|] + s[|r|..][|s| - |r| - |q|..];
  }
}
