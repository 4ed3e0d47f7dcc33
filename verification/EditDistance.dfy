/**
 What tn_strdistance is for: the least number of single-character insertions, deletions and
 replacements that turn one string into another, and the laws that number obeys.
 */
module EditDistance {
  import opened Basics

  // ----- edit scripts

  datatype Edit<T> = Insert(at: nat, what: T) | Delete(at: nat) | Replace(at: nat, what: T)

  datatype Result<T> = NoPlace | Edited(text: seq<T>)

  /** One edit, wherever in the string; NoPlace when it has no such place. */
  function ApplyEdit<T>(e: Edit<T>, s: seq<T>): Result<T> {
    match e
    case Insert(at, x) => if at <= |s| then Edited(s[..at] + [x] + s[at..]) else NoPlace
    case Delete(at) => if at < |s| then Edited(s[..at] + s[at + 1..]) else NoPlace
    case Replace(at, x) => if at < |s| then Edited(s[..at] + [x] + s[at + 1..]) else NoPlace
  }

  /** The script is applied in order, each edit to what the ones before it left. */
  function Apply<T>(script: seq<Edit<T>>, s: seq<T>): Result<T>
    decreases |script|
  {
    if script == [] then Edited(s)
    else
      match ApplyEdit(script[0], s)
      case NoPlace => NoPlace
      case Edited(t) => Apply(script[1..], t)
  }

  /** d edits can turn s into t and no script with fewer can. */
  ghost predicate IsLeastEdits<T(!new)>(d: nat, s: seq<T>, t: seq<T>) {
    && (exists script: seq<Edit<T>> :: |script| == d && Apply(script, s) == Edited(t))
    && (forall script: seq<Edit<T>> :: Apply(script, s) == Edited(t) ==> d <= |script|)
  }

  // ----- the recurrence

  function Min3(a: nat, b: nat, c: nat): (m: nat)
    ensures m <= a && m <= b && m <= c && (m == a || m == b || m == c)
  {
    var ab := if a < b then a else b;
    if ab < c then ab else c
  }

  function Mismatch<T(==)>(x: T, y: T): nat {
    if x == y then 0 else 1
  }

  function Distance<T(==)>(s: seq<T>, t: seq<T>): nat
    decreases |s| + |t|
  {
    if s == [] then |t|
    else if t == [] then |s|
    else Min3(Distance(s, Init(t)) + 1, Distance(Init(s), t) + 1,
              Distance(Init(s), Init(t)) + Mismatch(Last(s), Last(t)))
  }

  // ----- metric laws

  lemma {:induction false} DistanceBounds<T>(s: seq<T>, t: seq<T>)
    ensures Distance(s, t) <= (if |s| < |t| then |t| else |s|)
    ensures |s| - |t| <= Distance(s, t) && |t| - |s| <= Distance(s, t)
    decreases |s| + |t|
  {
    if s != [] && t != [] {
      DistanceBounds(s, Init(t));
      DistanceBounds(Init(s), t);
      DistanceBounds(Init(s), Init(t));
    }
  }

  lemma {:induction false} DistanceZeroIff<T>(s: seq<T>, t: seq<T>)
    ensures Distance(s, t) == 0 <==> s == t
    decreases |s| + |t|
  {
    if s != [] && t != [] {
      DistanceZeroIff(Init(s), Init(t));
      assert s == Init(s) + [Last(s)] && t == Init(t) + [Last(t)];
    }
  }

  lemma {:induction false} DistanceSymmetric<T>(s: seq<T>, t: seq<T>)
    ensures Distance(s, t) == Distance(t, s)
    decreases |s| + |t|
  {
    if s != [] && t != [] {
      DistanceSymmetric(s, Init(t));
      DistanceSymmetric(Init(s), t);
      DistanceSymmetric(Init(s), Init(t));
    }
  }

  lemma {:induction false} DistanceTriangle<T>(s: seq<T>, t: seq<T>, u: seq<T>)
    ensures Distance(s, u) <= Distance(s, t) + Distance(t, u)
    decreases |s| + |t| + |u|
  {
    if s == [] || t == [] || u == [] {
      DistanceBounds(s, t);
      DistanceBounds(t, u);
      DistanceBounds(s, u);
    } else if Distance(s, t) == Distance(Init(s), t) + 1 {
      DistanceTriangle(Init(s), t, u);
    } else if Distance(t, u) == Distance(t, Init(u)) + 1 {
      DistanceTriangle(s, t, Init(u));
    } else if Distance(s, t) == Distance(s, Init(t)) + 1 {
      if Distance(t, u) == Distance(Init(t), u) + 1 {
        DistanceTriangle(s, Init(t), u);
      } else {
        DistanceTriangle(s, Init(t), Init(u));
      }
    } else if Distance(t, u) == Distance(Init(t), u) + 1 {
      DistanceTriangle(Init(s), Init(t), u);
    } else {
      DistanceTriangle(Init(s), Init(t), Init(u));
    }
  }

  // ----- common ends do not count

  lemma {:induction false} DistanceToExtension<T>(p: seq<T>, t: seq<T>)
    ensures Distance(p, p + t) == |t|
    decreases |t|
  {
    DistanceBounds(p, p + t);
    if t == [] {
      assert p + t == p;
      DistanceZeroIff(p, p);
    } else {
      DistanceToExtension(p, Init(t));
      assert Init(p + t) == p + Init(t);
    }
  }

  lemma EndOfConcat<T>(p: seq<T>, s: seq<T>)
    requires s != []
    ensures Init(p + s) == p + Init(s) && Last(p + s) == Last(s)
  {
  }

  lemma {:induction false} SamePrefix<T>(p: seq<T>, s: seq<T>, t: seq<T>)
    ensures Distance(p + s, p + t) == Distance(s, t)
    decreases |s| + |t|
  {
    if s == [] {
      assert p + s == p;
      DistanceToExtension(p, t);
    } else if t == [] {
      assert p + t == p;
      DistanceToExtension(p, s);
      DistanceSymmetric(p, p + s);
    } else {
      EndOfConcat(p, s);
      EndOfConcat(p, t);
      SamePrefix(p, s, Init(t));
      SamePrefix(p, Init(s), t);
      SamePrefix(p, Init(s), Init(t));
    }
  }

  lemma {:induction false} OneInFront<T>(x: T, s: seq<T>)
    ensures Distance([x] + s, s) == 1
    decreases |s|
  {
    DistanceBounds([x] + s, s);
    if s != [] {
      assert Init([x] + s) == [x] + Init(s) && Last([x] + s) == Last(s);
      OneInFront(x, Init(s));
    }
  }

  lemma {:induction false} SameSuffix<T>(s: seq<T>, t: seq<T>, q: seq<T>)
    ensures Distance(s + q, t + q) == Distance(s, t)
    decreases |q|
  {
    if q == [] {
      assert s + q == s && t + q == t;
    } else {
      var r := Init(q);
      SameSuffix(s, t, r);
      assert Init(s + q) == s + r && Init(t + q) == t + r && Last(s + q) == Last(t + q) == Last(q);
      OneAtEnd(s + q);
      OneAtEnd(t + q);
      DistanceTriangle(s + r, s + q, t + r);
      DistanceTriangle(s + r, t + q, t + r);
      DistanceSymmetric(s + r, s + q);
    }
  }

  lemma OneAtEnd<T>(s: seq<T>)
    requires s != []
    ensures Distance(s, Init(s)) == 1
  {
    DistanceBounds(s, Init(s));
    DistanceZeroIff(Init(s), Init(s));
  }

  // ----- the recurrence is the least cost of a script

  lemma InsertCostsOne<T>(p: seq<T>, x: T, q: seq<T>)
    ensures Distance(p + q, p + ([x] + q)) == Distance(p + ([x] + q), p + q) == 1
  {
    SamePrefix(p, q, [x] + q);
    OneInFront(x, q);
    DistanceSymmetric(q, [x] + q);
    DistanceSymmetric(p + q, p + ([x] + q));
  }

  lemma ReplaceCostsOne<T>(p: seq<T>, y: T, x: T, q: seq<T>)
    ensures Distance(p + ([y] + q), p + ([x] + q)) <= 1
  {
    SamePrefix(p, [y] + q, [x] + q);
    SameSuffix([y], [x], q);
    DistanceBounds([y], [x]);
  }

  lemma SplitAround<T>(s: seq<T>, at: nat)
    requires at < |s|
    ensures s == s[..at] + ([s[at]] + s[at + 1..])
  {
  }

  lemma OneEditCostsOne<T>(e: Edit<T>, s: seq<T>)
    requires ApplyEdit(e, s).Edited?
    ensures Distance(s, ApplyEdit(e, s).text) <= 1
  {
    match e
    case Insert(at, x) => InsertIsNear(s, at, x);
    case Delete(at) =>
      SplitAround(s, at);
      InsertCostsOne(s[..at], s[at], s[at + 1..]);
    case Replace(at, x) => ReplaceIsNear(s, at, x);
  }

  lemma InsertIsNear<T>(s: seq<T>, at: nat, x: T)
    requires at <= |s|
    ensures Distance(s, s[..at] + [x] + s[at..]) <= 1
  {
    InsertCostsOne(s[..at], x, s[at..]);
    assert s == s[..at] + s[at..];
    assert s[..at] + [x] + s[at..] == s[..at] + ([x] + s[at..]);
  }

  lemma ReplaceIsNear<T>(s: seq<T>, at: nat, x: T)
    requires at < |s|
    ensures Distance(s, s[..at] + [x] + s[at + 1..]) <= 1
  {
    SplitAround(s, at);
    ReplaceCostsOne(s[..at], s[at], x, s[at + 1..]);
    assert s[..at] + [x] + s[at + 1..] == s[..at] + ([x] + s[at + 1..]);
  }

  lemma {:induction false} NoScriptIsCheaper<T>(script: seq<Edit<T>>, s: seq<T>, t: seq<T>)
    requires Apply(script, s) == Edited(t)
    ensures Distance(s, t) <= |script|
    decreases |script|
  {
    if script == [] {
      DistanceZeroIff(s, t);
    } else {
      var mid := ApplyEdit(script[0], s).text;
      OneEditCostsOne(script[0], s);
      NoScriptIsCheaper(script[1..], mid, t);
      DistanceTriangle(s, mid, t);
    }
  }

  lemma {:induction false} ApplyAppend<T>(a: seq<Edit<T>>, b: seq<Edit<T>>, s: seq<T>)
    requires Apply(a, s).Edited?
    ensures Apply(a + b, s) == Apply(b, Apply(a, s).text)
    decreases |a|
  {
    if a == [] {
      assert a + b == b;
    } else {
      assert (a + b)[0] == a[0] && (a + b)[1..] == a[1..] + b;
      ApplyAppend(a[1..], b, ApplyEdit(a[0], s).text);
    }
  }

  /** A script that never reaches past its string can be used with more text behind it. */
  lemma {:induction false} ApplyBefore<T>(script: seq<Edit<T>>, s: seq<T>, q: seq<T>)
    requires Apply(script, s).Edited?
    ensures Apply(script, s + q) == Edited(Apply(script, s).text + q)
    decreases |script|
  {
    if script != [] {
      var e := script[0];
      var mid := ApplyEdit(e, s).text;
      assert ApplyEdit(e, s + q).Edited?;
      assert ApplyEdit(e, s + q).text == mid + q;
      ApplyBefore(script[1..], mid, q);
    }
  }

  lemma AppendInsert<T>(script: seq<Edit<T>>, s: seq<T>, t: seq<T>)
    requires t != [] && Apply(script, s) == Edited(Init(t))
    ensures Apply(script + [Insert(|t| - 1, Last(t))], s) == Edited(t)
  {
    var e := Insert(|t| - 1, Last(t));
    ApplyAppend(script, [e], s);
    assert ApplyEdit(e, Init(t)).text == t;
  }

  lemma PrependEdit<T>(e: Edit<T>, script: seq<Edit<T>>, s: seq<T>)
    requires ApplyEdit(e, s).Edited?
    ensures Apply([e] + script, s) == Apply(script, ApplyEdit(e, s).text)
  {
    assert ([e] + script)[0] == e && ([e] + script)[1..] == script;
  }

  /** Turning Init(s) into Init(t) also turns s into t, once their last characters agree. */
  lemma ExtendScript<T>(script: seq<Edit<T>>, s: seq<T>, t: seq<T>) returns (longer: seq<Edit<T>>)
    requires s != [] && t != [] && Apply(script, Init(s)) == Edited(Init(t))
    ensures |longer| == |script| + Mismatch(Last(s), Last(t))
    ensures Apply(longer, s) == Edited(t)
  {
    ApplyBefore(script, Init(s), [Last(t)]);
    assert t == Init(t) + [Last(t)] && s == Init(s) + [Last(s)];
    if Last(s) == Last(t) {
      longer := script;
    } else {
      var e := Replace(|s| - 1, Last(t));
      assert ApplyEdit(e, s).text == Init(s) + [Last(t)];
      PrependEdit(e, script, s);
      longer := [e] + script;
    }
  }

  lemma {:induction false} CheapestScript<T>(s: seq<T>, t: seq<T>) returns (script: seq<Edit<T>>)
    ensures |script| == Distance(s, t) && Apply(script, s) == Edited(t)
    decreases |s| + |t|
  {
    if s == [] && t == [] {
      script := [];
    } else if s == [] || (t != [] && Distance(s, t) == Distance(s, Init(t)) + 1) {
      script := CheapestScript(s, Init(t));
      AppendInsert(script, s, t);
      script := script + [Insert(|t| - 1, Last(t))];
    } else if t == [] || Distance(s, t) == Distance(Init(s), t) + 1 {
      var rest := CheapestScript(Init(s), t);
      var e: Edit<T> := Delete(|s| - 1);
      assert ApplyEdit(e, s).text == Init(s);
      PrependEdit(e, rest, s);
      script := [e] + rest;
    } else {
      var rest := CheapestScript(Init(s), Init(t));
      script := ExtendScript(rest, s, t);
    }
  }

  lemma DistanceIsLeastEdits<T(!new)>(s: seq<T>, t: seq<T>)
    ensures IsLeastEdits(Distance(s, t), s, t)
    ensures forall d: nat :: IsLeastEdits(d, s, t) ==> d == Distance(s, t)
  {
    var best := CheapestScript(s, t);
    forall script: seq<Edit<T>> | Apply(script, s) == Edited(t)
      ensures Distance(s, t) <= |script|
    {
      NoScriptIsCheaper(script, s, t);
    }
  }
}
