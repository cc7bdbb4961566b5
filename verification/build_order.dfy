/** The ordering of build versions used to pick the latest build of a train:
    the comparator block handed to `sort`, and `sorted.last`. */
module BuildOrder {
  import opened RubyString

  /** `parts[i].to_i`: indexing past the end of a Ruby array gives nil, and
      `nil.to_i` is 0, so a missing segment counts as 0. */
  function SegmentValue(parts: seq<String>, i: nat): (v: int)
    ensures i >= |parts| ==> v == 0
  {
    if i < |parts| then ToI(parts[i]) else 0
  }

  /** Ruby's `x <=> y` on integers. */
  function Spaceship(x: int, y: int): (r: int)
    ensures r == -1 <==> x < y
    ensures r == 0 <==> x == y
    ensures r == 1 <==> x > y
  {
    if x < y then -1 else if x > y then 1 else 0
  }

  /** The comparator block of the sort: -1, 0 or 1 as `a` sorts before, with
      or after `b`. The Ruby comparator block repeats each of the first four
      tests three times; the repeats can never fire and are written once here. */
  function Compare(a: String, b: String): (r: int)
    ensures -1 <= r <= 1
  {
    var aSplit := Split(a, Dot);
    var bSplit := Split(b, Dot);
    if SegmentValue(aSplit, 0) < SegmentValue(bSplit, 0) then -1
    else if SegmentValue(aSplit, 0) > SegmentValue(bSplit, 0) then 1
    else if SegmentValue(aSplit, 1) < SegmentValue(bSplit, 1) then -1
    else if SegmentValue(aSplit, 1) > SegmentValue(bSplit, 1) then 1
    else Spaceship(SegmentValue(aSplit, 2), SegmentValue(bSplit, 2))
  }

  // ---------------------------------------------------------------------------
  // The reference order: lexicographic on the first three segment values
  // ---------------------------------------------------------------------------

  datatype Key = Key(major: int, minor: int, patch: int)

  /** The integer values of the first three segments of a build version. */
  function KeyOf(s: String): Key {
    var parts := Split(s, Dot);
    Key(SegmentValue(parts, 0), SegmentValue(parts, 1), SegmentValue(parts, 2))
  }

  predicate KeyLess(k: Key, l: Key) {
    || k.major < l.major
    || (k.major == l.major && k.minor < l.minor)
    || (k.major == l.major && k.minor == l.minor && k.patch < l.patch)
  }

  /** The comparator is exactly the lexicographic order on the keys: it says
      "before" when the key is smaller, "tie" when the keys are equal and
      "after" when the key is larger. */
  lemma CompareIsKeyOrder(a: String, b: String)
    ensures Compare(a, b) == -1 <==> KeyLess(KeyOf(a), KeyOf(b))
    ensures Compare(a, b) == 0 <==> KeyOf(a) == KeyOf(b)
    ensures Compare(a, b) == 1 <==> KeyLess(KeyOf(b), KeyOf(a))
  {
  }

  /** Only the first three segments take part: two versions whose first three
      segment values agree compare alike against every other version. */
  lemma CompareIgnoresLaterSegments(a: String, a2: String, b: String)
    requires forall i: nat :: i < 3 ==> SegmentValue(Split(a, Dot), i) == SegmentValue(Split(a2, Dot), i)
    ensures Compare(a, b) == Compare(a2, b)
    ensures Compare(b, a) == Compare(b, a2)
  {
    assert KeyOf(a) == KeyOf(a2) by {
      assert SegmentValue(Split(a, Dot), 0) == SegmentValue(Split(a2, Dot), 0);
      assert SegmentValue(Split(a, Dot), 1) == SegmentValue(Split(a2, Dot), 1);
      assert SegmentValue(Split(a, Dot), 2) == SegmentValue(Split(a2, Dot), 2);
    }
  }

  // ---------------------------------------------------------------------------
  // The comparator is a total preorder
  // ---------------------------------------------------------------------------

  /** `a` sorts no later than `b`. */
  predicate AtMost(a: String, b: String) {
    Compare(a, b) <= 0
  }

  lemma CompareReflexive(a: String)
    ensures Compare(a, a) == 0
  {
  }

  lemma CompareAntisymmetric(a: String, b: String)
    ensures Compare(a, b) == -Compare(b, a)
  {
  }

  lemma CompareTransitive(a: String, b: String, c: String)
    requires AtMost(a, b) && AtMost(b, c)
    ensures AtMost(a, c)
    ensures Compare(a, b) == -1 || Compare(b, c) == -1 ==> Compare(a, c) == -1
  {
    CompareIsKeyOrder(a, b);
    CompareIsKeyOrder(b, c);
    CompareIsKeyOrder(a, c);
  }

  lemma CompareTotal(a: String, b: String)
    ensures AtMost(a, b) || AtMost(b, a)
  {
  }

  // ---------------------------------------------------------------------------
  // Sorting and the latest build
  // ---------------------------------------------------------------------------

  /** `le` is a total preorder: any two elements are related one way or the
      other (so every element is related to itself), and it is transitive. */
  ghost predicate TotalPreorder(le: (String, String) -> bool) {
    && (forall a, b :: le(a, b) || le(b, a))
    && (forall a, b, c :: le(a, b) && le(b, c) ==> le(a, c))
  }

  /** The comparator, read as "sorts no later than", is a total preorder. */
  lemma AtMostIsTotalPreorder()
    ensures TotalPreorder(AtMost)
  {
    forall a, b, c | AtMost(a, b) && AtMost(b, c)
      ensures AtMost(a, c)
    {
      CompareTransitive(a, b, c);
    }
  }

  predicate Sorted(le: (String, String) -> bool, s: seq<String>) {
    forall i, j :: 0 <= i < j < |s| ==> le(s[i], s[j])
  }

  /** `m` is in `xs` and every element of `xs` is `le` it. */
  predicate IsMaximal(le: (String, String) -> bool, m: String, xs: seq<String>) {
    m in xs && forall x :: x in xs ==> le(x, m)
  }

  /** Puts `x` into the sorted `s` before the first element it is `le`. */
  function Insert(le: (String, String) -> bool, x: String, s: seq<String>): (r: seq<String>)
    requires TotalPreorder(le) && Sorted(le, s)
    ensures Sorted(le, r)
    ensures multiset(r) == multiset(s) + multiset{x}
  {
    if |s| == 0 then [x]
    else if le(x, s[0]) then
      [x] + s
    else
      var tail := Insert(le, x, s[1..]);
      assert multiset(s) == multiset{s[0]} + multiset(s[1..]) by {
        assert s == [s[0]] + s[1..];
      }
      forall j | 0 <= j < |tail|
        ensures le(s[0], tail[j])
      {
        assert tail[j] in multiset(tail);
        if tail[j] != x {
          assert tail[j] in multiset(s[1..]);
          var k :| 0 <= k < |s[1..]| && s[1..][k] == tail[j];
          assert s[k + 1] == tail[j];
        }
      }
      [s[0]] + tail
  }

  /** An insertion sort by `le`. */
  function Sort(le: (String, String) -> bool, xs: seq<String>): (r: seq<String>)
    requires TotalPreorder(le)
    ensures Sorted(le, r)
    ensures multiset(r) == multiset(xs)
  {
    if |xs| == 0 then []
    else
      assert xs == [xs[0]] + xs[1..];
      Insert(le, xs[0], Sort(le, xs[1..]))
  }

  /** Whatever sorting algorithm produced it, the last element of a sorted
      rearrangement of a non-empty list is a maximal element of the list. */
  lemma SortedLastIsMaximal(le: (String, String) -> bool, xs: seq<String>, s: seq<String>)
    requires TotalPreorder(le)
    requires |xs| > 0
    requires Sorted(le, s) && multiset(s) == multiset(xs)
    ensures |s| == |xs|
    ensures IsMaximal(le, s[|s| - 1], xs)
  {
    assert |s| == |multiset(s)| == |multiset(xs)| == |xs|;
    var m := s[|s| - 1];
    assert m in multiset(xs);
    forall x | x in xs
      ensures le(x, m)
    {
      assert x in multiset(s);
      var k :| 0 <= k < |s| && s[k] == x;
      if k < |s| - 1 {
        assert le(s[k], s[|s| - 1]);
      }
    }
  }

  // ---------------------------------------------------------------------------
  // The plain sort, then the comparator sort
  // ---------------------------------------------------------------------------

  /** Ruby's plain `sort` of strings orders them by `String#<=>`. */
  lemma StringLeIsTotalPreorder()
    ensures TotalPreorder(StringLe)
  {
    forall a, b
      ensures StringLe(a, b) || StringLe(b, a)
    {
      StringLeTotal(a, b);
    }
    forall a, b, c | StringLe(a, b) && StringLe(b, c)
      ensures StringLe(a, c)
    {
      StringLeTransitive(a, b, c);
    }
  }

  /** `both` is `le` with its ties broken by `tb`. */
  ghost predicate BreaksTiesBy(both: (String, String) -> bool, le: (String, String) -> bool,
                               tb: (String, String) -> bool) {
    forall a, b :: both(a, b) == (le(a, b) && (!le(b, a) || tb(a, b)))
  }

  /** An element `le` the head of a sorted list and `tb` all of it can go in
      front without breaking the tie order. */
  lemma PrependKeepsTieOrder(both: (String, String) -> bool, le: (String, String) -> bool,
                             tb: (String, String) -> bool, x: String, s: seq<String>)
    requires TotalPreorder(le) && Sorted(le, s)
    requires BreaksTiesBy(both, le, tb) && Sorted(both, s)
    requires |s| > 0 && le(x, s[0])
    requires forall z :: z in s ==> tb(x, z)
    ensures Sorted(both, [x] + s)
  {
    var r := [x] + s;
    forall i, j | 0 <= i < j < |r|
      ensures both(r[i], r[j])
    {
      if i == 0 {
        assert r[j] == s[j - 1] && s[j - 1] in s;
        if j > 1 {
          assert le(s[0], s[j - 1]);
        }
      } else {
        assert r[i] == s[i - 1] && r[j] == s[j - 1];
      }
    }
  }

  /** Inserting an element that is `tb` everything in the list keeps the list
      sorted by `le` with ties broken by `tb`: the new element goes before
      every element it ties with. */
  lemma {:induction false} InsertKeepsTieOrder(both: (String, String) -> bool, le: (String, String) -> bool,
                                               tb: (String, String) -> bool, x: String, s: seq<String>)
    requires TotalPreorder(le) && Sorted(le, s)
    requires BreaksTiesBy(both, le, tb) && Sorted(both, s)
    requires forall z :: z in s ==> tb(x, z)
    ensures Sorted(both, Insert(le, x, s))
  {
    if |s| == 0 {
    } else if le(x, s[0]) {
      PrependKeepsTieOrder(both, le, tb, x, s);
    } else {
      var t := Insert(le, x, s[1..]);
      InsertKeepsTieOrder(both, le, tb, x, s[1..]);
      assert both(s[0], x);
      HeadBeforeInserted(both, le, x, s);
      assert Insert(le, x, s) == [s[0]] + t;
    }
  }

  /** The head of a list is `both` everything after it once `x` has been
      inserted into the rest, given that it is `both` `x`. */
  lemma HeadBeforeInserted(both: (String, String) -> bool, le: (String, String) -> bool,
                           x: String, s: seq<String>)
    requires TotalPreorder(le) && |s| > 0 && Sorted(le, s[1..])
    requires Sorted(both, s) && both(s[0], x)
    ensures forall j :: 0 <= j < |Insert(le, x, s[1..])| ==> both(s[0], Insert(le, x, s[1..])[j])
  {
    var t := Insert(le, x, s[1..]);
    forall j | 0 <= j < |t|
      ensures both(s[0], t[j])
    {
      assert t[j] in multiset(t);
      if t[j] != x {
        assert t[j] in multiset(s[1..]);
        var k :| 0 <= k < |s[1..]| && s[1..][k] == t[j];
        assert s[k + 1] == t[j];
      }
    }
  }

  /** Insertion sort is stable: sorting a list already sorted by `tb` leaves
      the elements `le` ties in `tb` order. */
  lemma {:induction false} SortKeepsTieOrder(both: (String, String) -> bool, le: (String, String) -> bool,
                                             tb: (String, String) -> bool, p: seq<String>)
    requires TotalPreorder(le) && BreaksTiesBy(both, le, tb)
    requires Sorted(tb, p)
    ensures Sorted(both, Sort(le, p))
  {
    if |p| > 0 {
      var rest := Sort(le, p[1..]);
      SortKeepsTieOrder(both, le, tb, p[1..]);
      forall z | z in rest
        ensures tb(p[0], z)
      {
        assert z in multiset(rest);
        var k :| 0 <= k < |p[1..]| && p[1..][k] == z;
        assert p[k + 1] == z;
      }
      InsertKeepsTieOrder(both, le, tb, p[0], rest);
    }
  }

  /** The comparator with ties broken by string order: the order a stable
      comparator sort leaves a string-sorted list in. */
  predicate AtMostThenByString(a: String, b: String) {
    AtMost(a, b) && (!AtMost(b, a) || StringLe(a, b))
  }

  lemma AtMostThenByStringIsTotalPreorder()
    ensures TotalPreorder(AtMostThenByString)
    ensures BreaksTiesBy(AtMostThenByString, AtMost, StringLe)
  {
    forall a, b
      ensures AtMostThenByString(a, b) || AtMostThenByString(b, a)
    {
      CompareTotal(a, b);
      StringLeTotal(a, b);
    }
    forall a, b, c | AtMostThenByString(a, b) && AtMostThenByString(b, c)
      ensures AtMostThenByString(a, c)
    {
      CompareTransitive(a, b, c);
      if AtMost(c, a) {
        CompareTransitive(c, a, b);
        CompareTransitive(b, c, a);
        StringLeTransitive(a, b, c);
      }
    }
  }

  /** The action's `sorted`: the build versions sorted as strings, then
      sorted by the comparator. Tied versions stay in string order. */
  function SortBuildVersions(xs: seq<String>): (r: seq<String>)
    ensures Sorted(AtMost, r)
    ensures Sorted(AtMostThenByString, r)
    ensures multiset(r) == multiset(xs)
  {
    StringLeIsTotalPreorder();
    AtMostIsTotalPreorder();
    AtMostThenByStringIsTotalPreorder();
    var pre := Sort(StringLe, xs);
    SortKeepsTieOrder(AtMostThenByString, AtMost, StringLe, pre);
    Sort(AtMost, pre)
  }

  /** `sorted.last` for a non-empty train: a build version of the train that
      no other build version of the train sorts after, and among those tied
      with it the last in string order. */
  function SelectMax(xs: seq<String>): (r: String)
    requires |xs| > 0
    ensures r in xs
    ensures forall x :: x in xs ==> Compare(x, r) <= 0
    ensures forall x :: x in xs && Compare(x, r) == 0 ==> StringLe(x, r)
  {
    var s := SortBuildVersions(xs);
    AtMostThenByStringIsTotalPreorder();
    AtMostIsTotalPreorder();
    SortedLastIsMaximal(AtMostThenByString, xs, s);
    s[|s| - 1]
  }

  /** Maximal elements are unique up to ties: any two have equal keys. They
      can still differ as strings, in a segment after the third or in how a
      segment is written. */
  lemma MaximaAreTied(xs: seq<String>, m1: String, m2: String)
    requires IsMaximal(AtMost, m1, xs) && IsMaximal(AtMost, m2, xs)
    ensures Compare(m1, m2) == 0
    ensures KeyOf(m1) == KeyOf(m2)
  {
    assert AtMost(m1, m2) && AtMost(m2, m1);
    CompareAntisymmetric(m1, m2);
    CompareIsKeyOrder(m1, m2);
  }

  // ---------------------------------------------------------------------------
  // Numeric, not textual, comparison
  // ---------------------------------------------------------------------------

  /** The empty fields `split` drops at the end count as 0, like the
      missing segments they become, so every raw field has its `to_i`. */
  lemma SegmentValueOfFields(s: String, i: nat)
    requires i < |Fields(s, Dot)|
    ensures SegmentValue(Split(s, Dot), i) == ToI(Fields(s, Dot)[i])
  {
  }

  /** The key of a three-field version is the integer values of its fields,
      an empty last field counting as 0. */
  lemma KeyOfThreeSegments(p: String, q: String, r: String)
    requires Dot !in p && Dot !in q && Dot !in r
    ensures KeyOf(p + [Dot] + q + [Dot] + r) == Key(ToI(p), ToI(q), ToI(r))
  {
    var s := p + [Dot] + q + [Dot] + r;
    var parts := [p, q, r];
    assert parts[1..] == [q, r] && [q, r][1..] == [r];
    assert Join([q, r], Dot) == q + [Dot] + r;
    assert Join(parts, Dot) == s;
    FieldsOfJoin(parts, Dot);
    SegmentValueOfFields(s, 0);
    SegmentValueOfFields(s, 1);
    SegmentValueOfFields(s, 2);
  }

  /** The `to_i` of the segments in the examples. Like `ExampleSpellings`,
      only a help to the verifier. */
  lemma SmallValues()
    ensures ToI("0") == 0 && ToI("1") == 1 && ToI("2") == 2 && ToI("3") == 3 && ToI("10") == 10
  {
    assert IntToS(0) == "0" && IntToS(1) == "1" && IntToS(2) == "2" && IntToS(3) == "3";
    assert IntToS(10) == "10";
  }

  /** The dotted literals of the examples in this module and in
      `BuildIncrement`, spelled as their segments joined by dots. Only a help
      to the verifier, which otherwise unfolds the functions applied to these
      literals at length. */
  lemma ExampleSpellings()
    ensures "1" + [Dot] + "2" == "1.2"
    ensures "1" + [Dot] + "2" + [Dot] + "0" == "1.2.0"
    ensures "1" + [Dot] + "2" + [Dot] + "1" == "1.2.1"
    ensures "1" + [Dot] + "2" + [Dot] + "3" == "1.2.3"
    ensures "1" + [Dot] + "2" + [Dot] + "4" == "1.2.4"
    ensures "1" + [Dot] + "2" + [Dot] + "9" == "1.2.9"
    ensures "1" + [Dot] + "2" + [Dot] + "10" == "1.2.10"
    ensures "1" + [Dot] + "2" + [Dot] + "x" == "1.2.x"
    ensures "10" + [Dot] + "0" + [Dot] + "0" == "10.0.0"
    ensures "2" + [Dot] + "0" + [Dot] + "1" == "2.0.1"
  {
  }

  /** "1.2.10" sorts after "1.2.3", although it sorts before it as text. */
  lemma NumericPatchComparison()
    ensures Compare("1.2.10", "1.2.3") == 1
  {
    SmallValues();
    ExampleSpellings();
    KeyOfThreeSegments("1", "2", "10");
    KeyOfThreeSegments("1", "2", "3");
    CompareIsKeyOrder("1.2.10", "1.2.3");
  }

  /** "10.0.0" sorts after "2.0.1", although it sorts before it as text. */
  lemma NumericMajorComparison()
    ensures Compare("10.0.0", "2.0.1") == 1
  {
    SmallValues();
    ExampleSpellings();
    KeyOfThreeSegments("10", "0", "0");
    KeyOfThreeSegments("2", "0", "1");
    CompareIsKeyOrder("10.0.0", "2.0.1");
  }

  // ---------------------------------------------------------------------------
  // Ties
  // ---------------------------------------------------------------------------

  /** The key of a two-field version; the missing third segment counts as 0. */
  lemma KeyOfTwoSegments(p: String, q: String)
    requires Dot !in p && Dot !in q
    ensures KeyOf(p + [Dot] + q) == Key(ToI(p), ToI(q), 0)
  {
    var s := p + [Dot] + q;
    var parts := [p, q];
    assert parts[1..] == [q];
    assert Join(parts, Dot) == s;
    FieldsOfJoin(parts, Dot);
    SegmentValueOfFields(s, 0);
    SegmentValueOfFields(s, 1);
  }

  /** Of two tied versions, the later in string order is the latest build,
      whichever order the train lists them in. */
  lemma TiedPairPicksTheStringLast(a: String, b: String)
    requires Compare(a, b) == 0 && !StringLe(a, b)
    ensures SelectMax([a, b]) == a
    ensures SelectMax([b, a]) == a
  {
    var ab, ba := [a, b], [b, a];
    assert forall x :: x in ab ==> x == a || x == b;
    assert forall x :: x in ba ==> x == a || x == b;
    TiedMaximumIsStringLast(ab, a, b);
    TiedMaximumIsStringLast(ba, a, b);
  }

  /** In a list of two tied versions the latest build is the later one in
      string order. */
  lemma TiedMaximumIsStringLast(xs: seq<String>, a: String, b: String)
    requires |xs| > 0 && a in xs
    requires forall x :: x in xs ==> x == a || x == b
    requires Compare(a, b) == 0 && !StringLe(a, b)
    ensures SelectMax(xs) == a
  {
  }

  /** "1.2" and "1.2.0" tie: the missing third segment counts as 0. */
  lemma ShortFormTies()
    ensures Compare("1.2.0", "1.2") == 0
  {
    SmallValues();
    ExampleSpellings();
    KeyOfThreeSegments("1", "2", "0");
    KeyOfTwoSegments("1", "2");
    CompareIsKeyOrder("1.2.0", "1.2");
  }

  /** "1.2" and "1.2.0" tie; the plain sort puts "1.2" first, and the
      comparator sort keeps that order, so "1.2.0" is the latest build. */
  lemma TiedMaximaPickTheStringLast()
    ensures SelectMax(["1.2.0", "1.2"]) == "1.2.0"
  {
    ShortFormTies();
    assert !StringLe("1.2.0", "1.2");
    TiedPairPicksTheStringLast("1.2.0", "1.2");
  }
}
