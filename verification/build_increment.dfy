/** The increment of the latest build number: a flat number is handed to the
    external incrementer, a dotted one has its last segment bumped in place. */
module BuildIncrement {
  import opened RubyString
  import opened BuildOrder

  /** What the increment does with the latest build number. */
  datatype Step =
    /** A flat build number: the work goes to `IncrementBuildNumberAction`,
        whose result this model does not see. */
    | DelegateToIncrementBuildNumber
    /** A dotted build number with its last segment replaced. */
    | Incremented(version: String)

  /** The segments with the last one replaced by the decimal form of its
      integer value plus one. */
  function BumpLast(parts: seq<String>): (r: seq<String>)
    requires |parts| >= 2
    ensures |r| == |parts|
    ensures r[..|r| - 1] == parts[..|parts| - 1]
    ensures r[|r| - 1] != "" && Dot !in r[|r| - 1]
    ensures ToI(r[|r| - 1]) == ToI(parts[|parts| - 1]) + 1
  {
    parts[..|parts| - 1] + [IntToS(ToI(parts[|parts| - 1]) + 1)]
  }

  /** The next build number after `current`. With at most one "."-segment
      (a flat number such as "42", or an empty string) the work is
      delegated; otherwise the result has the same segments except the last,
      which now holds one more than the integer value of the old last
      segment, written in decimal. */
  function NextBuildNumber(current: String): (r: Step)
    ensures r.DelegateToIncrementBuildNumber? <==> |Split(current, Dot)| <= 1
    ensures r.Incremented? ==>
      var parts := Split(current, Dot);
      var next := Split(r.version, Dot);
      && |next| == |parts|
      && next[..|next| - 1] == parts[..|parts| - 1]
      && ToI(next[|next| - 1]) == ToI(parts[|parts| - 1]) + 1
      && next[|next| - 1] == IntToS(ToI(next[|next| - 1]))
      && r.version == Join(next, Dot)
  {
    var parts := Split(current, Dot);
    if |parts| <= 1 then DelegateToIncrementBuildNumber
    else
      var bumped := BumpLast(parts);
      SplitOfJoin(bumped, Dot);
      Incremented(Join(bumped, Dot))
  }

  /** For a two- or three-segment build number the new one sorts strictly
      after the old one. */
  lemma IncrementIsNewer(current: String)
    requires 2 <= |Split(current, Dot)| <= 3
    ensures NextBuildNumber(current).Incremented?
    ensures Compare(NextBuildNumber(current).version, current) == 1
  {
    var parts := Split(current, Dot);
    var next := Split(NextBuildNumber(current).version, Dot);
    assert next[0] == parts[0];
    if |parts| == 3 {
      assert next[1] == parts[1];
    }
    CompareIsKeyOrder(NextBuildNumber(current).version, current);
  }

  /** With four or more segments only a segment the comparator never reads
      changes, so the new build number ties with the old one. */
  lemma IncrementPastThirdSegmentTies(current: String)
    requires |Split(current, Dot)| >= 4
    ensures NextBuildNumber(current).Incremented?
    ensures Compare(NextBuildNumber(current).version, current) == 0
  {
    var parts := Split(current, Dot);
    var next := Split(NextBuildNumber(current).version, Dot);
    var k := |parts| - 1;
    assert next[..k] == parts[..k];
    assert next[0] == next[..k][0] == parts[..k][0] == parts[0];
    assert next[1] == next[..k][1] == parts[..k][1] == parts[1];
    assert next[2] == next[..k][2] == parts[..k][2] == parts[2];
    assert KeyOf(NextBuildNumber(current).version) == KeyOf(current);
    CompareIsKeyOrder(NextBuildNumber(current).version, current);
  }

  /** The new build number never sorts before the old one. */
  lemma IncrementNeverOlder(current: String)
    requires |Split(current, Dot)| >= 2
    ensures NextBuildNumber(current).Incremented?
    ensures Compare(current, NextBuildNumber(current).version) <= 0
  {
    CompareAntisymmetric(current, NextBuildNumber(current).version);
    if |Split(current, Dot)| <= 3 {
      IncrementIsNewer(current);
    } else {
      IncrementPastThirdSegmentTies(current);
    }
  }

  /** Joining three segments. */
  lemma JoinThree(p: String, q: String, r: String)
    ensures Join([p, q, r], Dot) == p + [Dot] + q + [Dot] + r
  {
    assert [p, q, r][1..] == [q, r] && [q, r][1..] == [r];
    assert Join([q, r], Dot) == q + [Dot] + r;
  }

  /** The increment of a three-segment version, written out. */
  lemma NextOfThree(p: String, q: String, r: String)
    requires Dot !in p && Dot !in q && Dot !in r && r != ""
    ensures NextBuildNumber(p + [Dot] + q + [Dot] + r)
         == Incremented(p + [Dot] + q + [Dot] + IntToS(ToI(r) + 1))
  {
    var s := p + [Dot] + q + [Dot] + r;
    JoinThree(p, q, r);
    SplitOfJoin([p, q, r], Dot);
    assert Split(s, Dot) == [p, q, r];
    var n := IntToS(ToI(r) + 1);
    assert BumpLast([p, q, r]) == [p, q, n] by {
      assert [p, q, r][..2] == [p, q];
    }
    JoinThree(p, q, n);
  }

  /** The same, with the new last segment given by name. */
  lemma NextOfThreeIs(p: String, q: String, r: String, n: String)
    requires Dot !in p && Dot !in q && Dot !in r && r != ""
    requires IntToS(ToI(r) + 1) == n
    ensures NextBuildNumber(p + [Dot] + q + [Dot] + r) == Incremented(p + [Dot] + q + [Dot] + n)
  {
    NextOfThree(p, q, r);
  }

  /** "1.2.3" becomes "1.2.4". */
  lemma IncrementExample()
    ensures NextBuildNumber("1.2.3") == Incremented("1.2.4")
  {
    SingleDigitSuccessor('3');
    NextOfThreeIs("1", "2", "3", "4");
    ExampleSpellings();
  }

  /** "1.2.9" becomes "1.2.10": the increment is numeric, not textual. */
  lemma IncrementCarriesIntoNewDigit()
    ensures NextBuildNumber("1.2.9") == Incremented("1.2.10")
  {
    NineSuccessor();
    NextOfThreeIs("1", "2", "9", "10");
    ExampleSpellings();
  }

  /** "1.2.x" becomes "1.2.1": a non-numeric segment counts as 0. */
  lemma IncrementOfNonNumericSegment()
    ensures NextBuildNumber("1.2.x") == Incremented("1.2.1")
  {
    NonNumericSuccessor();
    NextOfThreeIs("1", "2", "x", "1");
    ExampleSpellings();
  }

  /** The successor of a digit below 9 is the next digit. */
  lemma SingleDigitSuccessor(c: char)
    requires '0' <= c <= '8'
    ensures IntToS(ToI([c]) + 1) == [(c as int + 1) as char]
  {
    LeadingDigitsOfDigits([c]);
    assert [c][..1] == [c] && [c][..0] == [];
    assert DigitsValue([c]) == DigitValue(c);
    assert ToI([c]) == Magnitude([c]) == DigitValue(c);
  }

  /** `"9".to_i + 1` written back is "10". */
  lemma NineSuccessor()
    ensures IntToS(ToI("9") + 1) == "10"
  {
    LeadingDigitsOfDigits("9");
    assert "9"[..1] == "9";
    assert ToI("9") == 9;
    assert IntToS(10) == "10";
  }

  /** `"x".to_i + 1` written back is "1". */
  lemma NonNumericSuccessor()
    ensures IntToS(ToI("x") + 1) == "1"
  {
    assert ToI("x") == 0;
    assert IntToS(1) == "1";
  }

  /** "1.2.0" becomes "1.2.1". */
  lemma IncrementOfZeroPatch()
    ensures NextBuildNumber("1.2.0") == Incremented("1.2.1")
  {
    SingleDigitSuccessor('0');
    NextOfThreeIs("1", "2", "0", "1");
    ExampleSpellings();
  }

  /** A flat build number such as "42", and an empty one, are delegated. */
  lemma FlatNumberIsDelegated()
    ensures NextBuildNumber("42") == DelegateToIncrementBuildNumber
    ensures NextBuildNumber("") == DelegateToIncrementBuildNumber
  {
    SplitOfJoin(["42"], Dot);
  }
}
