/** The Ruby core behaviours the bump_version action relies on, on strings as
    sequences of characters: `String#split` with a one-character separator,
    `Array#join`, `String#to_i`, `Integer#to_s` and `String#strip`. */
module RubyString {

  type String = seq<char>

  /** The separator of build-version segments. */
  const Dot: char := '.'

  // ---------------------------------------------------------------------------
  // split and join
  // ---------------------------------------------------------------------------

  /** Every field between occurrences of `sep`, empty ones included, in order:
      one more field than there are separators. */
  function Fields(s: String, sep: char): (r: seq<String>)
    ensures |r| >= 1
    ensures forall i :: 0 <= i < |r| ==> sep !in r[i]
  {
    if |s| == 0 then [""]
    else
      var rest := Fields(s[1..], sep);
      if s[0] == sep then [""] + rest
      else
        assert sep !in [s[0]] + rest[0];
        [[s[0]] + rest[0]] + rest[1..]
  }

  /** The longest prefix of `fields` that does not end in an empty field. */
  function DropTrailingEmpty(fields: seq<String>): (r: seq<String>)
    ensures r <= fields
    ensures |r| > 0 ==> r[|r| - 1] != ""
    ensures forall i :: |r| <= i < |fields| ==> fields[i] == ""
  {
    if |fields| == 0 then []
    else if fields[|fields| - 1] == "" then DropTrailingEmpty(fields[..|fields| - 1])
    else fields
  }

  /** Ruby's `s.split(sep)` for a one-character separator other than a space:
      the fields between separators with the trailing empty fields dropped, so
      that `"".split(".")` and `"..".split(".")` are empty while leading and
      inner empty fields are kept. */
  function Split(s: String, sep: char): (r: seq<String>)
    ensures forall i :: 0 <= i < |r| ==> sep !in r[i]
    ensures |r| > 0 ==> r[|r| - 1] != ""
    ensures r <= Fields(s, sep)
    ensures forall i :: |r| <= i < |Fields(s, sep)| ==> Fields(s, sep)[i] == ""
  {
    DropTrailingEmpty(Fields(s, sep))
  }

  /** Ruby's `parts.join(sep)`. */
  function Join(parts: seq<String>, sep: char): (r: String)
    ensures |parts| > 0 ==> parts[0] <= r
    ensures |parts| == 0 ==> r == ""
  {
    if |parts| == 0 then ""
    else if |parts| == 1 then parts[0]
    else parts[0] + [sep] + Join(parts[1..], sep)
  }

  /** `n` copies of `c`. */
  function Repeat(c: char, n: nat): (r: String)
    ensures |r| == n
    ensures forall i :: 0 <= i < n ==> r[i] == c
  {
    if n == 0 then "" else Repeat(c, n - 1) + [c]
  }

  /** Splitting a string that starts with a separator-free `p` puts `p` at the
      head of the first field and leaves the other fields alone. */
  lemma {:induction false} FieldsOfPrefix(p: String, tail: String, sep: char)
    requires sep !in p
    ensures Fields(p + tail, sep) == [p + Fields(tail, sep)[0]] + Fields(tail, sep)[1..]
  {
    if |p| == 0 {
      assert p + tail == tail;
      assert p + Fields(tail, sep)[0] == Fields(tail, sep)[0];
    } else {
      assert (p + tail)[0] == p[0];
      assert (p + tail)[1..] == p[1..] + tail;
      FieldsOfPrefix(p[1..], tail, sep);
      assert [p[0]] + (p[1..] + Fields(tail, sep)[0]) == p + Fields(tail, sep)[0];
    }
  }

  /** Joining separator-free parts and cutting the result at every separator
      gives the parts back, empty ones included. */
  lemma {:induction false} FieldsOfJoin(parts: seq<String>, sep: char)
    requires |parts| >= 1
    requires forall i :: 0 <= i < |parts| ==> sep !in parts[i]
    ensures Fields(Join(parts, sep), sep) == parts
  {
    if |parts| == 1 {
      FieldsOfPrefix(parts[0], "", sep);
      assert parts[0] + "" == parts[0];
    } else {
      var rest := parts[1..];
      FieldsOfJoin(rest, sep);
      var tail := [sep] + Join(rest, sep);
      assert tail[0] == sep && tail[1..] == Join(rest, sep);
      assert Fields(tail, sep) == [""] + rest;
      FieldsOfPrefix(parts[0], tail, sep);
      assert parts[0] + [sep] + Join(rest, sep) == parts[0] + tail;
      assert parts[0] + "" == parts[0];
      assert [parts[0]] + rest == parts;
    }
  }

  /** Joining the fields of `s` rebuilds `s`. */
  lemma {:induction false} JoinOfFields(s: String, sep: char)
    ensures Join(Fields(s, sep), sep) == s
  {
    if |s| > 0 {
      var rest := Fields(s[1..], sep);
      JoinOfFields(s[1..], sep);
      if s[0] == sep {
        assert ([""] + rest)[1..] == rest;
        assert s == [sep] + s[1..];
      } else {
        var f := [[s[0]] + rest[0]] + rest[1..];
        if |rest| == 1 {
          assert s == [s[0]] + s[1..];
        } else {
          assert f[1..] == rest[1..];
          assert Join(rest, sep) == rest[0] + [sep] + Join(rest[1..], sep);
          assert s == [s[0]] + s[1..];
        }
      }
    }
  }

  /** Round trip of the split that the increment relies on: separator-free
      parts whose last part is not empty come back unchanged from
      `join` followed by `split`. */
  lemma SplitOfJoin(parts: seq<String>, sep: char)
    requires |parts| >= 1
    requires forall i :: 0 <= i < |parts| ==> sep !in parts[i]
    requires parts[|parts| - 1] != ""
    ensures Split(Join(parts, sep), sep) == parts
  {
    FieldsOfJoin(parts, sep);
  }

  /** Appending one more part to a join adds a separator and the part. */
  lemma {:induction false} JoinSnoc(parts: seq<String>, x: String, sep: char)
    requires |parts| >= 1
    ensures Join(parts + [x], sep) == Join(parts, sep) + [sep] + x
  {
    if |parts| > 1 {
      assert (parts + [x])[1..] == parts[1..] + [x];
      JoinSnoc(parts[1..], x, sep);
    }
  }

  lemma {:induction false} JoinDropsOnlySeparators(fields: seq<String>, sep: char)
    requires |fields| >= 1
    ensures exists k: nat :: Join(fields, sep) == Join(DropTrailingEmpty(fields), sep) + Repeat(sep, k)
  {
    var last := fields[|fields| - 1];
    if last != "" {
      assert Join(fields, sep) == Join(DropTrailingEmpty(fields), sep) + Repeat(sep, 0);
    } else {
      var init := fields[..|fields| - 1];
      assert fields == init + [""];
      if |init| == 0 {
        assert Join(fields, sep) == Join(DropTrailingEmpty(fields), sep) + Repeat(sep, 0);
      } else {
        JoinDropsOnlySeparators(init, sep);
        var k: nat :| Join(init, sep) == Join(DropTrailingEmpty(init), sep) + Repeat(sep, k);
        JoinSnoc(init, "", sep);
        assert Join(fields, sep) == Join(DropTrailingEmpty(fields), sep) + Repeat(sep, k + 1);
      }
    }
  }

  /** `split` loses nothing but the separators at the end of the string:
      rejoining the fields and appending some separators rebuilds `s`. */
  lemma SplitDropsOnlyTrailingSeparators(s: String, sep: char)
    ensures exists k: nat :: s == Join(Split(s, sep), sep) + Repeat(sep, k)
  {
    JoinOfFields(s, sep);
    JoinDropsOnlySeparators(Fields(s, sep), sep);
  }

  // ---------------------------------------------------------------------------
  // to_i and to_s
  // ---------------------------------------------------------------------------

  predicate IsDigit(c: char) {
    '0' <= c <= '9'
  }

  predicate AllDigits(d: String) {
    forall i :: 0 <= i < |d| ==> IsDigit(d[i])
  }

  function DigitValue(c: char): (v: nat)
    requires IsDigit(c)
    ensures v < 10
  {
    c as int - '0' as int
  }

  function DigitChar(v: nat): (c: char)
    requires v < 10
    ensures IsDigit(c) && DigitValue(c) == v
  {
    ('0' as int + v) as char
  }

  /** The length of the longest run of digits at the start of `s`. */
  function LeadingDigits(s: String): (n: nat)
    ensures n <= |s|
    ensures AllDigits(s[..n])
    ensures n < |s| ==> !IsDigit(s[n])
  {
    if |s| == 0 || !IsDigit(s[0]) then 0
    else
      var n := 1 + LeadingDigits(s[1..]);
      assert forall i :: 1 <= i < n ==> s[..n][i] == s[1..][..n - 1][i - 1];
      n
  }

  /** The decimal value of a run of digits, most significant digit first. */
  function DigitsValue(d: String): nat
    requires AllDigits(d)
  {
    if |d| == 0 then 0
    else 10 * DigitsValue(d[..|d| - 1]) + DigitValue(d[|d| - 1])
  }

  /** The value of the longest leading digit run of `s`, 0 when there is none. */
  function Magnitude(s: String): nat {
    DigitsValue(s[..LeadingDigits(s)])
  }

  /** Ruby's `String#to_i` in base 10, reduced to an optional sign followed by
      the longest run of leading digits; 0 when there are no such digits, so
      `"12abc"` gives 12 and `"x"` gives 0. Leading whitespace and `_` digit
      separators, which Ruby also accepts, are not modelled. */
  function ToI(s: String): (r: int)
    ensures |s| == 0 ==> r == 0
    ensures |s| > 0 && s[0] != '-' && s[0] != '+' && !IsDigit(s[0]) ==> r == 0
    ensures r < 0 ==> s[0] == '-'
  {
    if |s| > 0 && s[0] == '-' then -(Magnitude(s[1..]) as int)
    else if |s| > 0 && s[0] == '+' then Magnitude(s[1..])
    else Magnitude(s)
  }

  /** The decimal digits of `n`, with no leading zero. */
  function NatToS(n: nat): (r: String)
    ensures |r| >= 1 && AllDigits(r)
    ensures r[0] != '0' || r == "0"
    ensures DigitsValue(r) == n
    ensures Dot !in r
  {
    if n < 10 then [DigitChar(n)]
    else
      var r := NatToS(n / 10) + [DigitChar(n % 10)];
      assert r[..|r| - 1] == NatToS(n / 10);
      r
  }

  /** A run made of digits only is taken whole by the digit scan. */
  lemma {:induction false} LeadingDigitsOfDigits(d: String)
    requires AllDigits(d)
    ensures LeadingDigits(d) == |d|
  {
    if |d| > 0 {
      LeadingDigitsOfDigits(d[1..]);
    }
  }

  /** Ruby's `Integer#to_s`: the decimal digits, preceded by `-` when negative.
      `to_i` reads back the same integer. */
  function IntToS(n: int): (r: String)
    ensures |r| >= 1
    ensures r[0] == '-' <==> n < 0
    ensures n >= 0 ==> AllDigits(r) && (r[0] != '0' || r == "0")
    ensures n < 0 ==> |r| >= 2 && AllDigits(r[1..]) && r[1] != '0'
    ensures ToI(r) == n
    ensures Dot !in r
  {
    if n < 0 then
      var d := NatToS(-n);
      LeadingDigitsOfDigits(d);
      assert ("-" + d)[1..] == d;
      assert d[..|d|] == d;
      "-" + d
    else
      var d := NatToS(n);
      LeadingDigitsOfDigits(d);
      assert d[..|d|] == d;
      d
  }

  /** A leading digit run ends at the first non-digit: whatever follows it is
      ignored, as in `"12abc".to_i == 12`. */
  lemma ToIIgnoresSuffix(d: String, rest: String)
    requires |d| >= 1 && AllDigits(d)
    requires |rest| == 0 || !IsDigit(rest[0])
    ensures ToI(d + rest) == DigitsValue(d)
  {
    LeadingDigitsPrefix(d, rest);
    assert (d + rest)[..|d|] == d;
  }

  /** After a leading sign the digit run is read the same way and the sign
      applied: `"-12x".to_i == -12` and `"+7".to_i == 7`. */
  lemma ToISigned(d: String, rest: String)
    requires AllDigits(d)
    requires |rest| == 0 || !IsDigit(rest[0])
    ensures ToI("-" + (d + rest)) == -(DigitsValue(d) as int)
    ensures ToI("+" + (d + rest)) == DigitsValue(d)
  {
    MagnitudeOfDigitsPrefix(d, rest);
    SignedToI('-', d + rest);
    SignedToI('+', d + rest);
  }

  /** A sign in front of `t` negates or keeps the magnitude of `t`. */
  lemma SignedToI(sign: char, t: String)
    requires sign == '-' || sign == '+'
    ensures sign == '-' ==> ToI([sign] + t) == -(Magnitude(t) as int)
    ensures sign == '+' ==> ToI([sign] + t) == Magnitude(t)
  {
    assert ([sign] + t)[1..] == t;
  }

  lemma MagnitudeOfDigitsPrefix(d: String, rest: String)
    requires AllDigits(d)
    requires |rest| == 0 || !IsDigit(rest[0])
    ensures Magnitude(d + rest) == DigitsValue(d)
  {
    LeadingDigitsPrefix(d, rest);
    assert (d + rest)[..|d|] == d;
  }

  lemma {:induction false} LeadingDigitsPrefix(d: String, rest: String)
    requires AllDigits(d)
    requires |rest| == 0 || !IsDigit(rest[0])
    ensures LeadingDigits(d + rest) == |d|
  {
    if |d| > 0 {
      assert (d + rest)[1..] == d[1..] + rest;
      LeadingDigitsPrefix(d[1..], rest);
    } else {
      assert d + rest == rest;
    }
  }

  // ---------------------------------------------------------------------------
  // strip
  // ---------------------------------------------------------------------------

  /** The characters Ruby's `strip` removes: NUL, tab, line feed, vertical
      tab, form feed, carriage return and space. */
  predicate IsSpace(c: char) {
    c == ' ' || c == '\0' || ('\t' <= c <= '\r')
  }

  predicate AllSpace(w: String) {
    forall i :: 0 <= i < |w| ==> IsSpace(w[i])
  }

  /** The number of whitespace characters at the start of `s`. */
  function LeadingSpaces(s: String): (n: nat)
    ensures n <= |s|
    ensures AllSpace(s[..n])
    ensures n < |s| ==> !IsSpace(s[n])
  {
    if |s| == 0 || !IsSpace(s[0]) then 0
    else
      var n := 1 + LeadingSpaces(s[1..]);
      assert forall i :: 1 <= i < n ==> s[..n][i] == s[1..][..n - 1][i - 1];
      n
  }

  /** The number of whitespace characters at the end of `s`. */
  function TrailingSpaces(s: String): (n: nat)
    ensures n <= |s|
    ensures AllSpace(s[|s| - n..])
    ensures n < |s| ==> !IsSpace(s[|s| - n - 1])
  {
    if |s| == 0 || !IsSpace(s[|s| - 1]) then 0
    else
      var init := s[..|s| - 1];
      var n := 1 + TrailingSpaces(init);
      assert s[|s| - n..] == init[|init| - (n - 1)..] + [s[|s| - 1]];
      n
  }

  /** `r` is `s` with some whitespace removed at each end. */
  ghost predicate TrimmedOf(s: String, r: String) {
    exists front, back :: s == front + r + back && AllSpace(front) && AllSpace(back)
  }

  /** Ruby's `String#strip`: the part of `s` left after removing whitespace
      at both ends. */
  function Strip(s: String): (r: String)
    ensures TrimmedOf(s, r)
    ensures |r| > 0 ==> !IsSpace(r[0]) && !IsSpace(r[|r| - 1])
  {
    var n := LeadingSpaces(s);
    var t := s[n..];
    var m := TrailingSpaces(t);
    StripPieces(s, n, m);
    t[..|t| - m]
  }

  /** `s` cut into whitespace, a middle and whitespace. */
  lemma StripPieces(s: String, n: nat, m: nat)
    requires n <= |s| && m <= |s| - n
    requires AllSpace(s[..n]) && AllSpace(s[n..][|s| - n - m..])
    ensures TrimmedOf(s, s[n..][..|s| - n - m])
  {
    var t := s[n..];
    assert t == t[..|t| - m] + t[|t| - m..];
    assert s == s[..n] + t;
    assert s == s[..n] + t[..|t| - m] + t[|t| - m..];
  }

  // ---------------------------------------------------------------------------
  // String order
  // ---------------------------------------------------------------------------

  /** `a <=> b` is not 1 for Ruby strings: the first differing character
      decides, and a proper prefix sorts first. Code points are compared,
      which is the order of their UTF-8 bytes. */
  predicate StringLe(a: String, b: String)
    decreases |a|
  {
    if |a| == 0 then true
    else if |b| == 0 then false
    else if a[0] != b[0] then a[0] < b[0]
    else StringLe(a[1..], b[1..])
  }

  lemma {:induction false} StringLeTotal(a: String, b: String)
    ensures StringLe(a, b) || StringLe(b, a)
    decreases |a|
  {
    if |a| > 0 && |b| > 0 && a[0] == b[0] {
      StringLeTotal(a[1..], b[1..]);
    }
  }

  lemma {:induction false} StringLeTransitive(a: String, b: String, c: String)
    requires StringLe(a, b) && StringLe(b, c)
    ensures StringLe(a, c)
    decreases |a|
  {
    if |a| > 0 && a[0] == b[0] && b[0] == c[0] {
      StringLeTransitive(a[1..], b[1..], c[1..]);
    }
  }

  lemma {:induction false} StringLeAntisymmetric(a: String, b: String)
    requires StringLe(a, b) && StringLe(b, a)
    ensures a == b
    decreases |a|
  {
    if |a| > 0 {
      StringLeAntisymmetric(a[1..], b[1..]);
      assert a == [a[0]] + a[1..] && b == [b[0]] + b[1..];
    }
  }
}
