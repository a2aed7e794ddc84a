/**
 * The Java string operations the parser relies on: `trim()`, `split(",")`,
 * `replaceAll("[^0-9]", "")` and `Integer.parseInt` on the resulting digits.
 */
module Text {
  import opened CityRecords

  // ---------------------------------------------------------------- trim

  /** `String.trim()` removes every leading and trailing character at or below U+0020. */
  predicate IsTrimmable(c: char) { c <= ' ' }

  function TrimLeft(s: string): (r: string)
    ensures |r| <= |s| && r == s[|s| - |r|..]
    ensures r == [] || !IsTrimmable(r[0])
    ensures forall i :: 0 <= i < |s| - |r| ==> IsTrimmable(s[i])
  {
    if s != [] && IsTrimmable(s[0]) then
      var r := TrimLeft(s[1..]);
      assert s[1..][|s| - 1 - |r|..] == s[|s| - |r|..];
      assert forall i :: 1 <= i < |s| - |r| ==> s[i] == s[1..][i - 1];
      r
    else s
  }

  function TrimRight(s: string): (r: string)
    ensures |r| <= |s| && r == s[..|r|]
    ensures r == [] || !IsTrimmable(r[|r| - 1])
    ensures forall i :: |r| <= i < |s| ==> IsTrimmable(s[i])
  {
    if s != [] && IsTrimmable(s[|s| - 1]) then
      var r := TrimRight(s[..|s| - 1]);
      assert s[..|s| - 1][..|r|] == s[..|r|];
      assert forall i :: |r| <= i < |s| - 1 ==> s[i] == s[..|s| - 1][i];
      r
    else s
  }

  /**
   * The trimmed string: the input with its leading and trailing characters
   * at or below U+0020 removed, so nothing trimmable is left at either end;
   * empty exactly for a blank string.
   */
  function Trim(s: string): (r: string)
    ensures |r| <= |s|
    ensures var a := |s| - |TrimLeft(s)|;
      && a + |r| <= |s| && r == s[a..a + |r|]
      && (forall i :: 0 <= i < a ==> IsTrimmable(s[i]))
      && (forall i :: a + |r| <= i < |s| ==> IsTrimmable(s[i]))
    ensures r == [] || (!IsTrimmable(r[0]) && !IsTrimmable(r[|r| - 1]))
    ensures r == [] <==> forall i :: 0 <= i < |s| ==> IsTrimmable(s[i])
  {
    var l := TrimLeft(s);
    var r := TrimRight(l);
    TrimBounds(s, l, r);
    r
  }

  /** The two passes of `trim()` leave a slice of the input with only trimmable characters around it. */
  lemma TrimBounds(s: string, l: string, r: string)
    requires |l| <= |s| && l == s[|s| - |l|..]
    requires forall i :: 0 <= i < |s| - |l| ==> IsTrimmable(s[i])
    requires l == [] || !IsTrimmable(l[0])
    requires |r| <= |l| && r == l[..|r|]
    requires forall i :: |r| <= i < |l| ==> IsTrimmable(l[i])
    requires r == [] || !IsTrimmable(r[|r| - 1])
    ensures var a := |s| - |l|;
      && a + |r| <= |s| && r == s[a..a + |r|]
      && (forall i :: 0 <= i < a ==> IsTrimmable(s[i]))
      && (forall i :: a + |r| <= i < |s| ==> IsTrimmable(s[i]))
    ensures r == [] || (!IsTrimmable(r[0]) && !IsTrimmable(r[|r| - 1]))
    ensures r == [] <==> forall i :: 0 <= i < |s| ==> IsTrimmable(s[i])
  {
    var a := |s| - |l|;
    assert s[a..][..|r|] == s[a..a + |r|];
    forall i | a + |r| <= i < |s| ensures IsTrimmable(s[i]) {
      assert s[i] == l[i - a];
    }
    if r != [] {
      assert r[0] == l[0];
    }
  }

  /** A string whose ends are not trimmable is left alone by `trim()`. */
  lemma TrimOfTrimmed(s: string)
    requires s == [] || (!IsTrimmable(s[0]) && !IsTrimmable(s[|s| - 1]))
    ensures Trim(s) == s
  {
  }

  /** `trim()` is idempotent. */
  lemma TrimIdempotent(s: string)
    ensures Trim(Trim(s)) == Trim(s)
  {
    TrimOfTrimmed(Trim(s));
  }

  // --------------------------------------------------------------- split

  /** The parts joined back with commas. */
  function Join(parts: seq<string>): string
    requires |parts| >= 1
  {
    if |parts| == 1 then parts[0] else parts[0] + "," + Join(parts[1..])
  }

  /**
   * The string cut at every comma, keeping empty parts: one more part than
   * there are commas, no part holds a comma, and joining the parts gives
   * the string back.
   */
  function SplitAll(s: string): (parts: seq<string>)
    ensures |parts| >= 1
    ensures forall i :: 0 <= i < |parts| ==> ',' !in parts[i]
    ensures Join(parts) == s
    ensures ',' !in s ==> parts == [s]
  {
    if s == [] then [""]
    else
      var rest := SplitAll(s[1..]);
      if s[0] == ',' then
        assert s == [s[0]] + s[1..];
        [""] + rest
      else
        var parts := [[s[0]] + rest[0]] + rest[1..];
        assert parts[1..] == rest[1..];
        assert s == [s[0]] + s[1..];
        parts
  }

  lemma {:induction false} SplitAllAfterPart(p: string, t: string)
    requires ',' !in p
    ensures SplitAll(p + "," + t) == [p] + SplitAll(t)
    decreases |p|
  {
    if p == [] {
      assert p + "," + t == [','] + t;
      assert (p + "," + t)[1..] == t;
    } else {
      assert (p + "," + t)[1..] == p[1..] + "," + t;
      SplitAllAfterPart(p[1..], t);
      assert [p[0]] + p[1..] == p;
    }
  }

  /** Splitting comma-free parts joined with commas gives the parts back. */
  lemma {:induction false} SplitAllJoin(parts: seq<string>)
    requires |parts| >= 1
    requires forall i :: 0 <= i < |parts| ==> ',' !in parts[i]
    ensures SplitAll(Join(parts)) == parts
    decreases |parts|
  {
    if |parts| > 1 {
      SplitAllJoin(parts[1..]);
      SplitAllAfterPart(parts[0], Join(parts[1..]));
      assert [parts[0]] + parts[1..] == parts;
    }
  }

  /** The part list with its trailing empty strings removed. */
  function DropTrailingEmpty(parts: seq<string>): (r: seq<string>)
    ensures IsPrefix(r, parts)
    ensures r == [] || r[|r| - 1] != ""
    ensures forall i :: |r| <= i < |parts| ==> parts[i] == ""
  {
    if parts != [] && parts[|parts| - 1] == "" then DropTrailingEmpty(parts[..|parts| - 1])
    else parts
  }

  /**
   * Java's `s.split(",")` (limit zero): a string without a comma comes back
   * whole, even when it is empty; otherwise the parts between commas, with
   * trailing empty parts removed.
   */
  function JavaSplit(s: string): (parts: seq<string>)
    ensures ',' !in s ==> parts == [s]
    ensures IsPrefix(parts, SplitAll(s))
    ensures forall i :: |parts| <= i < |SplitAll(s)| ==> SplitAll(s)[i] == ""
    ensures ',' in s ==> parts == [] || parts[|parts| - 1] != ""
  {
    if ',' !in s then [s] else DropTrailingEmpty(SplitAll(s))
  }

  /**
   * The contract of `JavaSplit` fixes its result: on a line with a comma, the
   * only prefix of the comma parts that is empty or ends in a non-empty part,
   * and drops only empty parts, is the one `split(",")` returns.
   */
  lemma JavaSplitUnique(s: string, parts: seq<string>)
    requires ',' in s
    requires IsPrefix(parts, SplitAll(s))
    requires forall i :: |parts| <= i < |SplitAll(s)| ==> SplitAll(s)[i] == ""
    requires parts == [] || parts[|parts| - 1] != ""
    ensures parts == JavaSplit(s)
  {
  }

  // -------------------------------------------------------------- digits

  predicate IsDigit(c: char) { '0' <= c <= '9' }

  predicate AllDigits(s: string) { forall i :: 0 <= i < |s| ==> IsDigit(s[i]) }

  /** `replaceAll("[^0-9]", "")`: the ASCII digits of the string, in order. */
  function Digits(s: string): (r: string)
    ensures AllDigits(r)
    ensures |r| <= |s|
    ensures r == [] <==> forall i :: 0 <= i < |s| ==> !IsDigit(s[i])
    ensures AllDigits(s) ==> r == s
  {
    if s == [] then []
    else
      var rest := Digits(s[1..]);
      assert s == [s[0]] + s[1..];
      if IsDigit(s[0]) then [s[0]] + rest else rest
  }

  /** Stripping non-digits distributes over concatenation. */
  lemma {:induction false} DigitsAppend(a: string, b: string)
    ensures Digits(a + b) == Digits(a) + Digits(b)
    decreases |a|
  {
    if a == [] {
      assert a + b == b;
    } else {
      assert (a + b)[0] == a[0];
      assert (a + b)[1..] == a[1..] + b;
      DigitsAppend(a[1..], b);
    }
  }

  function DigitValue(c: char): nat
    requires IsDigit(c)
  {
    (c as int) - ('0' as int)
  }

  /** The number a digit string denotes in base ten (leading zeros allowed). */
  function DigitsValue(ds: string): nat
    requires AllDigits(ds)
  {
    if ds == [] then 0 else 10 * DigitsValue(ds[..|ds| - 1]) + DigitValue(ds[|ds| - 1])
  }

  /** Appending a digit multiplies the value by ten and adds that digit. */
  lemma DigitsValueAppend(ds: string, c: char)
    requires AllDigits(ds) && IsDigit(c)
    ensures AllDigits(ds + [c])
    ensures DigitsValue(ds + [c]) == 10 * DigitsValue(ds) + DigitValue(c)
  {
    assert (ds + [c])[..|ds|] == ds;
  }

  /** Leading zeros do not change the value, so a digit string may be longer than ten digits and still fit. */
  lemma {:induction false} LeadingZerosIgnored(zeros: string, ds: string)
    requires forall i :: 0 <= i < |zeros| ==> zeros[i] == '0'
    requires AllDigits(ds)
    ensures AllDigits(zeros + ds)
    ensures DigitsValue(zeros + ds) == DigitsValue(ds)
    decreases |ds|, |zeros|
  {
    if ds == [] {
      assert zeros + ds == zeros;
      if zeros != [] {
        LeadingZerosIgnored(zeros[..|zeros| - 1], []);
        assert zeros[..|zeros| - 1] + [] == zeros[..|zeros| - 1];
      }
    } else {
      var init := ds[..|ds| - 1];
      LeadingZerosIgnored(zeros, init);
      assert zeros + ds == (zeros + init) + [ds[|ds| - 1]];
      DigitsValueAppend(zeros + init, ds[|ds| - 1]);
      assert ds == init + [ds[|ds| - 1]];
      DigitsValueAppend(init, ds[|ds| - 1]);
    }
  }

  /**
   * `Integer.parseInt` applied to a string of digits: it fails
   * (`NumberFormatException`) on the empty string and on a value above
   * 2^31 - 1, and otherwise yields that value.
   */
  function ParseInt32(ds: string): (r: Option<int>)
    requires AllDigits(ds)
    ensures r.Some? <==> ds != [] && DigitsValue(ds) <= Int32Max
    ensures r.Some? ==> ValidPopulation(r.value) && r.value == DigitsValue(ds)
  {
    if ds == [] || DigitsValue(ds) > Int32Max then None else Some(DigitsValue(ds))
  }

  function DigitChar(d: nat): (c: char)
    requires d < 10
    ensures IsDigit(c) && DigitValue(c) == d
  {
    ('0' as int + d) as char
  }

  /** The decimal representation of a natural number, the inverse of DigitsValue. */
  function Decimal(n: nat): (ds: string)
    ensures ds != [] && AllDigits(ds)
    ensures DigitsValue(ds) == n
  {
    if n < 10 then [DigitChar(n)]
    else
      var ds := Decimal(n / 10) + [DigitChar(n % 10)];
      assert ds[..|ds| - 1] == Decimal(n / 10);
      ds
  }

  lemma Int32MaxPrefix()
    ensures AllDigits("214748364") && DigitsValue("214748364") == 214748364
  {
    assert DigitsValue("2") == 2 by { assert "2"[..0] == ""; }
    DigitsValueAppend("2", '1'); assert "2" + ['1'] == "21";
    DigitsValueAppend("21", '4'); assert "21" + ['4'] == "214";
    DigitsValueAppend("214", '7'); assert "214" + ['7'] == "2147";
    DigitsValueAppend("2147", '4'); assert "2147" + ['4'] == "21474";
    DigitsValueAppend("21474", '8'); assert "21474" + ['8'] == "214748";
    DigitsValueAppend("214748", '3'); assert "214748" + ['3'] == "2147483";
    DigitsValueAppend("2147483", '6'); assert "2147483" + ['6'] == "21474836";
    DigitsValueAppend("21474836", '4'); assert "21474836" + ['4'] == "214748364";
  }

  /** `Integer.parseInt` accepts the largest `int` and rejects the next number. */
  lemma ParseInt32Boundary()
    ensures ParseInt32("2147483647") == Some(Int32Max)
    ensures ParseInt32("2147483648") == None
  {
    Int32MaxDigits();
    OverflowDigits();
  }

  lemma Int32MaxDigits()
    ensures AllDigits("2147483647") && DigitsValue("2147483647") == Int32Max
  {
    Int32MaxPrefix();
    DigitsValueAppend("214748364", '7');
    assert "214748364" + ['7'] == "2147483647";
  }

  lemma OverflowDigits()
    ensures AllDigits("2147483648") && DigitsValue("2147483648") == Int32Max + 1
  {
    Int32MaxPrefix();
    DigitsValueAppend("214748364", '8');
    assert "214748364" + ['8'] == "2147483648";
  }

  /** A comma appended to a string that has one adds an empty last part. */
  lemma {:induction false} SplitAllAppendComma(s: string)
    ensures SplitAll(s + ",") == SplitAll(s) + [""]
    decreases |s|
  {
    if s == [] {
      assert s + "," == [','];
      assert [','][1..] == [];
    } else {
      assert (s + ",")[0] == s[0];
      assert (s + ",")[1..] == s[1..] + ",";
      SplitAllAppendComma(s[1..]);
    }
  }

  /** A trailing comma on a line that already has a comma changes nothing `split(",")` returns. */
  lemma TrailingCommaIgnored(s: string)
    requires ',' in s
    ensures JavaSplit(s + ",") == JavaSplit(s)
  {
    SplitAllAppendComma(s);
    var parts := SplitAll(s);
    assert (parts + [""])[..|parts|] == parts;
    assert (s + ",")[|s|] == ',';
  }
}
