/**
 * `formatDays`: a day count as decimal text with a thousands separator.
 *
 * The program inserts one comma at a fixed position chosen by the size of
 * the count, which matches conventional grouping only below 100000.
 */
module Format {
  import opened Decimal

  predicate NoCommas(s: string) {
    forall i :: 0 <= i < |s| ==> s[i] != ','
  }

  /** The text with every comma deleted. */
  function RemoveCommas(s: string): (r: string)
    ensures NoCommas(r)
    ensures |r| <= |s|
  {
    if |s| == 0 then ""
    else RemoveCommas(s[..|s| - 1]) + (if s[|s| - 1] == ',' then "" else [s[|s| - 1]])
  }

  function CountCommas(s: string): nat {
    if |s| == 0 then 0
    else CountCommas(s[..|s| - 1]) + (if s[|s| - 1] == ',' then 1 else 0)
  }

  lemma {:induction false} RemoveCommasConcat(a: string, b: string)
    ensures RemoveCommas(a + b) == RemoveCommas(a) + RemoveCommas(b)
    ensures CountCommas(a + b) == CountCommas(a) + CountCommas(b)
    decreases |b|
  {
    if |b| > 0 {
      assert (a + b)[..|a + b| - 1] == a + b[..|b| - 1];
      RemoveCommasConcat(a, b[..|b| - 1]);
    } else {
      assert a + b == a;
    }
  }

  /** Text without commas is its own comma-free form and counts none. */
  lemma {:induction false} NoCommasFixed(s: string)
    requires NoCommas(s)
    ensures RemoveCommas(s) == s
    ensures CountCommas(s) == 0
  {
    if |s| > 0 {
      NoCommasFixed(s[..|s| - 1]);
    }
  }

  lemma ItoaHasNoCommas(n: int)
    ensures NoCommas(Itoa(n))
  {
    ItoaCharacters(n);
  }

  /** Text split at `k` with one comma put back in between. */
  lemma CommaInserted(s: string, k: nat)
    requires NoCommas(s) && k <= |s|
    ensures RemoveCommas(s[..k] + "," + s[k..]) == s
    ensures CountCommas(s[..k] + "," + s[k..]) == 1
  {
    NoCommasFixed(s[..k]);
    NoCommasFixed(s[k..]);
    RemoveCommasConcat(s[..k], ",");
    RemoveCommasConcat(s[..k] + ",", s[k..]);
    assert s[..k] + s[k..] == s;
  }

  /**
   * `formatDays(days)`: `fmt.Sprint(days)` with a comma after the first two
   * digits from 10000 on, after the first digit from 1000 on, and none below.
   * Deleting the comma gives back `fmt.Sprint(days)`.
   */
  function FormatDays(days: int): (r: string)
    ensures RemoveCommas(r) == Itoa(days)
    ensures CountCommas(r) <= 1
    ensures CountCommas(r) == 1 <==> days >= 1000
    ensures 1000 <= days < 10000 ==> |r| == 5 && r[1] == ','
    ensures days >= 10000 ==> |r| >= 6 && r[2] == ','
  {
    var s := Itoa(days);
    ItoaHasNoCommas(days);
    if days >= 10000 then
      ItoaLength(days);
      CommaInserted(s, 2);
      s[..2] + "," + s[2..]
    else if days >= 1000 then
      ItoaLength(days);
      CommaInserted(s, 1);
      s[..1] + "," + s[1..]
    else
      NoCommasFixed(s);
      s
  }

  /** Counts below 1000, and negative ones, are printed as plain `fmt.Sprint` text. */
  lemma FormatDaysSmall(days: int)
    requires days < 1000
    ensures FormatDays(days) == Itoa(days)
    ensures NoCommas(FormatDays(days))
  {
    ItoaHasNoCommas(days);
  }

  /** 999 has no comma. */
  lemma FormatDaysExample999()
    ensures FormatDays(999) == "999"
  {
    assert NatToString(99) == "99";
    assert NatToString(999) == "999";
  }

  /** 1000 takes its comma after the first digit. */
  lemma FormatDaysExample1000()
    ensures FormatDays(1000) == "1,000"
  {
    assert NatToString(100) == "100";
    assert NatToString(1000) == "1000";
  }

  /** 12345 takes its comma after the first two digits. */
  lemma FormatDaysExample12345()
    ensures FormatDays(12345) == "12,345"
  {
    assert NatToString(123) == "123";
    assert NatToString(1234) == "1234";
    assert NatToString(12345) == "12345";
  }

  /**
   * Conventional thousands grouping: the first group has one to three
   * characters and each comma is followed by exactly three, so the commas
   * sit exactly where a multiple of four characters remain.
   */
  predicate Grouped(r: string) {
    |r| % 4 != 0 &&
    forall i :: 0 <= i < |r| ==> (r[i] == ',' <==> i > 0 && (|r| - i) % 4 == 0)
  }

  /** Commas put between every three digits, counting from the right. */
  function Group3(s: string): string
    decreases |s|
  {
    if |s| <= 3 then s
    else Group3(s[..|s| - 3]) + "," + s[|s| - 3..]
  }

  /** Grouping a non-empty comma-free text groups it conventionally and keeps its characters. */
  lemma Group3Meaning(s: string)
    requires NoCommas(s) && |s| >= 1
    ensures Grouped(Group3(s))
    ensures RemoveCommas(Group3(s)) == s
  {
    Group3Grouped(s);
    Group3Keeps(s);
  }

  lemma {:induction false} Group3Grouped(s: string)
    requires NoCommas(s) && |s| >= 1
    ensures Grouped(Group3(s))
    decreases |s|
  {
    if |s| > 3 {
      var head := s[..|s| - 3];
      Group3Grouped(head);
      GroupedAppend(Group3(head), s[|s| - 3..]);
    }
  }

  lemma {:induction false} Group3Keeps(s: string)
    requires NoCommas(s)
    ensures RemoveCommas(Group3(s)) == s
    decreases |s|
  {
    if |s| <= 3 {
      NoCommasFixed(s);
    } else {
      var head := s[..|s| - 3];
      var tail := s[|s| - 3..];
      Group3Keeps(head);
      var g := Group3(head);
      NoCommasFixed(tail);
      RemoveCommasConcat(g, ",");
      RemoveCommasConcat(g + ",", tail);
      assert head + tail == s;
    }
  }

  /** A grouped text extended by a comma and three more digits is still grouped. */
  lemma GroupedAppend(g: string, tail: string)
    requires Grouped(g) && NoCommas(tail) && |tail| == 3
    ensures Grouped(g + "," + tail)
  {
    var r := g + "," + tail;
    assert |r| == |g| + 4;
    forall i | 0 <= i < |r|
      ensures r[i] == ',' <==> i > 0 && (|r| - i) % 4 == 0
    {
      if i < |g| {
        assert r[i] == g[i];
        assert (|r| - i) % 4 == (|g| - i) % 4;
      } else if i > |g| {
        assert r[i] == tail[i - |g| - 1];
      }
    }
  }

  /**
   * Thousands grouping as the program evidently intends it: non-negative
   * counts are grouped in threes from the right, negative ones are left as
   * the program leaves them.
   */
  function GroupDays(days: int): (r: string)
    ensures RemoveCommas(r) == Itoa(days)
    ensures days >= 0 ==> Grouped(r)
  {
    ItoaHasNoCommas(days);
    if days < 0 then
      NoCommasFixed(Itoa(days));
      Itoa(days)
    else
      Group3Meaning(Itoa(days));
      Group3(Itoa(days))
  }

  /** Below 100000 the program's fixed comma is conventional grouping. */
  lemma FormatDaysGroupsBelowHundredThousand(days: int)
    requires days < 100000
    ensures FormatDays(days) == GroupDays(days)
    ensures days >= 0 ==> Grouped(FormatDays(days))
  {
    var s := Itoa(days);
    if days >= 0 {
      ItoaLength(days);
      if 1000 <= days < 10000 {
        assert Group3(s) == Group3(s[..1]) + "," + s[1..];
      } else if 10000 <= days {
        assert Group3(s) == Group3(s[..2]) + "," + s[2..];
      }
    }
  }

  /**
   * From 100000 on the fixed comma is misplaced: four characters before the
   * end there should be a comma, and there is a digit.
   */
  lemma FormatDaysUngroupedFromHundredThousand(days: int)
    requires days >= 100000
    ensures !Grouped(FormatDays(days))
    ensures FormatDays(days) != GroupDays(days)
  {
    var r := FormatDays(days);
    var s := Itoa(days);
    ItoaLength(days);
    ItoaCharacters(days);
    var j := |r| - 4;
    assert r[j] == s[j - 1];
    assert r[j] != ',';
  }

  /** 123456 is printed as "12,3456". */
  lemma FormatDaysSixDigitExample()
    ensures FormatDays(123456) == "12,3456"
  {
    SixDigitText();
  }

  /** Grouped conventionally, 123456 reads "123,456". */
  lemma GroupDaysSixDigitExample()
    ensures GroupDays(123456) == "123,456"
  {
    SixDigitText();
    assert Group3("123") == "123";
  }

  lemma SixDigitText()
    ensures Itoa(123456) == "123456"
  {
    assert NatToString(123) == "123";
    assert NatToString(1234) == "1234";
    assert NatToString(12345) == "12345";
    assert NatToString(123456) == "123456";
  }
}
