/**
 * The two input files of test/genTestFile.go, and what selpg selects from
 * them: "test-pageLength" holds the lines "1\n" .. "150\n", "test-formFeed"
 * the chunks "1\f" .. "5\f".
 */
module Fixtures {
  import opened Bytes
  import opened Options
  import opened Selector

  predicate IsDigit(b: byte)
  {
    '0' as byte <= b <= '9' as byte
  }

  /** strconv.Itoa for a natural number, as ASCII bytes: digits only, and no leading zero. */
  function Decimal(n: nat): (r: seq<byte>)
    ensures 1 <= |r| && forall k :: 0 <= k < |r| ==> IsDigit(r[k])
    ensures r[0] == '0' as byte ==> n == 0
  {
    if n < 10 then [('0' as int + n) as byte]
    else Decimal(n / 10) + [('0' as int + n % 10) as byte]
  }

  /** The number a string of ASCII digits denotes, read most significant digit first. */
  function DigitsValue(r: seq<byte>): nat
    requires forall k :: 0 <= k < |r| ==> IsDigit(r[k])
  {
    if r == [] then 0
    else
      assert IsDigit(r[|r| - 1]);
      DigitsValue(r[..|r| - 1]) * 10 + (r[|r| - 1] as int - '0' as int)
  }

  /** Reading the digits back gives the number: Decimal is the decimal notation of n. */
  lemma {:induction false} DecimalValue(n: nat)
    ensures DigitsValue(Decimal(n)) == n
  {
    if n >= 10 {
      var r := Decimal(n);
      DecimalValue(n / 10);
      assert r[..|r| - 1] == Decimal(n / 10);
    }
  }

  /** The numbers 1 .. count, each in decimal followed by d. */
  function Numbered(count: nat, d: byte): (pieces: seq<seq<byte>>)
    ensures |pieces| == count
  {
    seq(count, i requires 0 <= i < count => Decimal(i + 1) + [d])
  }

  lemma NumberedTerminated(count: nat, d: byte)
    requires !IsDigit(d)
    ensures AllTerminated(Numbered(count, d), d)
  {
    forall k | 0 <= k < count ensures Terminated(Numbered(count, d)[k], d) {
      var p := Numbered(count, d)[k];
      assert p[..|p| - 1] == Decimal(k + 1);
    }
  }

  /** The file test-pageLength. */
  function PageLengthFixture(): seq<byte>
  {
    Concat(Numbered(150, LineFeed))
  }

  /** The file test-formFeed. */
  function FormFeedFixture(): seq<byte>
  {
    Concat(Numbered(5, FormFeed))
  }

  /** The numbered pieces are exactly the units ReadString(d) returns, followed by an empty last unit. */
  lemma NumberedUnits(count: nat, d: byte)
    requires !IsDigit(d)
    ensures Units(Concat(Numbered(count, d)), d) == Numbered(count, d) + [[]]
  {
    NumberedTerminated(count, d);
    UnitsOfTerminated(Numbered(count, d), d);
  }

  /** Page p of input made of complete lines, at 72 lines a page, is lines 72(p-1) .. 72p - 1. */
  lemma LinePage(a: SelpgArgs, input: seq<byte>, lines: seq<seq<byte>>, p: int)
    requires a.startPage == p && a.endPage == p + 1 && a.pageLength == 72 && !a.formFeed
    requires 1 <= p && 72 * p <= |lines|
    requires Units(input, LineFeed) == lines + [[]]
    ensures Selection(a, input) == Concat(lines[72 * (p - 1)..72 * p])
  {
    SelectionOfUnits(a, input, lines);
    LinePageBounds(a, p, |lines|);
  }

  lemma LinePageBounds(a: SelpgArgs, p: int, n: nat)
    requires a.startPage == p && a.endPage == p + 1 && a.pageLength == 72 && !a.formFeed
    requires 1 <= p && 72 * p <= n
    ensures Min((a.startPage - 1) * PerPage(a), n) == 72 * (p - 1)
    ensures Min((a.endPage - 1) * PerPage(a), n) == 72 * p
  {
  }

  /** selpg --s 1 --e 2 test-pageLength: page 1, the lines "1\n" .. "72\n". */
  lemma FirstPageOfLines(a: SelpgArgs)
    requires a.startPage == 1 && a.endPage == 2 && a.pageLength == 72 && !a.formFeed
    ensures Selection(a, PageLengthFixture()) == Concat(Numbered(150, LineFeed)[..72])
  {
    NumberedUnits(150, LineFeed);
    LinePage(a, PageLengthFixture(), Numbered(150, LineFeed), 1);
    assert Numbered(150, LineFeed)[0..72] == Numbered(150, LineFeed)[..72];
  }

  /** selpg --s 2 --e 3 test-pageLength: page 2, the lines "73\n" .. "144\n". */
  lemma SecondPageOfLines(a: SelpgArgs)
    requires a.startPage == 2 && a.endPage == 3 && a.pageLength == 72 && !a.formFeed
    ensures Selection(a, PageLengthFixture()) == Concat(Numbered(150, LineFeed)[72..144])
  {
    NumberedUnits(150, LineFeed);
    LinePage(a, PageLengthFixture(), Numbered(150, LineFeed), 2);
  }

  /** Form-feed pages start .. end - 1 of input made of complete chunks are those chunks. */
  lemma ChunkPages(a: SelpgArgs, input: seq<byte>, chunks: seq<seq<byte>>)
    requires a.formFeed && ValidRequest(a) && a.endPage <= |chunks| + 1
    requires Units(input, FormFeed) == chunks + [[]]
    ensures Selection(a, input) == Concat(chunks[a.startPage - 1..a.endPage - 1])
  {
    SelectionOfUnits(a, input, chunks);
    ChunkPageBounds(a, |chunks|);
  }

  lemma ChunkPageBounds(a: SelpgArgs, n: nat)
    requires a.formFeed && ValidRequest(a) && a.endPage <= n + 1
    ensures Min((a.startPage - 1) * PerPage(a), n) == a.startPage - 1
    ensures Min((a.endPage - 1) * PerPage(a), n) == a.endPage - 1
  {
  }

  /** selpg --s 2 --e 4 -f test-formFeed: the chunks "2\f" and "3\f". */
  lemma FormFeedPagesTwoAndThree(a: SelpgArgs)
    requires a.startPage == 2 && a.endPage == 4 && a.pageLength == 72 && a.formFeed
    ensures Selection(a, FormFeedFixture()) == ['2' as byte, FormFeed, '3' as byte, FormFeed]
  {
    NumberedUnits(5, FormFeed);
    ChunkPages(a, FormFeedFixture(), Numbered(5, FormFeed));
    SecondAndThirdChunk();
  }

  /** test-formFeed holds five pages, so selpg --s 6 -f on it outputs nothing, whatever the end page. */
  lemma FormFeedFixtureHasFivePages(a: SelpgArgs)
    requires a.formFeed && ValidRequest(a)
    ensures PageCount(a, FormFeedFixture()) == 5
    ensures a.startPage == 6 ==> Selection(a, FormFeedFixture()) == []
  {
    NumberedUnits(5, FormFeed);
    PageCountOfUnits(a, FormFeedFixture(), Numbered(5, FormFeed));
    if a.startPage == 6 {
      StartPastLastPageSelectsNothing(a, FormFeedFixture());
    }
  }

  lemma SecondAndThirdChunk()
    ensures Concat(Numbered(5, FormFeed)[1..3]) == ['2' as byte, FormFeed, '3' as byte, FormFeed]
  {
    var chunks := Numbered(5, FormFeed);
    var sel := chunks[1..3];
    assert sel == [chunks[1], chunks[2]];
    assert chunks[1] == Decimal(2) + [FormFeed] && chunks[2] == Decimal(3) + [FormFeed];
    assert Concat(sel) == chunks[1] + Concat(sel[1..]);
    assert sel[1..] == [chunks[2]];
    assert Concat([chunks[2]]) == chunks[2] + Concat([]);
  }
}
