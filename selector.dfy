/**
 * The page selector of selpg (processInput): a single forward pass over the
 * input that reads one unit at a time with ReadString, keeps a page counter
 * (and, in line-count mode, a line counter), and appends a unit to the output
 * only while start <= page < end.
 *
 * Both modes are one scheme: a form-feed chunk is a page of its own, so the
 * form-feed loop behaves as the line-count loop with one unit per page and
 * '\f' as delimiter. Gather states which units are output, StopCount how many
 * units are read before the scan stops.
 */
module Selector {
  import opened Bytes
  import opened Options

  // ---------- arithmetic on page numbers ----------

  lemma MulMono(a: int, b: int, c: int)
    requires a <= b && 0 <= c
    ensures a * c <= b * c
  {
    assert b * c - a * c == (b - a) * c;
  }

  lemma DivModUnique(n: int, d: int, q: int, r: int)
    requires 1 <= d && 0 <= r < d && n == q * d + r
    ensures n / d == q && n % d == r
  {
    var q', r' := n / d, n % d;
    assert n == q' * d + r';
    if q' < q {
      MulMono(q' + 1, q, d);
      assert false;
    } else if q < q' {
      MulMono(q + 1, q', d);
      assert false;
    }
  }

  /** Below the m-th multiple of d exactly when the quotient is below m. */
  lemma DivBelow(i: nat, d: int, m: int)
    requires 1 <= d && 0 <= m
    ensures i / d < m <==> i < m * d
  {
    var q := i / d;
    assert i == q * d + i % d;
    if q < m {
      MulMono(q + 1, m, d);
    } else {
      MulMono(m, q, d);
    }
  }

  // ---------- which units are output ----------

  /** The page of unit i (0-based) when every page holds perPage units. */
  function PageOf(i: nat, perPage: int): int
    requires 1 <= perPage
    decreases i
  {
    if i < perPage then 1 else PageOf(i - perPage, perPage) + 1
  }

  /** Unit i lies on page i / perPage + 1. */
  lemma {:induction false} PageOfDiv(i: nat, perPage: int)
    requires 1 <= perPage
    ensures PageOf(i, perPage) == i / perPage + 1
    decreases i
  {
    if i < perPage {
      DivModUnique(i, perPage, 0, i);
    } else {
      PageOfDiv(i - perPage, perPage);
      var q, r := (i - perPage) / perPage, (i - perPage) % perPage;
      assert i - perPage == q * perPage + r;
      assert i == (q + 1) * perPage + r;
      DivModUnique(i, perPage, q + 1, r);
    }
  }

  /** Unit i is output when its page is in [start, end). */
  predicate Kept(i: nat, perPage: int, startPage: int, endPage: int)
    requires 1 <= perPage
  {
    startPage <= PageOf(i, perPage) < endPage
  }

  /** The concatenation, in input order, of the units whose index satisfies keep. */
  function Pick(units: seq<seq<byte>>, keep: nat -> bool): seq<byte>
  {
    if units == [] then []
    else
      var k := |units| - 1;
      Pick(units[..k], keep) + (if keep(k) then units[k] else [])
  }

  /** The index test of the units that are output. */
  function KeptUnits(perPage: int, startPage: int, endPage: int): nat -> bool
    requires 1 <= perPage
  {
    (i: nat) => Kept(i, perPage, startPage, endPage)
  }

  /** The concatenation, in input order, of the units that are kept. */
  function Gather(units: seq<seq<byte>>, perPage: int, startPage: int, endPage: int): seq<byte>
    requires 1 <= perPage
  {
    Pick(units, KeptUnits(perPage, startPage, endPage))
  }

  function Min(a: int, b: int): int
  {
    if a <= b then a else b
  }

  /** The kept units are exactly those with index in [(start-1)*perPage, (end-1)*perPage). */
  lemma KeptRange(i: nat, perPage: int, startPage: int, endPage: int)
    requires 1 <= perPage && 1 <= startPage <= endPage
    ensures Kept(i, perPage, startPage, endPage)
        <==> (startPage - 1) * perPage <= i < (endPage - 1) * perPage
  {
    PageOfDiv(i, perPage);
    DivBelow(i, perPage, startPage - 1);
    DivBelow(i, perPage, endPage - 1);
  }

  /**
   * The output is the run of units from the first unit of page start to the
   * last unit of page end - 1, cut off at the end of the input.
   */
  lemma GatherRange(units: seq<seq<byte>>, perPage: int, startPage: int, endPage: int)
    requires 1 <= perPage && 1 <= startPage <= endPage
    ensures (startPage - 1) * perPage <= (endPage - 1) * perPage
    ensures Gather(units, perPage, startPage, endPage)
        == Concat(units[Min((startPage - 1) * perPage, |units|)..Min((endPage - 1) * perPage, |units|)])
  {
    var lo, hi := (startPage - 1) * perPage, (endPage - 1) * perPage;
    MulMono(startPage - 1, endPage - 1, perPage);
    var keep := KeptUnits(perPage, startPage, endPage);
    forall i: nat ensures keep(i) <==> lo <= i < hi {
      KeptRange(i, perPage, startPage, endPage);
    }
    PickBetween(units, keep, lo, hi);
  }

  /** Picking the indices of an interval [lo, hi) gives the concatenation of that slice. */
  lemma {:induction false} PickBetween(units: seq<seq<byte>>, keep: nat -> bool, lo: int, hi: int)
    requires 0 <= lo <= hi
    requires forall i: nat :: keep(i) <==> lo <= i < hi
    ensures Pick(units, keep) == Concat(units[Min(lo, |units|)..Min(hi, |units|)])
  {
    if units != [] {
      var k := |units| - 1;
      PickBetween(units[..k], keep, lo, hi);
      PickBetweenStep(units, keep, lo, hi);
    }
  }

  lemma PickBetweenStep(units: seq<seq<byte>>, keep: nat -> bool, lo: int, hi: int)
    requires 0 <= lo <= hi && units != []
    requires keep(|units| - 1) <==> lo <= |units| - 1 < hi
    requires var k := |units| - 1; Pick(units[..k], keep) == Concat(units[..k][Min(lo, k)..Min(hi, k)])
    ensures Pick(units, keep) == Concat(units[Min(lo, |units|)..Min(hi, |units|)])
  {
    var k := |units| - 1;
    var a, b := Min(lo, k), Min(hi, k);
    assert units[..k][a..b] == units[a..b];
    if lo <= k < hi {
      ConcatExtend(units, a, k);
    }
  }

  lemma ConcatExtend(units: seq<seq<byte>>, a: nat, k: nat)
    requires a <= k < |units|
    ensures Concat(units[a..k + 1]) == Concat(units[a..k]) + units[k]
  {
    assert units[a..k + 1] == units[a..k] + [units[k]];
    ConcatSnoc(units[a..k], units[k]);
  }

  /** One more unit: the output grows by that unit exactly when it is kept. */
  lemma GatherSnoc(units: seq<seq<byte>>, j: nat, perPage: int, startPage: int, endPage: int)
    requires 1 <= perPage && j < |units|
    ensures Gather(units[..j + 1], perPage, startPage, endPage)
        == Gather(units[..j], perPage, startPage, endPage)
           + (if Kept(j, perPage, startPage, endPage) then units[j] else [])
  {
    assert units[..j + 1][..j] == units[..j];
  }

  // ---------- where the scan stops ----------

  /**
   * How many of the n units the scan reads. After reading its k-th unit the
   * page counter is k / perPage + 1, and the scan stops when that equals the
   * end page or at end of input. With end >= 2 that is right after the last
   * unit of page end - 1, so no unit of page end is read. With end == 1 (and
   * so start == 1) the counter starts at the end page: the scan stops after
   * one unit when a page has more than one unit, and otherwise runs to the
   * end of the input.
   */
  function StopCount(n: nat, perPage: int, endPage: int): (k: nat)
    requires 1 <= n && 1 <= perPage && 1 <= endPage
    ensures 1 <= k <= n
  {
    if endPage >= 2 then
      MulMono(1, endPage - 1, perPage);
      Min(n, (endPage - 1) * perPage)
    else if perPage > 1 then 1
    else n
  }

  /** The loop's exit test after reading k units holds first at k == StopCount. */
  lemma StopTest(k: nat, n: nat, perPage: int, endPage: int)
    requires 1 <= perPage && 1 <= endPage && 1 <= k <= n
    requires k <= StopCount(n, perPage, endPage)
    ensures (k / perPage + 1 == endPage || k == n) <==> k == StopCount(n, perPage, endPage)
  {
    DivBelow(k, perPage, endPage - 1);
    if endPage >= 2 {
      DivBelow(k, perPage, endPage);
      MulMono(endPage - 1, endPage, perPage);
    } else if perPage > 1 {
      DivBelow(k, perPage, 1);
    } else {
      DivModUnique(k, 1, k, 0);
    }
  }

  /** The exit test of the form-feed loop, where the page counter is k + 1 after k units. */
  lemma StopTestAlone(k: nat, n: nat, endPage: int)
    requires 1 <= endPage && 1 <= k <= n && k <= StopCount(n, 1, endPage)
    ensures (k + 1 == endPage || k == n) <==> k == StopCount(n, 1, endPage)
  {
    StopTest(k, n, 1, endPage);
    DivModUnique(k, 1, k, 0);
  }

  /** Nothing after the point where the scan stops would have been output. */
  lemma GatherUpToStop(units: seq<seq<byte>>, perPage: int, startPage: int, endPage: int)
    requires 1 <= perPage && 1 <= startPage <= endPage && 1 <= |units|
    ensures Gather(units[..StopCount(|units|, perPage, endPage)], perPage, startPage, endPage)
        == Gather(units, perPage, startPage, endPage)
  {
    var stop := StopCount(|units|, perPage, endPage);
    GatherRange(units, perPage, startPage, endPage);
    GatherRange(units[..stop], perPage, startPage, endPage);
    var lo, hi := (startPage - 1) * perPage, (endPage - 1) * perPage;
    StopAtLastKept(|units|, perPage, endPage);
    WindowOfPrefix(units, lo, hi, stop);
  }

  /**
   * The scan stops at the end of page end - 1 or earlier at end of input; for
   * end == 1 no unit is kept. (StopCount unfolded once, as a solver aid.)
   */
  lemma StopAtLastKept(n: nat, perPage: int, endPage: int)
    requires 1 <= n && 1 <= perPage && 1 <= endPage
    ensures endPage >= 2 ==> StopCount(n, perPage, endPage) == Min(n, (endPage - 1) * perPage)
    ensures endPage == 1 ==> (endPage - 1) * perPage == 0
  {
  }

  /** Cutting the units at stop does not change a window that ends before stop or at the end. */
  lemma WindowOfPrefix(units: seq<seq<byte>>, lo: int, hi: int, stop: nat)
    requires 0 <= lo <= hi && stop <= |units| && Min(hi, |units|) <= stop
    ensures Min(lo, stop) <= Min(hi, stop)
    ensures units[..stop][Min(lo, stop)..Min(hi, stop)] == units[Min(lo, |units|)..Min(hi, |units|)]
  {
    assert Min(lo, stop) == Min(lo, |units|) && Min(hi, stop) == Min(hi, |units|);
    assert units[..stop][Min(lo, stop)..Min(hi, stop)] == units[Min(lo, stop)..Min(hi, stop)];
  }

  // ---------- the two scanning loops ----------

  /**
   * The reader after j units: it has consumed their concatenation and the
   * rest of the input splits into the remaining units.
   */
  ghost predicate AfterUnits(input: seq<byte>, d: byte, pos: nat, j: nat)
  {
    && pos <= |input| && j < |Units(input, d)|
    && input[..pos] == Concat(Units(input, d)[..j])
    && Units(input[pos..], d) == Units(input, d)[j..]
  }

  /** One ReadString call returns unit j and moves the reader past it. */
  lemma ReadStep(input: seq<byte>, d: byte, pos: nat, j: nat)
    requires AfterUnits(input, d, pos, j)
    ensures var r, u := ReadString(input, pos, d), Units(input, d);
      && r.unit == u[j]
      && (r.eof <==> j + 1 == |u|)
      && input[..r.next] == Concat(u[..j + 1])
      && (!r.eof ==> AfterUnits(input, d, r.next, j + 1))
  {
    var r, u := ReadString(input, pos, d), Units(input, d);
    var w := Units(input[pos..], d);
    ReadStringUnits(input, pos, d);
    assert w == u[j..];
    assert r.unit == u[j];
    PrefixGrow(input, pos, r.next);
    assert u[..j + 1] == u[..j] + [u[j]];
    ConcatSnoc(u[..j], u[j]);
    assert w[1..] == u[j + 1..];
  }

  /** A prefix extends by the slice after it (a solver aid for ReadStep). */
  lemma PrefixGrow(s: seq<byte>, pos: nat, next: nat)
    requires pos <= next <= |s|
    ensures s[..next] == s[..pos] + s[pos..next]
  {
  }

  /** A unit that is its own page is kept when its page number is in range. */
  lemma KeptAlone(j: nat, startPage: int, endPage: int)
    ensures Kept(j, 1, startPage, endPage) <==> startPage <= j + 1 < endPage
  {
    PageOfDiv(j, 1);
    DivModUnique(j, 1, j, 0);
  }

  /** Advancing the line counter past the page length starts the next page. */
  lemma LineStep(j: nat, pageLength: int)
    requires 1 <= pageLength
    ensures j % pageLength + 1 < pageLength ==> (j + 1) / pageLength == j / pageLength && (j + 1) % pageLength == j % pageLength + 1
    ensures j % pageLength + 1 == pageLength ==> (j + 1) / pageLength == j / pageLength + 1 && (j + 1) % pageLength == 0
  {
    var q, r := j / pageLength, j % pageLength;
    assert j == q * pageLength + r;
    if r + 1 < pageLength {
      DivModUnique(j + 1, pageLength, q, r + 1);
    } else {
      assert j + 1 == (q + 1) * pageLength + 0;
      DivModUnique(j + 1, pageLength, q + 1, 0);
    }
  }

  /** Form-feed mode: each ReadString('\f') unit is one page. */
  method SelectByFormFeed(input: seq<byte>, startPage: int, endPage: int) returns (out: seq<byte>, read: nat)
    requires 1 <= startPage <= endPage
    ensures out == Gather(Units(input, FormFeed), 1, startPage, endPage)
    ensures read <= |input|
    ensures input[..read] == Concat(Units(input, FormFeed)[..StopCount(|Units(input, FormFeed)|, 1, endPage)])
  {
    ghost var units := Units(input, FormFeed);
    ghost var stop := StopCount(|units|, 1, endPage);
    ghost var j := 0;
    var pos := 0;
    var pageCounter := 1;
    out := [];
    while true
      invariant j < stop && AfterUnits(input, FormFeed, pos, j)
      invariant pageCounter == j + 1
      invariant out == Gather(units[..j], 1, startPage, endPage)
      decreases |input| - pos
    {
      ReadStep(input, FormFeed, pos, j);
      GatherSnoc(units, j, 1, startPage, endPage);
      KeptAlone(j, startPage, endPage);
      var page := ReadString(input, pos, FormFeed);
      if startPage <= pageCounter && pageCounter < endPage {
        out := out + page.unit;
      }
      pageCounter := pageCounter + 1;
      pos := page.next;
      j := j + 1;
      StopTestAlone(j, |units|, endPage);
      if pageCounter == endPage || page.eof {
        break;
      }
    }
    GatherUpToStop(units, 1, startPage, endPage);
    read := pos;
  }

  /** Line-count mode: each ReadString('\n') unit is a line, pageLength lines to a page. */
  method SelectByLines(input: seq<byte>, startPage: int, endPage: int, pageLength: int) returns (out: seq<byte>, read: nat)
    requires 1 <= startPage <= endPage && 1 <= pageLength
    ensures out == Gather(Units(input, LineFeed), pageLength, startPage, endPage)
    ensures read <= |input|
    ensures input[..read] == Concat(Units(input, LineFeed)[..StopCount(|Units(input, LineFeed)|, pageLength, endPage)])
  {
    ghost var units := Units(input, LineFeed);
    ghost var stop := StopCount(|units|, pageLength, endPage);
    ghost var j := 0;
    var pos := 0;
    var pageCounter := 1;
    var lineCounter := 1;
    out := [];
    DivModUnique(0, pageLength, 0, 0);
    while true
      invariant j < stop && AfterUnits(input, LineFeed, pos, j)
      invariant 1 <= lineCounter <= pageLength
      invariant pageCounter == j / pageLength + 1 && lineCounter == j % pageLength + 1
      invariant out == Gather(units[..j], pageLength, startPage, endPage)
      decreases |input| - pos
    {
      ReadStep(input, LineFeed, pos, j);
      GatherSnoc(units, j, pageLength, startPage, endPage);
      LineStep(j, pageLength);
      PageOfDiv(j, pageLength);
      var line := ReadString(input, pos, LineFeed);
      if startPage <= pageCounter && pageCounter < endPage {
        out := out + line.unit;
      }
      lineCounter := lineCounter + 1;
      if lineCounter > pageLength {
        pageCounter := pageCounter + 1;
        lineCounter := 1;
      }
      pos := line.next;
      j := j + 1;
      StopTest(j, |units|, pageLength, endPage);
      if pageCounter == endPage || line.eof {
        break;
      }
    }
    GatherUpToStop(units, pageLength, startPage, endPage);
    read := pos;
  }

  // ---------- processInput ----------

  /** The delimiter ReadString is called with. */
  function Delimiter(a: SelpgArgs): byte
  {
    if a.formFeed then FormFeed else LineFeed
  }

  /** Units per page: a form-feed chunk is a page by itself. */
  function PerPage(a: SelpgArgs): int
  {
    if a.formFeed then 1 else a.pageLength
  }

  /** The bytes written for a validated request: every unit whose page is in [start, end). */
  function Selection(a: SelpgArgs, input: seq<byte>): seq<byte>
    requires ValidRequest(a)
  {
    Gather(Units(input, Delimiter(a)), PerPage(a), a.startPage, a.endPage)
  }

  /** The bytes the scan takes from the reader before it stops. */
  function Consumed(a: SelpgArgs, input: seq<byte>): seq<byte>
    requires ValidRequest(a)
  {
    var units := Units(input, Delimiter(a));
    Concat(units[..StopCount(|units|, PerPage(a), a.endPage)])
  }

  /**
   * The scanning part of processInput: it picks the loop by the -f flag and
   * returns the output buffer and the number of bytes read from the reader.
   */
  method ProcessInput(a: SelpgArgs, input: seq<byte>) returns (out: seq<byte>, read: nat)
    requires ValidRequest(a)
    ensures out == Selection(a, input)
    ensures read <= |input| && input[..read] == Consumed(a, input)
  {
    if a.formFeed {
      out, read := SelectByFormFeed(input, a.startPage, a.endPage);
    } else {
      out, read := SelectByLines(input, a.startPage, a.endPage, a.pageLength);
    }
  }

  /**
   * main after flag parsing: validate, and only on success scan the input.
   * On a validation error no page is output.
   */
  method Run(a: SelpgArgs, nonFlags: seq<string>, allArgs: seq<string>, input: seq<byte>)
    returns (r: Result<seq<byte>, ArgError>)
    ensures ProcessArgs(a, nonFlags, allArgs).Err? ==> r == Err(ProcessArgs(a, nonFlags, allArgs).error)
    ensures ProcessArgs(a, nonFlags, allArgs).Ok? ==> r == Ok(Selection(ProcessArgs(a, nonFlags, allArgs).value, input))
  {
    var v := ProcessArgs(a, nonFlags, allArgs);
    if v.Err? {
      return Err(v.error);
    }
    var out, _ := ProcessInput(v.value, input);
    return Ok(out);
  }

  // ---------- properties of the selection ----------

  /**
   * The output holds exactly the units with 0-based index in
   * [(start-1)*perPage, (end-1)*perPage), cut off at the last unit: pages
   * start .. end-1, and nothing of page end.
   */
  lemma SelectionPages(a: SelpgArgs, input: seq<byte>)
    requires ValidRequest(a)
    ensures var units, per := Units(input, Delimiter(a)), PerPage(a);
      && (a.startPage - 1) * per <= (a.endPage - 1) * per
      && Selection(a, input)
         == Concat(units[Min((a.startPage - 1) * per, |units|)..Min((a.endPage - 1) * per, |units|)])
  {
    GatherRange(Units(input, Delimiter(a)), PerPage(a), a.startPage, a.endPage);
  }

  /** The output is one contiguous piece of the input. */
  lemma SelectionIsSlice(a: SelpgArgs, input: seq<byte>)
    ensures ValidRequest(a) ==>
      exists lo, hi :: 0 <= lo <= hi <= |input| && Selection(a, input) == input[lo..hi]
  {
    if ValidRequest(a) {
      var lo, hi := GatherIsSlice(input, Delimiter(a), PerPage(a), a.startPage, a.endPage);
      assert Selection(a, input) == input[lo..hi];
    }
  }

  lemma GatherIsSlice(input: seq<byte>, d: byte, perPage: int, startPage: int, endPage: int) returns (lo: nat, hi: nat)
    requires 1 <= perPage && 1 <= startPage <= endPage
    ensures lo <= hi <= |input| && Gather(Units(input, d), perPage, startPage, endPage) == input[lo..hi]
  {
    var units := Units(input, d);
    GatherRange(units, perPage, startPage, endPage);
    var i, j := Min((startPage - 1) * perPage, |units|), Min((endPage - 1) * perPage, |units|);
    assert Gather(units, perPage, startPage, endPage) == Concat(units[i..j]);
    UnitsConcat(input, d);
    ConcatSlice(units, i, j);
    lo, hi := |Concat(units[..i])|, |Concat(units[..j])|;
  }

  /**
   * The output is a suffix of what the scan read: the scan reads up to and
   * including the last selected unit, and (for end >= 2) not one unit more.
   */
  lemma SelectionEndsConsumed(a: SelpgArgs, input: seq<byte>)
    requires ValidRequest(a)
    ensures exists lo :: 0 <= lo <= |Consumed(a, input)| && Consumed(a, input)[lo..] == Selection(a, input)
  {
    var lo := GatherEndsAtStop(Units(input, Delimiter(a)), PerPage(a), a.startPage, a.endPage);
    assert Consumed(a, input)[lo..] == Selection(a, input);
  }

  lemma GatherEndsAtStop(units: seq<seq<byte>>, perPage: int, startPage: int, endPage: int) returns (lo: nat)
    requires 1 <= perPage && 1 <= startPage <= endPage && 1 <= |units|
    ensures var read := Concat(units[..StopCount(|units|, perPage, endPage)]);
      lo <= |read| && read[lo..] == Gather(units, perPage, startPage, endPage)
  {
    var stop := StopCount(|units|, perPage, endPage);
    var front := units[..stop];
    GatherUpToStop(units, perPage, startPage, endPage);
    GatherRange(front, perPage, startPage, endPage);
    KeptWindowAtStop(|units|, perPage, startPage, endPage);
    lo := WindowIsSuffix(front, Min((startPage - 1) * perPage, stop), Min((endPage - 1) * perPage, stop));
  }

  /** Within the units read, the kept window is empty or runs up to the stop. */
  lemma KeptWindowAtStop(n: nat, perPage: int, startPage: int, endPage: int)
    requires 1 <= n && 1 <= perPage && 1 <= startPage <= endPage
    ensures var stop := StopCount(n, perPage, endPage);
      var i, j := Min((startPage - 1) * perPage, stop), Min((endPage - 1) * perPage, stop);
      i <= j && (j == 0 || j == stop)
  {
    MulMono(startPage - 1, endPage - 1, perPage);
    StopAtLastKept(n, perPage, endPage);
  }

  /** A window of units that is empty or runs to the end is a suffix of their concatenation. */
  lemma WindowIsSuffix(u: seq<seq<byte>>, i: nat, j: nat) returns (lo: nat)
    requires i <= j <= |u| && (j == 0 || j == |u|)
    ensures lo <= |Concat(u)| && Concat(u)[lo..] == Concat(u[i..j])
  {
    if j == 0 {
      lo := |Concat(u)|;
      assert u[i..j] == [];
    } else {
      ConcatSlice(u, i, j);
      assert u[..j] == u;
      lo := |Concat(u[..i])|;
    }
  }

  /** start == end selects nothing, and raises no error. */
  lemma EmptyRangeSelectsNothing(a: SelpgArgs, input: seq<byte>)
    requires ValidRequest(a) && a.startPage == a.endPage
    ensures Selection(a, input) == []
  {
    SelectionPages(a, input);
  }

  /**
   * The number of units that hold bytes: all of them but a final empty unit,
   * which ReadString returns at end of input when the input is empty or ends
   * in the delimiter.
   */
  function FilledUnits(a: SelpgArgs, input: seq<byte>): (n: nat)
    ensures n <= |Units(input, Delimiter(a))|
  {
    var u := Units(input, Delimiter(a));
    if u[|u| - 1] == [] then |u| - 1 else |u|
  }

  /** Exactly the units from FilledUnits on are empty. */
  lemma FilledUnitsShape(a: SelpgArgs, input: seq<byte>, i: nat)
    requires i < |Units(input, Delimiter(a))|
    ensures Units(input, Delimiter(a))[i] == [] <==> i >= FilledUnits(a, input)
  {
    var u := Units(input, Delimiter(a));
    UnitsShape(input, Delimiter(a));
    if i < |u| - 1 {
      assert u[..|u| - 1][i] == u[i];
      assert Terminated(u[i], Delimiter(a));
    }
  }

  /** The number of pages that hold bytes: the page of the last unit that holds bytes, or 0 if none does. */
  function PageCount(a: SelpgArgs, input: seq<byte>): (c: nat)
    requires ValidRequest(a)
  {
    var n := FilledUnits(a, input);
    if n == 0 then 0 else (n - 1) / PerPage(a) + 1
  }

  /** Input that splits into pieces and an empty last unit has as many pages as the pieces fill. */
  lemma PageCountOfUnits(a: SelpgArgs, input: seq<byte>, pieces: seq<seq<byte>>)
    requires ValidRequest(a) && Units(input, Delimiter(a)) == pieces + [[]]
    ensures FilledUnits(a, input) == |pieces|
    ensures PageCount(a, input) == if pieces == [] then 0 else (|pieces| - 1) / PerPage(a) + 1
  {
    var u := Units(input, Delimiter(a));
    assert u[|u| - 1] == [];
  }

  /** PageCount pages are needed for the filled units, and one page fewer would not hold them. */
  lemma PageCountBounds(a: SelpgArgs, input: seq<byte>)
    requires ValidRequest(a)
    ensures (PageCount(a, input) - 1) * PerPage(a) < FilledUnits(a, input) <= PageCount(a, input) * PerPage(a)
  {
    var n := FilledUnits(a, input);
    if n > 0 {
      CeilBounds(n, PerPage(a));
    }
  }

  /** (n - 1) / d + 1 is the least number of groups of d that hold n items. */
  lemma CeilBounds(n: nat, d: int)
    requires 1 <= n && 1 <= d
    ensures ((n - 1) / d) * d < n <= ((n - 1) / d + 1) * d
  {
    var q, r := (n - 1) / d, (n - 1) % d;
    assert n - 1 == q * d + r;
    assert (q + 1) * d == q * d + d;
  }

  /** A start page beyond the last page that holds bytes selects nothing, and raises no error. */
  lemma StartPastLastPageSelectsNothing(a: SelpgArgs, input: seq<byte>)
    requires ValidRequest(a) && a.startPage > PageCount(a, input)
    ensures Selection(a, input) == []
  {
    var u, per := Units(input, Delimiter(a)), PerPage(a);
    var n, c := FilledUnits(a, input), PageCount(a, input);
    PageCountBounds(a, input);
    MulMono(c, a.startPage - 1, per);
    SelectionPages(a, input);
    var i, j := Min((a.startPage - 1) * per, |u|), Min((a.endPage - 1) * per, |u|);
    forall k | 0 <= k < j - i ensures u[i..j][k] == [] {
      FilledUnitsShape(a, input, i + k);
    }
    ConcatOfEmpty(u[i..j]);
  }

  /** A non-empty range whose start page holds bytes outputs something. */
  lemma StartOnFilledPageSelectsSomething(a: SelpgArgs, input: seq<byte>)
    requires ValidRequest(a) && a.startPage < a.endPage && a.startPage <= PageCount(a, input)
    ensures Selection(a, input) != []
  {
    var u, n := Units(input, Delimiter(a)), FilledUnits(a, input);
    var lo, hi := (a.startPage - 1) * PerPage(a), (a.endPage - 1) * PerPage(a);
    PageCountBounds(a, input);
    FirstKeptIsFilled(n, PageCount(a, input), PerPage(a), a.startPage, a.endPage);
    FilledUnitsShape(a, input, lo);
    WindowHolds(u, lo, hi);
    SelectionPages(a, input);
  }

  /** The first unit of a start page that holds bytes is a filled unit, and it is kept. */
  lemma FirstKeptIsFilled(n: nat, c: nat, perPage: int, startPage: int, endPage: int)
    requires 1 <= perPage && 1 <= startPage < endPage && startPage <= c && (c - 1) * perPage < n
    ensures (startPage - 1) * perPage < n && (startPage - 1) * perPage < (endPage - 1) * perPage
  {
    MulMono(startPage - 1, c - 1, perPage);
    MulMono(startPage - 1, endPage - 2, perPage);
    assert (endPage - 1) * perPage == (endPage - 2) * perPage + perPage;
  }

  /** A window of units that starts at a non-empty unit concatenates to something non-empty. */
  lemma WindowHolds(u: seq<seq<byte>>, lo: int, hi: int)
    requires 0 <= lo < hi && lo < |u| && u[lo] != []
    ensures Min(lo, |u|) <= Min(hi, |u|) && Concat(u[Min(lo, |u|)..Min(hi, |u|)]) != []
  {
    var w := u[lo..Min(hi, |u|)];
    assert w[0] == u[lo];
    assert Concat(w) == w[0] + Concat(w[1..]);
  }

  /** The output is empty exactly when the range is empty or starts after the last page that holds bytes. */
  lemma SelectionEmptyExactly(a: SelpgArgs, input: seq<byte>)
    requires ValidRequest(a)
    ensures Selection(a, input) == [] <==> a.startPage == a.endPage || a.startPage > PageCount(a, input)
  {
    if a.startPage == a.endPage {
      EmptyRangeSelectsNothing(a, input);
    } else if a.startPage > PageCount(a, input) {
      StartPastLastPageSelectsNothing(a, input);
    } else {
      StartOnFilledPageSelectsSomething(a, input);
    }
  }

  /** When the input splits into pieces and an empty remainder, the remainder changes nothing. */
  lemma GatherDropsEmptyLast(pieces: seq<seq<byte>>, perPage: int, startPage: int, endPage: int)
    requires 1 <= perPage && 1 <= startPage <= endPage
    ensures Gather(pieces + [[]], perPage, startPage, endPage)
        == Concat(pieces[Min((startPage - 1) * perPage, |pieces|)..Min((endPage - 1) * perPage, |pieces|)])
  {
    var units := pieces + [[]];
    assert units[..|pieces|] == pieces;
    assert Gather(units, perPage, startPage, endPage) == Gather(pieces, perPage, startPage, endPage);
    GatherRange(pieces, perPage, startPage, endPage);
  }

  /** When the input splits into pieces and an empty remainder, the output is a run of those pieces. */
  lemma SelectionOfUnits(a: SelpgArgs, input: seq<byte>, pieces: seq<seq<byte>>)
    requires ValidRequest(a) && Units(input, Delimiter(a)) == pieces + [[]]
    ensures (a.startPage - 1) * PerPage(a) <= (a.endPage - 1) * PerPage(a)
    ensures Selection(a, input) == Concat(pieces[Min((a.startPage - 1) * PerPage(a), |pieces|)
                                                 ..Min((a.endPage - 1) * PerPage(a), |pieces|)])
  {
    MulMono(a.startPage - 1, a.endPage - 1, PerPage(a));
    GatherDropsEmptyLast(pieces, PerPage(a), a.startPage, a.endPage);
  }

  /**
   * For input made of complete units (every line ends in '\n', every chunk
   * in '\f'), the output is the run of those units on pages start .. end - 1.
   */
  lemma SelectionOfTerminated(a: SelpgArgs, pieces: seq<seq<byte>>)
    requires ValidRequest(a) && AllTerminated(pieces, Delimiter(a))
    ensures (a.startPage - 1) * PerPage(a) <= (a.endPage - 1) * PerPage(a)
    ensures Selection(a, Concat(pieces)) == Concat(pieces[Min((a.startPage - 1) * PerPage(a), |pieces|)
                                                          ..Min((a.endPage - 1) * PerPage(a), |pieces|)])
  {
    UnitsOfTerminated(pieces, Delimiter(a));
    SelectionOfUnits(a, Concat(pieces), pieces);
  }
}
