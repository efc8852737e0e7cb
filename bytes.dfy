/**
 * Raw input as a byte sequence, and the buffered reader's ReadString(delim),
 * which returns the input one delimiter-terminated unit at a time.
 */
module Bytes {

  newtype byte = x: int | 0 <= x < 0x100

  const LineFeed: byte := 10
  const FormFeed: byte := 12

  /** The concatenation of a sequence of byte strings. */
  function Concat(units: seq<seq<byte>>): seq<byte>
  {
    if units == [] then [] else units[0] + Concat(units[1..])
  }

  lemma {:induction false} ConcatAppend(a: seq<seq<byte>>, b: seq<seq<byte>>)
    ensures Concat(a + b) == Concat(a) + Concat(b)
  {
    if a == [] {
      assert a + b == b;
    } else {
      assert (a + b)[1..] == a[1..] + b;
      ConcatAppend(a[1..], b);
    }
  }

  lemma ConcatSnoc(a: seq<seq<byte>>, x: seq<byte>)
    ensures Concat(a + [x]) == Concat(a) + x
  {
    ConcatAppend(a, [x]);
    assert Concat([x]) == x + Concat([]);
  }

  /** A slice of units concatenates to the matching slice of the whole concatenation. */
  lemma ConcatSlice(u: seq<seq<byte>>, a: nat, b: nat)
    requires a <= b <= |u|
    ensures |Concat(u[..a])| <= |Concat(u[..b])| <= |Concat(u)|
    ensures Concat(u[a..b]) == Concat(u)[|Concat(u[..a])|..|Concat(u[..b])|]
  {
    assert u[..b] == u[..a] + u[a..b];
    assert u == u[..b] + u[b..];
    ConcatAppend(u[..a], u[a..b]);
    ConcatAppend(u[..b], u[b..]);
  }

  /** A sequence is its prefix followed by its suffix (a solver aid, kept out of larger proofs). */
  lemma SplitAt(s: seq<byte>, k: nat)
    requires k <= |s|
    ensures s[..k] + s[k..] == s
  {
  }

  /** Units that are all empty concatenate to nothing. */
  lemma {:induction false} ConcatOfEmpty(units: seq<seq<byte>>)
    requires forall k :: 0 <= k < |units| ==> units[k] == []
    ensures Concat(units) == []
  {
    if units != [] {
      ConcatOfEmpty(units[1..]);
    }
  }

  /** The position of the first occurrence of d in s. */
  function IndexOf(s: seq<byte>, d: byte): (i: nat)
    requires d in s
    ensures i < |s| && s[i] == d && d !in s[..i]
  {
    if s[0] == d then 0 else 1 + IndexOf(s[1..], d)
  }

  /** t ends with d and holds no other d: a unit that ReadString returned without error. */
  predicate Terminated(t: seq<byte>, d: byte)
  {
    |t| > 0 && t[|t| - 1] == d && d !in t[..|t| - 1]
  }

  /**
   * The units successive ReadString(d) calls return on s until end of input:
   * each piece up to and including the next d, then the rest (possibly
   * empty), which ReadString returns together with EOF.
   */
  function Units(s: seq<byte>, d: byte): (u: seq<seq<byte>>)
    ensures |u| >= 1
    decreases |s|
  {
    if d in s then
      var i := IndexOf(s, d);
      [s[..i + 1]] + Units(s[i + 1..], d)
    else
      [s]
  }

  /** The units concatenate back to s: ReadString loses and invents no byte. */
  lemma {:induction false} UnitsConcat(s: seq<byte>, d: byte)
    ensures Concat(Units(s, d)) == s
    decreases |s|
  {
    if d in s {
      var i := IndexOf(s, d);
      var head, tail := s[..i + 1], s[i + 1..];
      var u, v := Units(s, d), Units(tail, d);
      assert u == [head] + v;
      UnitsConcat(tail, d);
      assert u[1..] == v;
      SplitAt(s, i + 1);
    } else {
      assert Units(s, d) == [s];
      assert Concat([s]) == s + Concat([]);
    }
  }

  /** All units but the last are terminated by d; the last holds no d. */
  lemma {:induction false} UnitsShape(s: seq<byte>, d: byte)
    ensures AllTerminated(Units(s, d)[..|Units(s, d)| - 1], d)
    ensures d !in Units(s, d)[|Units(s, d)| - 1]
    decreases |s|
  {
    if d in s {
      var i := IndexOf(s, d);
      var head, tail := s[..i + 1], s[i + 1..];
      var v := Units(tail, d);
      UnitsShape(tail, d);
      assert head[..i] == s[..i];
      FrontCons(head, v, d);
      assert Units(s, d) == [head] + v;
    } else {
      assert Units(s, d) == [s];
    }
  }

  /** Putting a terminated piece in front keeps "all terminated but the last". */
  lemma FrontCons(head: seq<byte>, v: seq<seq<byte>>, d: byte)
    requires Terminated(head, d) && |v| >= 1 && AllTerminated(v[..|v| - 1], d)
    ensures AllTerminated(([head] + v)[..|v|], d) && ([head] + v)[|v|] == v[|v| - 1]
  {
    var front, rest := ([head] + v)[..|v|], v[..|v| - 1];
    assert front == [head] + rest;
    forall k | 0 <= k < |front| ensures Terminated(front[k], d) {
      if k > 0 {
        assert front[k] == rest[k - 1];
      }
    }
  }

  predicate AllTerminated(pieces: seq<seq<byte>>, d: byte)
  {
    forall k :: 0 <= k < |pieces| ==> Terminated(pieces[k], d)
  }

  /** Input made of d-terminated pieces splits back into those pieces, plus an empty last unit. */
  lemma {:induction false} UnitsOfTerminated(pieces: seq<seq<byte>>, d: byte)
    requires AllTerminated(pieces, d)
    ensures Units(Concat(pieces), d) == pieces + [[]]
  {
    if pieces != [] {
      var p, rest := pieces[0], Concat(pieces[1..]);
      assert Terminated(p, d);
      UnitsOfTerminatedHead(p, rest, d);
      assert AllTerminated(pieces[1..], d) by {
        forall k | 0 <= k < |pieces[1..]| ensures Terminated(pieces[1..][k], d) {
          assert pieces[1..][k] == pieces[k + 1];
        }
      }
      UnitsOfTerminated(pieces[1..], d);
      assert pieces == [p] + pieces[1..];
    } else {
      assert Concat(pieces) == [];
    }
  }

  /** A terminated piece in front of the input is exactly the first unit. */
  lemma UnitsOfTerminatedHead(p: seq<byte>, rest: seq<byte>, d: byte)
    requires Terminated(p, d)
    ensures Units(p + rest, d) == [p] + Units(rest, d)
  {
    var s := p + rest;
    assert s[|p| - 1] == d;
    var i := IndexOf(s, d);
    assert s[..|p| - 1] == p[..|p| - 1];
    assert i == |p| - 1;
    assert s[..i + 1] == p;
    assert s[i + 1..] == rest;
  }

  /** What one ReadString(d) call at read position pos returns. */
  datatype Read = Read(unit: seq<byte>, next: nat, eof: bool)

  /**
   * ReadString(d): the bytes from pos up to and including the first d, or,
   * when no d remains, the whole (possibly empty) rest together with EOF.
   */
  function ReadString(s: seq<byte>, pos: nat, d: byte): (r: Read)
    requires pos <= |s|
    ensures pos <= r.next <= |s| && r.unit == s[pos..r.next]
    ensures r.eof <==> d !in r.unit
    ensures r.eof ==> r.next == |s|
    ensures !r.eof ==> Terminated(r.unit, d)
  {
    var rest := s[pos..];
    if d in rest then
      var i := IndexOf(rest, d);
      assert rest[..i + 1][..i] == rest[..i];
      Read(rest[..i + 1], pos + i + 1, false)
    else
      Read(rest, |s|, true)
  }

  /**
   * Reading at pos yields the first unit of the rest of the input; EOF is
   * reported exactly on the last unit, and afterwards the rest of the input
   * splits into the remaining units.
   */
  lemma ReadStringUnits(s: seq<byte>, pos: nat, d: byte)
    requires pos <= |s|
    ensures var r, u := ReadString(s, pos, d), Units(s[pos..], d);
      && r.unit == u[0]
      && (r.eof <==> |u| == 1)
      && (!r.eof ==> Units(s[r.next..], d) == u[1..])
  {
    var rest := s[pos..];
    var r, u := ReadString(s, pos, d), Units(rest, d);
    if d in rest {
      var i := IndexOf(rest, d);
      assert r == Read(rest[..i + 1], pos + i + 1, false);
      assert u == [rest[..i + 1]] + Units(rest[i + 1..], d);
      assert rest[i + 1..] == s[pos + i + 1..];
    } else {
      assert r == Read(rest, |s|, true);
      assert u == [rest];
    }
  }
}
