/**
 * What an interval means: so many copies at least and so many at most, and
 * with an open end as good as any number.
 */
module Intervals {
  import opened Bytes
  import opened Semantics
  import opened SearchTheorems
  import opened Program
  import opened Syntax
  import opened Parse
  import opened Spelling
  import opened Cuts

  /** The counts a written interval allows: `m\}`, `m,n\}`, or `m,\}` with 20000 copies more than m. */
  lemma {:induction false} WrittenLimits(text: seq<Byte>, low: Byte, high: Byte, k: nat)
    requires SpellsInterval(text, low, high)
    ensures var l := LexInterval(text);
            l.Some? && (Allowed(QuantRep(Quant.Intervals([l.value.value])), k) <==>
                        low <= k <= if high == 255 then low + 20000 else high)
  {
    assert text + [] == text;
    IntervalRead(text, low, high, []);
  }

  /** The run of bytes of the set from p on has length n. */
  predicate Run(s: set<Byte>, t: Subject, p: nat, n: nat) {
    p + n < |t| && t[p + n] !in s && forall j :: p <= j < p + n ==> t[j] in s && t[j] != 0
  }

  /** An open interval takes any number of bytes from its minimum up to the end of the run, or 20000 more than the minimum. */
  lemma {:induction false} OpenTakes(piece: Piece, m: Byte, t: Subject, p: nat, n: nat, caps: Captures, k: nat)
    requires (piece.Class? || ByteTest(piece.op)) && m <= 254 && p < |t|
    requires var item := TermMeaning(Term(piece, Quant.Intervals([(m, 255)])));
             Run(item.atom.members, t, p, n)
    ensures var item := TermMeaning(Term(piece, Quant.Intervals([(m, 255)])));
            Allowed(item.rep, k) && Copies(item.atom, k, t, p, caps).Some? <==> m <= k <= if n <= m + 20000 then n else m + 20000
  {
    var item := TermMeaning(Term(piece, Quant.Intervals([(m, 255)])));
    RunIsPiece(item.atom.members, k, t, p, p + k, caps);
    if Copies(item.atom, k, t, p, caps).Some? {
      ByteCopiesEnd(item.atom.members, k, t, p, caps);
    }
  }

  // ----- an open interval is a star -----

  /** The item so many times in a row. */
  function InARow(item: Item, m: nat): (r: seq<Item>)
    ensures |r| == m
  {
    if m == 0 then [] else [item] + InARow(item, m - 1)
  }

  function Ones(m: nat): (r: seq<nat>)
    ensures |r| == m
  {
    if m == 0 then [] else [1] + Ones(m - 1)
  }

  lemma {:induction false} CopiesAdd(a: Atom, m: nat, k: nat, t: Subject, p: nat, caps: Captures)
    requires p < |t|
    ensures var c := Copies(a, m, t, p, caps);
            Copies(a, m + k, t, p, caps) == if c.None? then None else Copies(a, k, t, c.value, caps)
    decreases m
  {
    if m > 0 {
      var u := Unit(a, t, p, caps);
      if u.Some? { CopiesAdd(a, m - 1, k, t, u.value, caps); }
    }
  }

  /** Following the item once, m times in a row, is taking m copies of it. */
  lemma {:induction false} RowIsCopies(s: set<Byte>, m: nat, more: seq<Item>, path: seq<nat>, t: Subject, p: nat, caps: Captures)
    requires p < |t|
    ensures var c := Copies(OneOf(s), m, t, p, caps);
            Follow(InARow(Item(OneOf(s), Once), m) + more, path, t, p, caps) ==
            if |path| < m || path[..m] != Ones(m) || c.None? then None else Follow(more, path[m..], t, c.value, caps)
    decreases m
  {
    var item := Item(OneOf(s), Once);
    var all := InARow(item, m) + more;
    if m == 0 {
      assert all == more && path[..0] == [] && path[0..] == path;
    } else if path != [] {
      assert all[0] == item && all[1..] == InARow(item, m - 1) + more;
      assert Copies(OneOf(s), 1, t, p, caps) == Unit(OneOf(s), t, p, caps);
      OnesTail(path, m);
      var u := Unit(OneOf(s), t, p, caps);
      if u.Some? { RowIsCopies(s, m - 1, more, path[1..], t, u.value, caps); }
    } else {
      assert all[0] == item;
    }
  }

  lemma {:induction false} OnesTail(path: seq<nat>, m: nat)
    requires path != [] && m > 0
    ensures |path| >= m ==> (path[..m] == Ones(m) <==> path[0] == 1 && path[1..][..m - 1] == Ones(m - 1))
    ensures |path| >= m ==> path[1..][m - 1..] == path[m..]
  {
    if |path| >= m { assert path[..m] == [path[0]] + path[1..][..m - 1]; }
  }

  /** Some path through the items leads from p to this point. */
  ghost predicate LeadsTo(items: seq<Item>, t: Subject, p: nat, caps: Captures, end: Point)
    requires p < |t|
  {
    exists path: seq<nat> :: Follow(items, path, t, p, caps) == Some(end)
  }

  lemma {:induction false} OpenToRow(s: set<Byte>, m: nat, rest: seq<Item>, t: Subject, p: nat, caps: Captures, end: Point)
    requires p < |t|
    requires LeadsTo([Item(OneOf(s), Range(m, m + 20000))] + rest, t, p, caps, end)
    ensures LeadsTo(InARow(Item(OneOf(s), Once), m) + ([Item(OneOf(s), Star)] + rest), t, p, caps, end)
  {
    var all := [Item(OneOf(s), Range(m, m + 20000))] + rest;
    var path: seq<nat> :| Follow(all, path, t, p, caps) == Some(end);
    assert all[1..] == rest;
    var k := path[0] - m;
    CopiesAdd(OneOf(s), m, k, t, p, caps);
    var q := Copies(OneOf(s), m, t, p, caps).value;
    var tail, more := [Item(OneOf(s), Star)] + rest, [k] + path[1..];
    assert tail[1..] == rest && more[1..] == path[1..];
    assert Follow(tail, more, t, q, caps) == Some(end);
    var whole := Ones(m) + more;
    assert whole[..m] == Ones(m) && whole[m..] == more;
    RowIsCopies(s, m, tail, whole, t, p, caps);
  }

  lemma {:induction false} RowToOpen(s: set<Byte>, m: nat, rest: seq<Item>, t: Subject, p: nat, caps: Captures, end: Point)
    requires p < |t| && |t| - 1 <= 20000
    requires LeadsTo(InARow(Item(OneOf(s), Once), m) + ([Item(OneOf(s), Star)] + rest), t, p, caps, end)
    ensures LeadsTo([Item(OneOf(s), Range(m, m + 20000))] + rest, t, p, caps, end)
  {
    var tail := [Item(OneOf(s), Star)] + rest;
    var whole: seq<nat> :| Follow(InARow(Item(OneOf(s), Once), m) + tail, whole, t, p, caps) == Some(end);
    RowIsCopies(s, m, tail, whole, t, p, caps);
    var more, q := whole[m..], Copies(OneOf(s), m, t, p, caps).value;
    assert tail[1..] == rest;
    var k := more[0];
    CopiesAdd(OneOf(s), m, k, t, p, caps);
    ByteCopiesEnd(s, m + k, t, p, caps);
    var all, path := [Item(OneOf(s), Range(m, m + 20000))] + rest, [m + k] + more[1..];
    assert all[1..] == rest && path[1..] == more[1..];
    assert Follow(all, path, t, p, caps) == Some(end);
  }

  /**
   * On a subject of at most 20000 characters `x\{m,\}`, whatever follows it,
   * leads wherever m times x, then `x*`, and the same rest lead.
   */
  lemma {:induction false} OpenIsStar(piece: Piece, m: Byte, rest: seq<Item>, t: Subject, p: nat, caps: Captures, end: Point)
    requires (piece.Class? || ByteTest(piece.op)) && m <= 254 && p < |t| && |t| - 1 <= 20000
    ensures LeadsTo([TermMeaning(Term(piece, Quant.Intervals([(m, 255)])))] + rest, t, p, caps, end) <==>
            LeadsTo(InARow(TermMeaning(Term(piece, One)), m) + ([TermMeaning(Term(piece, Starred))] + rest), t, p, caps, end)
  {
    var s := TermMeaning(Term(piece, One)).atom.members;
    if LeadsTo([TermMeaning(Term(piece, Quant.Intervals([(m, 255)])))] + rest, t, p, caps, end) {
      OpenToRow(s, m, rest, t, p, caps, end);
    }
    if LeadsTo(InARow(TermMeaning(Term(piece, One)), m) + ([TermMeaning(Term(piece, Starred))] + rest), t, p, caps, end) {
      RowToOpen(s, m, rest, t, p, caps, end);
    }
  }
}
