/**
 * Back-references that stand inside the group they name, which `compile`
 * accepts: the text they are compared with starts where the group was opened
 * by this search and ends where it was closed by an earlier one.  So the
 * outcome of a search depends on the searches before it.
 */
module Past {
  import opened Bytes
  import opened Semantics
  import opened SearchTheorems
  import opened Hanging
  import opened Syntax
  import opened Groups

  /** Every mark in its place, and every back-reference after the opening of its group. */
  predicate InOrder(a: Atom, begun: set<Group>, ended: set<Group>) {
    if a.Back? then a.g in begun else InScope(a, begun, ended)
  }

  predicate Ordered(prog: seq<Item>, begun: set<Group>, ended: set<Group>)
    decreases |prog|
  {
    prog == [] ||
    (InOrder(prog[0].atom, begun, ended) &&
     Ordered(prog[1..], Begun(prog[0].atom, begun), Ended(prog[0].atom, ended)))
  }

  /**
   * The first back-reference that stands inside its own group names g.  Some
   * text is sure to lie between the opening of g and that back-reference, and
   * no starred back-reference before it names a group that could be empty.
   */
  predicate NamesItself(prog: seq<Item>, g: Group, begun: set<Group>, ended: set<Group>,
                        thin: set<Group>, empty: set<Group>)
    decreases |prog|
  {
    prog != [] &&
    if InScope(prog[0].atom, begun, ended) then
      !Fails(prog[0], empty) &&
      NamesItself(prog[1..], g, Begun(prog[0].atom, begun), Ended(prog[0].atom, ended),
                  NextThin(prog[0], thin, empty), NextEmpty(prog[0], thin, empty))
    else prog[0].atom == Back(g) && g in begun && g !in thin
  }

  predicate Within(caps: Captures, n: nat) {
    forall g: Group :: 0 <= caps.starts[g] <= n && 0 <= caps.ends[g] <= n
  }

  // ----- a subject on which the search succeeds or hangs -----

  /** The old ends of the open groups are where they were opened now. */
  ghost predicate Ready(caps: Captures, begun: set<Group>, ended: set<Group>, p: nat) {
    Spans(caps, begun, ended, p) && Within(caps, p) &&
    forall g | g in begun && g !in ended :: caps.ends[g] == caps.starts[g]
  }

  /** An opening finds the old end of its group at the same place. */
  function MarkReady(a: Atom, p: nat, caps: Captures): Captures {
    var c := Mark(a, p, caps);
    if a.Open? then c.(ends := c.ends[a.g := p]) else c
  }

  lemma {:induction false} ReadyStep(item: Item, acc: seq<Byte>, caps: Captures, begun: set<Group>, ended: set<Group>)
    requires InOrder(item.atom, begun, ended) && Ready(caps, begun, ended, |acc|)
    ensures Ready(MarkReady(item.atom, |acc|, caps), Begun(item.atom, begun), Ended(item.atom, ended),
                  |acc + Shortest(item, acc, caps)|)
  {
  }

  /** The ends to start with, from the ends to go on with after the atom. */
  function EndsBefore(a: Atom, caps: Captures, ends: Marks): Marks {
    if a.Close? then ends[a.g := caps.ends[a.g]] else ends
  }

  lemma {:induction false} EndsMatch(a: Atom, p: nat, caps: Captures, ends: Marks)
    requires a.Close? ==> ends[a.g] == p
    ensures Mark(a, p, caps.(ends := EndsBefore(a, caps, ends))) == MarkReady(a, p, caps).(ends := ends)
  {
  }

  /** The fewest copies of an item lead from acc to the rest of the way. */
  lemma {:induction false} WayStep(prog: seq<Item>, acc: seq<Byte>, caps: Captures, t: Subject, locs: int, rest: seq<nat>)
    requires prog != [] && Repeatable(prog[0]) && !Blocks(prog[0]) && !prog[0].atom.AtEnd? && locs < 0
    requires prog[0].atom.Back? ==> 0 <= caps.starts[prog[0].atom.g] <= caps.ends[prog[0].atom.g] <= |acc|
    requires acc + Shortest(prog[0], acc, caps) <= t && |acc + Shortest(prog[0], acc, caps)| <= Len(t)
    requires Event(prog[1..], rest, t, |acc + Shortest(prog[0], acc, caps)|, Mark(prog[0].atom, |acc|, caps), locs)
    ensures Event(prog, [Least(prog[0].rep)] + rest, t, |acc|, caps, locs)
  {
    ShortestMatches(prog[0], acc, caps, t);
    assert ([Least(prog[0].rep)] + rest)[1..] == rest;
  }

  /** The shortest text for the whole expression, and the old ends with which it is matched or runs into an endless scan. */
  lemma {:induction false} Way(prog: seq<Item>, acc: seq<Byte>, caps: Captures, begun: set<Group>, ended: set<Group>, locs: int)
    returns (text: seq<Byte>, ends: Marks, e: seq<nat>)
    requires Shaped(prog) && EndsLast(prog) && Ordered(prog, begun, ended)
    requires forall i :: 0 <= i < |prog| ==> !Blocks(prog[i])
    requires NulFree(acc) && Ready(caps, begun, ended, |acc|) && locs < 0
    ensures acc <= text && NulFree(text)
    ensures forall g: Group :: (g in begun ==> ends[g] == caps.ends[g]) && 0 <= ends[g] <= |text|
    ensures Event(prog, e, text + [0], |acc|, caps.(ends := ends), locs)
    decreases |prog|
  {
    if prog == [] || Stuck(prog[0], caps) {
      text, ends, e := acc, caps.ends, [];
    } else if prog[0].atom.AtEnd? {
      text, ends, e := acc, caps.ends, [1];
    } else {
      var item := prog[0];
      var acc1, caps1 := acc + Shortest(item, acc, caps), MarkReady(item.atom, |acc|, caps);
      ShortestNulFree(item, acc, caps);
      ReadyStep(item, acc, caps, begun, ended);
      var ends1, e1;
      text, ends1, e1 := Way(prog[1..], acc1, caps1, Begun(item.atom, begun), Ended(item.atom, ended), locs);
      ends, e := EndsBefore(item.atom, caps, ends1), [Least(item.rep)] + e1;
      EndsMatch(item.atom, |acc|, caps, ends1);
      WayStep(prog, acc, caps.(ends := ends), text + [0], locs, e1);
    }
  }

  // ----- an old end at the end of the subject -----

  lemma {:induction false} StillOpen(prog: seq<Item>, g: Group, begun: set<Group>, ended: set<Group>,
                                     thin: set<Group>, empty: set<Group>)
    requires NamesItself(prog, g, begun, ended, thin, empty)
    ensures g !in ended
    decreases |prog|
  {
    if InScope(prog[0].atom, begun, ended) {
      StillOpen(prog[1..], g, Begun(prog[0].atom, begun), Ended(prog[0].atom, ended),
                NextThin(prog[0], thin, empty), NextEmpty(prog[0], thin, empty));
    }
  }

  function WithEnd(caps: Captures, g: Group, e: int): Captures { caps.(ends := caps.ends[g := e]) }

  /** With the old end of g at the end of the subject, the back-reference matches nowhere, so that it must be starred. */
  lemma {:induction false} MatchesNothing(prog: seq<Item>, e: seq<nat>, t: Subject, p: nat, caps: Captures, locs: int, g: Group)
    requires p < |t| && prog != [] && prog[0].atom == Back(g) && Repeatable(prog[0])
    requires 0 <= caps.starts[g] < p && caps.ends[g] == Len(t)
    requires Event(prog, e, t, p, caps, locs)
    ensures e != [] && Event(prog, [], t, p, WithEnd(caps, g, caps.starts[g]), locs)
  {
    assert Unit(prog[0].atom, t, p, caps).None?;
  }

  /** An item in front of it takes the same text, whatever the old end of g is. */
  lemma {:induction false} SameBefore(prog: seq<Item>, k: nat, h: seq<nat>, t: Subject, p: nat, caps: Captures, locs: int,
                                      g: Group, b: nat, begun: set<Group>, ended: set<Group>)
    requires p < |t| && prog != [] && InScope(prog[0].atom, begun, ended) && ended <= begun && locs < 0
    requires g !in Ended(prog[0].atom, ended)
    requires Allowed(prog[0].rep, k) && Copies(prog[0].atom, k, t, p, caps).Some?
    requires Event(prog[1..], h, t, Copies(prog[0].atom, k, t, p, caps).value,
                   WithEnd(Mark(prog[0].atom, p, caps), g, b), locs)
    ensures Event(prog, [k] + h, t, p, WithEnd(caps, g, b), locs)
  {
    var a, c := prog[0].atom, WithEnd(caps, g, b);
    assert ([k] + h)[1..] == h;
    assert WithEnd(Mark(a, p, caps), g, b) == Mark(a, p, c);
    CopiesAgree(a, k, t, p, caps, c, begun, ended);
  }

  /**
   * With the old end of g at the end of the subject, whatever happens comes
   * behind the first back-reference to g; and there is another old end with
   * which the scan there never ends.
   */
  lemma {:induction false} ComesBehind(prog: seq<Item>, e: seq<nat>, t: Subject, p: nat, caps: Captures, locs: int, g: Group,
                                       begun: set<Group>, ended: set<Group>, thin: set<Group>, empty: set<Group>)
    returns (h: seq<nat>, b: nat)
    requires p < |t| && Shaped(prog) && NamesItself(prog, g, begun, ended, thin, empty)
    requires Spans(caps, begun, ended, p) && Filled(caps, begun, ended, thin, empty, p)
    requires thin <= begun - ended && empty <= ended && caps.ends[g] == Len(t) && locs < 0
    requires Event(prog, e, t, p, caps, locs)
    ensures h < e && b <= Len(t) && Event(prog, h, t, p, WithEnd(caps, g, b), locs)
    decreases |prog|
  {
    var item := prog[0];
    var a := item.atom;
    if InScope(a, begun, ended) {
      var q := Copies(a, e[0], t, p, caps).value;
      var thin1, empty1 := NextThin(item, thin, empty), NextEmpty(item, thin, empty);
      StillOpen(prog[1..], g, Begun(a, begun), Ended(a, ended), thin1, empty1);
      SpansStep(item, e[0], t, p, caps, begun, ended);
      if Consumes(item, empty) { assert q > p; }
      var h1;
      h1, b := ComesBehind(prog[1..], e[1..], t, q, Mark(a, p, caps), locs, g, Begun(a, begun), Ended(a, ended), thin1, empty1);
      SameBefore(prog, e[0], h1, t, p, caps, locs, g, b, begun, ended);
      h := [e[0]] + h1;
      assert e == [e[0]] + e[1..];
    } else {
      MatchesNothing(prog, e, t, p, caps, locs, g);
      h, b := [], caps.starts[g];
    }
  }

  // ----- the outcome depends on the past -----

  /** Unless the search fails with the old end of g at the end of the subject, it ends elsewhere with another one. */
  lemma {:induction false} EndsElsewhere(prog: seq<Item>, g: Group, locs: int, t: Subject, d: Captures) returns (b: nat)
    requires Shaped(prog) && NamesItself(prog, g, {}, {}, {}, {}) && locs < 0
    requires d.ends[g] == Len(t) && !Search(prog, t, 0, d, locs).NotFound?
    ensures b <= Len(t) && Search(prog, t, 0, WithEnd(d, g, b), locs) != Search(prog, t, 0, d, locs)
  {
    var o := Search(prog, t, 0, d, locs);
    SearchSound(prog, t, 0, d, locs);
    var h;
    h, b := ComesBehind(prog, o.path, t, 0, d, locs, g, {}, {}, {}, {});
    SearchCovers(prog, t, 0, WithEnd(d, g, b), locs, h);
    BeatsIsOneWay(h, o.path);
  }

  /**
   * For every expression with such a back-reference there are a subject and
   * two sets of captures, all of them positions in that subject, with which
   * the searches have different outcomes.
   */
  lemma {:induction false} DependsOnThePast(prog: seq<Item>, g: Group, locs: int)
    returns (t: Subject, c: Captures, d: Captures)
    requires Shaped(prog) && EndsLast(prog) && Ordered(prog, {}, {}) && locs < 0
    requires forall i :: 0 <= i < |prog| ==> !Blocks(prog[i])
    requires NamesItself(prog, g, {}, {}, {}, {})
    ensures Within(c, Len(t)) && Within(d, Len(t))
    ensures Search(prog, t, 0, c, locs) != Search(prog, t, 0, d, locs)
  {
    var zeros: Marks := [0, 0, 0, 0, 0, 0, 0, 0, 0];
    var text, ends, e := Way(prog, [], Captures(zeros, zeros), {}, {}, locs);
    t, c := text + [0], Captures(zeros, ends);
    d := WithEnd(c, g, Len(t));
    if Search(prog, t, 0, d, locs).NotFound? {
      SearchCovers(prog, t, 0, c, locs, e);
    } else {
      var b := EndsElsewhere(prog, g, locs, t, d);
      c := WithEnd(d, g, b);
    }
  }

  // ----- accepted patterns -----

  lemma {:induction false} OrderedSnoc(items: seq<Item>, x: Item, begun: set<Group>, ended: set<Group>)
    requires Ordered(items, begun, ended) && InOrder(x.atom, OpenedBy(items, begun), ClosedBy(items, ended))
    ensures Ordered(items + [x], begun, ended)
    decreases |items|
  {
    var all := items + [x];
    if items == [] {
      assert all[1..] == [];
    } else {
      assert all[1..] == items[1..] + [x];
      OrderedSnoc(items[1..], x, Begun(items[0].atom, begun), Ended(items[0].atom, ended));
    }
  }

  /** The marks and back-references of every accepted pattern are in order. */
  lemma {:induction false} NestedIsOrdered(terms: seq<Term>)
    requires Nest(terms).Some?
    ensures Ordered(PatternMeaning(terms), {}, {})
    decreases |terms|
  {
    if terms == [] {
      assert PatternMeaning(terms) == [];
    } else {
      var n := |terms| - 1;
      var init, piece := terms[..n], terms[n].piece;
      NestedIsOrdered(init);
      NestCounts(init);
      MeaningSnoc(terms);
      if piece.Plain? && (piece.op.Bra? || piece.op.Ket? || piece.op.Backref?) { NestGroups(init, piece.op.g); }
      OrderedSnoc(PatternMeaning(init), TermMeaning(terms[n]), {}, {});
    }
  }
}
