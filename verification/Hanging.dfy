/**
 * The check on starred back-references is exact: for a pattern that fails it
 * there is a subject on which the search hangs.  That subject is the shortest
 * text that leads up to the first starred back-reference to a group that can
 * be empty; every other way to match the items before it needs more text.
 */
module Hanging {
  import opened Bytes
  import opened Semantics
  import opened SearchTheorems

  /** The end of the subject is asked for only at the end, as in every pattern `compile` accepts. */
  predicate EndsLast(prog: seq<Item>) { forall i :: 0 <= i < |prog| - 1 ==> !prog[i].atom.AtEnd? }

  // ----- the shortest text -----

  ghost function Pick(s: set<Byte>): Byte
    requires s != {}
    ensures Pick(s) in s
  {
    var c :| c in s; c
  }

  function Times(c: Byte, n: nat): (r: seq<Byte>)
    ensures |r| == n && forall i :: 0 <= i < n ==> r[i] == c
  {
    if n == 0 then [] else [c] + Times(c, n - 1)
  }

  /** What the fewest copies of an item match after acc. */
  ghost function Shortest(item: Item, acc: seq<Byte>, caps: Captures): seq<Byte> {
    match item.atom
    case OneOf(members) => if members == {} then [] else Times(Pick(members), Least(item.rep))
    case Back(g) =>
      if item.rep.Once? && 0 <= caps.starts[g] <= caps.ends[g] <= |acc| then acc[caps.starts[g]..caps.ends[g]] else []
    case _ => []
  }

  /** The shortest text up to the item on which the check fails. */
  ghost function LeadUp(prog: seq<Item>, acc: seq<Byte>, caps: Captures, thin: set<Group>, empty: set<Group>): seq<Byte>
    decreases |prog|
  {
    if prog == [] || Fails(prog[0], empty) then acc
    else
      LeadUp(prog[1..], acc + Shortest(prog[0], acc, caps), Mark(prog[0].atom, |acc|, caps),
             NextThin(prog[0], thin, empty), NextEmpty(prog[0], thin, empty))
  }

  lemma {:induction false} ShortestNulFree(item: Item, acc: seq<Byte>, caps: Captures)
    requires NulFree(acc) && (item.atom.OneOf? ==> 0 !in item.atom.members)
    ensures NulFree(acc + Shortest(item, acc, caps))
  {
  }

  lemma {:induction false} LeadUpExtends(prog: seq<Item>, acc: seq<Byte>, caps: Captures, thin: set<Group>, empty: set<Group>)
    requires NulFree(acc) && Shaped(prog)
    ensures NulFree(LeadUp(prog, acc, caps, thin, empty)) && acc <= LeadUp(prog, acc, caps, thin, empty)
    decreases |prog|
  {
    if prog != [] && !Fails(prog[0], empty) {
      ShortestNulFree(prog[0], acc, caps);
      LeadUpExtends(prog[1..], acc + Shortest(prog[0], acc, caps), Mark(prog[0].atom, |acc|, caps),
                    NextThin(prog[0], thin, empty), NextEmpty(prog[0], thin, empty));
    }
  }

  // ----- the shortest way -----

  /** Nothing lies in the thin groups yet, and nothing in the empty ones. */
  ghost predicate Thin(caps: Captures, thin: set<Group>, empty: set<Group>, p: nat) {
    (forall g | g in thin :: caps.starts[g] == p) && (forall g | g in empty :: caps.starts[g] == caps.ends[g])
  }

  /** What holds at every point of the shortest way. */
  ghost predicate OnTheWay(prog: seq<Item>, p: nat, caps: Captures, begun: set<Group>, ended: set<Group>,
                           thin: set<Group>, empty: set<Group>)
  {
    Shaped(prog) && EndsLast(prog) && Scoped(prog, begun, ended) && !Progressive(prog, thin, empty) &&
    Spans(caps, begun, ended, p) && Thin(caps, thin, empty, p) && Filled(caps, begun, ended, thin, empty, p) &&
    thin <= begun - ended && empty <= ended
  }

  lemma {:induction false} RunOfCopies(s: set<Byte>, k: nat, t: Subject, p: nat, caps: Captures)
    requires p + k <= Len(t) && forall i :: p <= i < p + k ==> t[i] in s
    ensures Copies(OneOf(s), k, t, p, caps) == Some(p + k)
    decreases k
  {
    if k > 0 { RunOfCopies(s, k - 1, t, p + 1, caps); }
  }

  /** The text matches the fewest copies of the item, and takes that many bytes. */
  lemma {:induction false} ShortestMatches(item: Item, acc: seq<Byte>, caps: Captures, t: Subject)
    requires Repeatable(item) && !Blocks(item) && !item.atom.AtEnd?
    requires item.atom.Back? ==> 0 <= caps.starts[item.atom.g] <= caps.ends[item.atom.g] <= |acc|
    requires acc + Shortest(item, acc, caps) <= t && |acc + Shortest(item, acc, caps)| <= Len(t)
    ensures Copies(item.atom, Least(item.rep), t, |acc|, caps) == Some(|acc + Shortest(item, acc, caps)|)
  {
    var p, w := |acc|, Shortest(item, acc, caps);
    match item.atom
    case OneOf(members) =>
      forall i | p <= i < p + |w| ensures t[i] in members { assert t[i] == (acc + w)[i] == w[i - p]; }
      RunOfCopies(members, |w|, t, p, caps);
    case Back(g) =>
      if item.rep.Once? {
        var b, e := caps.starts[g], caps.ends[g];
        assert t[p..p + (e - b)] == w && t[b..e] == acc[b..e];
        assert Copies(item.atom, 1, t, p, caps) == Unit(item.atom, t, p, caps);
      }
    case Open(_) => assert Copies(item.atom, 1, t, p, caps) == Unit(item.atom, t, p, caps);
    case Close(_) => assert Copies(item.atom, 1, t, p, caps) == Unit(item.atom, t, p, caps);
    case AtEnd =>
  }

  /** The next point of the shortest way. */
  lemma {:induction false} WayGoesOn(prog: seq<Item>, acc: seq<Byte>, caps: Captures, begun: set<Group>, ended: set<Group>,
                                     thin: set<Group>, empty: set<Group>)
    requires prog != [] && OnTheWay(prog, |acc|, caps, begun, ended, thin, empty) && !Fails(prog[0], empty)
    ensures OnTheWay(prog[1..], |acc + Shortest(prog[0], acc, caps)|, Mark(prog[0].atom, |acc|, caps),
                     Begun(prog[0].atom, begun), Ended(prog[0].atom, ended),
                     NextThin(prog[0], thin, empty), NextEmpty(prog[0], thin, empty))
  {
    var item := prog[0];
    assert !Progressive(prog[1..], NextThin(item, thin, empty), NextEmpty(item, thin, empty));
    if Consumes(item, empty) { assert |Shortest(item, acc, caps)| > 0; }
  }

  // ----- every other way is longer -----

  /** The open and the closed groups are at least as wide in c, at p, as in d, at m. */
  ghost predicate Wider(c: Captures, p: nat, d: Captures, m: nat, begun: set<Group>, ended: set<Group>) {
    forall g | g in begun ::
      (g in ended ==> c.ends[g] - c.starts[g] >= d.ends[g] - d.starts[g]) &&
      (g !in ended ==> p - c.starts[g] >= m - d.starts[g])
  }

  /** No number of copies takes less text than the fewest. */
  lemma {:induction false} AtLeastShortest(item: Item, k: nat, t: Subject, p: nat, c: Captures, acc: seq<Byte>, d: Captures,
                                           begun: set<Group>, ended: set<Group>)
    requires p < |t| && Repeatable(item) && Allowed(item.rep, k) && Copies(item.atom, k, t, p, c).Some?
    requires InScope(item.atom, begun, ended) && Spans(d, begun, ended, |acc|) && Wider(c, p, d, |acc|, begun, ended)
    ensures Copies(item.atom, k, t, p, c).value >= p + |Shortest(item, acc, d)|
  {
    match item.atom
    case OneOf(members) => ByteCopiesEnd(members, k, t, p, c);
    case Back(g) =>
      if item.rep.Once? { assert Copies(item.atom, 1, t, p, c) == Unit(item.atom, t, p, c); }
    case _ =>
  }

  /** From a point that lies further in the subject than the shortest way, the rest does not fit. */
  lemma {:induction false} DoesNotFit(prog: seq<Item>, e: seq<nat>, t: Subject, p: nat, c: Captures, locs: int,
                                      acc: seq<Byte>, d: Captures, begun: set<Group>, ended: set<Group>,
                                      thin: set<Group>, empty: set<Group>)
    requires p < |t| && p > |acc| && |e| == |prog| && OnTheWay(prog, |acc|, d, begun, ended, thin, empty)
    requires Wider(c, p, d, |acc|, begun, ended) && Len(t) == |LeadUp(prog, acc, d, thin, empty)|
    ensures !Event(prog, e, t, p, c, locs)
    decreases |prog|
  {
    if prog != [] && !Fails(prog[0], empty) && Event(prog, e, t, p, c, locs) {
      var item := prog[0];
      var q := Copies(item.atom, e[0], t, p, c).value;
      AtLeastShortest(item, e[0], t, p, c, acc, d, begun, ended);
      WayGoesOn(prog, acc, d, begun, ended, thin, empty);
      DoesNotFit(prog[1..], e[1..], t, q, Mark(item.atom, p, c), locs, acc + Shortest(item, acc, d),
                 Mark(item.atom, |acc|, d), Begun(item.atom, begun), Ended(item.atom, ended),
                 NextThin(item, thin, empty), NextEmpty(item, thin, empty));
    }
  }

  /** More copies than the fewest take more text. */
  lemma {:induction false} MoreIsLonger(item: Item, k: nat, t: Subject, acc: seq<Byte>, caps: Captures,
                                        begun: set<Group>, ended: set<Group>, thin: set<Group>, empty: set<Group>)
    requires |acc| < |t| && Repeatable(item) && Allowed(item.rep, k) && k != Least(item.rep) && !Fails(item, empty)
    requires InScope(item.atom, begun, ended) && Spans(caps, begun, ended, |acc|)
    requires Filled(caps, begun, ended, thin, empty, |acc|) && Copies(item.atom, k, t, |acc|, caps).Some?
    ensures k > Least(item.rep) && Copies(item.atom, k, t, |acc|, caps).value > |acc| + |Shortest(item, acc, caps)|
  {
    match item.atom
    case OneOf(members) => ByteCopiesEnd(members, k, t, |acc|, caps);
    case Back(g) => assert caps.starts[g] < caps.ends[g];
    case _ =>
  }

  // ----- the search hangs there -----

  /** The shortest way runs into the failing item, and no match beats it. */
  lemma {:induction false} ShortestWay(prog: seq<Item>, acc: seq<Byte>, caps: Captures, begun: set<Group>, ended: set<Group>,
                                       thin: set<Group>, empty: set<Group>, t: Subject, locs: int)
    returns (h: seq<nat>)
    requires NulFree(acc) && OnTheWay(prog, |acc|, caps, begun, ended, thin, empty)
    requires t == LeadUp(prog, acc, caps, thin, empty) + [0] && |acc| < |t| && !(0 <= locs <= Len(t))
    ensures |h| < |prog| && Event(prog, h, t, |acc|, caps, locs)
    ensures forall e: seq<nat> :: |e| == |prog| && Event(prog, e, t, |acc|, caps, locs) ==> !Beats(e, h)
    decreases |prog|
  {
    assert prog != [];
    var item := prog[0];
    if Fails(item, empty) {
      h := [];
    } else {
      var acc1, caps1 := acc + Shortest(item, acc, caps), Mark(item.atom, |acc|, caps);
      var begun1, ended1 := Begun(item.atom, begun), Ended(item.atom, ended);
      var thin1, empty1 := NextThin(item, thin, empty), NextEmpty(item, thin, empty);
      WayGoesOn(prog, acc, caps, begun, ended, thin, empty);
      ShortestNulFree(item, acc, caps);
      LeadUpExtends(prog[1..], acc1, caps1, thin1, empty1);
      ShortestMatches(item, acc, caps, t);
      var h1 := ShortestWay(prog[1..], acc1, caps1, begun1, ended1, thin1, empty1, t, locs);
      h := [Least(item.rep)] + h1;
      assert h[1..] == h1;
      forall e: seq<nat> | |e| == |prog| && Event(prog, e, t, |acc|, caps, locs) ensures !Beats(e, h) {
        if e[0] != Least(item.rep) {
          MoreIsLonger(item, e[0], t, acc, caps, begun, ended, thin, empty);
          DoesNotFit(prog[1..], e[1..], t, Copies(item.atom, e[0], t, |acc|, caps).value, caps1, locs, acc1, caps1,
                     begun1, ended1, thin1, empty1);
        }
      }
    }
  }

  /** A pattern that fails the check hangs on some subject, whatever the captures are. */
  lemma {:induction false} HangsSomewhere(prog: seq<Item>) returns (t: Subject)
    requires Shaped(prog) && EndsLast(prog) && Scoped(prog, {}, {}) && !Progressive(prog, {}, {})
    ensures forall caps, locs :: !(0 <= locs <= Len(t)) ==> Search(prog, t, 0, caps, locs).Hangs?
  {
    var zeros: Marks := [0, 0, 0, 0, 0, 0, 0, 0, 0];
    var none := Captures(zeros, zeros);
    LeadUpExtends(prog, [], none, {}, {});
    t := LeadUp(prog, [], none, {}, {}) + [0];
    forall caps, locs | !(0 <= locs <= Len(t)) ensures Search(prog, t, 0, caps, locs).Hangs? {
      var h := ShortestWay(prog, [], none, {}, {}, {}, {}, t, locs);
      HangsExactlyWhen(prog, t, 0, none, locs);
      SearchIgnoresStale(prog, t, 0, none, caps, locs, {}, {});
    }
  }

  /** The check accepts exactly the patterns with which no search can hang. */
  lemma {:induction false} ProgressiveExactlyWhen(prog: seq<Item>)
    requires Shaped(prog) && EndsLast(prog) && Scoped(prog, {}, {})
    ensures Progressive(prog, {}, {}) <==>
            forall t: Subject, caps, locs :: !Search(prog, t, 0, caps, locs).Hangs?
  {
    if Progressive(prog, {}, {}) {
      forall t: Subject, caps, locs ensures !Search(prog, t, 0, caps, locs).Hangs? {
        ProgressiveNeverHangs(prog, t, 0, caps, locs);
      }
    } else {
      var t := HangsSomewhere(prog);
      var zeros: Marks := [0, 0, 0, 0, 0, 0, 0, 0, 0];
      assert Search(prog, t, 0, Captures(zeros, zeros), -1).Hangs?;
    }
  }
}
