/**
 * What it means that an expression matches, said without following it: the
 * subject can be cut into consecutive pieces, one for each item, such that
 * every piece has the form its item asks for, and the captures are where the
 * cuts are.
 */
module Cuts {
  import opened Bytes
  import opened Semantics
  import opened SearchTheorems

  function Repeated(w: seq<Byte>, k: nat): seq<Byte> { if k == 0 then [] else w + Repeated(w, k - 1) }

  /** The group was opened by item o and closed by item c. */
  predicate GroupAt(prog: seq<Item>, g: Group, o: nat, c: nat) {
    o < c < |prog| && prog[o].atom == Open(g) && prog[c].atom == Close(g)
  }

  /** Item i, taken k times, stands for the text between the cuts x[i] and x[i + 1]. */
  ghost predicate Piece(prog: seq<Item>, i: nat, k: nat, t: Subject, x: seq<nat>)
    requires i < |prog| && i + 1 < |x|
  {
    x[i] <= x[i + 1] < |t| &&
    (match prog[i].rep
     case Once => k == 1
     case Star => true
     case Range(low, high) => low <= k <= high) &&
    var text := t[x[i]..x[i + 1]];
    match prog[i].atom
    case OneOf(members) => |text| == k && forall j :: 0 <= j < k ==> text[j] in members && text[j] != 0
    case Open(_) => text == []
    case Close(_) => text == []
    case AtEnd => text == [] && (k > 0 ==> t[x[i]] == 0)
    case Back(g) =>
      exists o: nat, c: nat :: GroupAt(prog, g, o, c) && c < i && x[o] <= x[c] < |t| && text == Repeated(t[x[o]..x[c]], k)
  }

  /** The cuts, one more than items, make a piece for every item. */
  ghost predicate Cutting(prog: seq<Item>, path: seq<nat>, t: Subject, x: seq<nat>) {
    |path| == |prog| && |x| == |prog| + 1 && forall i :: 0 <= i < |prog| ==> Piece(prog, i, path[i], t, x)
  }

  /** The captures of the groups marked by the first n items are the cuts at their marks. */
  ghost predicate Records(prog: seq<Item>, n: nat, x: seq<nat>, caps: Captures)
    requires n <= |prog| && n <= |x|
  {
    forall i :: 0 <= i < n ==>
      (prog[i].atom.Open? ==> caps.starts[prog[i].atom.g] == x[i]) &&
      (prog[i].atom.Close? ==> caps.ends[prog[i].atom.g] == x[i])
  }

  // ----- copies -----

  lemma {:induction false} RunIsPiece(s: set<Byte>, k: nat, t: Subject, p: nat, q: nat, caps: Captures)
    requires p < |t|
    ensures Copies(OneOf(s), k, t, p, caps) == Some(q) <==>
            q == p + k < |t| && forall j :: p <= j < q ==> t[j] in s && t[j] != 0
    decreases k
  {
    if k > 0 && p < Len(t) && t[p] in s { RunIsPiece(s, k - 1, t, p + 1, q, caps); }
  }

  lemma {:induction false} FirstCopy(t: Subject, p: nat, q: nat, w: seq<Byte>, more: seq<Byte>)
    requires p <= q < |t|
    ensures var m := p + |w|;
            t[p..q] == w + more <==> m <= q && t[p..m] == w && t[m..q] == more
  {
    var m := p + |w|;
    if m <= q {
      assert t[p..q] == t[p..m] + t[m..q];
      if t[p..q] == w + more { assert t[p..m] == (w + more)[..|w|] == w && t[m..q] == (w + more)[|w|..] == more; }
    }
  }

  lemma {:induction false} BackIsPiece(g: Group, k: nat, t: Subject, p: nat, q: nat, caps: Captures)
    requires p < |t| && 0 <= caps.starts[g] <= caps.ends[g] < |t|
    ensures Copies(Back(g), k, t, p, caps) == Some(q) <==>
            p <= q < |t| && t[p..q] == Repeated(t[caps.starts[g]..caps.ends[g]], k)
    decreases k
  {
    if k > 0 {
      var b, e := caps.starts[g], caps.ends[g];
      var m := p + (e - b);
      var w := t[b..e];
      if m < |t| { BackIsPiece(g, k - 1, t, m, q, caps); }
      if p <= q < |t| { FirstCopy(t, p, q, w, Repeated(w, k - 1)); }
    }
  }

  lemma {:induction false} EndIsPiece(k: nat, t: Subject, p: nat, q: nat, caps: Captures)
    requires p < |t|
    ensures Copies(AtEnd, k, t, p, caps) == Some(q) <==> q == p && (k > 0 ==> t[p] == 0)
    decreases k
  {
    if k > 0 && p == Len(t) { EndIsPiece(k - 1, t, p, q, caps); }
  }

  lemma {:induction false} MarkIsPiece(a: Atom, k: nat, t: Subject, p: nat, q: nat, caps: Captures)
    requires p < |t| && (a.Open? || a.Close?)
    ensures Copies(a, k, t, p, caps) == Some(q) <==> q == p
    decreases k
  {
    if k > 0 { MarkIsPiece(a, k - 1, t, p, q, caps); }
  }

  // ----- one item -----

  /** What the first n items have opened and closed. */
  ghost predicate Passed(prog: seq<Item>, n: nat, begun: set<Group>, ended: set<Group>)
    requires n <= |prog|
  {
    (forall i :: 0 <= i < n ==> (prog[i].atom.Open? ==> prog[i].atom.g in begun) &&
                                (prog[i].atom.Close? ==> prog[i].atom.g in ended)) &&
    (forall g | g in begun :: exists i :: 0 <= i < n && prog[i].atom == Open(g)) &&
    (forall g | g in ended :: exists o: nat, c: nat :: GroupAt(prog, g, o, c) && c < n)
  }

  lemma {:induction false} PassedStep(prog: seq<Item>, n: nat, begun: set<Group>, ended: set<Group>)
    requires n < |prog| && Passed(prog, n, begun, ended) && InScope(prog[n].atom, begun, ended)
    ensures Passed(prog, n + 1, Begun(prog[n].atom, begun), Ended(prog[n].atom, ended))
  {
    var a := prog[n].atom;
    forall g | g in Begun(a, begun) ensures exists i :: 0 <= i < n + 1 && prog[i].atom == Open(g) {
      if g in begun { var i :| 0 <= i < n && prog[i].atom == Open(g); } else { assert prog[n].atom == Open(g); }
    }
    forall g | g in Ended(a, ended) ensures exists o: nat, c: nat :: GroupAt(prog, g, o, c) && c < n + 1 {
      if g in ended {
        var o: nat, c: nat :| GroupAt(prog, g, o, c) && c < n;
      } else {
        var o :| 0 <= o < n && prog[o].atom == Open(g);
        assert GroupAt(prog, g, o, n);
      }
    }
  }

  lemma {:induction false} RecordsStep(prog: seq<Item>, n: nat, x: seq<nat>, caps: Captures, begun: set<Group>, ended: set<Group>)
    requires n < |prog| && n < |x| && Records(prog, n, x, caps) && Passed(prog, n, begun, ended)
    requires InScope(prog[n].atom, begun, ended)
    ensures Records(prog, n + 1, x, Mark(prog[n].atom, x[n], caps))
  {
  }

  lemma {:induction false} BackStep(prog: seq<Item>, n: nat, k: nat, t: Subject, x: seq<nat>, caps: Captures,
                                    begun: set<Group>, ended: set<Group>)
    requires n < |prog| && n + 1 < |x| && x[n] < |t| && prog[n].atom.Back?
    requires Records(prog, n, x, caps) && Passed(prog, n, begun, ended) && Spans(caps, begun, ended, x[n])
    requires InScope(prog[n].atom, begun, ended)
    ensures Copies(prog[n].atom, k, t, x[n], caps) == Some(x[n + 1]) <==>
            x[n] <= x[n + 1] < |t| &&
            exists o: nat, c: nat :: GroupAt(prog, prog[n].atom.g, o, c) && c < n && x[o] <= x[c] < |t| &&
              t[x[n]..x[n + 1]] == Repeated(t[x[o]..x[c]], k)
  {
    var g := prog[n].atom.g;
    var o: nat, c: nat :| GroupAt(prog, g, o, c) && c < n;
    assert caps.starts[g] == x[o] && caps.ends[g] == x[c];
    BackIsPiece(g, k, t, x[n], x[n + 1], caps);
    forall o': nat, c': nat | GroupAt(prog, g, o', c') && c' < n ensures caps.starts[g] == x[o'] && caps.ends[g] == x[c'] {}
  }

  /** Following one item from one cut to the next is making a piece. */
  lemma {:induction false} StepIsPiece(prog: seq<Item>, n: nat, k: nat, t: Subject, x: seq<nat>, caps: Captures,
                                       begun: set<Group>, ended: set<Group>)
    requires n < |prog| && n + 1 < |x| && x[n] < |t|
    requires Records(prog, n, x, caps) && Passed(prog, n, begun, ended) && Spans(caps, begun, ended, x[n])
    requires InScope(prog[n].atom, begun, ended)
    ensures Allowed(prog[n].rep, k) && Copies(prog[n].atom, k, t, x[n], caps) == Some(x[n + 1]) <==>
            Piece(prog, n, k, t, x)
  {
    match prog[n].atom
    case OneOf(s) =>
      RunIsPiece(s, k, t, x[n], x[n + 1], caps);
      if x[n] <= x[n + 1] < |t| { RunText(s, t, x[n], x[n + 1]); }
    case Back(_) => BackStep(prog, n, k, t, x, caps, begun, ended);
    case AtEnd => EndIsPiece(k, t, x[n], x[n + 1], caps);
    case Open(_) => MarkIsPiece(prog[n].atom, k, t, x[n], x[n + 1], caps);
    case Close(_) => MarkIsPiece(prog[n].atom, k, t, x[n], x[n + 1], caps);
  }

  lemma {:induction false} RunText(s: set<Byte>, t: Subject, p: nat, q: nat)
    requires p <= q < |t|
    ensures var text := t[p..q];
            (forall j :: p <= j < q ==> t[j] in s && t[j] != 0) <==>
            (forall j :: 0 <= j < q - p ==> text[j] in s && text[j] != 0)
  {
    var text := t[p..q];
    if forall j :: 0 <= j < q - p ==> text[j] in s && text[j] != 0 {
      forall j | p <= j < q ensures t[j] in s && t[j] != 0 { assert t[j] == text[j - p]; }
    }
  }

  // ----- whole paths -----

  /** The points a path passes between its items. */
  function Positions(prog: seq<Item>, path: seq<nat>, t: Subject, p: nat, caps: Captures): (x: seq<nat>)
    requires p < |t| && Follow(prog, path, t, p, caps).Some?
    ensures |x| == |prog| + 1 && x[0] == p
    decreases |prog|
  {
    if prog == [] then [p]
    else [p] + Positions(prog[1..], path[1..], t, Copies(prog[0].atom, path[0], t, p, caps).value,
                         Mark(prog[0].atom, p, caps))
  }

  lemma {:induction false} PathIsCut(prog: seq<Item>, n: nat, path: seq<nat>, t: Subject, x: seq<nat>, caps: Captures,
                                     begun: set<Group>, ended: set<Group>)
    requires n <= |prog| == |path| && |x| == |prog| + 1 && x[n] < |t| && Scoped(prog[n..], begun, ended)
    requires Records(prog, n, x, caps) && Passed(prog, n, begun, ended) && Spans(caps, begun, ended, x[n])
    requires Follow(prog[n..], path[n..], t, x[n], caps).Some?
    requires Positions(prog[n..], path[n..], t, x[n], caps) == x[n..]
    ensures forall i :: n <= i < |prog| ==> Piece(prog, i, path[i], t, x)
    ensures var end := Follow(prog[n..], path[n..], t, x[n], caps).value;
            end.pos == x[|prog|] && Records(prog, |prog|, x, end.caps)
    decreases |prog| - n
  {
    if n < |prog| {
      var item, rest, more := prog[n], prog[n..][1..], path[n..][1..];
      assert rest == prog[n + 1..] && more == path[n + 1..] && x[n..][1..] == x[n + 1..];
      var q := Copies(item.atom, path[n], t, x[n], caps).value;
      assert x[n..][1..][0] == q;
      StepIsPiece(prog, n, path[n], t, x, caps, begun, ended);
      RecordsStep(prog, n, x, caps, begun, ended);
      PassedStep(prog, n, begun, ended);
      SpansStep(item, path[n], t, x[n], caps, begun, ended);
      PathIsCut(prog, n + 1, path, t, x, Mark(item.atom, x[n], caps), Begun(item.atom, begun), Ended(item.atom, ended));
    }
  }

  lemma {:induction false} CutIsPath(prog: seq<Item>, n: nat, path: seq<nat>, t: Subject, x: seq<nat>, caps: Captures,
                                     begun: set<Group>, ended: set<Group>)
    requires n <= |prog| && Cutting(prog, path, t, x) && x[n] < |t| && Scoped(prog[n..], begun, ended)
    requires Records(prog, n, x, caps) && Passed(prog, n, begun, ended) && Spans(caps, begun, ended, x[n])
    ensures var end := Follow(prog[n..], path[n..], t, x[n], caps);
            end.Some? && end.value.pos == x[|prog|] && Records(prog, |prog|, x, end.value.caps)
    decreases |prog| - n
  {
    if n < |prog| {
      var item, rest, more := prog[n], prog[n..][1..], path[n..][1..];
      assert rest == prog[n + 1..] && more == path[n + 1..];
      assert Piece(prog, n, path[n], t, x);
      StepIsPiece(prog, n, path[n], t, x, caps, begun, ended);
      RecordsStep(prog, n, x, caps, begun, ended);
      PassedStep(prog, n, begun, ended);
      SpansStep(item, path[n], t, x[n], caps, begun, ended);
      CutIsPath(prog, n + 1, path, t, x, Mark(item.atom, x[n], caps), Begun(item.atom, begun), Ended(item.atom, ended));
    }
  }

  /** The cuts begin at p and end at the point; its captures are where the marks cut, and the others as before. */
  ghost predicate CutsTo(prog: seq<Item>, path: seq<nat>, t: Subject, p: nat, caps: Captures, x: seq<nat>, end: Point) {
    Cutting(prog, path, t, x) && x[0] == p && x[|prog|] == end.pos &&
    Records(prog, |prog|, x, end.caps) && Untouched(prog, caps, end.caps)
  }

  lemma {:induction false} SameCaptures(prog: seq<Item>, x: seq<nat>, before: Captures, c: Captures, d: Captures)
    requires |prog| <= |x| && Records(prog, |prog|, x, c) && Records(prog, |prog|, x, d)
    requires Untouched(prog, before, c) && Untouched(prog, before, d)
    ensures c == d
  {
    forall g: Group ensures c.starts[g] == d.starts[g] && c.ends[g] == d.ends[g] {
      if i :| 0 <= i < |prog| && prog[i].atom == Open(g) { assert c.starts[g] == x[i] == d.starts[g]; }
      if i :| 0 <= i < |prog| && prog[i].atom == Close(g) { assert c.ends[g] == x[i] == d.ends[g]; }
    }
    assert c.starts == d.starts && c.ends == d.ends;
  }

  /**
   * A path leads from p to a point exactly when the text between them can be
   * cut into one piece for each item, with so many copies of it, and the
   * captures of the point are those cuts.
   */
  lemma {:induction false} FollowIsCutting(prog: seq<Item>, path: seq<nat>, t: Subject, p: nat, caps: Captures, end: Point)
    requires p < |t| && Scoped(prog, {}, {})
    ensures Follow(prog, path, t, p, caps) == Some(end) <==> exists x :: CutsTo(prog, path, t, p, caps, x, end)
  {
    assert prog[0..] == prog && path[0..] == path;
    if Follow(prog, path, t, p, caps) == Some(end) {
      var x := Positions(prog, path, t, p, caps);
      assert x[0..] == x;
      PathIsCut(prog, 0, path, t, x, caps, {}, {});
      FollowUntouched(prog, path, t, p, caps);
      assert CutsTo(prog, path, t, p, caps, x, end);
    }
    if x :| CutsTo(prog, path, t, p, caps, x, end) {
      CutIsPath(prog, 0, path, t, x, caps, {}, {});
      FollowUntouched(prog, path, t, p, caps);
      SameCaptures(prog, x, caps, Follow(prog, path, t, p, caps).value.caps, end.caps);
    }
  }

  /** An expression matches from p exactly when some text from there on can be cut that way. */
  lemma {:induction false} MatchesExactlyWhen(prog: seq<Item>, t: Subject, p: nat, caps: Captures)
    requires p < |t| && Scoped(prog, {}, {})
    ensures MatchesFrom(prog, t, p, caps) <==> exists path, x :: Cutting(prog, path, t, x) && x[0] == p
  {
    if path: seq<nat> :| Follow(prog, path, t, p, caps).Some? {
      FollowIsCutting(prog, path, t, p, caps, Follow(prog, path, t, p, caps).value);
    }
    if path, x :| Cutting(prog, path, t, x) && x[0] == p {
      assert prog[0..] == prog && path[0..] == path;
      CutIsPath(prog, 0, path, t, x, caps, {}, {});
    }
  }

  // ----- `locs` -----

  /**
   * `locs` stops the search from k copies only at a repeated byte test, if a
   * piece that the item can take, with no fewer copies, ends there.
   */
  lemma {:induction false} BarredExactly(item: Item, k: nat, t: Subject, p: nat, caps: Captures, locs: int)
    requires p < |t|
    ensures Barred(item, k, t, p, caps, locs) <==>
            item.atom.OneOf? && !item.rep.Once? && p + k <= locs < |t| &&
            (item.rep.Range? ==> item.rep.low <= locs - p <= item.rep.high) &&
            forall j :: p <= j < locs ==> t[j] in item.atom.members && t[j] != 0
  {
    if item.atom.OneOf? {
      if p <= locs { RunIsPiece(item.atom.members, locs - p, t, p, locs, caps); }
      if n: nat :| k <= n && Allowed(item.rep, n) && Copies(item.atom, n, t, p, caps) == Some(locs) {
        ByteCopiesEnd(item.atom.members, n, t, p, caps);
      }
    }
  }

  // ----- the end of the subject -----

  /** A `$` at the end of an expression asks that the rest leads to the end of the subject. */
  lemma {:induction false} DollarIsEnd(items: seq<Item>, path: seq<nat>, t: Subject, p: nat, caps: Captures)
    requires p < |t|
    ensures var f := Follow(items, path, t, p, caps);
            Follow(items + [Item(AtEnd, Once)], path + [1], t, p, caps) ==
            if f.Some? && f.value.pos == |t| - 1 then f else None
    decreases |items|
  {
    var all, more := items + [Item(AtEnd, Once)], path + [1];
    if items == [] {
      assert all[1..] == [] && (path == [] ==> more[1..] == []);
      EndIsPiece(1, t, p, p, caps);
    } else if path != [] {
      assert all[1..] == items[1..] + [Item(AtEnd, Once)] && more[1..] == path[1..] + [1];
      var q := Copies(items[0].atom, path[0], t, p, caps);
      if q.Some? { DollarIsEnd(items[1..], path[1..], t, q.value, Mark(items[0].atom, p, caps)); }
    }
  }

  lemma {:induction false} LastIsEnd(items: seq<Item>, path: seq<nat>, t: Subject, p: nat, caps: Captures)
    requires p < |t| && items != [] && items[|items| - 1] == Item(AtEnd, Once) && Follow(items, path, t, p, caps).Some?
    ensures Follow(items, path, t, p, caps).value.pos == |t| - 1
    decreases |items|
  {
    var q := Copies(items[0].atom, path[0], t, p, caps).value;
    if |items| == 1 {
      EndIsPiece(1, t, p, q, caps);
    } else {
      LastIsEnd(items[1..], path[1..], t, q, Mark(items[0].atom, p, caps));
    }
  }
}
