/**
 * The search returns the greediest way a run can end, and nothing else: it is
 * sound and complete for the paths of Semantics.dfy, its result does not
 * depend on captures left behind by earlier or abandoned attempts, and the
 * captures it leaves are the spans of the path it found.
 */
module SearchTheorems {
  import opened Bytes
  import opened Semantics

  // ----- copies -----

  lemma {:induction false} FewerCopies(a: Atom, j: nat, k: nat, t: Subject, p: nat, caps: Captures)
    requires p < |t| && j <= k && Copies(a, k, t, p, caps).Some?
    ensures Copies(a, j, t, p, caps).Some?
    decreases k
  {
    if j > 0 {
      FewerCopies(a, j - 1, k - 1, t, Unit(a, t, p, caps).value, caps);
    }
  }

  lemma {:induction false} CountUpIsMost(a: Atom, k: nat, t: Subject, p: nat, caps: Captures, bound: nat)
    requires p < |t| && k <= bound
    ensures CountUp(a, t, p, caps, bound) <= bound
    ensures Copies(a, k, t, p, caps).Some? <==> k <= CountUp(a, t, p, caps, bound)
    decreases bound
  {
    if bound > 0 {
      var u := Unit(a, t, p, caps);
      if u.Some? { CountUpIsMost(a, if k == 0 then 0 else k - 1, t, u.value, caps, bound - 1); }
    }
  }

  lemma {:induction false} ByteCopiesEnd(s: set<Byte>, k: nat, t: Subject, p: nat, caps: Captures)
    requires p < |t| && Copies(OneOf(s), k, t, p, caps).Some?
    ensures Copies(OneOf(s), k, t, p, caps) == Some(p + k)
    decreases k
  {
    if k > 0 { ByteCopiesEnd(s, k - 1, t, p + 1, caps); }
  }

  /** A repeated atom that is not stuck consumes at least one byte per copy. */
  lemma {:induction false} CopiesFit(item: Item, k: nat, t: Subject, p: nat, caps: Captures)
    requires p < |t| && Repeatable(item) && item.rep.Star? && !Stuck(item, caps)
    requires Copies(item.atom, k, t, p, caps).Some?
    ensures k <= Len(t) - p
    decreases k
  {
    if k > 0 { CopiesFit(item, k - 1, t, Unit(item.atom, t, p, caps).value, caps); }
  }

  /** The counts an item can take from p are exactly those from `Least` to `CountUp`. */
  lemma {:induction false} CountsAreAnInterval(item: Item, k: nat, t: Subject, p: nat, caps: Captures)
    requires p < |t| && Repeatable(item) && !Stuck(item, caps)
    ensures Allowed(item.rep, k) && Copies(item.atom, k, t, p, caps).Some? <==>
            Least(item.rep) <= k <= CountUp(item.atom, t, p, caps, Most(item.rep, t))
  {
    var bound := Most(item.rep, t);
    if k <= bound {
      CountUpIsMost(item.atom, k, t, p, caps, bound);
    } else {
      CountUpIsMost(item.atom, 0, t, p, caps, bound);
      if item.rep.Star? && Copies(item.atom, k, t, p, caps).Some? {
        CopiesFit(item, k, t, p, caps);
      }
    }
  }

  /** One item without repetition. */
  lemma {:induction false} OnceSearch(items: seq<Item>, t: Subject, p: nat, caps: Captures, locs: int)
    requires p < |t| && items != [] && items[0].rep.Once?
    ensures var u := Unit(items[0].atom, t, p, caps);
            Search(items, t, p, caps, locs) ==
            if u.None? then NotFound
            else Search(items[1..], t, u.value, Mark(items[0].atom, p, caps), locs).After([1])
  {
    var u := Unit(items[0].atom, t, p, caps);
    if u.Some? {
      assert Copies(items[0].atom, 0, t, u.value, caps) == u;
      assert Copies(items[0].atom, 1, t, p, caps) == u;
      assert CountUp(items[0].atom, t, p, caps, 1) == 1;
    }
  }

  // ----- the search ends at an event -----

  /** No allowed count above k ends at the barrier. */
  ghost predicate ClearAbove(item: Item, k: nat, t: Subject, p: nat, caps: Captures, locs: int)
    requires p < |t|
  {
    forall n: nat :: Barrier(item) && n > k && Allowed(item.rep, n) ==>
      Copies(item.atom, n, t, p, caps) != Some(locs)
  }

  ghost predicate EndsAtEvent(o: Outcome, prog: seq<Item>, t: Subject, p: nat, caps: Captures, locs: int)
    requires p < |t|
  {
    match o
    case Found(path) => |path| == |prog| && Event(prog, path, t, p, caps, locs)
    case Hangs(path) => |path| < |prog| && Event(prog, path, t, p, caps, locs)
    case NotFound => true
  }

  lemma {:induction false} TopIsClear(item: Item, t: Subject, p: nat, caps: Captures, locs: int)
    requires p < |t| && Repeatable(item) && !Stuck(item, caps)
    ensures ClearAbove(item, CountUp(item.atom, t, p, caps, Most(item.rep, t)), t, p, caps, locs)
  {
    forall n: nat | n > CountUp(item.atom, t, p, caps, Most(item.rep, t)) && Allowed(item.rep, n)
      ensures Copies(item.atom, n, t, p, caps) != Some(locs)
    {
      CountsAreAnInterval(item, n, t, p, caps);
    }
  }

  lemma {:induction false} SearchSound(prog: seq<Item>, t: Subject, p: nat, caps: Captures, locs: int)
    requires p < |t| && Shaped(prog)
    ensures EndsAtEvent(Search(prog, t, p, caps, locs), prog, t, p, caps, locs)
    decreases |prog|, 1, 0
  {
    if prog != [] && !Stuck(prog[0], caps) {
      var m := CountUp(prog[0].atom, t, p, caps, Most(prog[0].rep, t));
      if m >= Least(prog[0].rep) {
        CountsAreAnInterval(prog[0], m, t, p, caps);
        TopIsClear(prog[0], t, p, caps, locs);
        DescendSound(prog, t, p, caps, locs, m);
      }
    }
  }

  lemma {:induction false} DescendSound(prog: seq<Item>, t: Subject, p: nat, caps: Captures, locs: int, k: nat)
    requires p < |t| && Shaped(prog) && prog != []
    requires Allowed(prog[0].rep, k) && Copies(prog[0].atom, k, t, p, caps).Some?
    requires ClearAbove(prog[0], k, t, p, caps, locs)
    ensures EndsAtEvent(Descend(prog, t, p, caps, locs, k), prog, t, p, caps, locs)
    decreases |prog|, 0, k
  {
    var q := Copies(prog[0].atom, k, t, p, caps).value;
    if !(Barrier(prog[0]) && q == locs) {
      var marked := Mark(prog[0].atom, p, caps);
      var o := Search(prog[1..], t, q, marked, locs);
      SearchSound(prog[1..], t, q, marked, locs);
      assert !Barred(prog[0], k, t, p, caps, locs);
      if o.NotFound? && k > Least(prog[0].rep) {
        FewerCopies(prog[0].atom, k - 1, k, t, p, caps);
        DescendSound(prog, t, p, caps, locs, k - 1);
      } else if !o.NotFound? {
        assert ([k] + o.path)[1..] == o.path;
      }
    }
  }

  // ----- and no event beats it -----

  /** The outcome is an end that e does not beat. */
  predicate Covers(o: Outcome, e: seq<nat>) {
    !o.NotFound? && (o.path <= e || Beats(o.path, e))
  }

  lemma {:induction false} SearchCovers(prog: seq<Item>, t: Subject, p: nat, caps: Captures, locs: int, e: seq<nat>)
    requires p < |t| && Shaped(prog) && Event(prog, e, t, p, caps, locs)
    ensures Covers(Search(prog, t, p, caps, locs), e)
    decreases |prog|, 1, 0
  {
    if prog != [] && !Stuck(prog[0], caps) {
      CountsAreAnInterval(prog[0], e[0], t, p, caps);
      var m := CountUp(prog[0].atom, t, p, caps, Most(prog[0].rep, t));
      CountsAreAnInterval(prog[0], m, t, p, caps);
      DescendCovers(prog, t, p, caps, locs, m, e);
    }
  }

  lemma {:induction false} DescendCovers(
      prog: seq<Item>, t: Subject, p: nat, caps: Captures, locs: int, k: nat, e: seq<nat>)
    requires p < |t| && Shaped(prog) && prog != []
    requires Allowed(prog[0].rep, k) && Copies(prog[0].atom, k, t, p, caps).Some?
    requires e != [] && e[0] <= k && Event(prog, e, t, p, caps, locs)
    ensures Covers(Descend(prog, t, p, caps, locs, k), e)
    decreases |prog|, 0, k
  {
    var q := Copies(prog[0].atom, k, t, p, caps).value;
    var marked := Mark(prog[0].atom, p, caps);
    assert !(Barrier(prog[0]) && q == locs);
    var o := Search(prog[1..], t, q, marked, locs);
    if e[0] == k {
      SearchCovers(prog[1..], t, q, marked, locs, e[1..]);
      assert ([k] + o.path)[1..] == o.path;
      if o.path <= e[1..] { assert [k] + o.path <= [k] + e[1..] == e; }
    } else if o.NotFound? {
      FewerCopies(prog[0].atom, k - 1, k, t, p, caps);
      DescendCovers(prog, t, p, caps, locs, k - 1, e);
    }
  }

  /**
   * The search picks the lexicographically greatest event: a full match, or
   * the point of no return of a scan that never ends.  It fails exactly when
   * there is no event at all.
   */
  lemma {:induction false} SearchFindsGreatest(prog: seq<Item>, t: Subject, p: nat, caps: Captures, locs: int)
    requires p < |t| && Shaped(prog)
    ensures var o := Search(prog, t, p, caps, locs);
            EndsAtEvent(o, prog, t, p, caps, locs) &&
            forall e: seq<nat> :: Event(prog, e, t, p, caps, locs) ==>
              |e| <= |prog| && (o.Found? || o.Hangs?) &&
              (Beats(o.path, e) || o.path == e || (o.Hangs? && o.path <= e))
  {
    SearchSound(prog, t, p, caps, locs);
    forall e: seq<nat> | Event(prog, e, t, p, caps, locs)
      ensures Covers(Search(prog, t, p, caps, locs), e) && |e| <= |prog|
    {
      SearchCovers(prog, t, p, caps, locs, e);
      EventLength(prog, e, t, p, caps, locs);
    }
  }

  lemma {:induction false} EventLength(prog: seq<Item>, e: seq<nat>, t: Subject, p: nat, caps: Captures, locs: int)
    requires p < |t| && Event(prog, e, t, p, caps, locs)
    ensures |e| <= |prog|
    decreases |prog|
  {
    if prog != [] && e != [] {
      EventLength(prog[1..], e[1..], t, Copies(prog[0].atom, e[0], t, p, caps).value,
                  Mark(prog[0].atom, p, caps), locs);
    }
  }

  // ----- matches, for any `locs` and for `locs` outside the subject -----

  lemma {:induction false} EventsAreMatches(
      prog: seq<Item>, e: seq<nat>, t: Subject, p: nat, caps: Captures, locs: int)
    requires p < |t| && |e| == |prog|
    ensures Event(prog, e, t, p, caps, locs) ==> Follow(prog, e, t, p, caps).Some?
    ensures !(0 <= locs <= Len(t)) && Follow(prog, e, t, p, caps).Some? ==> Event(prog, e, t, p, caps, locs)
    decreases |prog|
  {
    if prog != [] {
      var c := Copies(prog[0].atom, e[0], t, p, caps);
      if c.Some? { EventsAreMatches(prog[1..], e[1..], t, c.value, Mark(prog[0].atom, p, caps), locs); }
    }
  }

  /** Whatever `locs` is, a match that is found is a match. */
  lemma {:induction false} FoundIsAMatch(prog: seq<Item>, t: Subject, p: nat, caps: Captures, locs: int)
    requires p < |t| && Shaped(prog) && Search(prog, t, p, caps, locs).Found?
    ensures Follow(prog, Search(prog, t, p, caps, locs).path, t, p, caps).Some?
    ensures MatchesFrom(prog, t, p, caps)
  {
    SearchSound(prog, t, p, caps, locs);
    EventsAreMatches(prog, Search(prog, t, p, caps, locs).path, t, p, caps, locs);
  }

  /** With `locs` outside the subject a search that ends succeeds exactly when there is a match. */
  lemma {:induction false} SearchDecides(prog: seq<Item>, t: Subject, p: nat, caps: Captures, locs: int)
    requires p < |t| && Shaped(prog) && !(0 <= locs <= Len(t))
    requires !Search(prog, t, p, caps, locs).Hangs?
    ensures Search(prog, t, p, caps, locs).Found? <==> MatchesFrom(prog, t, p, caps)
  {
    if Search(prog, t, p, caps, locs).Found? {
      FoundIsAMatch(prog, t, p, caps, locs);
    } else if MatchesFrom(prog, t, p, caps) {
      var path: seq<nat> :| Follow(prog, path, t, p, caps).Some?;
      EventsAreMatches(prog, path, t, p, caps, locs);
      SearchCovers(prog, t, p, caps, locs, path);
    }
  }

  /** And the match found has the lexicographically largest counts of all matches. */
  lemma {:induction false} FoundIsGreediest(prog: seq<Item>, t: Subject, p: nat, caps: Captures, locs: int, other: seq<nat>)
    requires p < |t| && Shaped(prog) && !(0 <= locs <= Len(t))
    requires Search(prog, t, p, caps, locs).Found?
    requires Follow(prog, other, t, p, caps).Some?
    ensures var path := Search(prog, t, p, caps, locs).path; other == path || Beats(path, other)
  {
    SearchSound(prog, t, p, caps, locs);
    EventsAreMatches(prog, other, t, p, caps, locs);
    SearchCovers(prog, t, p, caps, locs, other);
  }

  // ----- searches that do not end -----

  lemma {:induction false} BeatsIsOneWay(a: seq<nat>, b: seq<nat>)
    ensures !(Beats(a, b) && Beats(b, a)) && (a <= b ==> !Beats(b, a))
    decreases |a|
  {
    if a != [] && b != [] {
      if a <= b { assert a[1..] <= b[1..]; }
      BeatsIsOneWay(a[1..], b[1..]);
    }
  }

  /**
   * The search fails to end exactly when it can come to a starred
   * back-reference whose capture is empty before it comes to any match.
   */
  lemma {:induction false} HangsExactlyWhen(prog: seq<Item>, t: Subject, p: nat, caps: Captures, locs: int)
    requires p < |t| && Shaped(prog)
    ensures Search(prog, t, p, caps, locs).Hangs? <==>
            exists h: seq<nat> :: |h| < |prog| && Event(prog, h, t, p, caps, locs) &&
              forall e: seq<nat> :: |e| == |prog| && Event(prog, e, t, p, caps, locs) ==> !Beats(e, h)
  {
    var o := Search(prog, t, p, caps, locs);
    SearchFindsGreatest(prog, t, p, caps, locs);
    if o.Hangs? {
      forall e: seq<nat> | |e| == |prog| && Event(prog, e, t, p, caps, locs) ensures !Beats(e, o.path) {
        BeatsIsOneWay(o.path, e);
      }
    }
  }

  /** What `Progressive` keeps track of: groups that are neither thin nor empty hold some text. */
  ghost predicate Filled(caps: Captures, begun: set<Group>, ended: set<Group>,
                         thin: set<Group>, empty: set<Group>, p: nat)
  {
    forall g | g in begun && g !in empty ::
      (g in ended ==> caps.starts[g] < caps.ends[g]) &&
      (g !in ended && g !in thin ==> caps.starts[g] < p)
  }

  lemma {:induction false} SpansStep(item: Item, k: nat, t: Subject, p: nat, caps: Captures, begun: set<Group>, ended: set<Group>)
    requires p < |t| && InScope(item.atom, begun, ended) && Spans(caps, begun, ended, p)
    requires Copies(item.atom, k, t, p, caps).Some?
    ensures Spans(Mark(item.atom, p, caps), Begun(item.atom, begun), Ended(item.atom, ended),
                  Copies(item.atom, k, t, p, caps).value)
  {
  }

  /** On a progressive expression every run ends in a match or in a failure. */
  lemma {:induction false} ProgressiveEvents(
      prog: seq<Item>, e: seq<nat>, t: Subject, p: nat, caps: Captures, locs: int,
      begun: set<Group>, ended: set<Group>, thin: set<Group>, empty: set<Group>)
    requires p < |t| && Shaped(prog) && Scoped(prog, begun, ended) && Spans(caps, begun, ended, p)
    requires Progressive(prog, thin, empty) && Filled(caps, begun, ended, thin, empty, p)
    requires thin <= begun - ended && empty <= ended
    requires Event(prog, e, t, p, caps, locs)
    ensures |e| == |prog|
    decreases |prog|
  {
    if prog != [] {
      var item := prog[0];
      var a := item.atom;
      assert e != [];
      if Blocks(item) { ByteCopiesEnd({}, e[0], t, p, caps); }
      var q := Copies(a, e[0], t, p, caps).value;
      SpansStep(item, e[0], t, p, caps, begun, ended);
      if Consumes(item, empty) { assert q > p; }
      ProgressiveEvents(prog[1..], e[1..], t, q, Mark(a, p, caps), locs, Begun(a, begun), Ended(a, ended),
                        NextThin(item, thin, empty), NextEmpty(item, thin, empty));
    }
  }

  /** A condition on the expression alone under which the search always ends. */
  lemma {:induction false} ProgressiveNeverHangs(prog: seq<Item>, t: Subject, p: nat, caps: Captures, locs: int)
    requires p < |t| && Shaped(prog) && Scoped(prog, {}, {}) && Progressive(prog, {}, {})
    ensures !Search(prog, t, p, caps, locs).Hangs?
  {
    SearchSound(prog, t, p, caps, locs);
    var o := Search(prog, t, p, caps, locs);
    if o.Hangs? { ProgressiveEvents(prog, o.path, t, p, caps, locs, {}, {}, {}, {}); }
  }

  // ----- stale captures -----

  lemma {:induction false} CopiesAgree(a: Atom, k: nat, t: Subject, p: nat, c: Captures, d: Captures,
                                       begun: set<Group>, ended: set<Group>)
    requires p < |t| && InScope(a, begun, ended) && ended <= begun && Agree(c, d, begun, ended)
    ensures Copies(a, k, t, p, c) == Copies(a, k, t, p, d)
    decreases k
  {
    assert Unit(a, t, p, c) == Unit(a, t, p, d);
    if k > 0 && Unit(a, t, p, c).Some? {
      CopiesAgree(a, k - 1, t, Unit(a, t, p, c).value, c, d, begun, ended);
    }
  }

  lemma {:induction false} CountUpAgree(a: Atom, t: Subject, p: nat, c: Captures, d: Captures, bound: nat,
                                        begun: set<Group>, ended: set<Group>)
    requires p < |t| && InScope(a, begun, ended) && ended <= begun && Agree(c, d, begun, ended)
    ensures CountUp(a, t, p, c, bound) == CountUp(a, t, p, d, bound)
    decreases bound
  {
    assert Unit(a, t, p, c) == Unit(a, t, p, d);
    if bound > 0 && Unit(a, t, p, c).Some? {
      CountUpAgree(a, t, Unit(a, t, p, c).value, c, d, bound - 1, begun, ended);
    }
  }

  /** The search looks only at the spans of groups already passed. */
  lemma {:induction false} SearchIgnoresStale(
      prog: seq<Item>, t: Subject, p: nat, c: Captures, d: Captures, locs: int, begun: set<Group>, ended: set<Group>)
    requires p < |t| && Scoped(prog, begun, ended) && ended <= begun && Agree(c, d, begun, ended)
    ensures Search(prog, t, p, c, locs) == Search(prog, t, p, d, locs)
    decreases |prog|, 1, 0
  {
    if prog != [] {
      assert Stuck(prog[0], c) == Stuck(prog[0], d);
      CountUpAgree(prog[0].atom, t, p, c, d, Most(prog[0].rep, t), begun, ended);
      DescendIgnoresStale(prog, t, p, c, d, locs, begun, ended,
                          CountUp(prog[0].atom, t, p, c, Most(prog[0].rep, t)));
    }
  }

  /** The same for the scan over all starts. */
  lemma {:induction false} LeftmostIgnoresStale(prog: seq<Item>, t: Subject, p: nat, c: Captures, d: Captures, locs: int)
    requires p < |t| && Scoped(prog, {}, {})
    ensures Leftmost(prog, t, p, c, locs) == Leftmost(prog, t, p, d, locs)
    decreases |t| - p
  {
    SearchIgnoresStale(prog, t, p, c, d, locs, {}, {});
    if p < Len(t) { LeftmostIgnoresStale(prog, t, p + 1, c, d, locs); }
  }

  lemma {:induction false} DescendIgnoresStale(
      prog: seq<Item>, t: Subject, p: nat, c: Captures, d: Captures, locs: int,
      begun: set<Group>, ended: set<Group>, k: nat)
    requires p < |t| && prog != []
    requires Scoped(prog, begun, ended) && ended <= begun && Agree(c, d, begun, ended)
    ensures Descend(prog, t, p, c, locs, k) == Descend(prog, t, p, d, locs, k)
    decreases |prog|, 0, k
  {
    var a := prog[0].atom;
    CopiesAgree(a, k, t, p, c, d, begun, ended);
    if Copies(a, k, t, p, c).Some? {
      SearchIgnoresStale(prog[1..], t, Copies(a, k, t, p, c).value, Mark(a, p, c), Mark(a, p, d), locs,
                         Begun(a, begun), Ended(a, ended));
      if k > Least(prog[0].rep) { DescendIgnoresStale(prog, t, p, c, d, locs, begun, ended, k - 1); }
    }
  }

  /** Where a path leads does not depend on them either. */
  lemma {:induction false} FollowIgnoresStale(
      prog: seq<Item>, path: seq<nat>, t: Subject, p: nat, c: Captures, d: Captures,
      begun: set<Group>, ended: set<Group>)
    requires p < |t| && Scoped(prog, begun, ended) && ended <= begun && Agree(c, d, begun, ended)
    ensures Follow(prog, path, t, p, c).Some? == Follow(prog, path, t, p, d).Some?
    ensures Follow(prog, path, t, p, c).Some? ==>
            Follow(prog, path, t, p, c).value.pos == Follow(prog, path, t, p, d).value.pos
    decreases |prog|
  {
    if prog != [] && path != [] {
      var a := prog[0].atom;
      CopiesAgree(a, path[0], t, p, c, d, begun, ended);
      if Copies(a, path[0], t, p, c).Some? {
        FollowIgnoresStale(prog[1..], path[1..], t, Copies(a, path[0], t, p, c).value,
                           Mark(a, p, c), Mark(a, p, d), Begun(a, begun), Ended(a, ended));
      }
    }
  }

  /** Values left where the expression writes anyway are gone when a path has been followed. */
  lemma {:induction false} FollowErasesStale(
      prog: seq<Item>, path: seq<nat>, t: Subject, p: nat, c: Captures, d: Captures,
      begun: set<Group>, ended: set<Group>)
    requires p < |t| && Scoped(prog, begun, ended) && ended <= begun
    requires Agree(c, d, begun, ended) && Untouched(prog, c, d)
    ensures Follow(prog, path, t, p, c) == Follow(prog, path, t, p, d)
    decreases |prog|
  {
    if prog == [] {
      assert c.starts == d.starts && c.ends == d.ends;
    } else if path != [] {
      var a := prog[0].atom;
      CopiesAgree(a, path[0], t, p, c, d, begun, ended);
      if Copies(a, path[0], t, p, c).Some? {
        UntouchedTail(prog, p, c, d);
        FollowErasesStale(prog[1..], path[1..], t, Copies(a, path[0], t, p, c).value,
                          Mark(a, p, c), Mark(a, p, d), Begun(a, begun), Ended(a, ended));
      }
    }
  }

  lemma {:induction false} MarksOfTail(prog: seq<Item>, g: Group)
    requires prog != []
    ensures Opens(prog, g) <==> prog[0].atom == Open(g) || Opens(prog[1..], g)
    ensures Closes(prog, g) <==> prog[0].atom == Close(g) || Closes(prog[1..], g)
  {
    assert prog == [prog[0]] + prog[1..];
    if Opens(prog[1..], g) {
      var i :| 0 <= i < |prog[1..]| && prog[1..][i].atom == Open(g);
      assert prog[i + 1].atom == Open(g);
    }
    if Closes(prog[1..], g) {
      var i :| 0 <= i < |prog[1..]| && prog[1..][i].atom == Close(g);
      assert prog[i + 1].atom == Close(g);
    }
  }

  lemma {:induction false} UntouchedTail(prog: seq<Item>, p: nat, c: Captures, d: Captures)
    requires prog != [] && Untouched(prog, c, d)
    ensures Untouched(prog[1..], Mark(prog[0].atom, p, c), Mark(prog[0].atom, p, d))
  {
    forall g: Group { MarksOfTail(prog, g); }
  }

  /** Groups already passed are not written again. */
  lemma {:induction false} ScopedKeeps(prog: seq<Item>, begun: set<Group>, ended: set<Group>, g: Group)
    requires Scoped(prog, begun, ended)
    ensures g in begun ==> !Opens(prog, g)
    ensures g in ended ==> !Closes(prog, g)
    decreases |prog|
  {
    if prog != [] {
      MarksOfTail(prog, g);
      ScopedKeeps(prog[1..], Begun(prog[0].atom, begun), Ended(prog[0].atom, ended), g);
    }
  }

  lemma {:induction false} UntouchedAgrees(prog: seq<Item>, begun: set<Group>, ended: set<Group>, c: Captures, d: Captures)
    requires Scoped(prog, begun, ended) && Untouched(prog, c, d)
    ensures Agree(c, d, begun, ended)
  {
    forall g: Group { ScopedKeeps(prog, begun, ended, g); }
  }

  // ----- the captures of a path -----

  lemma {:induction false} FollowUntouched(prog: seq<Item>, path: seq<nat>, t: Subject, p: nat, caps: Captures)
    requires p < |t| && Follow(prog, path, t, p, caps).Some?
    ensures Untouched(prog, caps, Follow(prog, path, t, p, caps).value.caps)
    decreases |prog|
  {
    if prog != [] {
      var a := prog[0].atom;
      FollowUntouched(prog[1..], path[1..], t, Copies(a, path[0], t, p, caps).value, Mark(a, p, caps));
      forall g: Group { MarksOfTail(prog, g); }
    }
  }

  /** The i-th mark of a path records the position the first i items lead to. */
  lemma {:induction false} CapturesAreSpans(
      prog: seq<Item>, path: seq<nat>, t: Subject, p: nat, caps: Captures,
      begun: set<Group>, ended: set<Group>, i: nat)
    requires p < |t| && i < |prog| && Scoped(prog, begun, ended) && Follow(prog, path, t, p, caps).Some?
    ensures Follow(prog[..i], path[..i], t, p, caps).Some?
    ensures var final := Follow(prog, path, t, p, caps).value.caps;
            var here := Follow(prog[..i], path[..i], t, p, caps).value.pos;
            match prog[i].atom
            case Open(g) => final.starts[g] == here
            case Close(g) => final.ends[g] == here
            case _ => true
    decreases |prog|
  {
    var a := prog[0].atom;
    var q := Copies(a, path[0], t, p, caps).value;
    var begun', ended' := Begun(a, begun), Ended(a, ended);
    if i == 0 {
      FollowUntouched(prog[1..], path[1..], t, q, Mark(a, p, caps));
      if a.Open? || a.Close? { ScopedKeeps(prog[1..], begun', ended', a.g); }
    } else {
      CapturesAreSpans(prog[1..], path[1..], t, q, Mark(a, p, caps), begun', ended', i - 1);
      assert prog[..i][1..] == prog[1..][..i - 1];
      assert path[..i][1..] == path[1..][..i - 1];
    }
  }

  // ----- the leftmost match -----

  /** Whether and where an expression matches does not depend on the captures it starts with. */
  lemma {:induction false} MatchesRegardless(prog: seq<Item>, t: Subject, p: nat, c: Captures, d: Captures)
    requires p < |t| && Scoped(prog, {}, {})
    ensures MatchesFrom(prog, t, p, c) <==> MatchesFrom(prog, t, p, d)
  {
    forall path: seq<nat>
      ensures Follow(prog, path, t, p, c).Some? == Follow(prog, path, t, p, d).Some?
    {
      FollowIgnoresStale(prog, path, t, p, c, d, {}, {});
    }
  }

  /**
   * With `locs` outside the subject, a scan that ends finds the first start
   * from which the expression matches, or that there is none.
   */
  lemma {:induction false} LeftmostDecides(prog: seq<Item>, t: Subject, p: nat, caps: Captures, locs: int)
    requires p < |t| && Shaped(prog) && !(0 <= locs <= Len(t))
    requires !Leftmost(prog, t, p, caps, locs).Endless?
    ensures var h := Leftmost(prog, t, p, caps, locs);
            var stop := if h.At? then h.start else |t|;
            p <= stop <= |t| && (h.At? ==> stop < |t| && MatchesFrom(prog, t, stop, caps)) &&
            forall j :: p <= j < stop ==> !MatchesFrom(prog, t, j, caps)
    decreases |t| - p
  {
    SearchDecides(prog, t, p, caps, locs);
    if Search(prog, t, p, caps, locs).NotFound? && p < Len(t) {
      LeftmostDecides(prog, t, p + 1, caps, locs);
    }
  }

  /** The path reported with the leftmost start is the greediest one from there. */
  lemma {:induction false} LeftmostIsGreediest(
      prog: seq<Item>, t: Subject, p: nat, caps: Captures, locs: int, other: seq<nat>)
    requires p < |t| && Shaped(prog) && !(0 <= locs <= Len(t))
    requires Leftmost(prog, t, p, caps, locs).At?
    ensures var h := Leftmost(prog, t, p, caps, locs);
            p <= h.start < |t| && Follow(prog, h.path, t, h.start, caps).Some? &&
            (Follow(prog, other, t, h.start, caps).Some? ==> other == h.path || Beats(h.path, other))
    decreases |t| - p
  {
    var o := Search(prog, t, p, caps, locs);
    if o.Found? {
      FoundIsAMatch(prog, t, p, caps, locs);
      if Follow(prog, other, t, p, caps).Some? { FoundIsGreediest(prog, t, p, caps, locs, other); }
    } else {
      LeftmostIsGreediest(prog, t, p + 1, caps, locs, other);
    }
  }

  /** A progressive expression is found, or not, from every start. */
  lemma {:induction false} ProgressiveScanEnds(prog: seq<Item>, t: Subject, p: nat, caps: Captures, locs: int)
    requires p < |t| && Shaped(prog) && Scoped(prog, {}, {}) && Progressive(prog, {}, {})
    ensures !Leftmost(prog, t, p, caps, locs).Endless?
    decreases |t| - p
  {
    ProgressiveNeverHangs(prog, t, p, caps, locs);
    if p < Len(t) { ProgressiveScanEnds(prog, t, p + 1, caps, locs); }
  }
}
