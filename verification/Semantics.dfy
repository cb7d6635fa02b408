/**
 * What a compiled expression means, independently of its encoding, and the
 * backtracking search as a function.
 *
 * An expression is a list of items.  A path gives every item its number of
 * copies; following a path is deterministic.  The search of include/regexp.h
 * is specified by `Search`, which tries the copies of each item from the
 * longest run downwards; the theorems about it are in SearchTheorems.dfy.
 */
module Semantics {
  import opened Bytes

  const NBRA: nat := 9

  type Group = g: nat | g < NBRA

  /** One of the arrays braslist and braelist, with indices for pointers. */
  type Marks = m: seq<int> | |m| == NBRA witness [0, 0, 0, 0, 0, 0, 0, 0, 0]

  datatype Captures = Captures(starts: Marks, ends: Marks)

  datatype Atom =
    | OneOf(members: set<Byte>)
    | Open(g: Group)
    | Close(g: Group)
    | Back(g: Group)
    | AtEnd

  datatype Rep = Once | Star | Range(low: nat, high: nat)

  datatype Item = Item(atom: Atom, rep: Rep)

  /** A point reached in the subject, with the captures made on the way. */
  datatype Point = Point(pos: nat, caps: Captures)

  // ----- following a path -----

  /** Where one copy of the atom ends when it starts at p. */
  function Unit(a: Atom, t: Subject, p: nat, caps: Captures): (q: Option<nat>)
    requires p < |t|
    ensures q.Some? ==> p <= q.value < |t|
  {
    match a
    case OneOf(members) => if p < Len(t) && t[p] in members then Some(p + 1) else None
    case Open(_) => Some(p)
    case Close(_) => Some(p)
    case Back(g) =>
      var b, e := caps.starts[g], caps.ends[g];
      if 0 <= b <= e <= Len(t) && p + (e - b) <= Len(t) && t[p..p + (e - b)] == t[b..e]
      then Some(p + (e - b)) else None
    case AtEnd => if p == Len(t) then Some(p) else None
  }

  /** Where k consecutive copies of the atom end. */
  function Copies(a: Atom, k: nat, t: Subject, p: nat, caps: Captures): (q: Option<nat>)
    requires p < |t|
    ensures q.Some? ==> p <= q.value < |t|
    decreases k
  {
    if k == 0 then Some(p)
    else match Unit(a, t, p, caps)
      case None => None
      case Some(q) => Copies(a, k - 1, t, q, caps)
  }

  predicate Allowed(rep: Rep, k: nat) {
    match rep
    case Once => k == 1
    case Star => true
    case Range(low, high) => low <= k <= high
  }

  /** A group mark records where it is passed. */
  function Mark(a: Atom, p: nat, caps: Captures): Captures {
    match a
    case Open(g) => caps.(starts := caps.starts[g := p])
    case Close(g) => caps.(ends := caps.ends[g := p])
    case _ => caps
  }

  /** Follows a path from p; None when some item does not match that many copies there. */
  function Follow(prog: seq<Item>, path: seq<nat>, t: Subject, p: nat, caps: Captures): (r: Option<Point>)
    requires p < |t|
    ensures r.Some? ==> p <= r.value.pos < |t| && |path| == |prog|
    decreases |prog|
  {
    if prog == [] then if path == [] then Some(Point(p, caps)) else None
    else if path == [] || !Allowed(prog[0].rep, path[0]) then None
    else match Copies(prog[0].atom, path[0], t, p, caps)
      case None => None
      case Some(q) => Follow(prog[1..], path[1..], t, q, Mark(prog[0].atom, p, caps))
  }

  /** Some choice of repetition counts matches the whole expression from p. */
  ghost predicate MatchesFrom(prog: seq<Item>, t: Subject, p: nat, caps: Captures)
    requires p < |t|
  {
    exists path: seq<nat> :: Follow(prog, path, t, p, caps).Some?
  }

  // ----- the search -----

  datatype Outcome =
    | Found(path: seq<nat>)
    | Hangs(path: seq<nat>)   // the path on which the search stops making progress
    | NotFound
  {
    function After(done: seq<nat>): Outcome {
      match this
      case Found(path) => Found(done + path)
      case Hangs(path) => Hangs(done + path)
      case NotFound => NotFound
    }
  }

  /** A starred back-reference to an empty capture: the scanning loop never ends. */
  predicate Stuck(item: Item, caps: Captures) {
    item.rep.Star? && item.atom.Back? && caps.ends[item.atom.g] == caps.starts[item.atom.g]
  }

  /** Greatest number of copies, up to the bound, that fit from p. */
  function CountUp(a: Atom, t: Subject, p: nat, caps: Captures, bound: nat): nat
    requires p < |t|
    decreases bound
  {
    if bound == 0 then 0
    else match Unit(a, t, p, caps)
      case None => 0
      case Some(q) => 1 + CountUp(a, t, q, caps, bound - 1)
  }

  function Least(rep: Rep): nat {
    match rep
    case Once => 1
    case Star => 0
    case Range(low, _) => low
  }

  function Most(rep: Rep, t: Subject): nat {
    match rep
    case Once => 1
    case Star => |t|
    case Range(_, high) => high
  }

  /** Repeated byte tests give up when a run is cut back to `locs`. */
  predicate Barrier(item: Item) { !item.rep.Once? && item.atom.OneOf? }

  function Search(prog: seq<Item>, t: Subject, p: nat, caps: Captures, locs: int): Outcome
    requires p < |t|
    decreases |prog|, 1, 0
  {
    if prog == [] then Found([])
    else if Stuck(prog[0], caps) then Hangs([])
    else
      var m := CountUp(prog[0].atom, t, p, caps, Most(prog[0].rep, t));
      if m < Least(prog[0].rep) then NotFound else Descend(prog, t, p, caps, locs, m)
  }

  /** Tries k copies of the first item, then k - 1, and so on. */
  function Descend(prog: seq<Item>, t: Subject, p: nat, caps: Captures, locs: int, k: nat): Outcome
    requires p < |t| && prog != []
    decreases |prog|, 0, k
  {
    match Copies(prog[0].atom, k, t, p, caps)
    case None => NotFound
    case Some(q) =>
      if Barrier(prog[0]) && q == locs then NotFound
      else
        var o := Search(prog[1..], t, q, Mark(prog[0].atom, p, caps), locs);
        if o.NotFound? && k > Least(prog[0].rep) then Descend(prog, t, p, caps, locs, k - 1)
        else o.After([k])
  }

  /** Result of trying every start from p to the end of the subject. */
  datatype Hit =
    | At(start: nat, path: seq<nat>)
    | Endless(start: nat)
    | Nowhere

  function Leftmost(prog: seq<Item>, t: Subject, p: nat, caps: Captures, locs: int): Hit
    requires p < |t|
    decreases |t| - p
  {
    match Search(prog, t, p, caps, locs)
    case Found(path) => At(p, path)
    case Hangs(_) => Endless(p)
    case NotFound => if p < Len(t) then Leftmost(prog, t, p + 1, caps, locs) else Nowhere
  }

  // ----- events: where a run may end -----

  /** The count k is never tried: an allowed count no smaller than it ends at `locs`. */
  ghost predicate Barred(item: Item, k: nat, t: Subject, p: nat, caps: Captures, locs: int)
    requires p < |t|
  {
    Barrier(item) &&
    exists n: nat :: k <= n && Allowed(item.rep, n) && Copies(item.atom, n, t, p, caps) == Some(locs)
  }

  /**
   * The path is followed without meeting the barrier and then either every
   * item is matched (a path as long as the expression) or the next item is
   * one on which the scan never ends (a shorter path).
   */
  ghost predicate Event(prog: seq<Item>, path: seq<nat>, t: Subject, p: nat, caps: Captures, locs: int)
    requires p < |t|
    decreases |prog|
  {
    if prog == [] then path == []
    else if path == [] then Stuck(prog[0], caps)
    else
      var c := Copies(prog[0].atom, path[0], t, p, caps);
      Allowed(prog[0].rep, path[0]) && c.Some? &&
      !Barred(prog[0], path[0], t, p, caps, locs) &&
      Event(prog[1..], path[1..], t, c.value, Mark(prog[0].atom, p, caps), locs)
  }

  /** At the first position where the two paths differ, a has the larger count. */
  predicate Beats(a: seq<nat>, b: seq<nat>) {
    a != [] && b != [] && (a[0] > b[0] || (a[0] == b[0] && Beats(a[1..], b[1..])))
  }

  // ----- static conditions on expressions -----

  /** Only byte tests repeat, and back-references may be starred. */
  predicate Repeatable(item: Item) {
    match item.rep
    case Once => true
    case Star => item.atom.OneOf? || item.atom.Back?
    case Range(low, high) => item.atom.OneOf? && low <= high
  }

  predicate Shaped(prog: seq<Item>) {
    forall i :: 0 <= i < |prog| ==>
      Repeatable(prog[i]) && (prog[i].atom.OneOf? ==> 0 !in prog[i].atom.members)
  }

  function Begun(a: Atom, begun: set<Group>): set<Group> { if a.Open? then begun + {a.g} else begun }
  function Ended(a: Atom, ended: set<Group>): set<Group> { if a.Close? then ended + {a.g} else ended }

  /** The atom keeps the group discipline after groups `begun` were opened and `ended` closed. */
  predicate InScope(a: Atom, begun: set<Group>, ended: set<Group>) {
    match a
    case Open(g) => g !in begun
    case Close(g) => g in begun && g !in ended
    case Back(g) => g in ended
    case _ => true
  }

  /**
   * Each group is opened once, closed once and after its opening, and named
   * by back-references only after its closing, given what came before.
   */
  predicate Scoped(prog: seq<Item>, begun: set<Group>, ended: set<Group>)
    decreases |prog|
  {
    prog == [] ||
    (InScope(prog[0].atom, begun, ended) &&
     Scoped(prog[1..], Begun(prog[0].atom, begun), Ended(prog[0].atom, ended)))
  }

  /** The captures of the groups passed so far are spans that end by p. */
  predicate Spans(caps: Captures, begun: set<Group>, ended: set<Group>, p: nat) {
    ended <= begun &&
    (forall g | g in begun :: 0 <= caps.starts[g] <= p) &&
    (forall g | g in ended :: caps.starts[g] <= caps.ends[g] <= p)
  }

  /** The two captures give the same spans to the groups passed so far. */
  predicate Agree(c: Captures, d: Captures, begun: set<Group>, ended: set<Group>) {
    (forall g | g in begun :: c.starts[g] == d.starts[g]) &&
    (forall g | g in ended :: c.ends[g] == d.ends[g])
  }

  predicate Opens(prog: seq<Item>, g: Group) {
    exists i :: 0 <= i < |prog| && prog[i].atom == Open(g)
  }

  predicate Closes(prog: seq<Item>, g: Group) {
    exists i :: 0 <= i < |prog| && prog[i].atom == Close(g)
  }

  /** The captures differ at most where the expression itself writes them. */
  predicate Untouched(prog: seq<Item>, c: Captures, d: Captures) {
    forall g: Group ::
      (!Opens(prog, g) ==> c.starts[g] == d.starts[g]) && (!Closes(prog, g) ==> c.ends[g] == d.ends[g])
  }

  /** The item takes at least one byte whenever it matches, unless it repeats an empty capture. */
  predicate Consumes(item: Item, empty: set<Group>) {
    match item.atom
    case OneOf(_) => item.rep.Once? || (item.rep.Range? && item.rep.low > 0)
    case Back(g) => item.rep.Once? && g !in empty
    case _ => false
  }

  /** The item matches nowhere, so that the search never gets past it. */
  predicate Blocks(item: Item) { item.atom == OneOf({}) && Least(item.rep) > 0 }

  /** The open groups in which nothing is sure to have been consumed, after the item. */
  function NextThin(item: Item, thin: set<Group>, empty: set<Group>): set<Group> {
    if item.atom.Open? then thin + {item.atom.g}
    else if item.atom.Close? then thin - {item.atom.g}
    else if Consumes(item, empty) then {} else thin
  }

  /** The groups closed in that state. */
  function NextEmpty(item: Item, thin: set<Group>, empty: set<Group>): set<Group> {
    if item.atom.Close? && item.atom.g in thin then empty + {item.atom.g} else empty
  }

  /** A starred back-reference to a group that could be empty. */
  predicate Fails(item: Item, empty: set<Group>) { item.atom.Back? && item.rep.Star? && item.atom.g in empty }

  /**
   * No starred back-reference that can be reached names a group that could be
   * empty.  `thin` are the open groups in which nothing is sure to have been
   * consumed, `empty` the groups closed in that state.
   */
  predicate Progressive(prog: seq<Item>, thin: set<Group>, empty: set<Group>)
    decreases |prog|
  {
    prog == [] || Blocks(prog[0]) ||
    (!Fails(prog[0], empty) &&
     Progressive(prog[1..], NextThin(prog[0], thin, empty), NextEmpty(prog[0], thin, empty)))
  }
}
