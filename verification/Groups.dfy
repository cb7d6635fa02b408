/**
 * Groups and back-references: what the bracket stack and the two counters of
 * `compile` guarantee about the marks in every pattern it accepts.
 */
module Groups {
  import opened Bytes
  import opened Semantics
  import opened Program
  import opened Syntax
  import opened Parse

  // ----- the discipline `compile` keeps -----

  /** Groups still open, innermost last; how many were opened and how many closed. */
  datatype Nesting = Nesting(stack: seq<Group>, nbra: nat, closed: nat)

  function NestOne(g: Nesting, piece: Piece): Option<Nesting> {
    if piece.Class? then Some(g)
    else match piece.op
      case Bra(k) =>
        if k == g.nbra then Some(Nesting(g.stack + [k], g.nbra + 1, g.closed)) else None
      case Ket(k) =>
        var n := |g.stack| - 1;
        if g.stack != [] && k == g.stack[n] then Some(Nesting(g.stack[..n], g.nbra, g.closed + 1)) else None
      case Backref(d) => if d < g.closed then Some(g) else None
      case _ => Some(g)
  }

  /** The nesting after the terms; None if some mark or back-reference is out of place. */
  function Nest(terms: seq<Term>): Option<Nesting> {
    if terms == [] then Some(Nesting([], 0, 0))
    else
      var n := |terms| - 1;
      var g := Nest(terms[..n]);
      if g.None? then None else NestOne(g.value, terms[n].piece)
  }

  /** The parser's counters are those of the terms it has read. */
  ghost predicate Tracked(st: State) { Nest(st.terms) == Some(Nesting(st.stack, st.nbra, st.closed)) }

  lemma {:induction false} ApplyTracked(st: State, tok: Token)
    requires Tracked(st) && !tok.End? && (tok.Atomic? ==> IsAtom(tok.piece)) && Apply(st, tok).Some?
    ensures Tracked(Apply(st, tok).value)
  {
    var next := Apply(st, tok).value;
    match tok
    case Atomic(piece) => PushTracked(st, piece, next);
    case StarToken =>
      if StarIsLiteral(st.terms) {
        PushTracked(st, Plain(Chr(ASTERISK)), next);
      } else {
        RequantifyTracked(st, WithStar(st.terms[|st.terms| - 1].quant));
      }
    case OpenToken => PushTracked(st, Plain(Bra(st.nbra)), next);
    case CloseToken => PushTracked(st, Plain(Ket(st.stack[|st.stack| - 1])), next);
    case BackToken(d) => PushTracked(st, Plain(Backref(d)), next);
    case IntervalToken(low, high) =>
      RequantifyTracked(st, WithInterval(st.terms[|st.terms| - 1].quant, (low, high)));
  }

  lemma {:induction false} PushTracked(st: State, piece: Piece, next: State)
    requires Tracked(st) && next.terms == st.terms + [Term(piece, One)]
    requires NestOne(Nesting(st.stack, st.nbra, st.closed), piece) ==
             Some(Nesting(next.stack, next.nbra, next.closed))
    ensures Tracked(next)
  {
    NestPush(st.terms, Term(piece, One));
  }

  lemma {:induction false} RequantifyTracked(st: State, q: Quant)
    requires Tracked(st) && st.terms != []
    ensures Tracked(Requantify(st, q))
  {
    var n := |st.terms| - 1;
    assert st.terms[n := st.terms[n].(quant := q)][..n] == st.terms[..n];
  }

  lemma {:induction false} NestPush(terms: seq<Term>, t: Term)
    ensures var g := Nest(terms);
            Nest(terms + [t]) == if g.None? then None else NestOne(g.value, t.piece)
  {
    assert (terms + [t])[..|terms|] == terms;
  }

  /** Every accepted pattern keeps the discipline, with no group left open. */
  lemma {:induction false} ParseNests(s: seq<Byte>, eof: Byte, sed: bool, st: State)
    requires Tracked(st) && ParseFrom(s, eof, sed, st).Some?
    ensures var final := ParseFrom(s, eof, sed, st).value.state;
            Tracked(final) && final.stack == []
    decreases |s|
  {
    var l := Lex(s, eof, sed, st.terms == []).value;
    if !l.value.End? {
      ApplyTracked(st, l.value);
      ParseNests(s[l.used..], eof, sed, Apply(st, l.value).value);
    }
  }

  // ----- balanced words -----

  /** A group mark as a numbered parenthesis. */
  datatype Paren = L(n: nat) | R(n: nat)

  function MarkWord(terms: seq<Term>): seq<Paren> {
    if terms == [] then []
    else
      var n := |terms| - 1;
      MarkWord(terms[..n]) +
      if terms[n].piece.Plain? && terms[n].piece.op.Bra? then [L(terms[n].piece.op.g)]
      else if terms[n].piece.Plain? && terms[n].piece.op.Ket? then [R(terms[n].piece.op.g)]
      else []
  }

  /** Groups side by side, each with the groups inside it. */
  datatype Forest = Leaf | Tree(inner: Forest, rest: Forest)

  function Count(f: Forest): nat {
    match f
    case Leaf => 0
    case Tree(inner, rest) => 1 + Count(inner) + Count(rest)
  }

  /** The word of a forest whose groups are numbered from n on in the order of their openings. */
  function Flatten(f: Forest, n: nat): seq<Paren> {
    match f
    case Leaf => []
    case Tree(inner, rest) => [L(n)] + Flatten(inner, n + 1) + [R(n)] + Flatten(rest, n + 1 + Count(inner))
  }

  /** Reading a word with a stack: openings are numbered on, closings must match the innermost opening. */
  function Scan(ms: seq<Paren>, stack: seq<nat>, n: nat): Option<(seq<nat>, nat)>
    decreases |ms|
  {
    if ms == [] then Some((stack, n))
    else match ms[0]
      case L(k) => if k == n then Scan(ms[1..], stack + [k], n + 1) else None
      case R(k) =>
        if stack != [] && k == stack[|stack| - 1] then Scan(ms[1..], stack[..|stack| - 1], n) else None
  }

  lemma {:induction false} ScanAppend(a: seq<Paren>, b: seq<Paren>, stack: seq<nat>, n: nat)
    ensures var r := Scan(a, stack, n);
            Scan(a + b, stack, n) == if r.None? then None else Scan(b, r.value.0, r.value.1)
    decreases |a|
  {
    if a == [] {
      assert a + b == b;
    } else {
      assert (a + b)[1..] == a[1..] + b;
      match a[0]
      case L(k) => ScanAppend(a[1..], b, stack + [k], n + 1);
      case R(k) => if stack != [] { ScanAppend(a[1..], b, stack[..|stack| - 1], n); }
    }
  }

  lemma {:induction false} MarksScan(terms: seq<Term>)
    requires Nest(terms).Some?
    ensures Scan(MarkWord(terms), [], 0) == Some((Nest(terms).value.stack, Nest(terms).value.nbra))
    decreases |terms|
  {
    if terms != [] {
      var n := |terms| - 1;
      MarksScan(terms[..n]);
      var a := MarkWord(terms[..n]);
      var b := MarkWord(terms)[|a|..];
      assert MarkWord(terms) == a + b;
      ScanAppend(a, b, [], 0);
    }
  }

  lemma {:induction false} ScanOpen(n: nat, t: seq<Paren>, stack: seq<nat>)
    ensures Scan([L(n)] + t, stack, n) == Scan(t, stack + [n], n + 1)
  {
    assert ([L(n)] + t)[1..] == t;
  }

  lemma {:induction false} ScanClose(g: nat, t: seq<Paren>, stack: seq<nat>, n: nat)
    ensures Scan([R(g)] + t, stack + [g], n) == Scan(t, stack, n)
  {
    assert ([R(g)] + t)[1..] == t && (stack + [g])[..|stack|] == stack;
  }

  lemma {:induction false} Reassociate(a: seq<Paren>, b: seq<Paren>, c: seq<Paren>)
    ensures a + (b + c) == a + b + c && c + [] == c
  {
  }

  lemma {:induction false} FlattenTree(f1: Forest, f2: Forest, n: nat, tail: seq<Paren>)
    ensures [L(n)] + (Flatten(f1, n + 1) + [R(n)] + (Flatten(f2, n + 1 + Count(f1)) + tail)) ==
            Flatten(Tree(f1, f2), n) + tail
  {
    var a, b := Flatten(f1, n + 1), Flatten(f2, n + 1 + Count(f1));
    assert [L(n)] + (a + [R(n)] + (b + tail)) == ([L(n)] + a + [R(n)] + b) + tail;
  }

  /** What follows an opening up to its closing is a forest. */
  lemma {:induction false} SplitAtClose(ms: seq<Paren>, stack: seq<nat>, g: nat, n: nat)
    returns (f: Forest, rest: seq<Paren>)
    requires var r := Scan(ms, stack + [g], n); r.Some? && |r.value.0| <= |stack|
    ensures ms == Flatten(f, n) + ([R(g)] + rest)
    ensures Scan(rest, stack, n + Count(f)) == Scan(ms, stack + [g], n)
    decreases |ms|
  {
    var t := ms[1..];
    match ms[0]
    case R(k) =>
      assert ms == [R(g)] + t == [] + ([R(g)] + t);
      ScanClose(g, t, stack, n);
      f, rest := Leaf, t;
    case L(k) =>
      assert ms == [L(n)] + t;
      ScanOpen(n, t, stack + [g]);
      var f1, rest1 := SplitAtClose(t, stack + [g], n, n + 1);
      Reassociate(Flatten(f1, n + 1), [R(n)], rest1);
      var f2, rest2 := SplitAtClose(rest1, stack, g, n + 1 + Count(f1));
      f, rest := Tree(f1, f2), rest2;
      FlattenTree(f1, f2, n, [R(g)] + rest);
  }

  lemma {:induction false} FirstTree(ms: seq<Paren>, n: nat) returns (f: Forest, rest: seq<Paren>)
    requires var r := Scan(ms, [], n); ms != [] && r.Some? && r.value.0 == []
    ensures ms == [L(n)] + (Flatten(f, n + 1) + [R(n)] + rest) && |rest| < |ms|
    ensures Scan(rest, [], n + 1 + Count(f)) == Scan(ms, [], n)
  {
    var t := ms[1..];
    assert ms == [ms[0]] + t;
    ScanOpen(n, t, []);
    f, rest := SplitAtClose(t, [], n, n + 1);
    Reassociate(Flatten(f, n + 1), [R(n)], rest);
  }

  lemma {:induction false} TwoTrees(f1: Forest, f2: Forest, n: nat)
    ensures [L(n)] + (Flatten(f1, n + 1) + [R(n)] + Flatten(f2, n + 1 + Count(f1))) == Flatten(Tree(f1, f2), n)
  {
    var b := Flatten(f2, n + 1 + Count(f1));
    assert b + [] == b && Flatten(Tree(f1, f2), n) + [] == Flatten(Tree(f1, f2), n);
    FlattenTree(f1, f2, n, []);
  }

  /** A word that is read to the end with nothing left open is the word of a forest. */
  lemma {:induction false} BalancedIsForest(ms: seq<Paren>, n: nat, m: nat) returns (f: Forest)
    requires Scan(ms, [], n) == Some(([], m))
    ensures ms == Flatten(f, n) && m == n + Count(f)
    decreases |ms|
  {
    if ms == [] {
      f := Leaf;
    } else {
      var f1, rest := FirstTree(ms, n);
      var f2 := BalancedIsForest(rest, n + 1 + Count(f1), m);
      f := Tree(f1, f2);
      TwoTrees(f1, f2, n);
    }
  }

  lemma {:induction false} ScanTree(n: nat, a: seq<Paren>, b: seq<Paren>, m: nat, stack: seq<nat>)
    requires Scan(a, stack + [n], n + 1) == Some((stack + [n], m))
    ensures Scan([L(n)] + a + [R(n)] + b, stack, n) == Scan(b, stack, m)
  {
    var y := [R(n)] + b;
    assert [L(n)] + a + [R(n)] + b == [L(n)] + (a + y);
    ScanOpen(n, a + y, stack);
    ScanAppend(a, y, stack + [n], n + 1);
    ScanClose(n, b, stack, m);
  }

  /** And the word of every forest is read that way. */
  lemma {:induction false} ForestIsBalanced(f: Forest, n: nat, stack: seq<nat>)
    ensures Scan(Flatten(f, n), stack, n) == Some((stack, n + Count(f)))
    decreases f
  {
    match f
    case Leaf =>
    case Tree(inner, rest) =>
      ForestIsBalanced(inner, n + 1, stack + [n]);
      ForestIsBalanced(rest, n + 1 + Count(inner), stack);
      ScanTree(n, Flatten(inner, n + 1), Flatten(rest, n + 1 + Count(inner)), n + 1 + Count(inner), stack);
  }

  /**
   * The group marks of an accepted pattern form a balanced word with the
   * openings numbered in order, at most nine of them.
   */
  lemma {:induction false} MarksAreBalanced(s: seq<Byte>, eof: Byte, sed: bool)
    requires s != [] && ParsePattern(s, eof, sed).Some?
    ensures var st := ParsePattern(s, eof, sed).value.state;
            st.nbra <= NBRA && exists f :: MarkWord(st.terms) == Flatten(f, 0) && Count(f) == st.nbra
  {
    var s1 := if s[0] == CARET then s[1..] else s;
    var st := ParsePattern(s, eof, sed).value.state;
    assert Tracked(START);
    ParseNests(s1, eof, sed, START);
    MarksScan(st.terms);
    var f := BalancedIsForest(MarkWord(st.terms), 0, st.nbra);
    NestCounts(st.terms);
  }

  /** Open groups are distinct and below nbra, and every opened group is open or counted as closed. */
  lemma {:induction false} NestCounts(terms: seq<Term>)
    requires Nest(terms).Some?
    ensures var g := Nest(terms).value;
            g.nbra == g.closed + |g.stack| <= NBRA &&
            (forall i :: 0 <= i < |g.stack| ==> g.stack[i] < g.nbra) &&
            (forall i, j :: 0 <= i < j < |g.stack| ==> g.stack[i] < g.stack[j])
    decreases |terms|
  {
    if terms != [] { NestCounts(terms[..|terms| - 1]); }
  }

  // ----- which group a back-reference names -----

  /** The term is a back-reference that stands inside the group it names. */
  predicate NamesOpenGroup(terms: seq<Term>, i: nat)
    requires i < |terms|
  {
    terms[i].piece.Plain? && terms[i].piece.op.Backref? &&
    Nest(terms[..i]).Some? && terms[i].piece.op.g in Nest(terms[..i]).value.stack
  }

  function OpenedBy(items: seq<Item>, begun: set<Group>): set<Group> {
    if items == [] then begun else OpenedBy(items[1..], Begun(items[0].atom, begun))
  }

  function ClosedBy(items: seq<Item>, ended: set<Group>): set<Group> {
    if items == [] then ended else ClosedBy(items[1..], Ended(items[0].atom, ended))
  }

  lemma {:induction false} ScopedSnoc(items: seq<Item>, x: Item, begun: set<Group>, ended: set<Group>)
    ensures Scoped(items + [x], begun, ended) <==>
            Scoped(items, begun, ended) && InScope(x.atom, OpenedBy(items, begun), ClosedBy(items, ended))
    ensures OpenedBy(items + [x], begun) == Begun(x.atom, OpenedBy(items, begun))
    ensures ClosedBy(items + [x], ended) == Ended(x.atom, ClosedBy(items, ended))
    decreases |items|
  {
    var all := items + [x];
    if items == [] {
      assert all[1..] == [];
    } else {
      assert all[1..] == items[1..] + [x];
      ScopedSnoc(items[1..], x, Begun(items[0].atom, begun), Ended(items[0].atom, ended));
    }
  }

  lemma {:induction false} MeaningSnoc(terms: seq<Term>)
    requires terms != []
    ensures var n := |terms| - 1;
            PatternMeaning(terms) == PatternMeaning(terms[..n]) + [TermMeaning(terms[n])]
  {
  }

  /** The groups opened so far are those below nbra; the closed ones are those not on the stack. */
  lemma {:induction false} NestGroups(terms: seq<Term>, k: Group)
    requires Nest(terms).Some?
    ensures var g := Nest(terms).value;
            var items := PatternMeaning(terms);
            (k in OpenedBy(items, {}) <==> k < g.nbra) &&
            (k in ClosedBy(items, {}) <==> k < g.nbra && k !in g.stack)
    decreases |terms|
  {
    if terms == [] {
      assert PatternMeaning(terms) == [];
    } else {
      var n := |terms| - 1;
      var init := terms[..n];
      NestGroups(init, k);
      NestCounts(init);
      NestCounts(terms);
      MeaningSnoc(terms);
      ScopedSnoc(PatternMeaning(init), TermMeaning(terms[n]), {}, {});
    }
  }

  /**
   * `compile` only checks that as many groups are closed as the number asks
   * for.  A back-reference it accepts always names an opened group, and names
   * a closed one exactly when it does not stand inside that group.
   */
  lemma {:induction false} ScopedExactlyWhen(terms: seq<Term>)
    requires Nest(terms).Some?
    ensures Scoped(PatternMeaning(terms), {}, {}) <==> forall i :: 0 <= i < |terms| ==> !NamesOpenGroup(terms, i)
    decreases |terms|
  {
    if terms == [] {
      assert PatternMeaning(terms) == [];
    } else {
      var n := |terms| - 1;
      var init, piece := terms[..n], terms[n].piece;
      ScopedExactlyWhen(init);
      NestCounts(init);
      MeaningSnoc(terms);
      ScopedSnoc(PatternMeaning(init), TermMeaning(terms[n]), {}, {});
      forall i | 0 <= i < n ensures NamesOpenGroup(init, i) == NamesOpenGroup(terms, i) {
        assert init[..i] == terms[..i];
      }
      if piece.Plain? && (piece.op.Bra? || piece.op.Ket? || piece.op.Backref?) {
        NestGroups(init, piece.op.g);
      }
      var items := PatternMeaning(init);
      assert InScope(TermMeaning(terms[n]).atom, OpenedBy(items, {}), ClosedBy(items, {})) <==>
             !NamesOpenGroup(terms, n);
      assert (forall i :: 0 <= i < |terms| ==> !NamesOpenGroup(terms, i)) <==>
             (forall i :: 0 <= i < n ==> !NamesOpenGroup(init, i)) && !NamesOpenGroup(terms, n);
    }
  }

  /** Every back-reference names a group that was opened before it. */
  lemma {:induction false} BackrefsNameOpenedGroups(terms: seq<Term>, i: nat)
    requires Nest(terms).Some? && i < |terms| && terms[i].piece.Plain? && terms[i].piece.op.Backref?
    ensures terms[i].piece.op.g in OpenedBy(PatternMeaning(terms[..i]), {})
  {
    NestPrefix(terms, i);
    NestPrefix(terms, i + 1);
    assert terms[..i + 1][..i] == terms[..i];
    NestCounts(terms[..i]);
    NestGroups(terms[..i], terms[i].piece.op.g);
  }

  /** No group is opened inside another. */
  predicate Flat(terms: seq<Term>) {
    forall i :: 0 <= i <= |terms| ==> var g := Nest(terms[..i]); g.Some? ==> |g.value.stack| <= 1
  }

  /** In a pattern without groups inside groups every back-reference names a closed group. */
  lemma {:induction false} FlatGroupsScoped(terms: seq<Term>)
    requires Nest(terms).Some?
    requires Flat(terms)
    ensures Scoped(PatternMeaning(terms), {}, {})
  {
    ScopedExactlyWhen(terms);
    forall i | 0 <= i < |terms| ensures !NamesOpenGroup(terms, i) {
      NestPrefix(terms, i);
      NestPrefix(terms, i + 1);
      FlatTop(terms, i);
      NestCounts(terms[..i]);
      assert terms[..i + 1][..i] == terms[..i];
    }
  }

  lemma {:induction false} NestPrefix(terms: seq<Term>, i: nat)
    requires i <= |terms| && Nest(terms).Some?
    ensures Nest(terms[..i]).Some?
    decreases |terms|
  {
    if i == |terms| {
      assert terms[..i] == terms;
    } else {
      var n := |terms| - 1;
      assert terms[..n][..i] == terms[..i];
      NestPrefix(terms[..n], i);
    }
  }

  /** Without nesting an open group is the latest one. */
  lemma {:induction false} FlatTop(terms: seq<Term>, i: nat)
    requires i <= |terms| && Nest(terms).Some? && Nest(terms[..i]).Some?
    requires Flat(terms)
    ensures var g := Nest(terms[..i]).value; g.stack == [] || g.stack == [g.nbra - 1]
    decreases i
  {
    if i > 0 {
      NestPrefix(terms, i - 1);
      assert terms[..i][..i - 1] == terms[..i - 1];
      assert |Nest(terms[..i - 1]).value.stack| <= 1 && |Nest(terms[..i]).value.stack| <= 1;
      FlatTop(terms, i - 1);
    }
  }
}
