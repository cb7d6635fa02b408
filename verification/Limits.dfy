/**
 * Patterns that `compile` accepts although a search with them depends on
 * what happened before, or never ends; and what `locs` can hide.  They show
 * that the conditions of the theorems are needed.
 */
module Limits {
  import opened Bytes
  import opened Semantics
  import opened SearchTheorems
  import opened Program
  import opened Syntax
  import opened Parse
  import opened Groups
  import opened Accepted
  import opened Print
  import opened Buffer
  import opened Engine

  const LETTER_A: Byte := 97
  const SLASH: Byte := 47

  function Bare(op: Op): Term { Term(Plain(op), One) }

  // ----- a back-reference inside its own group -----

  /** `\(\(a\)\1\)` */
  const SELF: Pattern :=
    Pattern(false, [Bare(Bra(0)), Bare(Bra(1)), Bare(Chr(LETTER_A)), Bare(Ket(1)),
                    Bare(Backref(0)), Bare(Ket(0))])

  lemma {:induction false} NestsOn(ts: seq<Term>, t: Term, g: Nesting, h: Nesting)
    requires Nest(ts) == Some(g) && NestOne(g, t.piece) == Some(h)
    ensures Nest(ts + [t]) == Some(h)
  {
    NestPush(ts, t);
  }

  lemma {:induction false} SixTerms(a: Term, b: Term, c: Term, d: Term, e: Term, f: Term)
    requires a.piece == Plain(Bra(0)) && b.piece == Plain(Bra(1)) && c.piece.Plain? && c.piece.op.Chr?
    requires d.piece == Plain(Ket(1)) && e.piece == Plain(Backref(0)) && f.piece == Plain(Ket(0))
    ensures var ts := [] + [a] + [b] + [c] + [d] + [e] + [f];
            Nest(ts) == Some(Nesting([], 2, 2)) && Nest([] + [a] + [b] + [c] + [d]) == Some(Nesting([0], 2, 1))
  {
    var outer: seq<Group>, both: seq<Group> := [0], [0, 1];
    assert [] + outer == outer && outer + [1] == both;
    NestsOn([], a, Nesting([], 0, 0), Nesting([0], 1, 0));
    NestsOn([] + [a], b, Nesting([0], 1, 0), Nesting([0, 1], 2, 0));
    NestsOn([] + [a] + [b], c, Nesting([0, 1], 2, 0), Nesting([0, 1], 2, 0));
    NestsOn([] + [a] + [b] + [c], d, Nesting([0, 1], 2, 0), Nesting([0], 2, 1));
    NestsOn([] + [a] + [b] + [c] + [d], e, Nesting([0], 2, 1), Nesting([0], 2, 1));
    NestsOn([] + [a] + [b] + [c] + [d] + [e], f, Nesting([0], 2, 1), Nesting([], 2, 2));
  }

  lemma {:induction false} SelfNests()
    ensures Nest(SELF.terms) == Some(Nesting([], 2, 2)) && NamesOpenGroup(SELF.terms, 4)
  {
    var ts := SELF.terms;
    SixTerms(ts[0], ts[1], ts[2], ts[3], ts[4], ts[5]);
    assert ts == [] + [ts[0]] + [ts[1]] + [ts[2]] + [ts[3]] + [ts[4]] + [ts[5]];
    assert ts[..4] == [] + [ts[0]] + [ts[1]] + [ts[2]] + [ts[3]];
  }

  /** `compile` accepts it, although group 0 is still open at the back-reference. */
  lemma {:induction false} SelfAccepted(sed: bool)
    ensures var r := ParsePattern(PrintPattern(SELF, SLASH), SLASH, sed);
            r.Some? && r.value.state.terms == SELF.terms
    ensures !Scoped(PatternMeaning(SELF.terms), {}, {})
  {
    SelfNests();
    ScopedExactlyWhen(SELF.terms);
    ParseUndoesPrint(SELF, SLASH, sed, []);
    assert PrintPattern(SELF, SLASH) + [] == PrintPattern(SELF, SLASH);
  }

  /** The subject "aa". */
  function AA(): Subject { [LETTER_A, LETTER_A, 0] }

  /** The meaning of the pattern from item i on. */
  function SelfFrom(i: nat): seq<Item>
    requires i <= 6
  {
    [Item(Open(0), Once), Item(Open(1), Once), Item(OneOf({LETTER_A}), Once), Item(Close(1), Once),
     Item(Back(0), Once), Item(Close(0), Once)][i..]
  }

  /** The captures when the search gets to the back-reference. */
  function SelfCaps(caps: Captures): Captures {
    Mark(Close(1), 1, Mark(Open(1), 0, Mark(Open(0), 0, caps)))
  }

  lemma {:induction false} SelfPrefix(caps: Captures, locs: int)
    ensures var t := AA();
            Search(SelfFrom(0), t, 0, caps, locs).Found? <==> Search(SelfFrom(4), t, 1, SelfCaps(caps), locs).Found?
  {
    var t := AA();
    var c1 := Mark(Open(0), 0, caps);
    var c2 := Mark(Open(1), 0, c1);
    OnceSearch(SelfFrom(0), t, 0, caps, locs);
    OnceSearch(SelfFrom(1), t, 0, c1, locs);
    OnceSearch(SelfFrom(2), t, 0, c2, locs);
    OnceSearch(SelfFrom(3), t, 1, c2, locs);
  }

  /** On the subject "aa" the search gets to the back-reference with the old end of group 0 still in place. */
  lemma {:induction false} SelfSearch(caps: Captures, locs: int)
    ensures var u := Unit(Back(0), AA(), 1, caps.(starts := caps.starts[0 := 0]));
            Search(SelfFrom(0), AA(), 0, caps, locs).Found? <==> u.Some?
  {
    var t := AA();
    SelfPrefix(caps, locs);
    var c := SelfCaps(caps);
    OnceSearch(SelfFrom(4), t, 1, c, locs);
    assert c.starts[0] == 0 && c.ends[0] == caps.ends[0];
    var u := Unit(Back(0), t, 1, c);
    assert u == Unit(Back(0), t, 1, caps.(starts := caps.starts[0 := 0]));
    if u.Some? { OnceSearch(SelfFrom(5), t, u.value, c, locs); }
  }

  /** A search from p succeeds and leaves these captures behind. */
  ghost predicate Leaves(items: seq<Item>, t: Subject, p: nat, caps: Captures, locs: int, after: Captures)
    requires p < |t|
  {
    var o := Search(items, t, p, caps, locs);
    o.Found? &&
    var f := Follow(items, o.path, t, p, caps);
    f.Some? && f.value.caps == after
  }

  lemma {:induction false} OnceLeaves(items: seq<Item>, t: Subject, p: nat, caps: Captures, locs: int, q: nat,
                                      after: Captures)
    requires p < |t| && q < |t| && items != [] && items[0].rep.Once? && Unit(items[0].atom, t, p, caps) == Some(q)
    requires Leaves(items[1..], t, q, Mark(items[0].atom, p, caps), locs, after)
    ensures Leaves(items, t, p, caps, locs, after)
  {
    OnceSearch(items, t, p, caps, locs);
    var o := Search(items[1..], t, q, Mark(items[0].atom, p, caps), locs);
    assert ([1] + o.path)[1..] == o.path;
    assert Copies(items[0].atom, 1, t, p, caps) == Some(q);
  }

  /** The meaning of `\(a\)` and of `\(aa\)`. */
  function GroupOfOne(): seq<Item> { [Item(Open(0), Once), Item(OneOf({LETTER_A}), Once), Item(Close(0), Once)] }
  function GroupOfTwo(): seq<Item> {
    [Item(Open(0), Once), Item(OneOf({LETTER_A}), Once), Item(OneOf({LETTER_A}), Once), Item(Close(0), Once)]
  }

  lemma {:induction false} OneLeaves(caps: Captures, locs: int) returns (after: Captures)
    ensures Leaves(GroupOfOne(), AA(), 0, caps, locs, after)
    ensures after == Captures(caps.starts[0 := 0], caps.ends[0 := 1])
  {
    var t, items := AA(), GroupOfOne();
    var c1 := Mark(Open(0), 0, caps);
    after := Mark(Close(0), 1, c1);
    assert items[1..][1..] == [Item(Close(0), Once)] && items[1..][1..][1..] == [];
    OnceLeaves(items[1..][1..], t, 1, c1, locs, 1, after);
    OnceLeaves(items[1..], t, 0, c1, locs, 1, after);
    OnceLeaves(items, t, 0, caps, locs, 0, after);
  }

  lemma {:induction false} TwoLeaves(caps: Captures, locs: int) returns (after: Captures)
    ensures Leaves(GroupOfTwo(), AA(), 0, caps, locs, after)
    ensures after == Captures(caps.starts[0 := 0], caps.ends[0 := 2])
  {
    var t, items := AA(), GroupOfTwo();
    var c1 := Mark(Open(0), 0, caps);
    after := Mark(Close(0), 2, c1);
    var rest := items[1..];
    assert rest[1..][1..] == [Item(Close(0), Once)] && rest[1..][1..][1..] == [];
    OnceLeaves(rest[1..][1..], t, 2, c1, locs, 2, after);
    OnceLeaves(rest[1..], t, 1, c1, locs, 2, after);
    OnceLeaves(rest, t, 0, c1, locs, 1, after);
    OnceLeaves(items, t, 0, caps, locs, 0, after);
  }

  /**
   * So the outcome depends on the search before: on "aa" the pattern is found
   * after a search for `\(a\)`, and not found after a search for `\(aa\)`.
   */
  lemma {:induction false} SelfDependsOnThePast(caps: Captures, locs: int) returns (c: Captures, d: Captures)
    ensures Leaves(GroupOfOne(), AA(), 0, caps, locs, c) && Leaves(GroupOfTwo(), AA(), 0, caps, locs, d)
    ensures Search(PatternMeaning(SELF.terms), AA(), 0, c, locs).Found?
    ensures Search(PatternMeaning(SELF.terms), AA(), 0, d, locs).NotFound?
  {
    SelfMeaning();
    c := OneLeaves(caps, locs);
    SelfFound(c, locs);
    d := TwoLeaves(caps, locs);
    SelfNotFound(d, locs);
  }

  lemma {:induction false} SelfMeaning()
    ensures PatternMeaning(SELF.terms) == SelfFrom(0)
  {
  }

  lemma {:induction false} SelfFound(c: Captures, locs: int)
    requires c.ends[0] == 1
    ensures Search(SelfFrom(0), AA(), 0, c, locs).Found?
  {
    var t := AA();
    SelfSearch(c, locs);
    assert t[1..2] == t[0..1];
  }

  lemma {:induction false} SelfNotFound(d: Captures, locs: int)
    requires d.ends[0] == 2
    ensures Search(SelfFrom(0), AA(), 0, d, locs).NotFound?
  {
    SelfSearch(d, locs);
    SelfNeverHangs(d, locs);
  }

  lemma {:induction false} SelfNeverHangs(caps: Captures, locs: int)
    ensures !Search(SelfFrom(0), AA(), 0, caps, locs).Hangs?
  {
    var t := AA();
    SelfOnce();
    OnceNeverHangs(SelfFrom(0), t, 0, caps, locs);
  }

  lemma {:induction false} SelfOnce()
    ensures Shaped(SelfFrom(0)) && forall i :: 0 <= i < |SelfFrom(0)| ==> SelfFrom(0)[i].rep.Once?
  {
  }

  lemma {:induction false} OnceNeverHangs(items: seq<Item>, t: Subject, p: nat, caps: Captures, locs: int)
    requires p < |t| && Shaped(items) && forall i :: 0 <= i < |items| ==> items[i].rep.Once?
    ensures !Search(items, t, p, caps, locs).Hangs?
  {
    SearchSound(items, t, p, caps, locs);
    var o := Search(items, t, p, caps, locs);
    if o.Hangs? { OnlyFullEvents(items, o.path, t, p, caps, locs); }
  }

  /** Without starred back-references every event is a match. */
  lemma {:induction false} OnlyFullEvents(items: seq<Item>, e: seq<nat>, t: Subject, p: nat, caps: Captures, locs: int)
    requires p < |t| && Event(items, e, t, p, caps, locs)
    requires forall i :: 0 <= i < |items| ==> items[i].rep.Once?
    ensures |e| == |items|
    decreases |items|
  {
    if items != [] {
      OnlyFullEvents(items[1..], e[1..], t, Copies(items[0].atom, e[0], t, p, caps).value,
                     Mark(items[0].atom, p, caps), locs);
    }
  }

  // ----- a starred back-reference to an empty group -----

  /** `\(\)\1*` */
  const EMPTY_STAR: Pattern :=
    Pattern(false, [Bare(Bra(0)), Bare(Ket(0)), Term(Plain(Backref(0)), Starred)])

  lemma {:induction false} ThreeTerms(a: Term, b: Term, c: Term)
    requires a.piece == Plain(Bra(0)) && b.piece == Plain(Ket(0)) && c.piece == Plain(Backref(0))
    ensures Nest([] + [a] + [b] + [c]) == Some(Nesting([], 1, 1))
  {
    var outer: seq<Group> := [0];
    assert [] + outer == outer;
    NestsOn([], a, Nesting([], 0, 0), Nesting([0], 1, 0));
    NestsOn([] + [a], b, Nesting([0], 1, 0), Nesting([], 1, 1));
    NestsOn([] + [a] + [b], c, Nesting([], 1, 1), Nesting([], 1, 1));
  }

  lemma {:induction false} EmptyStarNests()
    ensures Nest(EMPTY_STAR.terms) == Some(Nesting([], 1, 1))
  {
    var ts := EMPTY_STAR.terms;
    ThreeTerms(ts[0], ts[1], ts[2]);
    assert ts == [] + [ts[0]] + [ts[1]] + [ts[2]];
  }

  /** `compile` accepts it, and a search with it never ends, whatever the subject. */
  lemma {:induction false} EmptyStarNeverEnds(sed: bool, t: Subject, p: nat, caps: Captures, locs: int)
    requires p < |t|
    ensures var r := ParsePattern(PrintPattern(EMPTY_STAR, SLASH), SLASH, sed);
            r.Some? && r.value.state.terms == EMPTY_STAR.terms
    ensures Search(PatternMeaning(EMPTY_STAR.terms), t, p, caps, locs).Hangs?
  {
    EmptyStarNests();
    ParseUndoesPrint(EMPTY_STAR, SLASH, sed, []);
    assert PrintPattern(EMPTY_STAR, SLASH) + [] == PrintPattern(EMPTY_STAR, SLASH);
    EmptyStarHangs(t, p, caps, locs);
  }

  lemma {:induction false} EmptyStarHangs(t: Subject, p: nat, caps: Captures, locs: int)
    requires p < |t|
    ensures Search(PatternMeaning(EMPTY_STAR.terms), t, p, caps, locs).Hangs?
  {
    var items := [Item(Open(0), Once), Item(Close(0), Once), Item(Back(0), Star)];
    assert PatternMeaning(EMPTY_STAR.terms) == items;
    var c1 := Mark(Open(0), p, caps);
    OnceSearch(items, t, p, caps, locs);
    OnceSearch(items[1..], t, p, c1, locs);
    assert items[1..][1..] == [Item(Back(0), Star)];
  }

  // ----- `locs` inside the subject -----

  /** With `locs` at the end of a run, a search for `a*` in "a" fails although `a*` matches. */
  lemma {:induction false} BarrierHidesMatch(caps: Captures)
    ensures var items := [Item(OneOf({LETTER_A}), Star)];
            MatchesFrom(items, [LETTER_A, 0], 0, caps) && Search(items, [LETTER_A, 0], 0, caps, 1).NotFound?
  {
    var t: Subject := [LETTER_A, 0];
    var items := [Item(OneOf({LETTER_A}), Star)];
    var a := items[0].atom;
    assert Follow(items, [0], t, 0, caps).Some? by { assert items[1..] == [] && [0][1..] == []; }
    assert Unit(a, t, 1, caps).None? && Unit(a, t, 0, caps) == Some(1);
    assert CountUp(a, t, 1, caps, 1) == 0 && CountUp(a, t, 0, caps, 2) == 1;
    assert Copies(a, 0, t, 1, caps) == Some(1) && Copies(a, 1, t, 0, caps) == Some(1);
  }

  // ----- an interval after an interval -----

  lemma {:induction false} IntervalApplied(st: State, t: Term, x: (Byte, Byte), y: (Byte, Byte), next: State)
    requires t.quant == Intervals([x]) && st.terms == [t] && next == st.(terms := [t.(quant := Intervals([x, y]))])
    ensures Apply(st, IntervalToken(y.0, y.1)) == Some(next)
  {
    assert [x] + [y] == [x, y];
    assert st.terms[0 := t.(quant := Intervals([x, y]))] == next.terms;
  }

  lemma {:induction false} SecondInterval(st: State, t: Term, x: (Byte, Byte), y: (Byte, Byte), eof: Byte, sed: bool,
                                          tail: seq<Byte>) returns (next: State)
    requires GoodDelimiter(eof) && GoodPair(y) && t.quant == Intervals([x]) && st.terms == [t]
    ensures next == st.(terms := [t.(quant := Intervals([x, y]))])
    ensures Leads(PrintQuant(Intervals([y])) + tail, st, tail, next, eof, sed)
  {
    next := st.(terms := [t.(quant := Intervals([x, y]))]);
    IntervalApplied(st, t, x, y, next);
    QuantLexed(Intervals([y]), eof, sed, tail);
    LeadsOverToken(PrintQuant(Intervals([y])), st, IntervalToken(y.0, y.1), tail, next, eof, sed);
  }

  lemma {:induction false} NoCaret(t: Term, eof: Byte, tail: seq<Byte>)
    requires GoodDelimiter(eof) && PrintableTerm(t)
    ensures var text := PrintPiece(t.piece, eof) + tail; text != [] && text[0] != CARET
  {
    PieceStart(t, eof);
  }

  /** A character with two intervals. */
  function TwiceRepeated(c: Byte, x: (Byte, Byte), y: (Byte, Byte), eof: Byte): seq<Byte> {
    PrintPiece(Plain(Chr(c)), eof) + (PrintQuant(Intervals([x])) + (PrintQuant(Intervals([y])) + [eof]))
  }

  lemma {:induction false} TwoIntervalsRead(c: Byte, x: (Byte, Byte), y: (Byte, Byte), eof: Byte, sed: bool)
    requires GoodDelimiter(eof) && c != 0 && GoodPair(x) && GoodPair(y)
    ensures var r := ParseFrom(TwiceRepeated(c, x, y, eof), eof, sed, START);
            r.Some? && r.value.state.terms == [Term(Plain(Chr(c)), Intervals([x, y]))]
  {
    var t := Term(Plain(Chr(c)), Intervals([x]));
    var tail := [eof] + [];
    assert tail == [eof];
    var more := PrintQuant(Intervals([y])) + tail;
    var s1 := PieceParsed(START, t, eof, sed, PrintQuant(t.quant) + more);
    var s2 := QuantParsed(s1, t, eof, sed, more);
    assert s2.terms == [t];
    var s3 := SecondInterval(s2, t, x, y, eof, sed, tail);
    IntervalsEnd(s1, s2, s3, TwiceRepeated(c, x, y, eof), PrintQuant(t.quant) + more, more, eof, sed);
  }

  /** `compile` accepts an interval right after an interval, for which `advance` has no case. */
  lemma {:induction false} TwoIntervalsAccepted(c: Byte, x: (Byte, Byte), y: (Byte, Byte), eof: Byte, sed: bool)
    requires GoodDelimiter(eof) && c != 0 && GoodPair(x) && GoodPair(y)
    ensures var r := ParsePattern(TwiceRepeated(c, x, y, eof), eof, sed);
            r.Some? && r.value.state.terms == [Term(Plain(Chr(c)), Intervals([x, y]))] &&
            !AllSupported(r.value.state.terms)
  {
    NoCaret(Term(Plain(Chr(c)), Intervals([x])), eof, PrintQuant(Intervals([x])) + (PrintQuant(Intervals([y])) + [eof]));
    TwoIntervalsRead(c, x, y, eof, sed);
    var terms := [Term(Plain(Chr(c)), Intervals([x, y]))];
    assert !Supported(terms[0]);
  }

  lemma {:induction false} IntervalsEnd(s1: State, s2: State, s3: State, text: seq<Byte>, t1: seq<Byte>, t2: seq<Byte>,
                                        eof: Byte, sed: bool)
    requires Leads(text, START, t1, s1, eof, sed) && Leads(t1, s1, t2, s2, eof, sed)
    requires Leads(t2, s2, [eof] + [], s3, eof, sed) && s3.stack == []
    ensures var r := ParseFrom(text, eof, sed, START); r.Some? && r.value.state.terms == s3.terms
  {
    EndParsed(s3, eof, sed, []);
    ReadsOn(t2, s2, [eof] + [], s3, s3.terms, 0, eof, sed);
    ReadsOn(t1, s1, t2, s2, s3.terms, 0, eof, sed);
    ReadsOn(text, START, t1, s1, s3.terms, 0, eof, sed);
  }

  // ----- the cell at `endbuf` -----

  lemma {:induction false} OrdinaryLexed(c: Byte, eof: Byte, sed: bool, s: seq<Byte>)
    requires !Special(c) && c != eof && c != NEWLINE && s != [] && s[0] == c
    ensures Lex(s, eof, sed, true) == Some(Lexed(Atomic(Plain(Chr(c))), 1))
  {
  }

  lemma {:induction false} OneCharacter(c: Byte)
    ensures var st := Push(START, Plain(Chr(c)));
            CodeSize(START.terms) == 0 && TwoMore(START.terms, st.terms) && |st.terms| == 1 &&
            LastByte(st.terms[0]) == c
  {
    PushIsTwo(START.terms, Chr(c));
  }

  /**
   * With room for one byte only, `compile` writes the second byte of a
   * pattern that is an ordinary character at endbuf, one cell behind its
   * buffer, before it refuses the pattern.
   */
  lemma {:induction false} OneByteTooMany(c: Byte, eof: Byte, sed: bool, rest: seq<Byte>)
    requires !Special(c) && c != eof && c != NEWLINE
    ensures Regexp.SpilledAt([c] + rest, eof, sed, 1) == Some(c)
  {
    var s := [c] + rest;
    OrdinaryLexed(c, eof, sed, s);
    OneCharacter(c);
    assert SecondByte(s, eof, sed, START) == Some(c);
  }
}
