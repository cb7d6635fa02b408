/**
 * What holds of every pattern `compile` accepts: which terms it can consist
 * of, and how long its code can be.
 */
module Accepted {
  import opened Bytes
  import opened Program
  import opened Syntax
  import opened Parse
  import opened Buffer

  // ----- terms -----

  predicate GoodPair(pair: (Byte, Byte)) { pair.0 < UNBOUNDED && pair.0 <= pair.1 }

  /** What every term that is read satisfies, wherever its intervals stand. */
  predicate WellRead(t: Term) {
    (match t.piece
     case Class(cls) => cls.body != [] && cls.body[0].Single?
     case Plain(op) => !op.Ccl? && !op.Nccl? && !op.Cxcl?) &&
    (match t.quant
     case One => true
     case Starred => t.piece.Class? || ByteTest(t.piece.op) || t.piece.op.Backref?
     case Intervals(pairs) =>
       pairs != [] && (forall i :: 0 <= i < |pairs| ==> GoodPair(pairs[i])) && t.piece != Plain(Dol))
  }

  /** At most one interval, and only after something that tests a byte. */
  predicate WellPlaced(t: Term) {
    t.quant.Intervals? ==> |t.quant.pairs| <= 1 && (t.piece.Class? || ByteTest(t.piece.op))
  }

  /** One of its characters is NUL. */
  predicate HoldsNul(p: Piece) {
    match p
    case Class(cls) => exists i :: 0 <= i < |cls.body| && cls.body[i].c == 0
    case Plain(op) => op == Chr(0)
  }

  predicate NoNul(terms: seq<Term>) { forall i :: 0 <= i < |terms| ==> !HoldsNul(terms[i].piece) }

  /** What `advance` has cases for, among the terms read, is decided by the place of the intervals and by NUL. */
  lemma {:induction false} SupportedExactlyWhen(t: Term)
    requires WellRead(t)
    ensures Supported(t) <==> WellPlaced(t) && !HoldsNul(t.piece)
  {
    if t.quant.Intervals? { assert GoodPair(t.quant.pairs[0]); }
  }

  predicate AllWellRead(terms: seq<Term>) { forall i :: 0 <= i < |terms| ==> WellRead(terms[i]) }

  /** `$` is an anchor only where the pattern ends. */
  predicate AnchorAtEnd(terms: seq<Term>, s: seq<Byte>, eof: Byte) {
    terms != [] && terms[|terms| - 1].piece == Plain(Dol) ==> s != [] && (s[0] == eof || s[0] == NEWLINE)
  }

  /** No term but the last is the anchor `$`. */
  predicate AnchorLast(terms: seq<Term>) {
    forall i :: 0 <= i < |terms| - 1 ==> terms[i].piece != Plain(Dol)
  }

  lemma {:induction false} ClassStarts(s: seq<Byte>)
    requires LexClass(s).Some?
    ensures var body := LexClass(s).value.value.body; body != [] && body[0].Single?
  {
    var n := if s != [] && s[0] == CARET then 1 else 0;
    assert LexBody(s[n..], 0) == LexMore(s[n..], Single(s[n]), 1);
  }

  predicate GoodToken(tok: Token) {
    (tok.Atomic? ==> WellRead(Term(tok.piece, One)) && IsAtom(tok.piece)) &&
    (tok.IntervalToken? ==> GoodPair((tok.low, tok.high)))
  }

  lemma {:induction false} LexGood(s: seq<Byte>, eof: Byte, sed: bool, first: bool)
    requires Lex(s, eof, sed, first).Some?
    ensures GoodToken(Lex(s, eof, sed, first).value.value)
  {
    if s[0] == LBRACKET && s[0] != eof { ClassStarts(s[1..]); }
  }

  lemma {:induction false} ApplyGood(st: State, tok: Token)
    requires AllWellRead(st.terms) && AnchorLast(st.terms) && GoodToken(tok) && !tok.End? && Apply(st, tok).Some?
    requires st.terms != [] ==> st.terms[|st.terms| - 1].piece != Plain(Dol)
    ensures AllWellRead(Apply(st, tok).value.terms) && AnchorLast(Apply(st, tok).value.terms)
  {
    var next := Apply(st, tok).value;
    var n := |next.terms| - 1;
    if |next.terms| == |st.terms| {
      assert WellRead(st.terms[n]);
      assert WellRead(next.terms[n]);
    }
  }

  /** After a `$` that is an anchor the pattern ends. */
  lemma {:induction false} AnchorStops(s: seq<Byte>, eof: Byte, sed: bool, st: State)
    requires AnchorAtEnd(st.terms, s, eof) && st.terms != [] && st.terms[|st.terms| - 1].piece == Plain(Dol)
    ensures var l := Lex(s, eof, sed, false); l.Some? ==> l.value.value.End?
  {
  }

  lemma {:induction false} AnchorKept(s: seq<Byte>, eof: Byte, sed: bool, st: State)
    requires var l := Lex(s, eof, sed, st.terms == []);
             l.Some? && !l.value.value.End? && Apply(st, l.value.value).Some?
    requires st.terms != [] ==> st.terms[|st.terms| - 1].piece != Plain(Dol)
    ensures var l := Lex(s, eof, sed, st.terms == []).value;
            AnchorAtEnd(Apply(st, l.value).value.terms, s[l.used..], eof)
  {
  }

  lemma {:induction false} ParseGood(s: seq<Byte>, eof: Byte, sed: bool, st: State)
    requires AllWellRead(st.terms) && AnchorLast(st.terms) && AnchorAtEnd(st.terms, s, eof)
    requires ParseFrom(s, eof, sed, st).Some?
    ensures var terms := ParseFrom(s, eof, sed, st).value.state.terms;
            AllWellRead(terms) && AnchorLast(terms)
    decreases |s|
  {
    var l := Lex(s, eof, sed, st.terms == []).value;
    if !l.value.End? {
      if st.terms != [] && st.terms[|st.terms| - 1].piece == Plain(Dol) { AnchorStops(s, eof, sed, st); }
      LexGood(s, eof, sed, st.terms == []);
      ApplyGood(st, l.value);
      AnchorKept(s, eof, sed, st);
      ParseGood(s[l.used..], eof, sed, Apply(st, l.value).value);
    }
  }

  /**
   * Every accepted pattern consists of terms that `advance` can run unless an
   * interval follows a mark, a back-reference or an interval, or some
   * character is NUL.
   */
  lemma {:induction false} AcceptedTerms(s: seq<Byte>, eof: Byte, sed: bool)
    requires s != [] && ParsePattern(s, eof, sed).Some?
    ensures var terms := ParsePattern(s, eof, sed).value.state.terms;
            AllWellRead(terms) && AnchorLast(terms) &&
            (AllSupported(terms) <==>
             NoNul(terms) && forall i :: 0 <= i < |terms| ==> WellPlaced(terms[i]))
  {
    var s1 := if s[0] == CARET then s[1..] else s;
    ParseGood(s1, eof, sed, START);
    var terms := ParsePattern(s, eof, sed).value.state.terms;
    forall i | 0 <= i < |terms| ensures Supported(terms[i]) <==> WellPlaced(terms[i]) && !HoldsNul(terms[i].piece) {
      SupportedExactlyWhen(terms[i]);
    }
  }

  // ----- the text of a pattern -----

  /** The pattern itself: the text in front of its delimiter. */
  function PatternText(s: seq<Byte>, eof: Byte, sed: bool, st: State): seq<Byte>
    decreases |s|
  {
    match Lex(s, eof, sed, st.terms == [])
    case None => []
    case Some(l) =>
      if l.value.End? then []
      else match Apply(st, l.value)
        case None => []
        case Some(next) => s[..l.used] + PatternText(s[l.used..], eof, sed, next)
  }

  /** What is left of the text when the pattern is at its end. */
  function AtItsEnd(s: seq<Byte>, eof: Byte, sed: bool, st: State): seq<Byte>
    decreases |s|
  {
    match Lex(s, eof, sed, st.terms == [])
    case None => s
    case Some(l) =>
      if l.value.End? then s
      else match Apply(st, l.value)
        case None => s
        case Some(next) => AtItsEnd(s[l.used..], eof, sed, next)
  }

  /** The delimiter, which is taken, or a newline, which is not. */
  predicate Delimited(s: seq<Byte>, eof: Byte, left: nat, delimited: bool) {
    s != [] && if delimited then s[0] == eof && left == |s| - 1 else s[0] == NEWLINE != eof && left == |s|
  }

  lemma {:induction false} EndToken(s: seq<Byte>, eof: Byte, sed: bool, first: bool)
    requires var l := Lex(s, eof, sed, first); l.Some? && l.value.value.End?
    ensures Delimited(s, eof, |s| - Lex(s, eof, sed, first).value.used, s[0] == eof)
  {
  }

  lemma {:induction false} ParseDelimited(s: seq<Byte>, eof: Byte, sed: bool, st: State)
    requires ParseFrom(s, eof, sed, st).Some?
    ensures var p := ParseFrom(s, eof, sed, st).value; Delimited(AtItsEnd(s, eof, sed, st), eof, p.left, p.delimited)
    decreases |s|
  {
    var l := Lex(s, eof, sed, st.terms == []).value;
    if l.value.End? {
      EndToken(s, eof, sed, st.terms == []);
    } else {
      ParseDelimited(s[l.used..], eof, sed, Apply(st, l.value).value);
    }
  }

  lemma {:induction false} Rejoin(s: seq<Byte>, k: nat, a: seq<Byte>, b: seq<Byte>)
    requires k <= |s| && s[k..] == a + b
    ensures s == s[..k] + a + b
  {
    assert s == s[..k] + s[k..];
  }

  lemma {:induction false} TextThenEnd(s: seq<Byte>, eof: Byte, sed: bool, st: State)
    ensures s == PatternText(s, eof, sed, st) + AtItsEnd(s, eof, sed, st)
    decreases |s|
  {
    var l := Lex(s, eof, sed, st.terms == []);
    if l.Some? && !l.value.value.End? {
      var a := Apply(st, l.value.value);
      if a.Some? {
        var rest := s[l.value.used..];
        TextThenEnd(rest, eof, sed, a.value);
        Rejoin(s, l.value.used, PatternText(rest, eof, sed, a.value), AtItsEnd(rest, eof, sed, a.value));
      }
    }
  }

  // ----- NUL -----

  lemma {:induction false} NulFreeParts(s: seq<Byte>, k: nat, n: nat)
    requires k + n <= |s|
    ensures NulFree(s[..k + n]) <==> NulFree(s[..k]) && NulFree(s[k..][..n])
  {
    assert s[..k + n] == s[..k] + s[k..][..n];
    if NulFree(s[..k + n]) {
      forall i | 0 <= i < n ensures s[k..][..n][i] != 0 { assert s[..k + n][k + i] != 0; }
    }
  }

  lemma {:induction false} NumberNulFree(s: seq<Byte>, acc: nat)
    requires LexNumber(s, acc).Some?
    ensures NulFree(s[..LexNumber(s, acc).value.used])
    decreases |s|
  {
    if s[1] !in {BACKSLASH, COMMA} {
      var v := 10 * acc + (s[0] - ZERO);
      NumberNulFree(s[1..], v);
      NulFreeParts(s, 1, LexNumber(s[1..], v).value.used);
    }
  }

  lemma {:induction false} UpperNulFree(s: seq<Byte>)
    requires LexUpper(s).Some?
    ensures NulFree(s[..LexUpper(s).value.used])
  {
    if !ClosesInterval(s) {
      NumberNulFree(s, 0);
      NulFreeParts(s, LexNumber(s, 0).value.used, 2);
    }
  }

  lemma {:induction false} IntervalNulFree(s: seq<Byte>)
    requires LexInterval(s).Some?
    ensures NulFree(s[..LexInterval(s).value.used])
  {
    var m := LexNumber(s, 0).value.used;
    NumberNulFree(s, 0);
    if s[m] == COMMA {
      var n := LexUpper(s[m + 1..]).value.used;
      UpperNulFree(s[m + 1..]);
      NulFreeParts(s, m, 1);
      NulFreeParts(s, m + 1, n);
    } else {
      NulFreeParts(s, m, 2);
    }
  }

  lemma {:induction false} BodyNul(s: seq<Byte>, lc: Byte)
    requires LexBody(s, lc).Some?
    ensures var l := LexBody(s, lc).value;
            NulFree(s[..l.used]) <==> forall e :: e in l.value.0 ==> e.c != 0
    decreases |s|
  {
    var ranging := s[0] == DASH && lc != 0;
    if !(ranging && s[1] == RBRACKET) {
      var k := if ranging then 2 else 1;
      var e := if ranging then To(s[1]) else Single(s[0]);
      assert LexBody(s, lc) == LexMore(s, e, k);
      assert NulFree(s[..k]) <==> e.c != 0;
      if s[k] == RBRACKET {
        NulFreeParts(s, k, 1);
      } else {
        BodyNul(s[k..], e.c);
        NulFreeParts(s, k, LexBody(s[k..], e.c).value.used);
      }
    }
  }

  lemma {:induction false} ClassNul(s: seq<Byte>)
    requires LexClass(s).Some?
    ensures var l := LexClass(s).value; NulFree(s[..l.used]) <==> !HoldsNul(Class(l.value))
  {
    var n := if s != [] && s[0] == CARET then 1 else 0;
    BodyNul(s[n..], 0);
    NulFreeParts(s, n, LexBody(s[n..], 0).value.used);
  }

  /** A token holds a NUL exactly when its text does. */
  lemma {:induction false} LexNul(s: seq<Byte>, eof: Byte, sed: bool, first: bool)
    requires var l := Lex(s, eof, sed, first); l.Some? && !l.value.value.End?
    ensures var l := Lex(s, eof, sed, first).value;
            NulFree(s[..l.used]) <==> !(l.value.Atomic? && HoldsNul(l.value.piece))
  {
    var l := Lex(s, eof, sed, first).value;
    if l.value.Atomic? && l.value.piece.Class? {
      ClassNul(s[1..]);
      NulFreeParts(s, 1, LexClass(s[1..]).value.used);
    } else if l.value.IntervalToken? {
      IntervalNulFree(s[2..]);
      NulFreeParts(s, 2, LexInterval(s[2..]).value.used);
    }
  }

  lemma {:induction false} NoNulPush(terms: seq<Term>, t: Term)
    ensures NoNul(terms + [t]) <==> NoNul(terms) && !HoldsNul(t.piece)
  {
    var all := terms + [t];
    if NoNul(all) {
      forall i | 0 <= i < |terms| ensures !HoldsNul(terms[i].piece) { assert all[i] == terms[i]; }
      assert all[|terms|] == t;
    }
  }

  lemma {:induction false} NoNulRequantify(st: State, q: Quant)
    requires st.terms != []
    ensures NoNul(Requantify(st, q).terms) <==> NoNul(st.terms)
  {
    var after := Requantify(st, q).terms;
    forall i | 0 <= i < |st.terms| ensures after[i].piece == st.terms[i].piece {}
  }

  lemma {:induction false} ApplyNul(st: State, tok: Token)
    requires !tok.End? && Apply(st, tok).Some?
    ensures NoNul(Apply(st, tok).value.terms) <==> NoNul(st.terms) && !(tok.Atomic? && HoldsNul(tok.piece))
  {
    if tok.IntervalToken? {
      NoNulRequantify(st, WithInterval(st.terms[|st.terms| - 1].quant, (tok.low, tok.high)));
    } else if tok.StarToken? && !StarIsLiteral(st.terms) {
      NoNulRequantify(st, WithStar(st.terms[|st.terms| - 1].quant));
    } else {
      NoNulPush(st.terms, Apply(st, tok).value.terms[|st.terms|]);
    }
  }

  lemma {:induction false} NulFreeJoin(a: seq<Byte>, b: seq<Byte>)
    ensures NulFree(a + b) <==> NulFree(a) && NulFree(b)
  {
    if NulFree(a + b) {
      forall i | 0 <= i < |b| ensures b[i] != 0 { assert (a + b)[|a| + i] == b[i]; }
      forall i | 0 <= i < |a| ensures a[i] != 0 { assert (a + b)[i] == a[i]; }
    }
  }

  lemma {:induction false} ParseNul(s: seq<Byte>, eof: Byte, sed: bool, st: State)
    requires ParseFrom(s, eof, sed, st).Some?
    ensures NoNul(ParseFrom(s, eof, sed, st).value.state.terms) <==>
            NoNul(st.terms) && NulFree(PatternText(s, eof, sed, st))
    decreases |s|
  {
    var l := Lex(s, eof, sed, st.terms == []).value;
    if !l.value.End? {
      var next := Apply(st, l.value).value;
      LexNul(s, eof, sed, st.terms == []);
      ApplyNul(st, l.value);
      ParseNul(s[l.used..], eof, sed, next);
      NulFreeJoin(s[..l.used], PatternText(s[l.used..], eof, sed, next));
    }
  }

  /**
   * An accepted pattern holds no NUL exactly when no byte in front of its
   * delimiter is NUL; the delimiter itself, and what follows it, may be.
   */
  lemma {:induction false} NulFreeExactlyWhen(s: seq<Byte>, eof: Byte, sed: bool)
    requires s != [] && ParsePattern(s, eof, sed).Some?
    ensures var p, s1 := ParsePattern(s, eof, sed).value, if s[0] == CARET then s[1..] else s;
            var text, rest := PatternText(s1, eof, sed, START), AtItsEnd(s1, eof, sed, START);
            s1 == text + rest && Delimited(rest, eof, p.left, p.delimited) && (NoNul(p.state.terms) <==> NulFree(text))
  {
    var s1 := if s[0] == CARET then s[1..] else s;
    ParseNul(s1, eof, sed, START);
    ParseDelimited(s1, eof, sed, START);
    TextThenEnd(s1, eof, sed, START);
  }

  // ----- length -----

  /** Bytes of code a token adds at most. */
  function TokenBytes(tok: Token): nat {
    if tok.Atomic? && tok.piece.Class? then 33 else 2
  }

  lemma {:induction false} PushBytes(terms: seq<Term>, tok: Token, piece: Piece)
    requires piece.Class? ==> tok.Atomic? && tok.piece == piece
    requires piece.Plain? ==> OperandSize(piece.op) <= 1
    ensures CodeSize(terms + [Term(piece, One)]) <= CodeSize(terms) + TokenBytes(tok)
  {
    CodeSizePush(terms, Term(piece, One));
  }

  lemma {:induction false} RequantifyBytes(st: State, pair: (Byte, Byte))
    requires st.terms != []
    ensures var q := st.terms[|st.terms| - 1].quant;
            CodeSize(Requantify(st, WithStar(q)).terms) <= CodeSize(st.terms) + 2 &&
            CodeSize(Requantify(st, WithInterval(q, pair)).terms) <= CodeSize(st.terms) + 2
  {
    var t := st.terms[|st.terms| - 1];
    CodeSizeReplace(st.terms, t.(quant := WithStar(t.quant)));
    CodeSizeReplace(st.terms, t.(quant := WithInterval(t.quant, pair)));
  }

  lemma {:induction false} ApplyBytes(st: State, tok: Token)
    requires !tok.End? && (tok.Atomic? ==> IsAtom(tok.piece)) && Apply(st, tok).Some?
    ensures CodeSize(Apply(st, tok).value.terms) <= CodeSize(st.terms) + TokenBytes(tok)
  {
    if tok.IntervalToken? {
      RequantifyBytes(st, (tok.low, tok.high));
    } else if tok.StarToken? && !StarIsLiteral(st.terms) {
      RequantifyBytes(st, (0, 0));
    } else {
      PushBytes(st.terms, tok, Apply(st, tok).value.terms[|st.terms|].piece);
    }
  }

  lemma {:induction false} LexBytes(s: seq<Byte>, eof: Byte, sed: bool, first: bool)
    requires var l := Lex(s, eof, sed, first); l.Some? && !l.value.value.End?
    ensures var l := Lex(s, eof, sed, first).value; TokenBytes(l.value) <= 11 * l.used
  {
    if s[0] == LBRACKET { assert LexClass(s[1..]).value.used >= 2; }
  }

  lemma {:induction false} ParseSize(s: seq<Byte>, eof: Byte, sed: bool, st: State)
    requires ParseFrom(s, eof, sed, st).Some?
    ensures CodeSize(ParseFrom(s, eof, sed, st).value.state.terms) <=
            CodeSize(st.terms) + 11 * |PatternText(s, eof, sed, st)|
    decreases |s|
  {
    var l := Lex(s, eof, sed, st.terms == []).value;
    if !l.value.End? {
      LexBytes(s, eof, sed, st.terms == []);
      ApplyBytes(st, l.value);
      ParseSize(s[l.used..], eof, sed, Apply(st, l.value).value);
    }
  }

  /**
   * The code of a pattern, end mark included, has at most 11 bytes for each
   * byte of the pattern between an initial `^` and the delimiter, plus one.
   */
  lemma {:induction false} CodeLength(s: seq<Byte>, eof: Byte, sed: bool)
    requires s != [] && ParsePattern(s, eof, sed).Some?
    ensures var p, s1 := ParsePattern(s, eof, sed).value, if s[0] == CARET then s[1..] else s;
            var text, rest := PatternText(s1, eof, sed, START), AtItsEnd(s1, eof, sed, START);
            s1 == text + rest && Delimited(rest, eof, p.left, p.delimited) && |Code(LowerAll(p.state.terms))| <= 11 * |text| + 1
  {
    var s1 := if s[0] == CARET then s[1..] else s;
    ParseSize(s1, eof, sed, START);
    ParseDelimited(s1, eof, sed, START);
    TextThenEnd(s1, eof, sed, START);
    CodeSizeIs(ParsePattern(s, eof, sed).value.state.terms);
  }
}
