/**
 * Writing a pattern down, with escapes where they are needed, and the proof
 * that `compile` reads back exactly what was written.
 */
module Print {
  import opened Bytes
  import opened Program
  import opened Syntax
  import opened Parse
  import opened Spelling
  import opened Buffer
  import opened Groups
  import opened Accepted

  // ----- characters -----

  predicate Special(c: Byte) {
    c == DOT || c == ASTERISK || c == LBRACKET || c == BACKSLASH || c == DOLLAR || c == CARET
  }

  /** A delimiter that is no metacharacter and that a backslash turns into itself. */
  predicate GoodDelimiter(eof: Byte) {
    !Special(eof) && eof != NEWLINE && eof != LPAREN && eof != RPAREN && eof != LBRACE && eof != LETTER_N &&
    !(ONE <= eof <= NINE)
  }

  function PrintChar(c: Byte, eof: Byte): seq<Byte> {
    if c == NEWLINE then [BACKSLASH, LETTER_N]
    else if Special(c) || c == eof then [BACKSLASH, c]
    else [c]
  }

  // ----- numbers -----

  function Decimal(n: nat): (r: seq<Byte>)
    ensures r != []
  {
    if n < 10 then [ZERO + n] else Decimal(n / 10) + [ZERO + n % 10]
  }

  lemma {:induction false} DecimalIs(n: nat)
    ensures IsDecimal(Decimal(n), n)
  {
    if n >= 10 {
      var ds := Decimal(n);
      DecimalIs(n / 10);
      assert ds[..|ds| - 1] == Decimal(n / 10);
    }
  }

  // ----- intervals -----

  function PrintUpper(pair: (Byte, Byte)): seq<Byte> {
    (if pair.1 == pair.0 then [] else [COMMA] + if pair.1 == UNBOUNDED then [] else Decimal(pair.1)) +
    [BACKSLASH, RBRACE]
  }

  function PrintInterval(pair: (Byte, Byte)): seq<Byte> { Decimal(pair.0) + PrintUpper(pair) }

  lemma {:induction false} IntervalLexed(pair: (Byte, Byte), tail: seq<Byte>)
    requires GoodPair(pair)
    ensures LexInterval(PrintInterval(pair) + tail) == Some(Lexed(pair, |PrintInterval(pair)|))
  {
    var m, close := Decimal(pair.0), [BACKSLASH, RBRACE];
    DecimalIs(pair.0);
    DecimalIs(pair.1);
    if pair.1 == pair.0 {
      assert PrintInterval(pair) == m + close;
      ExactRead(m, pair.0, tail);
    } else {
      var u := (if pair.1 == UNBOUNDED then [] else Decimal(pair.1)) + close;
      assert PrintInterval(pair) == m + [COMMA] + u;
      RangeRead(m, pair.0, u, pair.1, tail);
    }
  }

  // ----- classes -----

  function PrintClass(cls: ClassExpr): seq<Byte> { [LBRACKET] + ClassText(cls) }

  lemma {:induction false} ClassLexed(cls: ClassExpr, tail: seq<Byte>)
    requires ClassFits(cls)
    ensures LexClass(PrintClass(cls)[1..] + tail) == Some(Lexed(cls, |PrintClass(cls)| - 1))
  {
    assert PrintClass(cls)[1..] == ClassText(cls);
    ClassRead(cls, tail);
  }

  // ----- terms -----

  function PrintPiece(p: Piece, eof: Byte): seq<Byte> {
    match p
    case Class(cls) => PrintClass(cls)
    case Plain(op) =>
      match op
      case Chr(c) => PrintChar(c, eof)
      case Dot => [DOT]
      case Dol => [DOLLAR]
      case Bra(_) => [BACKSLASH, LPAREN]
      case Ket(_) => [BACKSLASH, RPAREN]
      case Backref(d) => [BACKSLASH, ONE + d]
      case _ => []
  }

  function PrintQuant(q: Quant): seq<Byte> {
    match q
    case One => []
    case Starred => [ASTERISK]
    case Intervals(pairs) => if pairs == [] then [] else [BACKSLASH, LBRACE] + PrintInterval(pairs[0])
  }

  /** The pattern from term i on. */
  function PrintFrom(terms: seq<Term>, i: nat, eof: Byte): seq<Byte>
    requires i <= |terms|
    decreases |terms| - i
  {
    if i == |terms| then []
    else (PrintPiece(terms[i].piece, eof) + PrintQuant(terms[i].quant)) + PrintFrom(terms, i + 1, eof)
  }

  /** The whole pattern with its delimiter. */
  function PrintPattern(p: Pattern, eof: Byte): seq<Byte> {
    (if p.anchored then [CARET] else []) + (PrintFrom(p.terms, 0, eof) + [eof])
  }

  predicate PrintableTerm(t: Term) {
    Supported(t) && (t.piece.Class? ==> ClassFits(t.piece.cls)) &&
    (t.quant.Intervals? ==> GoodPair(t.quant.pairs[0])) && (t.piece == Plain(Dol) ==> t.quant.One?)
  }

  /**
   * Supported terms, `$` at most at the end, marks numbered and matched as
   * `compile` numbers and matches them, and something to compile at all.
   */
  predicate Printable(p: Pattern) {
    (p.anchored || p.terms != []) && (forall i :: 0 <= i < |p.terms| ==> PrintableTerm(p.terms[i])) &&
    AnchorLast(p.terms) && Nest(p.terms).Some? && Nest(p.terms).value.stack == []
  }

  /** The token a piece is printed as. */
  function PieceToken(p: Piece): Token {
    if p.Plain? && p.op.Bra? then OpenToken
    else if p.Plain? && p.op.Ket? then CloseToken
    else if p.Plain? && p.op.Backref? then BackToken(p.op.g)
    else Atomic(p)
  }

  lemma {:induction false} PieceStart(t: Term, eof: Byte)
    requires GoodDelimiter(eof) && PrintableTerm(t)
    ensures var text := PrintPiece(t.piece, eof);
            text != [] && text[0] != eof && text[0] != CARET && text[0] != NEWLINE
  {
  }

  lemma {:induction false} PieceLexed(t: Term, eof: Byte, sed: bool, first: bool, tail: seq<Byte>)
    requires GoodDelimiter(eof) && PrintableTerm(t)
    requires t.piece == Plain(Dol) ==> tail != [] && tail[0] == eof
    ensures Lex(PrintPiece(t.piece, eof) + tail, eof, sed, first) ==
            Some(Lexed(PieceToken(t.piece), |PrintPiece(t.piece, eof)|))
  {
    var text := PrintPiece(t.piece, eof);
    var s := text + tail;
    if t.piece.Class? {
      assert s[1..] == text[1..] + tail;
      ClassLexed(t.piece.cls, tail);
    } else if text[0] == BACKSLASH {
      assert s[1] == text[1];
    }
  }

  lemma {:induction false} EscapedInterval(text: seq<Byte>, pair: (Byte, Byte), eof: Byte, sed: bool, tail: seq<Byte>)
    requires GoodDelimiter(eof) && LexInterval(text + tail) == Some(Lexed(pair, |text|))
    ensures Lex([BACKSLASH, LBRACE] + text + tail, eof, sed, false) ==
            Some(Lexed(IntervalToken(pair.0, pair.1), |[BACKSLASH, LBRACE] + text|))
  {
    var s := [BACKSLASH, LBRACE] + text + tail;
    assert s[2..] == text + tail;
    assert Lex(s, eof, sed, false) == LexEscape(s, false);
  }

  lemma {:induction false} QuantLexed(q: Quant, eof: Byte, sed: bool, tail: seq<Byte>)
    requires GoodDelimiter(eof) && !q.One? && (q.Intervals? ==> |q.pairs| == 1 && GoodPair(q.pairs[0]))
    ensures var tok := if q.Starred? then StarToken else IntervalToken(q.pairs[0].0, q.pairs[0].1);
            Lex(PrintQuant(q) + tail, eof, sed, false) == Some(Lexed(tok, |PrintQuant(q)|))
  {
    if q.Intervals? {
      IntervalLexed(q.pairs[0], tail);
      EscapedInterval(PrintInterval(q.pairs[0]), q.pairs[0], eof, sed, tail);
    }
  }

  // ----- the parser undoes the printer -----

  /** Applying the tokens of a term appends the term. */
  lemma {:induction false} PieceApplied(st: State, piece: Piece)
    requires Tracked(st) && NestOne(Nesting(st.stack, st.nbra, st.closed), piece).Some?
    ensures var next := Apply(st, PieceToken(piece));
            next.Some? && next.value.terms == st.terms + [Term(piece, One)]
  {
    if piece.Plain? && piece.op.Bra? { NestCounts(st.terms); }
  }

  lemma {:induction false} QuantApplied(st: State, t: Term)
    requires PrintableTerm(t) && !t.quant.One? && st.terms != [] && st.terms[|st.terms| - 1] == Term(t.piece, One)
    ensures var tok := if t.quant.Starred? then StarToken else IntervalToken(t.quant.pairs[0].0, t.quant.pairs[0].1);
            var next := Apply(st, tok);
            next.Some? && next.value == st.(terms := st.terms[|st.terms| - 1 := t])
  {
    if t.quant.Intervals? { assert [] + [(t.quant.pairs[0].0, t.quant.pairs[0].1)] == t.quant.pairs; }
  }

  /** Reading s in one state is reading t in another (quantified, so that it is spelled out only on demand). */
  ghost predicate Leads(s: seq<Byte>, st: State, t: seq<Byte>, next: State, eof: Byte, sed: bool) {
    forall x {:trigger ParseFrom(x, eof, sed, st)} :: x == s ==>
      ParseFrom(x, eof, sed, st) == ParseFrom(t, eof, sed, next)
  }

  /** Reading s ends at the delimiter, with these terms and so many bytes left. */
  ghost predicate Reads(s: seq<Byte>, st: State, terms: seq<Term>, left: nat, eof: Byte, sed: bool) {
    forall x {:trigger ParseFrom(x, eof, sed, st)} :: x == s ==>
      var r := ParseFrom(x, eof, sed, st);
      r.Some? && r.value.left == left && r.value.delimited && r.value.state.terms == terms
  }

  lemma {:induction false} OneToken(s: seq<Byte>, st: State, tok: Token, t: seq<Byte>, next: State, eof: Byte, sed: bool)
    requires |t| <= |s| && t == s[|s| - |t|..] && !tok.End?
    requires Lex(s, eof, sed, st.terms == []) == Some(Lexed(tok, |s| - |t|)) && Apply(st, tok) == Some(next)
    ensures Leads(s, st, t, next, eof, sed)
  {
  }

  lemma {:induction false} LeadsOn(s: seq<Byte>, st: State, t: seq<Byte>, mid: State, u: seq<Byte>, next: State,
                                   eof: Byte, sed: bool)
    requires Leads(s, st, t, mid, eof, sed) && Leads(t, mid, u, next, eof, sed)
    ensures Leads(s, st, u, next, eof, sed)
  {
  }

  lemma {:induction false} ReadsOn(s: seq<Byte>, st: State, t: seq<Byte>, next: State, terms: seq<Term>, left: nat,
                                   eof: Byte, sed: bool)
    requires Leads(s, st, t, next, eof, sed) && Reads(t, next, terms, left, eof, sed)
    ensures Reads(s, st, terms, left, eof, sed)
  {
  }

  lemma {:induction false} Dropped(a: seq<Byte>, b: seq<Byte>)
    ensures (a + b)[|a + b| - |b|..] == b && |a + b| - |b| == |a|
  {
  }

  lemma {:induction false} LeadsOverToken(text: seq<Byte>, st: State, tok: Token, tail: seq<Byte>, next: State, eof: Byte,
                                          sed: bool)
    requires Lex(text + tail, eof, sed, st.terms == []) == Some(Lexed(tok, |text|)) && !tok.End?
    requires Apply(st, tok) == Some(next)
    ensures Leads(text + tail, st, tail, next, eof, sed)
  {
    Dropped(text, tail);
    OneToken(text + tail, st, tok, tail, next, eof, sed);
  }

  lemma {:induction false} PieceParsed(st: State, t: Term, eof: Byte, sed: bool, tail: seq<Byte>) returns (next: State)
    requires GoodDelimiter(eof) && PrintableTerm(t) && Tracked(st)
    requires NestOne(Nesting(st.stack, st.nbra, st.closed), t.piece).Some?
    requires t.piece == Plain(Dol) ==> tail != [] && tail[0] == eof
    ensures next.terms == st.terms + [Term(t.piece, One)] && Tracked(next)
    ensures Leads(PrintPiece(t.piece, eof) + tail, st, tail, next, eof, sed)
  {
    var tok := PieceToken(t.piece);
    PieceLexed(t, eof, sed, st.terms == [], tail);
    PieceApplied(st, t.piece);
    next := Apply(st, tok).value;
    ApplyTracked(st, tok);
    LeadsOverToken(PrintPiece(t.piece, eof), st, tok, tail, next, eof, sed);
  }

  lemma {:induction false} QuantParsed(st: State, t: Term, eof: Byte, sed: bool, tail: seq<Byte>) returns (next: State)
    requires GoodDelimiter(eof) && PrintableTerm(t) && Tracked(st) && !t.quant.One?
    requires st.terms != [] && st.terms[|st.terms| - 1] == Term(t.piece, One)
    ensures next.terms == st.terms[|st.terms| - 1 := t] && Tracked(next)
    ensures Leads(PrintQuant(t.quant) + tail, st, tail, next, eof, sed)
  {
    var tok := if t.quant.Starred? then StarToken else IntervalToken(t.quant.pairs[0].0, t.quant.pairs[0].1);
    QuantLexed(t.quant, eof, sed, tail);
    QuantApplied(st, t);
    next := Apply(st, tok).value;
    ApplyTracked(st, tok);
    LeadsOverToken(PrintQuant(t.quant), st, tok, tail, next, eof, sed);
  }

  /** Reading one printed term. */
  lemma {:induction false} TermParsed(st: State, t: Term, eof: Byte, sed: bool, tail: seq<Byte>) returns (next: State)
    requires GoodDelimiter(eof) && PrintableTerm(t) && Tracked(st)
    requires NestOne(Nesting(st.stack, st.nbra, st.closed), t.piece).Some?
    requires t.piece == Plain(Dol) ==> tail != [] && tail[0] == eof
    ensures next.terms == st.terms + [t] && Tracked(next)
    ensures Leads((PrintPiece(t.piece, eof) + PrintQuant(t.quant)) + tail, st, tail, next, eof, sed)
  {
    var a, b := PrintPiece(t.piece, eof), PrintQuant(t.quant);
    Associative(a, b, tail);
    next := PieceParsed(st, t, eof, sed, b + tail);
    if t.quant.One? {
      assert b + tail == tail;
    } else {
      var mid := next;
      next := QuantParsed(mid, t, eof, sed, tail);
      LeadsOn(a + (b + tail), st, b + tail, mid, tail, next, eof, sed);
    }
  }

  lemma {:induction false} EndParsed(st: State, eof: Byte, sed: bool, rest: seq<Byte>)
    requires st.stack == []
    ensures Reads([eof] + rest, st, st.terms, |rest|, eof, sed)
  {
  }

  /** The next term keeps the discipline of the marks, and `$` stands in front of the delimiter. */
  lemma {:induction false} NextTerm(p: Pattern, i: nat, eof: Byte, rest: seq<Byte>, st: State)
    requires Printable(p) && i < |p.terms| && Tracked(st) && st.terms == p.terms[..i]
    ensures var tail := PrintFrom(p.terms, i + 1, eof) + ([eof] + rest);
            NestOne(Nesting(st.stack, st.nbra, st.closed), p.terms[i].piece).Some? &&
            p.terms[..i + 1] == p.terms[..i] + [p.terms[i]] &&
            (p.terms[i].piece == Plain(Dol) ==> tail != [] && tail[0] == eof)
  {
    NestPrefix(p.terms, i + 1);
    assert p.terms[..i + 1] == p.terms[..i] + [p.terms[i]];
    NestPush(p.terms[..i], p.terms[i]);
  }

  lemma {:induction false} TermsParsed(p: Pattern, i: nat, eof: Byte, sed: bool, rest: seq<Byte>, st: State)
    requires GoodDelimiter(eof) && Printable(p) && i <= |p.terms| && Tracked(st) && st.terms == p.terms[..i]
    ensures Reads(PrintFrom(p.terms, i, eof) + ([eof] + rest), st, p.terms, |rest|, eof, sed)
    decreases |p.terms| - i
  {
    var tail := [eof] + rest;
    if i == |p.terms| {
      assert p.terms[..i] == p.terms;
      assert [] + tail == tail;
      EndParsed(st, eof, sed, rest);
    } else {
      var t, more := p.terms[i], PrintFrom(p.terms, i + 1, eof);
      NextTerm(p, i, eof, rest, st);
      var next := TermParsed(st, t, eof, sed, more + tail);
      TermsParsed(p, i + 1, eof, sed, rest, next);
      Associative(PrintPiece(t.piece, eof) + PrintQuant(t.quant), more, tail);
      ReadsOn(PrintFrom(p.terms, i, eof) + tail, st, more + tail, next, p.terms, |rest|, eof, sed);
    }
  }

  /** A printed pattern starts with `^` exactly when it is anchored, and never with its end. */
  lemma {:induction false} FirstByte(p: Pattern, eof: Byte)
    requires GoodDelimiter(eof) && Printable(p)
    ensures var text := PrintPattern(p, eof);
            text[0] != eof && text[0] != NEWLINE && (text[0] == CARET <==> p.anchored)
  {
    if !p.anchored {
      var t := p.terms[0];
      PieceStart(t, eof);
      assert PrintPattern(p, eof)[0] == PrintFrom(p.terms, 0, eof)[0] == PrintPiece(t.piece, eof)[0];
    }
  }

  lemma {:induction false} TextShape(anchored: bool, body: seq<Byte>, end: seq<Byte>, rest: seq<Byte>)
    ensures var s := (if anchored then [CARET] else []) + (body + end) + rest;
            (if anchored then s[1..] else s) == body + (end + rest)
  {
  }

  /**
   * For every printable pattern, whatever follows its delimiter, parsing the
   * printed text stops right after the delimiter with exactly that pattern.
   */
  lemma {:induction false} ParseUndoesPrint(p: Pattern, eof: Byte, sed: bool, rest: seq<Byte>)
    requires GoodDelimiter(eof) && Printable(p)
    ensures var r := ParsePattern(PrintPattern(p, eof) + rest, eof, sed);
            r.Some? && r.value.left == |rest| && r.value.delimited && r.value.state.terms == p.terms
  {
    FirstByte(p, eof);
    TextShape(p.anchored, PrintFrom(p.terms, 0, eof), [eof], rest);
    TermsParsed(p, 0, eof, sed, rest, START);
  }

  // ----- and every accepted supported pattern is printable -----

  predicate ClassesFit(terms: seq<Term>) {
    forall i :: 0 <= i < |terms| && terms[i].piece.Class? ==> ClassFits(terms[i].piece.cls)
  }

  lemma {:induction false} ApplyFits(st: State, tok: Token)
    requires !tok.End? && Apply(st, tok).Some? && ClassesFit(st.terms)
    requires tok.Atomic? && tok.piece.Class? ==> ClassFits(tok.piece.cls)
    ensures ClassesFit(Apply(st, tok).value.terms)
  {
  }

  lemma {:induction false} ParseFits(s: seq<Byte>, eof: Byte, sed: bool, st: State)
    requires ClassesFit(st.terms) && ParseFrom(s, eof, sed, st).Some?
    ensures ClassesFit(ParseFrom(s, eof, sed, st).value.state.terms)
    decreases |s|
  {
    var l := Lex(s, eof, sed, st.terms == []).value;
    if !l.value.End? {
      if l.value.Atomic? && l.value.piece.Class? { ClassTaken(s[1..]); }
      ApplyFits(st, l.value);
      ParseFits(s[l.used..], eof, sed, Apply(st, l.value).value);
    }
  }

  /** The text is accepted as the pattern, all of whose terms `advance` can run. */
  ghost predicate Accepts(s: seq<Byte>, eof: Byte, sed: bool, p: Pattern) {
    s != [] && s[0] != eof && s[0] != NEWLINE && (p.anchored <==> s[0] == CARET) &&
    var r := ParsePattern(s, eof, sed);
    r.Some? && r.value.state.terms == p.terms && AllSupported(p.terms)
  }

  lemma {:induction false} SomethingRead(s: seq<Byte>, eof: Byte, sed: bool)
    requires s != [] && s[0] != eof && s[0] != NEWLINE && s[0] != CARET && ParsePattern(s, eof, sed).Some?
    ensures ParsePattern(s, eof, sed).value.state.terms != []
  {
    var l := Lex(s, eof, sed, true).value;
    var next := Apply(START, l.value).value;
    assert next.terms != [];
    TermsStay(s[l.used..], eof, sed, next);
  }

  lemma {:induction false} TermsStay(s: seq<Byte>, eof: Byte, sed: bool, st: State)
    requires st.terms != [] && ParseFrom(s, eof, sed, st).Some?
    ensures ParseFrom(s, eof, sed, st).value.state.terms != []
    decreases |s|
  {
    var l := Lex(s, eof, sed, false).value;
    if !l.value.End? { TermsStay(s[l.used..], eof, sed, Apply(st, l.value).value); }
  }

  lemma {:induction false} AcceptedIsPrintable(s: seq<Byte>, eof: Byte, sed: bool, p: Pattern)
    requires Accepts(s, eof, sed, p)
    ensures Printable(p)
  {
    var s1 := if s[0] == CARET then s[1..] else s;
    assert Tracked(START);
    ParseNests(s1, eof, sed, START);
    ParseFits(s1, eof, sed, START);
    AcceptedTerms(s, eof, sed);
    if s[0] != CARET { SomethingRead(s, eof, sed); }
    forall i | 0 <= i < |p.terms| ensures PrintableTerm(p.terms[i]) {
      assert Supported(p.terms[i]) && WellRead(p.terms[i]);
      if p.terms[i].quant.Intervals? { assert GoodPair(p.terms[i].quant.pairs[0]); }
    }
  }

  lemma {:induction false} PrintableSupported(p: Pattern)
    requires Printable(p)
    ensures AllSupported(p.terms)
  {
    forall i | 0 <= i < |p.terms| ensures Supported(p.terms[i]) { assert PrintableTerm(p.terms[i]); }
  }

  lemma {:induction false} PrintedIsAccepted(p: Pattern, eof: Byte, sed: bool)
    requires GoodDelimiter(eof) && Printable(p)
    ensures Accepts(PrintPattern(p, eof), eof, sed, p)
  {
    var s := PrintPattern(p, eof);
    FirstByte(p, eof);
    PrintableSupported(p);
    assert s + [] == s;
    ParseUndoesPrint(p, eof, sed, []);
  }

  /**
   * The printable patterns are exactly the supported ones that `compile`
   * accepts: whatever text is accepted, its pattern can be printed, and the
   * printed text is accepted as the same pattern.
   */
  lemma {:induction false} PrintableExactlyWhen(p: Pattern, eof: Byte, sed: bool)
    requires GoodDelimiter(eof)
    ensures Printable(p) <==> exists s :: Accepts(s, eof, sed, p)
  {
    if Printable(p) { PrintedIsAccepted(p, eof, sed); }
    if s :| Accepts(s, eof, sed, p) { AcceptedIsPrintable(s, eof, sed, p); }
  }

  // ----- the longest code -----

  /** The class `[c]`. */
  function OneClass(c: Byte): Term { Term(Class(ClassExpr(false, [Single(c)], false)), One) }

  function Copied(t: Term, k: nat): (r: seq<Term>)
    ensures |r| == k && forall i :: 0 <= i < k ==> r[i] == t
  {
    if k == 0 then [] else Copied(t, k - 1) + [t]
  }

  lemma {:induction false} ClassesNest(c: Byte, k: nat)
    ensures Nest(Copied(OneClass(c), k)) == Some(Nesting([], 0, 0))
  {
    if k > 0 {
      ClassesNest(c, k - 1);
      NestPush(Copied(OneClass(c), k - 1), OneClass(c));
    }
  }

  lemma {:induction false} ClassesSize(c: Byte, k: nat)
    requires c >= 128
    ensures CodeSize(Copied(OneClass(c), k)) == 33 * k
  {
    if k > 0 {
      ClassesSize(c, k - 1);
      CodeSizePush(Copied(OneClass(c), k - 1), OneClass(c));
      assert OneClass(c).piece.cls.body[0].c >= 128;
    }
  }

  lemma {:induction false} ClassesLength(c: Byte, k: nat, i: nat, eof: Byte)
    requires i <= k
    ensures |PrintFrom(Copied(OneClass(c), k), i, eof)| == 3 * (k - i)
    decreases k - i
  {
    if i < k {
      ClassesLength(c, k, i + 1, eof);
      assert BodyText([Single(c)][1..]) == [];
    }
  }

  lemma {:induction false} ClassesPrintable(c: Byte, k: nat)
    requires k > 0 && c >= 128
    ensures Printable(Pattern(false, Copied(OneClass(c), k)))
  {
    ClassesNest(c, k);
    assert BodyFits([Single(c)][1..], false, c, false);
    assert PrintableTerm(OneClass(c));
  }

  /** For every k there is a pattern of 3 * k bytes, k classes of one eight-bit character, that meets the bound. */
  lemma {:induction false} LongestCode(c: Byte, k: nat, eof: Byte, sed: bool)
    requires k > 0 && c >= 128 && GoodDelimiter(eof)
    ensures var p := Pattern(false, Copied(OneClass(c), k));
            var r := ParsePattern(PrintPattern(p, eof), eof, sed);
            |PrintPattern(p, eof)| == 3 * k + 1 && r.Some? && r.value.left == 0 && r.value.state.terms == p.terms &&
            |Code(LowerAll(p.terms))| == 11 * (3 * k) + 1
  {
    var p := Pattern(false, Copied(OneClass(c), k));
    ClassesPrintable(c, k);
    ClassesLength(c, k, 0, eof);
    ClassesSize(c, k);
    CodeSizeIs(p.terms);
    assert PrintPattern(p, eof) + [] == PrintPattern(p, eof);
    ParseUndoesPrint(p, eof, sed, []);
  }
}
