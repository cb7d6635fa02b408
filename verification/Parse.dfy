/**
 * How `compile` reads a pattern: tokens, what each token does to the terms
 * read so far, and the whole parse.  Running out of input is a failure.
 */
module Parse {
  import opened Bytes
  import opened Semantics
  import opened Program
  import opened Syntax

  // ----- tokens -----

  datatype Token =
    | End                              // the delimiter, or a newline that is put back
    | Atomic(piece: Piece)
    | StarToken
    | OpenToken
    | CloseToken
    | BackToken(d: Group)              // \1 is BackToken(0)
    | IntervalToken(low: Byte, high: Byte)

  /** A piece that is a token by itself: not a group mark or a back-reference. */
  predicate IsAtom(p: Piece) { p.Class? || p.op.Chr? || p.op.Dot? || p.op.Dol? }

  /** A token, or part of one, with the number of bytes it takes. */
  datatype Lexed<+T> = Lexed(value: T, used: nat)

  /** The elements of a bracket expression from s on, after the character lc (0 at the start). */
  function LexBody(s: seq<Byte>, lc: Byte): (r: Option<Lexed<(seq<Elem>, bool)>>)
    ensures r.Some? ==> 0 < r.value.used <= |s|
    decreases |s|, 1
  {
    if s == [] || s[0] == 0 || s[0] == NEWLINE then None
    else if s[0] == DASH && lc != 0 then
      if |s| < 2 then None
      else if s[1] == RBRACKET then Some(Lexed(([], true), 2))
      else LexMore(s, To(s[1]), 2)
    else LexMore(s, Single(s[0]), 1)
  }

  /** After an element of n bytes: the closing bracket or more elements. */
  function LexMore(s: seq<Byte>, e: Elem, n: nat): (r: Option<Lexed<(seq<Elem>, bool)>>)
    requires 0 < n <= |s|
    ensures r.Some? ==> n < r.value.used <= |s|
    decreases |s|, 0
  {
    if |s| == n then None
    else if s[n] == RBRACKET then Some(Lexed(([e], false), n + 1))
    else match LexBody(s[n..], e.c)
      case None => None
      case Some(l) => Some(Lexed(([e] + l.value.0, l.value.1), n + l.used))
  }

  /** A bracket expression after its `[`. */
  function LexClass(s: seq<Byte>): (r: Option<Lexed<ClassExpr>>)
    ensures r.Some? ==> 0 < r.value.used <= |s|
  {
    var neg := s != [] && s[0] == CARET;
    var n := if neg then 1 else 0;
    match LexBody(s[n..], 0)
    case None => None
    case Some(l) => Some(Lexed(ClassExpr(neg, l.value.0, l.value.1), n + l.used))
  }

  predicate IsDigit(c: Byte) { ZERO <= c <= NINE }

  /** Digits up to a `\` or `,`, which is not taken; acc is the value read so far. */
  function LexNumber(s: seq<Byte>, acc: nat): (r: Option<Lexed<nat>>)
    ensures r.Some? ==> 0 < r.value.used < |s| && s[r.value.used] in {BACKSLASH, COMMA}
  {
    if s == [] || !IsDigit(s[0]) || |s| == 1 then None
    else
      var v := 10 * acc + (s[0] - ZERO);
      if s[1] in {BACKSLASH, COMMA} then Some(Lexed(v, 1))
      else match LexNumber(s[1..], v)
        case None => None
        case Some(l) => Some(Lexed(l.value, l.used + 1))
  }

  /** The `\}` that ends an interval. */
  predicate ClosesInterval(s: seq<Byte>) { |s| >= 2 && s[0] == BACKSLASH && s[1] == RBRACE }

  /** The rest of an interval after `m,`: `\}` or `n\}`. */
  function LexUpper(s: seq<Byte>): (r: Option<Lexed<Byte>>)
    ensures r.Some? ==> 0 < r.value.used <= |s|
  {
    if ClosesInterval(s) then Some(Lexed(UNBOUNDED, 2))
    else match LexNumber(s, 0)
      case None => None
      case Some(n) =>
        if n.value >= 255 || !ClosesInterval(s[n.used..]) then None else Some(Lexed(n.value, n.used + 2))
  }

  /** An interval after its `\{`: `m\}`, `m,\}` or `m,n\}`. */
  function LexInterval(s: seq<Byte>): (r: Option<Lexed<(Byte, Byte)>>)
    ensures r.Some? ==> 0 < r.value.used <= |s| && r.value.value.0 <= r.value.value.1
    ensures r.Some? ==> r.value.value.0 < UNBOUNDED
  {
    match LexNumber(s, 0)
    case None => None
    case Some(m) =>
      if m.value >= 255 then None
      else if s[m.used] == COMMA then
        match LexUpper(s[m.used + 1..])
        case None => None
        case Some(u) => if u.value < m.value then None else Some(Lexed((m.value, u.value), m.used + 1 + u.used))
      else if ClosesInterval(s[m.used..]) then Some(Lexed((m.value, m.value), m.used + 2))
      else None
  }

  /** The limit that is written while the text after `m,` is read, even if it then turns out to be no interval. */
  function UpperWritten(s: seq<Byte>): Option<Byte> {
    if s == [] then None
    else if s[0] == BACKSLASH then Some(UNBOUNDED)
    else match LexNumber(s, 0)
      case None => None
      case Some(n) => if n.value >= 255 then None else Some(n.value)
  }

  /** The second byte that is written while an interval is read, even if it then turns out to be none. */
  function SecondWritten(s: seq<Byte>): Option<Byte> {
    match LexNumber(s, 0)
    case None => None
    case Some(m) =>
      if m.value >= 255 then None
      else if s[m.used] == COMMA then UpperWritten(s[m.used + 1..])
      else if ClosesInterval(s[m.used..]) then Some(m.value)
      else None
  }

  /** The second byte of an interval is its upper limit. */
  lemma {:induction false} SecondIsUpper(s: seq<Byte>)
    requires LexInterval(s).Some?
    ensures SecondWritten(s) == Some(LexInterval(s).value.value.1)
  {
  }

  /** What `\c` stands for, unless it starts an interval. */
  function EscapeToken(c: Byte): Token {
    if c == LPAREN then OpenToken
    else if c == RPAREN then CloseToken
    else if c == LETTER_N then Atomic(Plain(Chr(NEWLINE)))
    else if ONE <= c <= NINE then BackToken(c - ONE)
    else Atomic(Plain(Chr(c)))
  }

  /** What follows a backslash; `first` says that no term has been read yet. */
  function LexEscape(s: seq<Byte>, first: bool): (r: Option<Lexed<Token>>)
    requires |s| >= 2
    ensures r.Some? ==> 0 < r.value.used <= |s| && !r.value.value.End?
    ensures r.Some? && r.value.value.Atomic? ==> IsAtom(r.value.value.piece)
  {
    if s[1] == LBRACE && !first then
      match LexInterval(s[2..])
      case None => None
      case Some(l) => Some(Lexed(IntervalToken(l.value.0, l.value.1), l.used + 2))
    else if s[1] == NEWLINE then None
    else Some(Lexed(EscapeToken(s[1]), 2))
  }

  /** The next token of the pattern. */
  function Lex(s: seq<Byte>, eof: Byte, sed: bool, first: bool): (r: Option<Lexed<Token>>)
    ensures r.Some? ==> r.value.used <= |s| && (r.value.value.End? || r.value.used > 0)
    ensures r.Some? && r.value.value.Atomic? ==> IsAtom(r.value.value.piece)
  {
    if s == [] then None
    else if s[0] == eof then Some(Lexed(End, 1))
    else if s[0] == DOT then Some(Lexed(Atomic(Plain(Dot)), 1))
    else if s[0] == NEWLINE then if sed then None else Some(Lexed(End, 0))
    else if s[0] == ASTERISK then Some(Lexed(StarToken, 1))
    else if s[0] == DOLLAR && |s| >= 2 && (s[1] == eof || s[1] == NEWLINE) then Some(Lexed(Atomic(Plain(Dol)), 1))
    else if s[0] == LBRACKET then
      match LexClass(s[1..])
      case None => None
      case Some(l) => Some(Lexed(Atomic(Class(l.value)), l.used + 1))
    else if s[0] == BACKSLASH then if |s| >= 2 then LexEscape(s, first) else None
    else Some(Lexed(Atomic(Plain(Chr(s[0]))), 1))
  }

  // ----- the effect of a token -----

  /** The terms read so far, the groups still open (innermost last) and how many were opened and closed. */
  datatype State = State(terms: seq<Term>, stack: seq<Group>, nbra: nat, closed: nat)

  const START: State := State([], [], 0, 0)

  function Push(st: State, piece: Piece): State { st.(terms := st.terms + [Term(piece, One)]) }

  function Requantify(st: State, q: Quant): State
    requires st.terms != []
  {
    var n := |st.terms| - 1;
    st.(terms := st.terms[n := st.terms[n].(quant := q)])
  }

  /** `*` stands for itself at the start and after a group mark. */
  predicate StarIsLiteral(terms: seq<Term>) {
    terms == [] ||
    var t := terms[|terms| - 1];
    t.quant.One? && t.piece.Plain? && (t.piece.op.Bra? || t.piece.op.Ket?)
  }

  function Apply(st: State, tok: Token): Option<State>
    requires !tok.End?
  {
    match tok
    case Atomic(piece) => Some(Push(st, piece))
    case StarToken =>
      if StarIsLiteral(st.terms) then Some(Push(st, Plain(Chr(ASTERISK))))
      else Some(Requantify(st, WithStar(st.terms[|st.terms| - 1].quant)))
    case OpenToken =>
      if st.nbra >= NBRA then None
      else Some(Push(st, Plain(Bra(st.nbra))).(stack := st.stack + [st.nbra], nbra := st.nbra + 1))
    case CloseToken =>
      if st.stack == [] then None
      else
        var n := |st.stack| - 1;
        Some(Push(st, Plain(Ket(st.stack[n]))).(stack := st.stack[..n], closed := st.closed + 1))
    case BackToken(d) =>
      if d >= st.closed then None else Some(Push(st, Plain(Backref(d))))
    case IntervalToken(low, high) =>
      if st.terms == [] then None
      else Some(Requantify(st, WithInterval(st.terms[|st.terms| - 1].quant, (low, high))))
  }

  // ----- the whole pattern -----

  /** The state at the end of the pattern, the number of bytes not read, and whether the delimiter ended it, not a newline. */
  datatype Parsed = Parsed(state: State, left: nat, delimited: bool)

  function ParseFrom(s: seq<Byte>, eof: Byte, sed: bool, st: State): Option<Parsed>
    decreases |s|
  {
    match Lex(s, eof, sed, st.terms == [])
    case None => None
    case Some(l) =>
      if l.value.End? then
        if st.stack == [] then Some(Parsed(st, |s| - l.used, s[0] == eof)) else None
      else match Apply(st, l.value)
        case None => None
        case Some(next) => ParseFrom(s[l.used..], eof, sed, next)
  }

  /** A pattern that does not start with its end: an optional `^`, then the terms. */
  function ParsePattern(s: seq<Byte>, eof: Byte, sed: bool): Option<Parsed>
    requires s != []
  {
    ParseFrom(if s[0] == CARET then s[1..] else s, eof, sed, START)
  }
}
