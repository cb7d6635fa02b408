/**
 * The pattern language: what `compile` reads, as a tree, and the program each
 * part of it stands for.
 */
module Syntax {
  import opened Bytes
  import opened Semantics
  import opened Program

  const NEWLINE: Byte := 10
  const DOLLAR: Byte := 36
  const LPAREN: Byte := 40
  const RPAREN: Byte := 41
  const ASTERISK: Byte := 42
  const COMMA: Byte := 44
  const DASH: Byte := 45
  const DOT: Byte := 46
  const ZERO: Byte := 48
  const ONE: Byte := 49
  const NINE: Byte := 57
  const LBRACKET: Byte := 91
  const BACKSLASH: Byte := 92
  const RBRACKET: Byte := 93
  const CARET: Byte := 94
  const LETTER_N: Byte := 110
  const LBRACE: Byte := 123
  const RBRACE: Byte := 125

  // ----- bracket expressions -----

  /** One character, or `-c`: everything from the character before up to c. */
  datatype Elem = Single(c: Byte) | To(c: Byte)

  datatype ClassExpr = ClassExpr(neg: bool, body: seq<Elem>, dash: bool)

  function Between(lo: Byte, hi: Byte): (r: set<Byte>)
    ensures forall x: Byte :: x in r <==> lo <= x < hi
    decreases hi - lo
  {
    if lo >= hi then {} else {lo} + Between(lo + 1, hi)
  }

  /** The character before element i; NUL before the first. */
  function Prev(body: seq<Elem>, i: nat): Byte
    requires i <= |body|
  {
    if i == 0 then 0 else body[i - 1].c
  }

  function Span(prev: Byte, e: Elem): set<Byte> {
    match e
    case Single(c) => {c}
    case To(c) => Between(prev, c) + {c}
  }

  /** The characters listed by the elements. */
  function Members(body: seq<Elem>): set<Byte> {
    if body == [] then {}
    else
      var n := |body| - 1;
      Members(body[..n]) + Span(Prev(body, n), body[n])
  }

  function ClassSet(cls: ClassExpr): set<Byte> {
    Members(cls.body) + if cls.dash then {DASH} else {}
  }

  /** The bytes a bracket expression stands for; a negated one never includes NUL. */
  function Denotes(cls: ClassExpr): set<Byte> {
    if cls.neg then Others(ClassSet(cls)) else ClassSet(cls)
  }

  /** Some character of the expression is an eight-bit one. */
  predicate Wide(body: seq<Elem>) { exists i :: 0 <= i < |body| && body[i].c >= 128 }

  /** The three encodings of a class. */
  function ClassOp(cls: ClassExpr): Op {
    if Wide(cls.body) then Cxcl(Denotes(cls))
    else if cls.neg then Nccl(ClassSet(cls) + {0})
    else Ccl(ClassSet(cls))
  }

  /** Starts with a character and holds no NUL. */
  predicate ProperClass(cls: ClassExpr) {
    cls.body != [] && cls.body[0].Single? && forall i :: 0 <= i < |cls.body| ==> cls.body[i].c != 0
  }

  /** The character is listed by element i. */
  predicate Lists(body: seq<Elem>, i: nat, x: Byte)
    requires i < |body|
  {
    x == body[i].c || (body[i].To? && Prev(body, i) <= x < body[i].c)
  }

  /** A character is in the set exactly when some element lists it. */
  lemma {:induction false} MembersAreListed(body: seq<Elem>, x: Byte)
    ensures x in Members(body) <==> exists i :: 0 <= i < |body| && Lists(body, i, x)
    decreases |body|
  {
    if body != [] {
      var n := |body| - 1;
      var init := body[..n];
      MembersAreListed(init, x);
      forall i | 0 <= i < n ensures Lists(init, i, x) == Lists(body, i, x) {
        assert Prev(init, i) == Prev(body, i);
      }
      if x in Span(Prev(body, n), body[n]) { assert Lists(body, n, x); }
      if i :| 0 <= i < |body| && Lists(body, i, x) {
        if i < n { assert Lists(init, i, x); }
      }
    }
  }

  /** Element i is the character, or a range from the character written in front of it that includes it. */
  predicate WrittenAt(body: seq<Elem>, i: nat, x: Byte)
    requires i < |body|
  {
    x == body[i].c || (i > 0 && body[i].To? && body[i - 1].c <= x < body[i].c)
  }

  predicate Written(body: seq<Elem>, x: Byte) { exists i :: 0 <= i < |body| && WrittenAt(body, i, x) }

  lemma {:induction false} MembersAreWritten(body: seq<Elem>, x: Byte)
    requires body != [] && body[0].Single?
    ensures x in Members(body) <==> Written(body, x)
  {
    MembersAreListed(body, x);
    forall i | 0 <= i < |body| ensures Lists(body, i, x) == WrittenAt(body, i, x) {}
  }

  /**
   * What every bracket expression that is read stands for, character by
   * character: what is written, with a dash at the end, or anything else but NUL.
   */
  lemma {:induction false} DenotesExactly(cls: ClassExpr, x: Byte)
    requires cls.body != [] && cls.body[0].Single?
    ensures x in Denotes(cls) <==>
            if cls.neg then x != 0 && !Written(cls.body, x) && !(cls.dash && x == 45)
            else Written(cls.body, x) || (cls.dash && x == 45)
  {
    MembersAreWritten(cls.body, x);
  }

  /** Without eight-bit characters the set is a seven-bit one; without NUL it has no NUL. */
  lemma {:induction false} MembersInRange(cls: ClassExpr, x: Byte)
    requires x in ClassSet(cls)
    ensures !Wide(cls.body) ==> x < 128
    ensures ProperClass(cls) ==> x != 0
  {
    MembersAreListed(cls.body, x);
  }

  /** All three encodings accept exactly the bytes the expression stands for, and never NUL. */
  lemma {:induction false} ClassMeaning(cls: ClassExpr)
    requires ProperClass(cls)
    ensures Sound(Instr(ClassOp(cls), One)) && ByteTest(ClassOp(cls))
    ensures ByteSet(ClassOp(cls)) == Denotes(cls) && 0 !in Denotes(cls)
  {
    forall x | x in ClassSet(cls)
      ensures !Wide(cls.body) ==> x < 128
      ensures x != 0
    {
      MembersInRange(cls, x);
    }
  }

  // ----- patterns -----

  /** A single character, `.`, a group mark, a back-reference or `$` is its own operation. */
  datatype Piece = Plain(op: Op) | Class(cls: ClassExpr)

  datatype Term = Term(piece: Piece, quant: Quant)

  function PieceOp(p: Piece): Op {
    match p
    case Plain(op) => op
    case Class(cls) => ClassOp(cls)
  }

  function Lower(t: Term): Instr { Instr(PieceOp(t.piece), t.quant) }

  function LowerAll(ts: seq<Term>): (r: seq<Instr>)
    ensures |r| == |ts|
  {
    if ts == [] then [] else LowerAll(ts[..|ts| - 1]) + [Lower(ts[|ts| - 1])]
  }

  lemma {:induction false} LowerAt(ts: seq<Term>, i: nat)
    requires i < |ts|
    ensures LowerAll(ts)[i] == Lower(ts[i])
    decreases |ts|
  {
    if i < |ts| - 1 { LowerAt(ts[..|ts| - 1], i); }
  }

  /** A whole pattern; `anchored` says that it began with `^`. */
  datatype Pattern = Pattern(anchored: bool, terms: seq<Term>)

  // ----- what patterns mean, and which of them `advance` can run -----

  /** The meaning of a term, with classes read as the sets they stand for. */
  function TermMeaning(t: Term): Item {
    Item(match t.piece
         case Plain(op) => OpAtom(op)
         case Class(cls) => OneOf(Denotes(cls)),
         QuantRep(t.quant))
  }

  function PatternMeaning(ts: seq<Term>): (r: seq<Item>)
    ensures |r| == |ts|
  {
    seq(|ts|, i requires 0 <= i < |ts| => TermMeaning(ts[i]))
  }

  /**
   * No interval follows a group mark, a back-reference or another interval,
   * intervals are not empty, and no character is NUL.
   */
  predicate Supported(t: Term) {
    (match t.piece
     case Plain(op) => (op.Chr? && op.c != 0) || op.Dot? || op.Bra? || op.Ket? || op.Backref? || op.Dol?
     case Class(cls) => ProperClass(cls)) &&
    (match t.quant
     case One => true
     case Starred => t.piece.Class? || ByteTest(t.piece.op) || t.piece.op.Backref?
     case Intervals(pairs) =>
       (t.piece.Class? || ByteTest(t.piece.op)) && |pairs| == 1 && pairs[0].0 <= pairs[0].1)
  }

  /** Which bytes a term tests for: its character, any but NUL, or those of its bracket expression. */
  lemma {:induction false} AcceptsExactly(t: Term, x: Byte)
    requires Supported(t) && TermMeaning(t).atom.OneOf?
    ensures x in TermMeaning(t).atom.members <==>
            match t.piece
            case Plain(op) => if op.Chr? then x == op.c else x != 0
            case Class(cls) =>
              x != 0 && ((Written(cls.body, x) || (cls.dash && x == 45)) <==> !cls.neg)
  {
    if t.piece.Class? {
      DenotesExactly(t.piece.cls, x);
      ClassMeaning(t.piece.cls);
    }
  }

  predicate AllSupported(ts: seq<Term>) { forall i :: 0 <= i < |ts| ==> Supported(ts[i]) }

  /** The program of a supported pattern can be run and means what the pattern means. */
  lemma {:induction false} LoweringPreservesMeaning(ts: seq<Term>)
    requires AllSupported(ts)
    ensures AllSound(LowerAll(ts)) && Meanings(LowerAll(ts)) == PatternMeaning(ts)
  {
    forall i | 0 <= i < |ts|
      ensures Sound(LowerAll(ts)[i]) && Meanings(LowerAll(ts))[i] == TermMeaning(ts[i])
    {
      LowerAt(ts, i);
      MeaningAt(LowerAll(ts), i);
      assert Supported(ts[i]);
      if ts[i].piece.Class? { ClassMeaning(ts[i].piece.cls); }
    }
    assert Meanings(LowerAll(ts)) == PatternMeaning(ts);
  }
}
