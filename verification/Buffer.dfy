/**
 * What the buffer holds while a pattern is compiled: the code of the terms
 * read so far.  Terms are appended, and the last one is patched in place.
 */
module Buffer {
  import opened Bytes
  import opened Program
  import opened Syntax
  import opened Parse
  import opened Emit

  // ----- sizes -----

  function TermSize(t: Term): nat {
    1 + (match t.piece
         case Plain(op) => OperandSize(op)
         case Class(cls) => if Wide(cls.body) then 32 else 16) +
    if t.quant.Intervals? then 2 * |t.quant.pairs| else 0
  }

  /** Bytes of code for the terms, without the end mark. */
  function CodeSize(terms: seq<Term>): nat {
    if terms == [] then 0 else CodeSize(terms[..|terms| - 1]) + TermSize(terms[|terms| - 1])
  }

  /** Where the code of the last term begins. */
  function LastOffset(terms: seq<Term>): nat
    requires terms != []
  {
    CodeSize(terms[..|terms| - 1])
  }

  lemma {:induction false} TermSizeIs(t: Term)
    ensures |EncodeInstr(Lower(t))| == TermSize(t)
  {
  }

  lemma {:induction false} CodeSizePush(terms: seq<Term>, t: Term)
    ensures CodeSize(terms + [t]) == CodeSize(terms) + TermSize(t)
    ensures LastOffset(terms + [t]) == CodeSize(terms)
  {
    assert (terms + [t])[..|terms|] == terms;
  }

  /** Replacing the last term changes the size by the difference of the two. */
  lemma {:induction false} CodeSizeReplace(terms: seq<Term>, t: Term)
    requires terms != []
    ensures var n := |terms| - 1;
            CodeSize(terms[n := t]) == CodeSize(terms) - TermSize(terms[n]) + TermSize(t) &&
            LastOffset(terms[n := t]) == LastOffset(terms)
  {
    var n := |terms| - 1;
    assert terms[n := t][..n] == terms[..n];
  }

  // ----- code -----

  /** The bytes encode the program (quantified, like the next ones, so that it is spelled out only on demand). */
  ghost predicate Encodes(bytes: seq<Byte>, prog: seq<Instr>) {
    forall p {:trigger Encode(p)} :: p == prog ==> bytes == Encode(p)
  }

  ghost predicate HasLength(prog: seq<Instr>, n: nat) {
    forall p {:trigger Encode(p)} :: p == prog ==> |Encode(p)| == n
  }

  /** The operands of one instruction are those of the other and then some more. */
  ghost predicate Extends(i: Instr, last: Instr, more: seq<Byte>) {
    forall x {:trigger Operands(x)} :: x == i ==> Operands(x) == Operands(last) + more
  }

  /** The bytes are the code of one term. */
  ghost predicate TermCode(bytes: seq<Byte>, t: Term) {
    forall i {:trigger EncodeInstr(i)} :: i == Lower(t) ==> bytes == EncodeInstr(i)
  }

  /** The bytes are the code of the terms. */
  ghost predicate IsCode(bytes: seq<Byte>, terms: seq<Term>) {
    forall p {:trigger Encode(p)} :: p == LowerAll(terms) ==> bytes == Encode(p)
  }

  lemma {:induction false} EncodePush(prog: seq<Instr>, i: Instr)
    ensures Encode(prog + [i]) == Encode(prog) + EncodeInstr(i)
  {
    EncodeAppend(prog, [i]);
    EncodeOne(i);
  }

  lemma {:induction false} Join(s: seq<Byte>, i: nat, j: nat, k: nat)
    requires i <= j <= k <= |s|
    ensures s[i..j] + s[j..k] == s[i..k]
  {
  }

  lemma {:induction false} EncodeLast(prog: seq<Instr>)
    requires prog != []
    ensures Encode(prog) == Encode(prog[..|prog| - 1]) + EncodeInstr(prog[|prog| - 1])
  {
    var n := |prog| - 1;
    assert prog == prog[..n] + [prog[n]];
    EncodePush(prog[..n], prog[n]);
  }

  lemma {:induction false} EncodeReplaced(prog: seq<Instr>, i: Instr)
    requires prog != []
    ensures Encode(prog[|prog| - 1 := i]) == Encode(prog[..|prog| - 1]) + EncodeInstr(i)
  {
    var n := |prog| - 1;
    assert prog[n := i] == prog[..n] + [i];
    EncodePush(prog[..n], i);
  }

  /** The two sequences agree between the two indices, but for one byte. */
  predicate SameBut(before: seq<Byte>, after: seq<Byte>, start: nat, end: nat, at: nat)
    requires |before| == |after| && end <= |after|
  {
    forall j | start <= j < end && j != at :: after[j] == before[j]
  }

  lemma {:induction false} PatchBytes(before: seq<Byte>, after: seq<Byte>, start: nat, at: nat, ep0: nat, ep: nat,
                                      a: seq<Byte>, was: Byte, b: seq<Byte>, op: Byte)
    requires |before| == |after| && start <= at < ep0 <= ep <= |after|
    requires before[start..ep0] == a + ([was] + b) && |a| == at - start
    requires after[at] == op && SameBut(before, after, start, ep0, at)
    ensures after[start..ep] == a + ([op] + (b + after[ep0..ep]))
  {
    var l, r := after[start..ep], a + ([op] + (b + after[ep0..ep]));
    var m := |a|;
    assert |before[start..ep0]| == m + 1 + |b|;
    forall k | 0 <= k < |l| ensures l[k] == r[k] {
      if k < m {
        assert l[k] == before[start + k] == before[start..ep0][k] == a[k];
      } else if m < k < ep0 - start {
        assert l[k] == before[start + k] == before[start..ep0][k] == ([was] + b)[k - m] == b[k - m - 1];
      } else if k > m {
        assert l[k] == after[ep0..ep][k - m - 1 - |b|];
      }
    }
  }

  /** Patching the opcode of the last instruction and appending some bytes. */
  lemma {:induction false} PatchedInstr(before: seq<Byte>, after: seq<Byte>, start: nat, at: nat, ep0: nat, ep: nat,
                                        prog: seq<Instr>, last: Instr, i: Instr)
    requires |before| == |after| && start <= at < ep0 <= ep <= |after| && prog != [] && prog[|prog| - 1] == last
    requires Encodes(before[start..ep0], prog) && HasLength(prog[..|prog| - 1], at - start)
    requires after[at] == Opcode(i) && SameBut(before, after, start, ep0, at)
    requires Extends(i, last, after[ep0..ep])
    ensures Encodes(after[start..ep], prog[|prog| - 1 := i])
  {
    EncodeLast(prog);
    EncodeReplaced(prog, i);
    PatchBytes(before, after, start, at, ep0, ep, Encode(prog[..|prog| - 1]), Opcode(last), Operands(last), Opcode(i));
  }

  /** An interval adds two bytes to the operands, a star none. */
  lemma {:induction false} MoreOperands(i: Instr, pair: (Byte, Byte))
    ensures Extends(i.(quant := WithStar(i.quant)), i, [])
    ensures Extends(i.(quant := WithInterval(i.quant, pair)), i, [pair.0, pair.1])
  {
    assert Operands(i) + [] == Operands(i);
    var q := WithInterval(i.quant, pair);
    assert q.pairs[..|q.pairs| - 1] == if i.quant.Intervals? then i.quant.pairs else [];
    assert QuantBytes(q) == QuantBytes(i.quant) + [pair.0, pair.1];
    Associative(Payload(i.op), QuantBytes(i.quant), [pair.0, pair.1]);
  }

  lemma {:induction false} LowerPush(terms: seq<Term>, t: Term)
    ensures LowerAll(terms + [t]) == LowerAll(terms) + [Lower(t)]
  {
    assert (terms + [t])[..|terms|] == terms;
  }

  lemma {:induction false} LowerReplace(terms: seq<Term>, t: Term)
    requires terms != []
    ensures LowerAll(terms[|terms| - 1 := t]) == LowerAll(terms)[|terms| - 1 := Lower(t)]
    ensures LowerAll(terms)[..|terms| - 1] == LowerAll(terms[..|terms| - 1])
  {
    assert terms[|terms| - 1 := t][..|terms| - 1] == terms[..|terms| - 1];
  }

  lemma {:induction false} CodeSizeIs(terms: seq<Term>)
    ensures |Encode(LowerAll(terms))| == CodeSize(terms)
    decreases |terms|
  {
    if terms != [] {
      var n := |terms| - 1;
      CodeSizeIs(terms[..n]);
      EncodePush(LowerAll(terms[..n]), Lower(terms[n]));
      TermSizeIs(terms[n]);
    }
  }

  lemma {:induction false} LastOffsetIs(terms: seq<Term>)
    requires terms != []
    ensures HasLength(LowerAll(terms)[..|terms| - 1], LastOffset(terms))
  {
    LowerReplace(terms, terms[|terms| - 1]);
    CodeSizeIs(terms[..|terms| - 1]);
  }

  /** Appending the code of a term. */
  lemma {:induction false} Pushed(before: seq<Byte>, after: seq<Byte>, start: nat, ep0: nat, ep: nat,
                                  terms: seq<Term>, t: Term)
    requires |before| == |after| && start <= ep0 <= ep <= |after|
    requires IsCode(before[start..ep0], terms) && after[start..ep0] == before[start..ep0]
    requires TermCode(after[ep0..ep], t)
    ensures IsCode(after[start..ep], terms + [t])
  {
    LowerPush(terms, t);
    EncodePush(LowerAll(terms), Lower(t));
    Join(after, start, ep0, ep);
  }

  lemma {:induction false} ByteAfter(code: seq<Byte>, start: nat, ep: nat, a: seq<Byte>, b: seq<Byte>)
    requires start <= ep <= |code| && code[start..ep] == a + b && b != []
    ensures start + |a| < ep && code[start + |a|] == b[0]
  {
    assert code[start + |a|] == code[start..ep][|a|];
  }

  lemma {:induction false} LastInstr(code: seq<Byte>, start: nat, ep: nat, prog: seq<Instr>, i: Instr, at: nat)
    requires prog != [] && i == prog[|prog| - 1] && HasLength(prog[..|prog| - 1], at)
    requires start <= ep <= |code| && Encodes(code[start..ep], prog)
    ensures start + at < ep && code[start + at] == Opcode(i)
  {
    EncodeLast(prog);
    ByteAfter(code, start, ep, Encode(prog[..|prog| - 1]), EncodeInstr(i));
  }

  /** Every term has at least its opcode in the buffer. */
  lemma {:induction false} LastOpcode(code: seq<Byte>, start: nat, ep: nat, terms: seq<Term>)
    requires terms != [] && start <= ep <= |code| && IsCode(code[start..ep], terms)
    ensures start + LastOffset(terms) < ep
    ensures code[start + LastOffset(terms)] == Opcode(Lower(terms[|terms| - 1]))
  {
    LastOffsetIs(terms);
    LastInstr(code, start, ep, LowerAll(terms), Lower(terms[|terms| - 1]), LastOffset(terms));
  }

  /** Patching the opcode of the last term and appending some bytes. */
  lemma {:induction false} Patched(before: seq<Byte>, after: seq<Byte>, start: nat, ep0: nat, ep: nat,
                                   terms: seq<Term>, t: Term)
    requires |before| == |after| && start <= ep0 <= ep <= |after| && terms != []
    requires IsCode(before[start..ep0], terms)
    requires var at := start + LastOffset(terms);
             at < ep0 && after[at] == Opcode(Lower(t)) && SameBut(before, after, start, ep0, at)
    requires Extends(Lower(t), Lower(terms[|terms| - 1]), after[ep0..ep])
    ensures IsCode(after[start..ep], terms[|terms| - 1 := t])
  {
    var prog, n := LowerAll(terms), |terms| - 1;
    LowerReplace(terms, t);
    LastOffsetIs(terms);
    PatchedInstr(before, after, start, start + LastOffset(terms), ep0, ep, prog, Lower(terms[n]), Lower(t));
  }

  /** `*` is never applied to a group mark. */
  predicate MarksUnstarred(terms: seq<Term>) {
    terms == [] ||
    (!(IsMark(terms[|terms| - 1].piece) && terms[|terms| - 1].quant.Starred?) && MarksUnstarred(terms[..|terms| - 1]))
  }

  predicate IsMark(p: Piece) { p.Plain? && (p.op.Bra? || p.op.Ket?) }

  // ----- what further tokens do to the buffer -----

  lemma {:induction false} ApplyGrows(st: State, tok: Token)
    requires !tok.End? && Apply(st, tok).Some?
    ensures CodeSize(Apply(st, tok).value.terms) >= CodeSize(st.terms)
  {
    var next := Apply(st, tok).value;
    if |next.terms| == |st.terms| {
      CodeSizeReplace(st.terms, next.terms[|st.terms| - 1]);
    } else {
      CodeSizePush(st.terms, next.terms[|st.terms|]);
    }
  }

  /** Reading on never shortens the code. */
  lemma {:induction false} ParseGrows(s: seq<Byte>, eof: Byte, sed: bool, st: State)
    requires ParseFrom(s, eof, sed, st).Some?
    ensures CodeSize(ParseFrom(s, eof, sed, st).value.state.terms) >= CodeSize(st.terms)
    decreases |s|
  {
    var l := Lex(s, eof, sed, st.terms == []).value;
    if !l.value.End? {
      ApplyGrows(st, l.value);
      ParseGrows(s[l.used..], eof, sed, Apply(st, l.value).value);
    }
  }

  // ----- the writes -----

  /**
   * The code from start to ep is that of the terms, and lastep points at the
   * opcode of the latest one; -1 stands for NULL.
   */
  ghost predicate Written(code: seq<Byte>, start: nat, ep: nat, lastep: int, terms: seq<Term>) {
    start <= ep <= |code| && ep - start == CodeSize(terms) && IsCode(code[start..ep], terms) &&
    MarksUnstarred(terms) && lastep == if terms == [] then -1 else start + LastOffset(terms)
  }

  /** The same of the buffer as it is now (quantified, so that it is spelled out only on demand). */
  ghost predicate Emitted(buf: array<Byte>, start: nat, ep: nat, lastep: int, terms: seq<Term>)
    reads buf
  {
    start <= ep <= buf.Length &&
    forall code {:trigger Written(code, start, ep, lastep, terms)} ::
      code == buf[..] ==> Written(code, start, ep, lastep, terms)
  }

  lemma {:induction false} EmittedNow(buf: array<Byte>, start: nat, ep: nat, lastep: int, terms: seq<Term>)
    requires Emitted(buf, start, ep, lastep, terms)
    ensures Written(buf[..], start, ep, lastep, terms)
  {
  }

  lemma {:induction false} EmittedSize(buf: array<Byte>, start: nat, ep: nat, lastep: int, terms: seq<Term>)
    requires Emitted(buf, start, ep, lastep, terms)
    ensures ep - start == CodeSize(terms)
    ensures if terms == [] then lastep == -1 else start <= lastep < ep
  {
    assert Written(buf[..], start, ep, lastep, terms);
    if terms != [] { LastInside(terms); }
  }

  /** The two sequences differ at most between the two indices. */
  predicate SameOutside(before: seq<Byte>, after: seq<Byte>, start: nat, ep: nat) {
    |before| == |after| && forall j | 0 <= j < |before| && !(start <= j < ep) :: after[j] == before[j]
  }

  lemma {:induction false} TermCodeSize(bytes: seq<Byte>, t: Term)
    requires TermCode(bytes, t)
    ensures |bytes| == TermSize(t)
  {
    TermSizeIs(t);
  }

  /** Writing the code of a term at ep0. */
  lemma {:induction false} WrittenPush(before: seq<Byte>, after: seq<Byte>, start: nat, ep0: nat, ep: nat,
                                       lastep0: int, terms: seq<Term>, t: Term)
    requires Written(before, start, ep0, lastep0, terms) && SameOutside(before, after, ep0, ep)
    requires ep0 <= ep <= |after| && TermCode(after[ep0..ep], t) && t.quant.One?
    ensures Written(after, start, ep, ep0, terms + [t])
  {
    TermCodeSize(after[ep0..ep], t);
    CodeSizePush(terms, t);
    assert after[start..ep0] == before[start..ep0];
    Pushed(before, after, start, ep0, ep, terms, t);
  }

  /** What `*` makes of the terms. */
  function AfterStar(terms: seq<Term>): seq<Term> {
    var n := |terms| - 1;
    if StarIsLiteral(terms) then terms + [Term(Plain(Chr(ASTERISK)), One)]
    else terms[n := terms[n].(quant := WithStar(terms[n].quant))]
  }

  function AfterInterval(terms: seq<Term>, pair: (Byte, Byte)): seq<Term>
    requires terms != []
  {
    var n := |terms| - 1;
    terms[n := terms[n].(quant := WithInterval(terms[n].quant, pair))]
  }

  lemma {:induction false} LowerQuant(t: Term, q: Quant)
    ensures Lower(t.(quant := q)) == Lower(t).(quant := q)
  {
  }

  lemma {:induction false} LastPatchable(terms: seq<Term>)
    requires terms != [] && MarksUnstarred(terms)
    ensures var i := Lower(terms[|terms| - 1]);
            !(i.quant.Starred? && (i.op.Bra? || i.op.Ket?)) &&
            (StarIsLiteral(terms) <==> i.quant.One? && (i.op.Bra? || i.op.Ket?)) &&
            (StarIsLiteral(terms) <==> Opcode(i) == CBRA || Opcode(i) == CKET)
  {
  }

  lemma {:induction false} LastInside(terms: seq<Term>)
    requires terms != []
    ensures LastOffset(terms) < CodeSize(terms)
  {
  }

  /** The test of `*` on the opcode already in the buffer. */
  lemma {:induction false} LastIsMark(code: seq<Byte>, start: nat, ep: nat, terms: seq<Term>)
    requires terms != [] && MarksUnstarred(terms) && start <= ep <= |code| && IsCode(code[start..ep], terms)
    ensures start + LastOffset(terms) < ep
    ensures var b := code[start + LastOffset(terms)]; StarIsLiteral(terms) <==> b == CBRA || b == CKET
  {
    LastOpcode(code, start, ep, terms);
    LastPatchable(terms);
  }

  lemma {:induction false} StarPatches(before: seq<Byte>, after: seq<Byte>, start: nat, ep: nat, terms: seq<Term>)
    requires terms != [] && start <= ep <= |before| == |after| && IsCode(before[start..ep], terms)
    requires MarksUnstarred(terms) && !StarIsLiteral(terms)
    requires var at := start + LastOffset(terms);
             at < ep && SameBut(before, after, start, ep, at) && after[at] == Or(before[at], STAR)
    ensures IsCode(after[start..ep], AfterStar(terms))
  {
    var n := |terms| - 1;
    var i := Lower(terms[n]);
    LastPatchable(terms);
    LastOpcode(before, start, ep, terms);
    LowerQuant(terms[n], WithStar(terms[n].quant));
    PatchedOpcode(i, (0, 0));
    MoreOperands(i, (0, 0));
    assert after[ep..ep] == [];
    Patched(before, after, start, ep, ep, terms, AfterStar(terms)[n]);
  }

  /** Setting the star flag of the last opcode makes the code that of the starred term. */
  lemma {:induction false} WrittenStar(before: seq<Byte>, after: seq<Byte>, start: nat, ep: nat, lastep: int,
                                       terms: seq<Term>)
    requires Written(before, start, ep, lastep, terms) && !StarIsLiteral(terms)
    requires 0 <= lastep < ep && SameOutside(before, after, lastep, lastep + 1)
    requires after[lastep] == Or(before[lastep], STAR)
    ensures Written(after, start, ep, lastep, AfterStar(terms))
  {
    StarPatches(before, after, start, ep, terms);
    LastPatchable(terms);
    CodeSizeReplace(terms, AfterStar(terms)[|terms| - 1]);
  }

  lemma {:induction false} IntervalPatches(before: seq<Byte>, after: seq<Byte>, start: nat, ep: nat,
                                           terms: seq<Term>, pair: (Byte, Byte))
    requires terms != [] && start <= ep <= |before| == |after| && IsCode(before[start..ep], terms)
    requires MarksUnstarred(terms) && ep + 2 <= |after| && after[ep] == pair.0 && after[ep + 1] == pair.1
    requires var at := start + LastOffset(terms);
             at < ep && SameBut(before, after, start, ep, at) && after[at] == Or(before[at], RNGE)
    ensures IsCode(after[start..ep + 2], AfterInterval(terms, pair))
  {
    var n := |terms| - 1;
    var i := Lower(terms[n]);
    LastPatchable(terms);
    LastOpcode(before, start, ep, terms);
    LowerQuant(terms[n], WithInterval(terms[n].quant, pair));
    PatchedOpcode(i, pair);
    MoreOperands(i, pair);
    assert after[ep..ep + 2] == [pair.0, pair.1];
    Patched(before, after, start, ep, ep + 2, terms, AfterInterval(terms, pair)[n]);
  }

  /** What an interval changes in the buffer: the flags of an opcode and two bytes. */
  predicate IntervalPut(before: seq<Byte>, after: seq<Byte>, lastep: nat, ep: nat, pair: (Byte, Byte)) {
    |before| == |after| && lastep < ep && ep + 1 < |after| &&
    after[lastep] == Or(before[lastep], RNGE) && after[ep] == pair.0 && after[ep + 1] == pair.1 &&
    forall j | 0 <= j < |after| && j != lastep && j != ep && j != ep + 1 :: after[j] == before[j]
  }

  /** The effect of an interval. */
  lemma {:induction false} WrittenInterval(before: seq<Byte>, after: seq<Byte>, start: nat, ep: nat, lastep: int,
                                           terms: seq<Term>, pair: (Byte, Byte))
    requires Written(before, start, ep, lastep, terms) && terms != []
    requires IntervalPut(before, after, lastep, ep, pair)
    ensures Written(after, start, ep + 2, lastep, AfterInterval(terms, pair))
  {
    IntervalPatches(before, after, start, ep, terms, pair);
    CodeSizeReplace(terms, AfterInterval(terms, pair)[|terms| - 1]);
  }

  /** Writes an instruction of one byte, which becomes the last one. */
  method PutOne(buf: array<Byte>, start: nat, ep0: nat, op: Byte, ghost lastep0: int, ghost terms: seq<Term>,
                ghost t: Term)
    returns (ep: nat, lastep: int)
    requires ep0 < buf.Length && Emitted(buf, start, ep0, lastep0, terms)
    requires TermCode([op], t) && t.quant.One?
    modifies buf
    ensures start <= ep0 && ep == ep0 + 1 && Emitted(buf, start, ep, lastep, terms + [t])
    ensures SameOutside(old(buf[..]), buf[..], ep0, ep)
  {
    lastep := ep0;
    buf[ep0] := op;
    ep := ep0 + 1;
    assert buf[..][ep0..ep] == [op];
    WrittenPush(old(buf[..]), buf[..], start, ep0, ep, lastep0, terms, t);
  }

  /** Writes an instruction of two bytes, which becomes the last one. */
  method PutTwo(buf: array<Byte>, start: nat, ep0: nat, op: Byte, arg: Byte, ghost lastep0: int,
                ghost terms: seq<Term>, ghost t: Term)
    returns (ep: nat, lastep: int)
    requires ep0 + 1 < buf.Length && Emitted(buf, start, ep0, lastep0, terms)
    requires TermCode([op, arg], t) && t.quant.One?
    modifies buf
    ensures start <= ep0 && ep == ep0 + 2 && Emitted(buf, start, ep, lastep, terms + [t]) && buf[ep0 + 1] == arg
    ensures SameOutside(old(buf[..]), buf[..], ep0, ep)
  {
    lastep := ep0;
    buf[ep0] := op;
    buf[ep0 + 1] := arg;
    ep := ep0 + 2;
    assert buf[..][ep0..ep] == [op, arg];
    WrittenPush(old(buf[..]), buf[..], start, ep0, ep, lastep0, terms, t);
  }

  /** The code of the terms that are not classes. */
  lemma {:induction false} PlainCode(op: Op)
    requires !op.Ccl? && !op.Nccl? && !op.Cxcl?
    ensures OperandSize(op) == 0 ==> TermCode([BaseOpcode(op)], Term(Plain(op), One))
    ensures OperandSize(op) == 1 ==> TermCode([BaseOpcode(op), if op.Chr? then op.c else op.g], Term(Plain(op), One))
  {
  }

  /** `*`: itself at the start and after a group mark, otherwise a patch of the last opcode. */
  method PutStar(buf: array<Byte>, start: nat, ep0: nat, lastep0: int, ghost terms: seq<Term>)
    returns (ep: nat, lastep: int)
    requires ep0 < buf.Length && Emitted(buf, start, ep0, lastep0, terms)
    requires StarIsLiteral(terms) ==> ep0 + 1 < buf.Length
    modifies buf
    ensures start <= ep0 && ep == (if StarIsLiteral(terms) then ep0 + 2 else ep0)
    ensures Emitted(buf, start, ep, lastep, AfterStar(terms)) && (StarIsLiteral(terms) ==> buf[ep0 + 1] == ASTERISK)
    ensures SameOutside(old(buf[..]), buf[..], start, ep)
  {
    ep, lastep := ep0, lastep0;
    EmittedNow(buf, start, ep0, lastep0, terms);
    if terms != [] {
      LastInside(terms);
      LastIsMark(buf[..], start, ep, terms);
    }
    if lastep == -1 || buf[lastep] == CBRA || buf[lastep] == CKET {
      PlainCode(Chr(ASTERISK));
      ep, lastep := PutTwo(buf, start, ep, CCHR, ASTERISK, lastep0, terms, Term(Plain(Chr(ASTERISK)), One));
    } else {
      buf[lastep] := Or(buf[lastep], STAR);
      WrittenStar(old(buf[..]), buf[..], start, ep, lastep, terms);
    }
  }

  /** The interval read from here on is l, and `second` the second byte written while it is read. */
  ghost predicate IntervalAt(input: seq<Byte>, pos: nat, l: Option<Lexed<(Byte, Byte)>>, second: Option<Byte>) {
    pos <= |input| &&
    forall s {:trigger LexInterval(s)} :: s == input[pos..] ==> l == LexInterval(s) && second == SecondWritten(s)
  }

  /** The cell at `at`, if there is one, holds the byte written there, or else what it held before. */
  predicate CellIs(before: seq<Byte>, after: seq<Byte>, at: nat, written: Option<Byte>) {
    |before| == |after| && (at < |after| ==> after[at] == if written.Some? then written.value else before[at])
  }

  method EmitInterval(input: seq<Byte>, pos0: nat, buf: array<Byte>, ep: nat, lastep: nat,
                      ghost l: Option<Lexed<(Byte, Byte)>>, ghost second: Option<Byte>)
    returns (ok: bool, pos: nat)
    requires lastep < ep < buf.Length && IntervalAt(input, pos0, l, second)
    requires second.Some? ==> ep + 1 < buf.Length
    modifies buf
    ensures ok <==> l.Some?
    ensures ok ==> pos == pos0 + l.value.used && IntervalPut(old(buf[..]), buf[..], lastep, ep, l.value.value)
    ensures SameOutside(old(buf[..]), buf[..], lastep, ep + 2) && CellIs(old(buf[..]), buf[..], ep + 1, second)
    ensures ok ==> second.Some?
  {
    assert l == LexInterval(input[pos0..]);
    if l.Some? { SecondIsUpper(input[pos0..]); }
    buf[lastep] := Or(buf[lastep], RNGE);
    ok, pos := CompileInterval(input, pos0, buf, ep, l);
  }

  /** An interval after its `\{`: a patch of the last opcode and two bytes. */
  method PutInterval(input: seq<Byte>, pos0: nat, buf: array<Byte>, start: nat, ep0: nat, lastep: int,
                     ghost terms: seq<Term>, ghost l: Option<Lexed<(Byte, Byte)>>, ghost second: Option<Byte>)
    returns (ok: bool, pos: nat, ep: nat)
    requires ep0 < buf.Length && Emitted(buf, start, ep0, lastep, terms) && terms != []
    requires IntervalAt(input, pos0, l, second) && (second.Some? ==> ep0 + 1 < buf.Length)
    modifies buf
    ensures ok <==> l.Some?
    ensures ok ==> pos == pos0 + l.value.used && start <= ep0 <= ep
    ensures ok ==> ep == ep0 + 2 && Emitted(buf, start, ep, lastep, AfterInterval(terms, l.value.value))
    ensures SameOutside(old(buf[..]), buf[..], start, ep0 + 2) && CellIs(old(buf[..]), buf[..], ep0 + 1, second)
  {
    EmittedNow(buf, start, ep0, lastep, terms);
    LastInside(terms);
    ok, pos := EmitInterval(input, pos0, buf, ep0, lastep, l, second);
    ep := ep0 + 2;
    if ok { WrittenInterval(old(buf[..]), buf[..], start, ep0, lastep, terms, l.value.value); }
  }

  lemma {:induction false} ClassBytes(code: seq<Byte>, ep0: nat, ep: nat, i: Instr)
    requires i.quant.One? && ep0 < ep <= |code|
    requires code[ep0] == Opcode(i) && code[ep0 + 1..ep] == Payload(i.op)
    ensures code[ep0..ep] == EncodeInstr(i)
  {
    assert code[ep0..ep] == [code[ep0]] + code[ep0 + 1..ep];
    assert QuantBytes(i.quant) == [] && Payload(i.op) + [] == Payload(i.op);
  }

  /** A bracket expression after its `[`. */
  method PutClass(input: seq<Byte>, pos0: nat, buf: array<Byte>, start: nat, ep0: nat, endbuf: nat,
                  ghost lastep0: int, ghost terms: seq<Term>, ghost l: Option<Lexed<ClassExpr>>)
    returns (ok: bool, pos: nat, ep: nat, lastep: int)
    requires ep0 < endbuf <= buf.Length && Emitted(buf, start, ep0, lastep0, terms) && ClassAt(input, pos0, l)
    modifies buf
    ensures ok ==> l.Some? && pos == pos0 + l.value.used && start <= ep0 <= ep < endbuf
    ensures ok ==> Emitted(buf, start, ep, lastep, terms + [Term(Class(l.value.value), One)])
    ensures ok ==> SameOutside(old(buf[..]), buf[..], start, ep)
    ensures SameOutside(old(buf[..]), buf[..], start, endbuf)
    ensures !ok ==> l.None? || CodeSize(terms + [Term(Class(l.value.value), One)]) >= endbuf - start
  {
    lastep := ep0;
    EmittedNow(buf, start, ep0, lastep0, terms);
    ok, pos, ep := CompileClass(input, pos0, buf, ep0, endbuf, l);
    if l.Some? {
      ghost var t := Term(Class(l.value.value), One);
      CodeSizePush(terms, t);
      if ok {
        ClassBytes(buf[..], ep0, ep, Lower(t));
        WrittenPush(old(buf[..]), buf[..], start, ep0, ep, lastep0, terms, t);
      }
    }
  }

  // ----- one byte too many -----

  /** The last byte of the code of a term with one operand byte or with an interval. */
  function LastByte(t: Term): Byte {
    if t.quant.Intervals? && t.quant.pairs != [] then t.quant.pairs[|t.quant.pairs| - 1].1
    else if t.piece.Class? then 0
    else match t.piece.op
      case Chr(c) => c
      case Bra(g) => g
      case Ket(g) => g
      case Backref(g) => g
      case _ => 0
  }

  /** The terms have two bytes of code more than before. */
  predicate TwoMore(before: seq<Term>, after: seq<Term>) {
    CodeSize(after) == CodeSize(before) + 2 && after != []
  }

  /** The second byte that the item at the start of s writes, if it is one of two bytes. */
  function SecondByte(s: seq<Byte>, eof: Byte, sed: bool, st: State): Option<Byte> {
    match Lex(s, eof, sed, st.terms == [])
    case None =>
      if |s| >= 2 && s[0] == BACKSLASH != eof && s[1] == LBRACE && st.terms != [] then SecondWritten(s[2..]) else None
    case Some(l) =>
      if l.value.End? then None
      else match Apply(st, l.value)
        case None => None
        case Some(next) =>
          if TwoMore(st.terms, next.terms) then Some(LastByte(next.terms[|next.terms| - 1])) else None
  }

  /**
   * The byte that `compile` writes at `endbuf`, if it does, when it reads s in
   * state st with `room` cells in front of `endbuf` altogether: the second byte of an
   * item that starts in the last of these cells.
   */
  function Spilled(s: seq<Byte>, eof: Byte, sed: bool, st: State, room: int): Option<Byte>
    decreases |s|
  {
    if CodeSize(st.terms) >= room then None
    else if CodeSize(st.terms) == room - 1 && SecondByte(s, eof, sed, st).Some? then SecondByte(s, eof, sed, st)
    else match Lex(s, eof, sed, st.terms == [])
      case None => None
      case Some(l) =>
        if l.value.End? then None
        else match Apply(st, l.value)
          case None => None
          case Some(next) => Spilled(s[l.used..], eof, sed, next, room)
  }

  /** It happens only if the pattern is refused. */
  lemma {:induction false} SpilledIsRefused(s: seq<Byte>, eof: Byte, sed: bool, st: State, room: int)
    requires Spilled(s, eof, sed, st, room).Some?
    ensures var p := ParseFrom(s, eof, sed, st); p.None? || CodeSize(p.value.state.terms) >= room
    decreases |s|
  {
    var l := Lex(s, eof, sed, st.terms == []);
    if l.Some? && !l.value.value.End? {
      var a := Apply(st, l.value.value);
      if a.Some? {
        var rest := s[l.value.used..];
        if ParseFrom(rest, eof, sed, a.value).Some? { ParseGrows(rest, eof, sed, a.value); }
        if Spilled(rest, eof, sed, a.value, room).Some? { SpilledIsRefused(rest, eof, sed, a.value, room); }
      }
    }
  }

  lemma {:induction false} PushIsTwo(terms: seq<Term>, op: Op)
    requires OperandSize(op) == 1
    ensures TwoMore(terms, terms + [Term(Plain(op), One)])
  {
    CodeSizePush(terms, Term(Plain(op), One));
  }

  lemma {:induction false} IntervalIsTwo(terms: seq<Term>, pair: (Byte, Byte))
    requires terms != []
    ensures TwoMore(terms, AfterInterval(terms, pair))
    ensures LastByte(AfterInterval(terms, pair)[|terms| - 1]) == pair.1
  {
    CodeSizeReplace(terms, AfterInterval(terms, pair)[|terms| - 1]);
  }

  /** Every escape but an interval takes two bytes. */
  lemma {:induction false} EscapeIsTwo(st: State, c: Byte)
    ensures var a := Apply(st, EscapeToken(c)); a.Some? ==> TwoMore(st.terms, a.value.terms)
  {
    var a := Apply(st, EscapeToken(c));
    if a.Some? { PushIsTwo(st.terms, a.value.terms[|st.terms|].piece.op); }
  }

  lemma {:induction false} StarAddsNothing(st: State)
    requires st.terms != []
    ensures CodeSize(Requantify(st, WithStar(st.terms[|st.terms| - 1].quant)).terms) == CodeSize(st.terms)
  {
    var t := st.terms[|st.terms| - 1];
    CodeSizeReplace(st.terms, t.(quant := WithStar(t.quant)));
  }
}
