/**
 * The byte code of include/regexp.h: instructions, their encoding and their
 * meaning.  Every program that `compile` can emit is a list of `Instr`; the
 * ones `advance` has cases for are the `Sound` ones.
 */
module Program {
  import opened Bytes
  import opened Semantics

  const CBRA: Byte := 2
  const CCHR: Byte := 4
  const CDOT: Byte := 8
  const CCL: Byte := 12
  const CXCL: Byte := 16
  const CDOL: Byte := 20
  const CCEOF: Byte := 22
  const CKET: Byte := 24
  const CBACK: Byte := 36
  const NCCL: Byte := 40

  const STAR: Byte := 1
  const RNGE: Byte := 3

  /** The second byte of an interval that stands for "no upper limit", and what it then allows. */
  const UNBOUNDED: Byte := 255
  const UNBOUNDED_SIZE: nat := 20000

  datatype Op =
    | Chr(c: Byte)
    | Dot
    | Ccl(members: set<Byte>)    // 16-byte bitmap of what is accepted
    | Nccl(members: set<Byte>)   // 16-byte bitmap of what is refused
    | Cxcl(members: set<Byte>)   // 32-byte bitmap of what is accepted
    | Bra(g: Group)
    | Ket(g: Group)
    | Backref(g: Group)
    | Dol

  /** `compile` appends one pair for every interval it reads, however many follow one item. */
  datatype Quant = One | Starred | Intervals(pairs: seq<(Byte, Byte)>)

  datatype Instr = Instr(op: Op, quant: Quant)

  // ----- encoding -----

  function BaseOpcode(op: Op): Byte {
    match op
    case Chr(_) => CCHR
    case Dot => CDOT
    case Ccl(_) => CCL
    case Nccl(_) => NCCL
    case Cxcl(_) => CXCL
    case Bra(_) => CBRA
    case Ket(_) => CKET
    case Backref(_) => CBACK
    case Dol => CDOL
  }

  /** The opcode of a repeated instruction; `PatchedOpcode` shows that it is the flagged opcode. */
  function Opcode(i: Instr): Byte {
    match i.quant
    case One => BaseOpcode(i.op)
    case Starred => BaseOpcode(i.op) + 1
    case Intervals(_) => if i.op.Bra? then 3 else BaseOpcode(i.op) + 3
  }

  ghost function Payload(op: Op): seq<Byte> {
    match op
    case Chr(c) => [c]
    case Ccl(members) => Pack(members, 16)
    case Nccl(members) => Pack(members, 16)
    case Cxcl(members) => Pack(members, 32)
    case Bra(g) => [g]
    case Ket(g) => [g]
    case Backref(g) => [g]
    case _ => []
  }

  function PairBytes(pairs: seq<(Byte, Byte)>): (r: seq<Byte>)
    ensures |r| == 2 * |pairs|
  {
    if pairs == [] then [] else PairBytes(pairs[..|pairs| - 1]) + [pairs[|pairs| - 1].0, pairs[|pairs| - 1].1]
  }

  function QuantBytes(q: Quant): seq<Byte> { if q.Intervals? then PairBytes(q.pairs) else [] }

  ghost function Operands(i: Instr): seq<Byte> { Payload(i.op) + QuantBytes(i.quant) }

  ghost function EncodeInstr(i: Instr): (r: seq<Byte>)
    ensures |r| >= 1
  {
    [Opcode(i)] + Operands(i)
  }

  ghost function Encode(prog: seq<Instr>): seq<Byte> {
    if prog == [] then [] else EncodeInstr(prog[0]) + Encode(prog[1..])
  }

  /** A whole program, with its end mark. */
  ghost function Code(prog: seq<Instr>): seq<Byte> { Encode(prog) + [CCEOF] }

  /** The bytes stand in the code at this index. */
  ghost predicate Holds(code: seq<Byte>, at: nat, bytes: seq<Byte>) {
    at + |bytes| <= |code| && code[at..at + |bytes|] == bytes
  }

  /** The first instruction, or the end mark if there is none, stands in the code at this index. */
  ghost predicate HeadAt(code: seq<Byte>, ep: nat, prog: seq<Instr>) {
    Holds(code, ep, if prog == [] then [CCEOF] else EncodeInstr(prog[0]))
  }

  /** The program stands in the code at index ep (quantified, so that it is spelled out only on demand). */
  ghost predicate HasCode(code: seq<Byte>, ep: nat, prog: seq<Instr>)
    decreases |prog|
  {
    forall p {:trigger HeadAt(code, ep, p)} :: p == prog ==>
      HeadAt(code, ep, p) && (p == [] || HasCode(code, ep + |EncodeInstr(p[0])|, p[1..]))
  }

  lemma {:induction false} EncodeAppend(a: seq<Instr>, b: seq<Instr>)
    ensures Encode(a + b) == Encode(a) + Encode(b)
    decreases |a|
  {
    if a == [] {
      assert a + b == b;
    } else {
      assert (a + b)[1..] == a[1..] + b;
      EncodeAppend(a[1..], b);
    }
  }

  lemma {:induction false} EncodeOne(i: Instr)
    ensures Encode([i]) == EncodeInstr(i)
  {
  }

  lemma {:induction false} Parts(h: Byte, b: seq<Byte>, c: seq<Byte>, x: seq<Byte>)
    ensures var s := [h] + (b + c) + x;
            s[0] == h && s[1..1 + |b|] == b && s[1 + |b|..1 + |b| + |c|] == c && s[1 + |b| + |c|..] == x
  {
  }

  lemma {:induction false} PairBytesOne(pair: (Byte, Byte))
    ensures PairBytes([pair]) == [pair.0, pair.1]
  {
  }

  lemma {:induction false} HoldsSplit(code: seq<Byte>, at: nat, a: seq<Byte>, b: seq<Byte>)
    requires Holds(code, at, a + b)
    ensures Holds(code, at, a) && Holds(code, at + |a|, b)
  {
    var s := code[at..at + |a + b|];
    assert a == s[..|a|] == code[at..at + |a|];
    assert b == s[|a|..] == code[at + |a|..at + |a| + |b|];
  }

  lemma {:induction false} CodeStep(prog: seq<Instr>)
    requires prog != []
    ensures Code(prog) == EncodeInstr(prog[0]) + Code(prog[1..])
  {
    var a, b := EncodeInstr(prog[0]), Encode(prog[1..]);
    assert (a + b) + [CCEOF] == a + (b + [CCEOF]);
  }

  lemma {:induction false} HasCodeTail(code: seq<Byte>, ep: nat, prog: seq<Instr>)
    requires prog != [] && HasCode(code, ep, prog)
    ensures HasCode(code, ep + |EncodeInstr(prog[0])|, prog[1..])
  {
    assert HeadAt(code, ep, prog);
  }

  /** Reading one instruction, or the end mark, off the front of a program. */
  lemma {:induction false} HasCodeStep(code: seq<Byte>, ep: nat, prog: seq<Instr>)
    requires HasCode(code, ep, prog)
    ensures HeadAt(code, ep, prog)
    ensures ep < |code| && code[ep] == if prog == [] then CCEOF else Opcode(prog[0])
  {
    assert HeadAt(code, ep, prog);
    var bytes := if prog == [] then [CCEOF] else EncodeInstr(prog[0]);
    assert code[ep] == code[ep..ep + |bytes|][0] == bytes[0];
  }

  function OperandSize(op: Op): nat {
    match op
    case Ccl(_) => 16
    case Nccl(_) => 16
    case Cxcl(_) => 32
    case Dot => 0
    case Dol => 0
    case _ => 1
  }

  /** Bytes of a sound instruction, opcode included. */
  function Size(i: Instr): nat { 1 + OperandSize(i.op) + if i.quant.Intervals? then 2 else 0 }

  /** The bitmap of the set stands in the code at ep. */
  ghost predicate BitmapAt(code: seq<Byte>, ep: nat, members: set<Byte>, n: nat) {
    Holds(code, ep, Pack(members, n))
  }

  /** The operands of a sound instruction stand in the code at ep. */
  ghost predicate OperandsAt(code: seq<Byte>, ep: nat, i: Instr) {
    var n := ep + OperandSize(i.op);
    (match i.op
     case Chr(c) => n <= |code| && code[ep] == c
     case Ccl(members) => BitmapAt(code, ep, members, 16)
     case Nccl(members) => BitmapAt(code, ep, members, 16)
     case Cxcl(members) => BitmapAt(code, ep, members, 32)
     case Bra(g) => n <= |code| && code[ep] == g
     case Ket(g) => n <= |code| && code[ep] == g
     case Backref(g) => n <= |code| && code[ep] == g
     case _ => true) &&
    (i.quant.Intervals? && |i.quant.pairs| == 1 ==>
       n + 1 < |code| && code[n] == i.quant.pairs[0].0 && code[n + 1] == i.quant.pairs[0].1)
  }

  lemma {:induction false} SliceOfSlice(code: seq<Byte>, at: nat, n: nat, i: nat, j: nat)
    requires i <= j <= n && at + n <= |code|
    ensures code[at..at + n][i..j] == code[at + i..at + j]
  {
    var a, b := code[at..at + n][i..j], code[at + i..at + j];
    assert |a| == |b|;
    forall k | 0 <= k < |a| ensures a[k] == b[k] {
      assert a[k] == code[at..at + n][i + k] == code[at + i + k];
    }
  }

  lemma {:induction false} HoldsParts(code: seq<Byte>, at: nat, h: Byte, b: seq<Byte>, c: seq<Byte>)
    requires Holds(code, at, [h] + (b + c))
    ensures Holds(code, at + 1, b) && Holds(code, at + 1 + |b|, c)
  {
    Parts(h, b, c, []);
    var s := [h] + (b + c);
    assert s + [] == s == code[at..at + |s|] && |s| == 1 + |b| + |c|;
    SliceOfSlice(code, at, |s|, 1, 1 + |b|);
    SliceOfSlice(code, at, |s|, 1 + |b|, |s|);
    assert code[at + 1..at + 1 + |b|] == s[1..1 + |b|];
    assert code[at + 1 + |b|..at + |s|] == s[1 + |b|..|s|];
    assert at + |s| == (at + 1 + |b|) + |c|;
  }

  lemma {:induction false} HoldsByte(code: seq<Byte>, at: nat, bytes: seq<Byte>, k: nat)
    requires Holds(code, at, bytes) && k < |bytes|
    ensures code[at + k] == bytes[k]
  {
    assert code[at + k] == code[at..at + |bytes|][k];
  }

  lemma {:induction false} OperandsFollow(code: seq<Byte>, ep: nat, i: Instr)
    requires Sound(i) && Holds(code, ep, EncodeInstr(i))
    ensures OperandsAt(code, ep + 1, i) && |EncodeInstr(i)| == Size(i)
  {
    HoldsParts(code, ep, Opcode(i), Payload(i.op), QuantBytes(i.quant));
    var n := ep + 1 + |Payload(i.op)|;
    if OperandSize(i.op) == 1 { HoldsByte(code, ep + 1, Payload(i.op), 0); }
    if i.quant.Intervals? {
      var pair := i.quant.pairs[0];
      PairBytesOne(pair);
      assert i.quant.pairs == [pair];
      HoldsByte(code, n, [pair.0, pair.1], 0);
      HoldsByte(code, n, [pair.0, pair.1], 1);
    }
  }

  /** A buffer that holds the bytes of a program holds the program. */
  lemma {:induction false} CodeHasCode(code: seq<Byte>, ep: nat, prog: seq<Instr>)
    requires Holds(code, ep, Code(prog))
    ensures HasCode(code, ep, prog)
    decreases |prog|
  {
    if prog == [] {
      assert Code(prog) == [CCEOF];
    } else {
      CodeStep(prog);
      HoldsSplit(code, ep, EncodeInstr(prog[0]), Code(prog[1..]));
      CodeHasCode(code, ep + |EncodeInstr(prog[0])|, prog[1..]);
    }
  }

  // ----- patching an emitted opcode -----

  lemma {:induction false} OrNothing(x: nat)
    ensures Combine(OrOp, x, 0) == x
  {
    if x > 0 { OrNothing(x / 2); }
  }

  lemma {:induction false} OrFlag(x: Byte)
    ensures Or(x, STAR) == x / 2 * 2 + 1
    ensures Or(x, RNGE) == x / 4 * 4 + 3
  {
    OrNothing(x / 2);
    OrNothing(x / 2 / 2);
    assert Combine(OrOp, x / 2, 1) == 2 * Combine(OrOp, x / 2 / 2, 0) + 1;
    assert Combine(OrOp, x, 3) == 2 * Combine(OrOp, x / 2, 1) + 1;
    assert Combine(OrOp, x, 1) == 2 * Combine(OrOp, x / 2, 0) + 1;
  }

  lemma {:induction false} OrFlags(b: Byte, flags: Byte)
    requires b % 4 == 0 && flags in {0, STAR, RNGE}
    ensures b + flags < 256
    ensures Or(b + flags, STAR) == if flags == 0 then b + 1 else b + flags
    ensures Or(b + flags, RNGE) == b + 3
  {
    OrFlag(b + flags);
  }

  /** What `*` makes of the repetition of the item before it. */
  function WithStar(q: Quant): Quant { if q.Intervals? then q else Starred }

  /** What an interval makes of the repetition of the item before it. */
  function WithInterval(q: Quant, pair: (Byte, Byte)): Quant {
    Intervals((if q.Intervals? then q.pairs else []) + [pair])
  }

  /** Setting the flags STAR or RNGE in place turns an opcode into the opcode of the repeated item. */
  lemma {:induction false} PatchedOpcode(i: Instr, pair: (Byte, Byte))
    requires !(i.quant.Starred? && (i.op.Bra? || i.op.Ket?))
    ensures !(i.quant.One? && i.op.Bra?) ==> Or(Opcode(i), STAR) == Opcode(i.(quant := WithStar(i.quant)))
    ensures Or(Opcode(i), RNGE) == Opcode(i.(quant := WithInterval(i.quant, pair)))
  {
    if i.op.Bra? {
      assert Or(2, RNGE) == 3 && Or(3, RNGE) == 3 && Or(3, STAR) == 3;
    } else {
      OrFlags(BaseOpcode(i.op), Opcode(i) - BaseOpcode(i.op));
    }
  }

  /** The numbers of the opcodes, of the flags and of the end mark. */
  lemma {:induction false} OpcodeNumbers(op: Op)
    ensures Opcode(Instr(op, One)) ==
            match op
            case Bra(_) => 2
            case Chr(_) => 4
            case Dot => 8
            case Ccl(_) => 12
            case Cxcl(_) => 16
            case Dol => 20
            case Ket(_) => 24
            case Backref(_) => 36
            case Nccl(_) => 40
    ensures STAR == 1 && RNGE == 3 && Code([]) == [22]
  {
  }

  // ----- what `advance` can run -----

  predicate ByteTest(op: Op) { op.Chr? || op.Dot? || op.Ccl? || op.Nccl? || op.Cxcl? }

  /** The opcode has a case in `advance`, and byte tests never accept NUL. */
  predicate Sound(i: Instr) {
    (match i.op
     case Chr(c) => c != 0
     case Ccl(members) => 0 !in members && forall c | c in members :: c < 128
     case Nccl(members) => 0 in members && forall c | c in members :: c < 128
     case Cxcl(members) => 0 !in members
     case _ => true) &&
    (match i.quant
     case One => true
     case Starred => ByteTest(i.op) || i.op.Backref?
     case Intervals(pairs) => ByteTest(i.op) && |pairs| == 1 && pairs[0].0 <= pairs[0].1)
  }

  predicate AllSound(prog: seq<Instr>) { forall i :: 0 <= i < |prog| ==> Sound(prog[i]) }

  // ----- meaning -----

  /** The bytes a byte test of `advance` accepts. */
  function ByteSet(op: Op): set<Byte>
    requires ByteTest(op)
  {
    match op
    case Chr(c) => {c}
    case Dot => Others({})
    case Ccl(members) => members
    case Nccl(members) => set c: Byte | c >= 128 || c !in members
    case Cxcl(members) => members
  }

  function UpperLimit(pair: (Byte, Byte)): nat {
    if pair.1 == UNBOUNDED then pair.0 + UNBOUNDED_SIZE else pair.1
  }

  function OpAtom(op: Op): Atom {
    match op
    case Bra(g) => Open(g)
    case Ket(g) => Close(g)
    case Backref(g) => Back(g)
    case Dol => AtEnd
    case _ => OneOf(ByteSet(op))
  }

  function QuantRep(q: Quant): Rep {
    match q
    case One => Once
    case Starred => Star
    case Intervals(pairs) => if pairs == [] then Once else Range(pairs[0].0, UpperLimit(pairs[0]))
  }

  function Meaning(i: Instr): Item { Item(OpAtom(i.op), QuantRep(i.quant)) }

  function Meanings(prog: seq<Instr>): (r: seq<Item>)
    ensures |r| == |prog|
  {
    if prog == [] then [] else [Meaning(prog[0])] + Meanings(prog[1..])
  }

  lemma {:induction false} MeaningAt(prog: seq<Instr>, i: nat)
    requires i < |prog|
    ensures Meanings(prog)[i] == Meaning(prog[i])
    decreases |prog|
  {
    if i > 0 { MeaningAt(prog[1..], i - 1); }
  }

  lemma {:induction false} MeaningsShaped(prog: seq<Instr>)
    requires AllSound(prog)
    ensures Shaped(Meanings(prog))
  {
    forall i | 0 <= i < |prog|
      ensures Repeatable(Meanings(prog)[i])
      ensures Meanings(prog)[i].atom.OneOf? ==> 0 !in Meanings(prog)[i].atom.members
    {
      MeaningAt(prog, i);
      assert Sound(prog[i]);
    }
  }

  // ----- a buffer holds at most one program -----

  /** Opcodes tell kinds of operation and of repetition apart, and none is the end mark. */
  lemma {:induction false} SameKind(a: Instr, b: Instr)
    requires Sound(a) && Sound(b) && Opcode(a) == Opcode(b)
    ensures BaseOpcode(a.op) == BaseOpcode(b.op)
    ensures a.quant.One? == b.quant.One? && a.quant.Starred? == b.quant.Starred?
    ensures Opcode(a) != CCEOF
  {
  }

  lemma {:induction false} SamePairs(a: Instr, b: Instr)
    requires Sound(a) && Sound(b) && a.quant.Intervals? && b.quant.Intervals?
    requires QuantBytes(a.quant) == QuantBytes(b.quant)
    ensures a.quant == b.quant
  {
    var x, y := a.quant.pairs, b.quant.pairs;
    assert x == [x[0]] && y == [y[0]];
    PairBytesOne(x[0]);
    PairBytesOne(y[0]);
    assert PairBytes(x)[0] == PairBytes(y)[0] && PairBytes(x)[1] == PairBytes(y)[1];
  }

  lemma {:induction false} InstrUnique(a: Instr, b: Instr, x: seq<Byte>, y: seq<Byte>)
    requires Sound(a) && Sound(b) && EncodeInstr(a) + x == EncodeInstr(b) + y
    ensures a == b && x == y
  {
    Parts(Opcode(a), Payload(a.op), QuantBytes(a.quant), x);
    Parts(Opcode(b), Payload(b.op), QuantBytes(b.quant), y);
    SameKind(a, b);
    assert |Payload(a.op)| == |Payload(b.op)|;
    SamePayload(a.op, b.op);
    if a.quant.Intervals? { SamePairs(a, b); }
  }

  lemma {:induction false} SamePayload(a: Op, b: Op)
    requires Sound(Instr(a, One)) && Sound(Instr(b, One))
    requires BaseOpcode(a) == BaseOpcode(b) && Payload(a) == Payload(b)
    ensures a == b
  {
    if a.Chr? || a.Bra? || a.Ket? || a.Backref? {
      assert Payload(a)[0] == Payload(b)[0];
    } else if a.Ccl? || a.Nccl? {
      forall c: Byte | c < 128 ensures c in a.members <==> c in b.members {
        PackInjective(a.members, b.members, 16, c);
      }
      assert a.members == b.members;
    } else if a.Cxcl? {
      forall c: Byte ensures c in a.members <==> c in b.members {
        PackInjective(a.members, b.members, 32, c);
      }
      assert a.members == b.members;
    }
  }

  lemma {:induction false} Associative(a: seq<Byte>, b: seq<Byte>, c: seq<Byte>)
    ensures (a + b) + c == a + (b + c)
  {
  }

  lemma {:induction false} HeadUnique(a: seq<Instr>, b: seq<Instr>, x: seq<Byte>, y: seq<Byte>)
    requires a != [] && b != [] && Sound(a[0]) && Sound(b[0]) && Code(a) + x == Code(b) + y
    ensures a[0] == b[0] && Code(a[1..]) + x == Code(b[1..]) + y
  {
    CodeStep(a);
    CodeStep(b);
    Associative(EncodeInstr(a[0]), Code(a[1..]), x);
    Associative(EncodeInstr(b[0]), Code(b[1..]), y);
    InstrUnique(a[0], b[0], Code(a[1..]) + x, Code(b[1..]) + y);
  }

  lemma {:induction false} EndIsNoInstr(b: seq<Instr>, x: seq<Byte>, y: seq<Byte>)
    requires b != [] && Sound(b[0])
    ensures Code([]) + x != Code(b) + y
  {
    SameKind(b[0], b[0]);
    CodeStep(b);
    assert (Code([]) + x)[0] == CCEOF;
    assert (Code(b) + y)[0] == EncodeInstr(b[0])[0] == Opcode(b[0]);
  }

  /** No buffer can be read as two different programs. */
  lemma {:induction false} DecodeUnique(a: seq<Instr>, b: seq<Instr>, x: seq<Byte>, y: seq<Byte>)
    requires AllSound(a) && AllSound(b) && Code(a) + x == Code(b) + y
    ensures a == b && x == y
    decreases |a|
  {
    if a == [] && b == [] {
      assert (Code(a) + x)[1..] == x && (Code(b) + y)[1..] == y;
    } else if a == [] {
      EndIsNoInstr(b, x, y);
    } else if b == [] {
      EndIsNoInstr(a, y, x);
    } else {
      HeadUnique(a, b, x, y);
      DecodeUnique(a[1..], b[1..], x, y);
      assert a == [a[0]] + a[1..] && b == [b[0]] + b[1..];
    }
  }
}
