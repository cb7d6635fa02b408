/**
 * Writing code into the caller's buffer: bitmaps, instructions, and the
 * patching of an instruction already written.
 */
module Emit {
  import opened Bytes
  import opened Program
  import opened Syntax
  import opened Parse

  // ----- bitmaps -----

  /** The w cells from ep on are the bitmap of the set. */
  ghost predicate BitmapIn(buf: array<Byte>, ep: nat, s: set<Byte>, w: nat)
    reads buf
  {
    ep + w <= buf.Length && forall j | 0 <= j < w :: buf[ep + j] == PackByte(s, j)
  }

  /** PLACE(c). */
  method Place(buf: array<Byte>, ep: nat, c: Byte, ghost s: set<Byte>, ghost w: nat)
    requires BitmapIn(buf, ep, s, w) && c < 8 * w
    modifies buf
    ensures BitmapIn(buf, ep, s + {c}, w)
    ensures forall j | 0 <= j < buf.Length && !(ep <= j < ep + w) :: buf[j] == old(buf[j])
  {
    buf[ep + c / 8] := Placed(buf[ep + c / 8], c);
    PlaceAdds(s, c);
    forall j | 0 <= j < w ensures buf[ep + j] == PackByte(s + {c}, j) {
      if j != c / 8 { PlaceLeaves(s, c, j); }
    }
  }

  /** Places every character from lc0 up to, but not including, c. */
  method PlaceRange(buf: array<Byte>, ep: nat, lc0: Byte, c: Byte, ghost s: set<Byte>, ghost w: nat)
    requires BitmapIn(buf, ep, s, w) && c <= 8 * w
    modifies buf
    ensures BitmapIn(buf, ep, s + Between(lc0, c), w)
    ensures forall j | 0 <= j < buf.Length && !(ep <= j < ep + w) :: buf[j] == old(buf[j])
  {
    var lc := lc0;
    ghost var done := s;
    while lc < c
      invariant lc0 <= lc && (lc0 <= c ==> lc <= c) && (lc0 > c ==> lc == lc0)
      invariant done == s + Between(lc0, lc)
      invariant BitmapIn(buf, ep, done, w)
      invariant forall j | 0 <= j < buf.Length && !(ep <= j < ep + w) :: buf[j] == old(buf[j])
    {
      Place(buf, ep, lc, done, w);
      done := done + {lc};
      lc := lc + 1;
    }
    assert s + Between(lc0, c) == done;
  }

  /** Clears cells from `lo` to `hi`. */
  method Clear(buf: array<Byte>, ep: nat, lo: nat, hi: nat)
    requires lo <= hi && ep + hi <= buf.Length
    modifies buf
    ensures forall j | ep + lo <= j < ep + hi :: buf[j] == 0
    ensures forall j | 0 <= j < buf.Length && !(ep + lo <= j < ep + hi) :: buf[j] == old(buf[j])
  {
    var i := lo;
    while i < hi
      invariant lo <= i <= hi
      invariant forall j | ep + lo <= j < ep + i :: buf[j] == 0
      invariant forall j | 0 <= j < buf.Length && !(ep + lo <= j < ep + hi) :: buf[j] == old(buf[j])
    {
      buf[ep + i] := 0;
      i := i + 1;
    }
  }

  lemma {:induction false} EmptyCell(s: set<Byte>, j: nat)
    requires forall c: Byte | c / 8 == j :: c !in s
    ensures PackByte(s, j) == 0
  {
    forall k | 0 <= k < 8 ensures Bit(0, k) <==> 8 * j + k in s {
      ZeroBit(k);
      assert 8 * j + k < 256 ==> (8 * j + k) / 8 == j;
    }
    PackByteUnique(s, j, 0);
  }

  /** The first eight-bit character: the opcode becomes CXCL and the bitmap 32 bytes long. */
  method Widen(buf: array<Byte>, ep: nat, ghost s: set<Byte>)
    requires 0 < ep && ep + 32 <= buf.Length && BitmapIn(buf, ep, s, 16) && forall c | c in s :: c < 128
    modifies buf
    ensures BitmapIn(buf, ep, s, 32) && buf[ep - 1] == CXCL
    ensures forall j | 0 <= j < buf.Length && !(ep - 1 <= j < ep + 32) :: buf[j] == old(buf[j])
  {
    buf[ep - 1] := CXCL;
    Clear(buf, ep, 16, 32);
    forall j | 0 <= j < 32 ensures buf[ep + j] == PackByte(s, j) {
      if j >= 16 { EmptyCell(s, j); }
    }
  }

  /** Cell i of the complement, but for the NUL bit, which is cleared in the end. */
  ghost predicate Flipped(b: Byte, s: set<Byte>, i: nat) {
    (if i == 0 then And(b, 254) else b) == PackByte(Others(s), i)
  }

  /** Flips all the bits of one cell. */
  method Flip(buf: array<Byte>, at: nat, ghost s: set<Byte>, ghost i: nat)
    requires at < buf.Length && i < 32 && buf[at] == PackByte(s, i)
    modifies buf
    ensures Flipped(buf[at], s, i)
    ensures forall j | 0 <= j < buf.Length && j != at :: buf[j] == old(buf[j])
  {
    XorComplements(s, i);
    buf[at] := Xor(buf[at], 255);
  }

  method FlipAll(buf: array<Byte>, ep: nat, ghost s: set<Byte>)
    requires BitmapIn(buf, ep, s, 32)
    modifies buf
    ensures And(buf[ep], 254) == PackByte(Others(s), 0)
    ensures forall j | ep < j < ep + 32 :: buf[j] == PackByte(Others(s), j - ep)
    ensures forall j | 0 <= j < buf.Length && !(ep <= j < ep + 32) :: buf[j] == old(buf[j])
  {
    var i := 0;
    while i < 32
      invariant 0 <= i <= 32
      invariant forall j | ep <= j < ep + i :: Flipped(buf[j], s, j - ep)
      invariant forall j | ep + i <= j < ep + 32 :: buf[j] == old(buf[j])
      invariant forall j | 0 <= j < buf.Length && !(ep <= j < ep + 32) :: buf[j] == old(buf[j])
    {
      Flip(buf, ep + i, s, i);
      i := i + 1;
    }
    assert Flipped(buf[ep], s, 0);
  }

  /** The end of a negated eight-bit class. */
  method NegateWide(buf: array<Byte>, ep: nat, ghost s: set<Byte>)
    requires BitmapIn(buf, ep, s, 32)
    modifies buf
    ensures BitmapIn(buf, ep, Others(s), 32)
    ensures forall j | 0 <= j < buf.Length && !(ep <= j < ep + 32) :: buf[j] == old(buf[j])
  {
    FlipAll(buf, ep, s);
    buf[ep] := And(buf[ep], 254);
  }

  /** The end of a negated seven-bit class: its NUL bit is set so that NUL is refused. */
  method NegateNarrow(buf: array<Byte>, ep: nat, ghost s: set<Byte>)
    requires 0 < ep && BitmapIn(buf, ep, s, 16)
    modifies buf
    ensures BitmapIn(buf, ep, s + {0}, 16) && buf[ep - 1] == NCCL
    ensures forall j | 0 <= j < buf.Length && !(ep - 1 <= j < ep + 16) :: buf[j] == old(buf[j])
  {
    buf[ep - 1] := NCCL;
    buf[ep] := Or(buf[ep], 1);
    OrOneAddsNul(s);
    forall j | 0 <= j < 16 ensures buf[ep + j] == PackByte(s + {0}, j) {
      if j > 0 { PlaceLeaves(s, 0, j); }
    }
  }

  // ----- bracket expressions -----

  /** A lexed body, with the elements and the n bytes read before it. */
  function Resume(acc: seq<Elem>, n: nat, r: Option<Lexed<(seq<Elem>, bool)>>): Option<Lexed<(seq<Elem>, bool)>> {
    if r.None? then None else Some(Lexed((acc + r.value.value.0, r.value.value.1), n + r.value.used))
  }

  lemma {:induction false} ResumeStep(s: seq<Byte>, e: Elem, k: nat, acc: seq<Elem>, n: nat)
    requires 0 < k < |s|
    ensures s[k] != RBRACKET ==>
              Resume(acc, n, LexMore(s, e, k)) == Resume(acc + [e], n + k, LexBody(s[k..], e.c))
    ensures s[k] == RBRACKET ==>
              Resume(acc, n, LexMore(s, e, k)) == Some(Lexed((acc + [e], false), n + k + 1))
  {
    var l := LexBody(s[k..], e.c);
    if s[k] != RBRACKET && l.Some? {
      assert acc + ([e] + l.value.value.0) == (acc + [e]) + l.value.value.0;
    }
  }

  /** An eight-bit character that was read makes the class an eight-bit one. */
  lemma {:induction false} ResumeWide(s: seq<Byte>, e: Elem, k: nat, acc: seq<Elem>, n: nat)
    requires 0 < k <= |s| && e.c >= 128
    ensures var r := Resume(acc, n, LexMore(s, e, k)); r.Some? ==> Wide(r.value.value.0)
  {
    var r := Resume(acc, n, LexMore(s, e, k));
    if r.Some? { assert r.value.value.0[|acc|] == e; }
  }

  /** The state of a class under construction: opcode, bitmap and what was read so far. */
  ghost predicate Building(buf: array<Byte>, ep: nat, acc: seq<Elem>, narrow: bool)
    reads buf
  {
    0 < ep && BitmapIn(buf, ep, Members(acc), if narrow then 16 else 32) &&
    buf[ep - 1] == (if narrow then CCL else CXCL) && (narrow <==> !Wide(acc))
  }

  lemma {:induction false} MembersPush(acc: seq<Elem>, e: Elem)
    ensures Members(acc + [e]) == Members(acc) + Span(Prev(acc, |acc|), e)
    ensures Wide(acc + [e]) <==> Wide(acc) || e.c >= 128
  {
    var body := acc + [e];
    assert body[..|acc|] == acc;
    assert body[|acc|] == e;
    if i :| 0 <= i < |acc| && acc[i].c >= 128 { assert body[i].c >= 128; }
  }

  lemma {:induction false} NarrowMembers(acc: seq<Elem>)
    requires !Wide(acc)
    ensures forall c | c in Members(acc) :: c < 128
  {
    forall c | c in Members(acc) ensures c < 128 {
      MembersAreListed(acc, c);
    }
  }

  /** Makes room for an eight-bit character if this is the first one. */
  method NoteCharacter(buf: array<Byte>, ep: nat, endbuf: nat, c: Byte, narrow0: bool, ghost acc: seq<Elem>)
    returns (ok: bool, narrow: bool)
    requires endbuf <= buf.Length && Building(buf, ep, acc, narrow0)
    modifies buf
    ensures !ok ==> c >= 128 && ep + 32 >= endbuf && forall j | 0 <= j < buf.Length :: buf[j] == old(buf[j])
    ensures ok ==> BitmapIn(buf, ep, Members(acc), if narrow then 16 else 32)
    ensures ok ==> buf[ep - 1] == (if narrow then CCL else CXCL) && (narrow <==> narrow0 && c < 128)
    ensures ok && !narrow && narrow0 ==> ep + 32 < endbuf
    ensures ok ==> forall j | 0 <= j < buf.Length && !(ep - 1 <= j < ep + if narrow then 16 else 32) ::
                     buf[j] == old(buf[j])
  {
    ok, narrow := true, narrow0;
    if c >= 128 && narrow {
      narrow := false;
      if ep + 32 >= endbuf { return false, narrow; }
      NarrowMembers(acc);
      Widen(buf, ep, Members(acc));
    }
  }

  /** The body read from here on completes to `want` (quantified, so that it is unfolded only on demand). */
  ghost predicate Completes(input: seq<Byte>, at: nat, lc: Byte, acc: seq<Elem>, n: nat,
                            want: Option<Lexed<(seq<Elem>, bool)>>)
  {
    at <= |input| &&
    forall s {:trigger LexBody(s, lc)} :: s == input[at..] ==> want == Resume(acc, n, LexBody(s, lc))
  }

  /** What reading one element at this index means for the body as a whole. */
  lemma {:induction false} BodyStep(input: seq<Byte>, at: nat, lc: Byte, acc: seq<Elem>, n: nat,
                                    want: Option<Lexed<(seq<Elem>, bool)>>)
    returns (e: Elem)
    requires at < |input| && input[at] != 0 && input[at] != NEWLINE
    requires Completes(input, at, lc, acc, n, want)
    ensures var ranging := input[at] == DASH && lc != 0;
            var next := at + if ranging then 2 else 1;
            if next > |input| then want.None?
            else if ranging && input[at + 1] == RBRACKET then want == Some(Lexed((acc, true), n + 2))
            else
              e == (if ranging then To(input[at + 1]) else Single(input[at])) &&
              (want.Some? && e.c >= 128 ==> Wide(want.value.value.0)) &&
              if next == |input| then want.None?
              else if input[next] == RBRACKET then want == Some(Lexed((acc + [e], false), n + next - at + 1))
              else Completes(input, next, e.c, acc + [e], n + next - at, want)
  {
    var s := input[at..];
    assert want == Resume(acc, n, LexBody(s, lc));
    var ranging := input[at] == DASH && lc != 0;
    var k := if ranging then 2 else 1;
    e := Single(input[at]);
    if at + k <= |input| {
      if ranging { e := To(input[at + 1]); }
      if ranging && input[at + 1] == RBRACKET {
        assert acc + [] == acc;
      } else {
        assert LexBody(s, lc) == LexMore(s, e, k);
        if e.c >= 128 { ResumeWide(s, e, k, acc, n); }
        if at + k < |input| {
          ResumeStep(s, e, k, acc, n);
          assert s[k..] == input[at + k..];
        }
      }
    }
  }

  lemma {:induction false} EndlessBody(input: seq<Byte>, at: nat, lc: Byte, acc: seq<Elem>, n: nat,
                    want: Option<Lexed<(seq<Elem>, bool)>>)
    requires Completes(input, at, lc, acc, n, want)
    requires at == |input| || input[at] == 0 || input[at] == NEWLINE
    ensures want.None?
  {
    assert want == Resume(acc, n, LexBody(input[at..], lc));
  }

  /** One character of a class, or the range up to it from the character lc before. */
  method AddElem(buf: array<Byte>, ep: nat, endbuf: nat, lc: Byte, c: Byte, ranging: bool, narrow0: bool,
                 ghost acc: seq<Elem>)
    returns (ok: bool, narrow: bool)
    requires endbuf <= buf.Length && Building(buf, ep, acc, narrow0) && lc == Prev(acc, |acc|)
    requires ep + (if narrow0 then 16 else 32) < endbuf
    modifies buf
    ensures !ok ==> c >= 128 && ep + 32 >= endbuf && forall j | 0 <= j < buf.Length :: buf[j] == old(buf[j])
    ensures ok ==> Building(buf, ep, acc + [if ranging then To(c) else Single(c)], narrow)
    ensures ok ==> ep + (if narrow then 16 else 32) < endbuf
    ensures ok ==> forall j | 0 <= j < buf.Length && !(ep - 1 <= j < ep + if narrow then 16 else 32) ::
                     buf[j] == old(buf[j])
  {
    ok, narrow := NoteCharacter(buf, ep, endbuf, c, narrow0, acc);
    if !ok { return; }
    ghost var members := Members(acc);
    if ranging {
      PlaceRange(buf, ep, lc, c, members, if narrow then 16 else 32);
      members := members + Between(lc, c);
    }
    Place(buf, ep, c, members, if narrow then 16 else 32);
    ghost var e := if ranging then To(c) else Single(c);
    MembersPush(acc, e);
    assert members + {c} == Members(acc + [e]);
  }

  /** After one more element: the end of the class, no class at all, or more to come. */
  datatype Progress = More | Finished | Failed

  /**
   * Reads the rest of the element that starts with c0: a single character, or
   * a range up to c.  Finished stands for a `-` right in front of the `]`.
   */
  method ReadElem(input: seq<Byte>, pos0: nat, c0: Byte, lc: Byte, ghost acc: seq<Elem>, ghost n: nat,
                  ghost want: Option<Lexed<(seq<Elem>, bool)>>)
    returns (kind: Progress, pos: nat, c: Byte, ranging: bool, ghost e: Elem)
    requires 0 < pos0 <= |input| && c0 == input[pos0 - 1] && Completes(input, pos0 - 1, lc, acc, n, want)
    ensures pos0 <= pos <= |input|
    ensures kind.Failed? ==> want.None?
    ensures kind.Finished? ==> want == Some(Lexed((acc, true), n + pos - pos0 + 1))
    ensures kind.More? ==>
              e == (if ranging then To(c) else Single(c)) &&
              (want.Some? && c >= 128 ==> Wide(want.value.value.0)) &&
              if pos == |input| then want.None?
              else if input[pos] == RBRACKET then want == Some(Lexed((acc + [e], false), n + pos - pos0 + 2))
              else Completes(input, pos, c, acc + [e], n + pos - pos0 + 1, want)
  {
    kind, pos, c, ranging, e := Failed, pos0, c0, false, Single(c0);
    if c == 0 || c == NEWLINE {
      EndlessBody(input, pos - 1, lc, acc, n, want);
      return;
    }
    ranging := c == DASH && lc != 0;
    e := BodyStep(input, pos - 1, lc, acc, n, want);
    if ranging {
      if pos >= |input| { return; }
      c := input[pos];
      pos := pos + 1;
      if c == RBRACKET { return Finished, pos, c, ranging, e; }
    }
    kind := More;
  }

  /** The elements of a bracket expression, from the first character on, up to and including the `]`. */
  method CompileBody(input: seq<Byte>, pos0: nat, buf: array<Byte>, ep: nat, endbuf: nat,
                     ghost want: Option<Lexed<(seq<Elem>, bool)>>)
    returns (ok: bool, pos: nat, narrow: bool, ghost acc: seq<Elem>, ghost dash: bool)
    requires endbuf <= buf.Length && Building(buf, ep, [], true) && ep + 16 < endbuf
    requires Completes(input, pos0, 0, [], 0, want)
    modifies buf
    ensures ok ==> pos0 <= pos <= |input| && want == Some(Lexed((acc, dash), pos - pos0))
    ensures ok ==> (narrow <==> !Wide(acc)) && buf[ep - 1] == (if narrow then CCL else CXCL)
    ensures ok ==> BitmapIn(buf, ep, Members(acc) + (if dash then {DASH} else {}), if narrow then 16 else 32)
    ensures ok ==> ep + (if narrow then 16 else 32) < endbuf
    ensures ok ==> forall j | 0 <= j < buf.Length && !(ep - 1 <= j < ep + if narrow then 16 else 32) ::
                     buf[j] == old(buf[j])
    ensures !ok ==> want.None? || (Wide(want.value.value.0) && ep + 32 >= endbuf)
    ensures forall j | 0 <= j < buf.Length && !(ep - 1 <= j < endbuf) :: buf[j] == old(buf[j])
  {
    ok, pos, narrow, acc, dash := false, pos0, true, [], false;
    var lc: Byte := 0;
    if pos >= |input| {
      EndlessBody(input, pos, lc, acc, 0, want);
      return;
    }
    var c := input[pos];
    pos := pos + 1;
    while true
      invariant pos0 < pos <= |input| && c == input[pos - 1] && lc == Prev(acc, |acc|)
      invariant Completes(input, pos - 1, lc, acc, pos - 1 - pos0, want)
      invariant Building(buf, ep, acc, narrow) && ep + (if narrow then 16 else 32) < endbuf
      invariant forall j | 0 <= j < buf.Length && !(ep - 1 <= j < ep + if narrow then 16 else 32) ::
                  buf[j] == old(buf[j])
      decreases |input| - pos
    {
      var kind, ranging;
      ghost var e;
      kind, pos, c, ranging, e := ReadElem(input, pos, c, lc, acc, pos - 1 - pos0, want);
      if kind.Failed? { return false, pos, narrow, acc, dash; }
      if kind.Finished? {
        Place(buf, ep, DASH, Members(acc), if narrow then 16 else 32);
        return true, pos, narrow, acc, true;
      }
      ok, narrow := AddElem(buf, ep, endbuf, lc, c, ranging, narrow, acc);
      if !ok { return; }
      if pos >= |input| { return false, pos, narrow, acc, dash; }
      acc := acc + [e];
      lc, c := c, input[pos];
      pos := pos + 1;
      if c == RBRACKET {
        assert Members(acc) + {} == Members(acc);
        return;
      }
    }
  }

  lemma {:induction false} BitmapIsPack(buf: array<Byte>, ep: nat, s: set<Byte>, w: nat)
    requires BitmapIn(buf, ep, s, w)
    ensures buf[ep..ep + w] == Pack(s, w)
  {
    var r := Pack(s, w);
    forall j | 0 <= j < w ensures buf[ep..ep + w][j] == r[j] {
      assert buf[ep..ep + w][j] == buf[ep + j] == PackByte(s, j);
    }
  }

  /** Negation, if asked for: the cells and the opcode become those of the negated class. */
  method Negate(buf: array<Byte>, ep: nat, narrow: bool, neg: bool, ghost cls: ClassExpr)
    requires 0 < ep && BitmapIn(buf, ep, ClassSet(cls), if narrow then 16 else 32) && cls.neg == neg
    requires buf[ep - 1] == (if narrow then CCL else CXCL) && (narrow <==> !Wide(cls.body))
    modifies buf
    ensures BitmapIn(buf, ep, ClassOp(cls).members, if narrow then 16 else 32)
    ensures buf[ep - 1] == BaseOpcode(ClassOp(cls))
    ensures forall j | 0 <= j < buf.Length && !(ep - 1 <= j < ep + if narrow then 16 else 32) :: buf[j] == old(buf[j])
  {
    if neg {
      if narrow { NegateNarrow(buf, ep, ClassSet(cls)); } else { NegateWide(buf, ep, ClassSet(cls)); }
    }
  }

  /** The end of a class: negation, if asked for, and where its bytes end. */
  method EndClass(buf: array<Byte>, ep0: nat, narrow: bool, neg: bool, ghost cls: ClassExpr) returns (ep: nat)
    requires 0 < ep0 && BitmapIn(buf, ep0, ClassSet(cls), if narrow then 16 else 32) && cls.neg == neg
    requires buf[ep0 - 1] == (if narrow then CCL else CXCL) && (narrow <==> !Wide(cls.body))
    modifies buf
    ensures ep == ep0 + OperandSize(ClassOp(cls)) == ep0 + if narrow then 16 else 32
    ensures buf[ep0 - 1] == BaseOpcode(ClassOp(cls)) && buf[ep0..ep] == Payload(ClassOp(cls))
    ensures forall j | 0 <= j < buf.Length && !(ep0 - 1 <= j < ep) :: buf[j] == old(buf[j])
  {
    Negate(buf, ep0, narrow, neg, cls);
    ep := ep0 + if narrow then 16 else 32;
    BitmapIsPack(buf, ep0, ClassOp(cls).members, if narrow then 16 else 32);
  }

  /** The class read from here on is l (quantified, so that it is unfolded only on demand). */
  ghost predicate ClassAt(input: seq<Byte>, pos: nat, l: Option<Lexed<ClassExpr>>) {
    pos <= |input| && forall s {:trigger LexClass(s)} :: s == input[pos..] ==> l == LexClass(s)
  }

  /** The body of a class starts after an optional `^`. */
  lemma {:induction false} ClassStart(input: seq<Byte>, pos: nat, l: Option<Lexed<ClassExpr>>)
    returns (want: Option<Lexed<(seq<Elem>, bool)>>)
    requires ClassAt(input, pos, l)
    ensures var neg := pos < |input| && input[pos] == CARET;
            var n := if neg then 1 else 0;
            Completes(input, pos + n, 0, [], 0, want) &&
            (l.Some? <==> want.Some?) &&
            (l.Some? ==> l.value == Lexed(ClassExpr(neg, want.value.value.0, want.value.value.1),
                                          n + want.value.used))
  {
    var n := if pos < |input| && input[pos] == CARET then 1 else 0;
    assert l == LexClass(input[pos..]);
    assert input[pos..][n..] == input[pos + n..];
    want := LexBody(input[pos + n..], 0);
    assert want.Some? ==> [] + want.value.value.0 == want.value.value.0;
  }

  /** An empty class under construction: the opcode and 16 cleared cells. */
  method StartClass(buf: array<Byte>, ep: nat)
    requires ep + 17 <= buf.Length
    modifies buf
    ensures Building(buf, ep + 1, [], true)
    ensures forall j | 0 <= j < buf.Length && !(ep <= j < ep + 17) :: buf[j] == old(buf[j])
  {
    buf[ep] := CCL;
    Clear(buf, ep + 1, 0, 16);
    forall j | 0 <= j < 16 ensures buf[ep + 1 + j] == PackByte(Members([]), j) { EmptyCell({}, j); }
  }

  /** A bracket expression, whose `[` has been read, to its end. */
  method CompileClass(input: seq<Byte>, pos0: nat, buf: array<Byte>, ep0: nat, endbuf: nat,
                      ghost l: Option<Lexed<ClassExpr>>)
    returns (ok: bool, pos: nat, ep: nat)
    requires ep0 < endbuf <= buf.Length && ClassAt(input, pos0, l)
    modifies buf
    ensures ok ==> l.Some? && pos == pos0 + l.value.used
    ensures ok ==> ep == ep0 + 1 + OperandSize(ClassOp(l.value.value)) < endbuf
    ensures ok ==> buf[ep0] == BaseOpcode(ClassOp(l.value.value))
    ensures ok ==> buf[ep0 + 1..ep] == Payload(ClassOp(l.value.value))
    ensures ok ==> forall j | 0 <= j < buf.Length && !(ep0 <= j < ep) :: buf[j] == old(buf[j])
    ensures !ok ==> l.None? || ep0 + 1 + OperandSize(ClassOp(l.value.value)) >= endbuf
    ensures forall j | 0 <= j < buf.Length && !(ep0 <= j < endbuf) :: buf[j] == old(buf[j])
  {
    ok, pos, ep := false, pos0, ep0;
    if ep0 + 17 >= endbuf { return; }
    StartClass(buf, ep);
    ep := ep + 1;
    ghost var want := ClassStart(input, pos, l);
    var neg := pos < |input| && input[pos] == CARET;
    if neg { pos := pos + 1; }
    var narrow;
    ghost var acc, dash;
    ok, pos, narrow, acc, dash := CompileBody(input, pos, buf, ep, endbuf, want);
    if !ok { return; }
    ep := EndClass(buf, ep, narrow, neg, ClassExpr(neg, acc, dash));
  }

  // ----- intervals -----

  /** The number read from here on, with acc read before, is `want` after n more bytes. */
  ghost predicate Counts(input: seq<Byte>, at: nat, acc: nat, n: nat, want: Option<Lexed<nat>>) {
    at <= |input| &&
    forall s {:trigger LexNumber(s, acc)} :: s == input[at..] ==>
      var r := LexNumber(s, acc);
      (want.Some? <==> r.Some?) && (r.Some? ==> want.value == Lexed(r.value.value, n + r.value.used))
  }

  lemma {:induction false} CountStep(input: seq<Byte>, at: nat, acc: nat, n: nat, want: Option<Lexed<nat>>)
    requires Counts(input, at, acc, n, want)
    ensures if at + 1 >= |input| || !IsDigit(input[at]) then want.None?
            else
              var v := 10 * acc + (input[at] - ZERO);
              if input[at + 1] == BACKSLASH || input[at + 1] == COMMA then want == Some(Lexed(v, n + 1))
              else Counts(input, at + 1, v, n + 1, want)
  {
    var s := input[at..];
    var r := LexNumber(s, acc);
    if at + 1 < |input| { assert s[1] == input[at + 1] && s[1..] == input[at + 1..]; }
  }

  /** A number of an interval; c is the `\` or `,` after it. */
  method ReadNumber(input: seq<Byte>, pos0: nat, ghost want: Option<Lexed<nat>>)
    returns (ok: bool, i: nat, c: Byte, pos: nat)
    requires Counts(input, pos0, 0, 0, want)
    ensures ok <==> want.Some?
    ensures ok ==> i == want.value.value && pos == pos0 + want.value.used + 1 <= |input|
    ensures ok ==> c == input[pos - 1] && (c == BACKSLASH || c == COMMA)
  {
    ok, i, c, pos := false, 0, 0, pos0;
    if pos >= |input| {
      CountStep(input, pos, 0, 0, want);
      return;
    }
    c := input[pos];
    pos := pos + 1;
    while true
      invariant pos0 < pos <= |input| && c == input[pos - 1] && Counts(input, pos - 1, i, pos - 1 - pos0, want)
      decreases |input| - pos
    {
      CountStep(input, pos - 1, i, pos - 1 - pos0, want);
      if !IsDigit(c) { return; }
      i := 10 * i + (c - ZERO);
      if pos >= |input| { return; }
      c := input[pos];
      pos := pos + 1;
      if c == BACKSLASH || c == COMMA { return true, i, c, pos; }
    }
  }

  lemma {:induction false} CountStart(input: seq<Byte>, pos: nat)
    requires pos <= |input|
    ensures Counts(input, pos, 0, 0, LexNumber(input[pos..], 0))
  {
  }

  /** The upper limit of an interval, after the comma. */
  method CompileUpper(input: seq<Byte>, pos0: nat, buf: array<Byte>, ep: nat, ghost l: Option<Lexed<Byte>>)
    returns (ok: bool, pos: nat)
    requires pos0 <= |input| && l == LexUpper(input[pos0..])
    requires UpperWritten(input[pos0..]).Some? ==> ep < buf.Length
    modifies buf
    ensures ok <==> l.Some?
    ensures ok ==> pos == pos0 + l.value.used && buf[ep] == l.value.value
    ensures forall j | 0 <= j < buf.Length && j != ep :: buf[j] == old(buf[j])
    ensures ep < buf.Length ==>
              var u := UpperWritten(input[pos0..]); buf[ep] == if u.Some? then u.value else old(buf[ep])
  {
    ghost var s := input[pos0..];
    ok, pos := false, pos0;
    if pos >= |input| { return; }
    if input[pos] == BACKSLASH {
      pos := pos + 1;
      buf[ep] := UNBOUNDED;
    } else {
      var read, i, c;
      CountStart(input, pos);
      read, i, c, pos := ReadNumber(input, pos, LexNumber(s, 0));
      if !read || i >= 255 { return; }
      buf[ep] := i;
      if c == COMMA { return; }
      assert s[LexNumber(s, 0).value.used..] == input[pos - 1..];
    }
    if pos >= |input| { return; }
    pos := pos + 1;
    ok := input[pos - 1] == RBRACE;
  }

  /** The two bytes of an interval, whose `\{` has been read. */
  method CompileInterval(input: seq<Byte>, pos0: nat, buf: array<Byte>, ep0: nat,
                         ghost l: Option<Lexed<(Byte, Byte)>>)
    returns (ok: bool, pos: nat)
    requires pos0 <= |input| && ep0 < buf.Length && l == LexInterval(input[pos0..])
    requires SecondWritten(input[pos0..]).Some? ==> ep0 + 1 < buf.Length
    modifies buf
    ensures ok <==> l.Some?
    ensures ok ==> pos == pos0 + l.value.used && buf[ep0] == l.value.value.0 && buf[ep0 + 1] == l.value.value.1
    ensures forall j | 0 <= j < buf.Length && j != ep0 && j != ep0 + 1 :: buf[j] == old(buf[j])
    ensures ep0 + 1 < buf.Length ==>
              var u := SecondWritten(input[pos0..]); buf[ep0 + 1] == if u.Some? then u.value else old(buf[ep0 + 1])
  {
    ghost var s := input[pos0..];
    ok, pos := false, pos0;
    var i, c, read;
    CountStart(input, pos);
    read, i, c, pos := ReadNumber(input, pos0, LexNumber(s, 0));
    if !read || i >= 255 { return; }
    buf[ep0] := i;
    ghost var m := LexNumber(s, 0).value.used;
    assert s[m + 1..] == input[pos..] && s[m] == c;
    if c == COMMA {
      ok, pos := CompileUpper(input, pos, buf, ep0 + 1, LexUpper(input[pos..]));
      if ok && buf[ep0 + 1] < buf[ep0] { ok := false; }
    } else {
      if pos >= |input| { return; }
      pos := pos + 1;
      if input[pos - 1] != RBRACE { return; }
      buf[ep0 + 1] := i;
      ok := true;
    }
  }
}
