/**
 * The inner loops of `advance`: the tests on one byte, the loops that run
 * over as many bytes as a starred test accepts, and the text comparison
 * behind back-references.
 */
module Scanning {
  import opened Bytes
  import opened Semantics
  import opened SearchTheorems
  import opened Program

  /** How many bytes from p on are in the set. */
  function RunLength(s: set<Byte>, t: Subject, p: nat): (n: nat)
    requires p < |t|
    ensures p + n <= Len(t)
    decreases |t| - p
  {
    if p < Len(t) && t[p] in s then 1 + RunLength(s, t, p + 1) else 0
  }

  function Min(a: nat, b: nat): nat { if a < b then a else b }

  lemma {:induction false} CountUpIsRun(s: set<Byte>, t: Subject, p: nat, caps: Captures, bound: nat)
    requires p < |t|
    ensures CountUp(OneOf(s), t, p, caps, bound) == Min(RunLength(s, t, p), bound)
    decreases bound
  {
    if bound > 0 && p < Len(t) && t[p] in s { CountUpIsRun(s, t, p + 1, caps, bound - 1); }
  }

  // ----- tests on one byte -----

  lemma {:induction false} BitmapTest(code: seq<Byte>, ep: nat, members: set<Byte>, n: nat, c: Byte)
    requires BitmapAt(code, ep, members, n) && c < 8 * n
    ensures IsThere(code[ep + c / 8], c) <==> c in members
  {
    HoldsByte(code, ep, Pack(members, n), c / 8);
    IsThereTests(members, c);
  }

  /** CXCL: the byte is in the 32-byte bitmap. */
  method TestWide(code: seq<Byte>, ep: nat, c: Byte, ghost members: set<Byte>) returns (r: bool)
    requires BitmapAt(code, ep, members, 32)
    ensures r <==> c in members
  {
    r := IsThere(code[ep + c / 8], c);
    BitmapTest(code, ep, members, 32, c);
  }

  /** The test of CCL and NCCL, plain and starred: eight-bit characters are never in the bitmap. */
  method TestNarrow(code: seq<Byte>, ep: nat, c: Byte, neg: bool, ghost members: set<Byte>) returns (r: bool)
    requires BitmapAt(code, ep, members, 16) && forall b | b in members :: b < 128
    ensures r <==> if neg then c >= 128 || c !in members else c in members
  {
    if c < 128 { BitmapTest(code, ep, members, 16, c); }
    r := (c < 128 && IsThere(code[ep + c / 8], c)) != neg;
  }

  /** CCL and NCCL in intervals, where the test is turned round and says which bytes are refused. */
  method RefuseNarrow(code: seq<Byte>, ep: nat, c: Byte, neg: bool, ghost members: set<Byte>) returns (r: bool)
    requires BitmapAt(code, ep, members, 16) && forall b | b in members :: b < 128
    ensures r <==> !(if neg then c >= 128 || c !in members else c in members)
  {
    if c < 128 { BitmapTest(code, ep, members, 16, c); }
    r := (c >= 128 || !IsThere(code[ep + c / 8], c)) != neg;
  }

  // ----- starred loops: each stops one past the byte that ends the run -----

  method StarChr(t: Subject, curlp: nat, code: seq<Byte>, ep: nat) returns (lp: nat)
    requires curlp < |t| && ep < |code| && code[ep] != 0
    ensures lp == curlp + RunLength({code[ep]}, t, curlp) + 1
  {
    lp := curlp + 1;
    while t[lp - 1] == code[ep]
      invariant curlp < lp <= |t|
      invariant RunLength({code[ep]}, t, curlp) == lp - 1 - curlp + RunLength({code[ep]}, t, lp - 1)
      decreases |t| - lp
    {
      lp := lp + 1;
    }
  }

  method StarDot(t: Subject, curlp: nat) returns (lp: nat)
    requires curlp < |t|
    ensures lp == curlp + RunLength(Others({}), t, curlp) + 1
  {
    lp := curlp + 1;
    while t[lp - 1] != 0
      invariant curlp < lp <= |t|
      invariant RunLength(Others({}), t, curlp) == lp - 1 - curlp + RunLength(Others({}), t, lp - 1)
      decreases |t| - lp
    {
      lp := lp + 1;
    }
  }

  method StarWide(t: Subject, curlp: nat, code: seq<Byte>, ep: nat, ghost members: set<Byte>) returns (lp: nat)
    requires curlp < |t| && BitmapAt(code, ep, members, 32) && 0 !in members
    ensures lp == curlp + RunLength(members, t, curlp) + 1
  {
    lp := curlp + 1;
    var there := TestWide(code, ep, t[lp - 1], members);
    while there
      invariant curlp < lp <= |t| && (there <==> t[lp - 1] in members)
      invariant RunLength(members, t, curlp) == lp - 1 - curlp + RunLength(members, t, lp - 1)
      decreases |t| - lp
    {
      lp := lp + 1;
      there := TestWide(code, ep, t[lp - 1], members);
    }
  }

  method StarNarrow(t: Subject, curlp: nat, code: seq<Byte>, ep: nat, neg: bool, ghost op: Op) returns (lp: nat)
    requires curlp < |t| && Sound(Instr(op, One)) && (if neg then op.Nccl? else op.Ccl?)
    requires BitmapAt(code, ep, op.members, 16)
    ensures lp == curlp + RunLength(ByteSet(op), t, curlp) + 1
  {
    lp := curlp + 1;
    var there := TestNarrow(code, ep, t[lp - 1], neg, op.members);
    while there
      invariant curlp < lp <= |t| && (there <==> t[lp - 1] in ByteSet(op))
      invariant RunLength(ByteSet(op), t, curlp) == lp - 1 - curlp + RunLength(ByteSet(op), t, lp - 1)
      decreases |t| - lp
    {
      lp := lp + 1;
      there := TestNarrow(code, ep, t[lp - 1], neg, op.members);
    }
  }

  // ----- back-references -----

  /** ecmp inside one subject, where the n bytes at s1 hold no NUL. */
  method SameText(t: Subject, s1: nat, s2: nat, n: nat) returns (r: bool)
    requires s1 + n <= Len(t) && s2 < |t|
    ensures r <==> s2 + n <= Len(t) && t[s2..s2 + n] == t[s1..s1 + n]
  {
    var i := 0;
    while i < n
      invariant 0 <= i <= n && s2 + i <= Len(t)
      invariant t[s2..s2 + i] == t[s1..s1 + i]
    {
      if t[s1 + i] != t[s2 + i] {
        assert s2 + n <= Len(t) ==> t[s2..s2 + n][i] != t[s1..s1 + n][i];
        return false;
      }
      assert t[s1..s1 + i + 1] == t[s1..s1 + i] + [t[s1 + i]];
      assert t[s2..s2 + i + 1] == t[s2..s2 + i] + [t[s2 + i]];
      i := i + 1;
    }
    return true;
  }

  /** Copies of one capture lie side by side. */
  lemma {:induction false} BackCopiesEnd(g: Group, k: nat, t: Subject, p: nat, caps: Captures)
    requires p < |t| && Copies(Back(g), k, t, p, caps).Some?
    ensures Copies(Back(g), k, t, p, caps) == Some(p + k * (caps.ends[g] - caps.starts[g]))
    decreases k
  {
    if k > 0 {
      var w := caps.ends[g] - caps.starts[g];
      BackCopiesEnd(g, k - 1, t, p + w, caps);
      assert w + (k - 1) * w == k * w;
    }
  }

  lemma {:induction false} CopiesExtend(a: Atom, k: nat, t: Subject, p: nat, caps: Captures)
    requires p < |t| && Copies(a, k, t, p, caps).Some?
    ensures Copies(a, k + 1, t, p, caps) == Unit(a, t, Copies(a, k, t, p, caps).value, caps)
    decreases k
  {
    if k > 0 {
      CopiesExtend(a, k - 1, t, Unit(a, t, p, caps).value, caps);
    } else {
      match Unit(a, t, p, caps)
      case None =>
      case Some(q) => assert Copies(a, 0, t, q, caps) == Some(q);
    }
  }

  /** One copy of a capture, as the text between its ends. */
  lemma {:induction false} UnitOfBack(g: Group, t: Subject, p: nat, caps: Captures, bbeg: nat, ct: nat)
    requires p < |t| && bbeg + ct <= Len(t) && caps.starts[g] == bbeg && caps.ends[g] == bbeg + ct
    ensures Unit(Back(g), t, p, caps) ==
            if p + ct <= Len(t) && t[p..p + ct] == t[bbeg..bbeg + ct] then Some(p + ct) else None
  {
  }

  /** A number of copies after which no further one follows is the greatest. */
  lemma {:induction false} LongestCopies(a: Atom, k: nat, t: Subject, p: nat, caps: Captures, q: nat)
    requires p < |t| && Copies(a, k, t, p, caps) == Some(q) && Unit(a, t, q, caps).None? && k < |t|
    ensures k == CountUp(a, t, p, caps, |t|)
  {
    CopiesExtend(a, k, t, p, caps);
    CountUpIsMost(a, k, t, p, caps, |t|);
    CountUpIsMost(a, k + 1, t, p, caps, |t|);
  }

  lemma {:induction false} OneMoreCopy(g: Group, k: nat, t: Subject, p: nat, caps: Captures, q: nat, bbeg: nat, ct: nat)
    requires p < |t| && Copies(Back(g), k, t, p, caps) == Some(q)
    requires bbeg + ct <= Len(t) && caps.starts[g] == bbeg && caps.ends[g] == bbeg + ct
    requires q + ct <= Len(t) && t[q..q + ct] == t[bbeg..bbeg + ct]
    ensures Copies(Back(g), k + 1, t, p, caps) == Some(q + ct)
  {
    UnitOfBack(g, t, q, caps, bbeg, ct);
    CopiesExtend(Back(g), k, t, p, caps);
  }

  /**
   * The scan of a starred back-reference runs over as many copies of the
   * capture as there are; it ends because the capture is not empty.
   */
  method StarBack(t: Subject, curlp: nat, bbeg: nat, ct: nat, ghost g: Group, ghost caps: Captures)
    returns (lp: nat, ghost k: nat)
    requires curlp < |t| && ct > 0 && bbeg + ct <= Len(t)
    requires caps.starts[g] == bbeg && caps.ends[g] == bbeg + ct
    ensures k == CountUp(Back(g), t, curlp, caps, |t|)
    ensures Copies(Back(g), k, t, curlp, caps) == Some(lp)
    ensures curlp <= lp < |t| && !(lp + ct <= Len(t) && t[lp..lp + ct] == t[bbeg..bbeg + ct])
  {
    lp, k := curlp, 0;
    var same := SameText(t, bbeg, lp, ct);
    while same
      invariant Copies(Back(g), k, t, curlp, caps) == Some(lp)
      invariant curlp + k <= lp < |t|
      invariant same <==> lp + ct <= Len(t) && t[lp..lp + ct] == t[bbeg..bbeg + ct]
      decreases |t| - lp
    {
      OneMoreCopy(g, k, t, curlp, caps, lp, bbeg, ct);
      lp, k := lp + ct, k + 1;
      same := SameText(t, bbeg, lp, ct);
    }
    UnitOfBack(g, t, lp, caps, bbeg, ct);
    LongestCopies(Back(g), k, t, curlp, caps, lp);
  }
}
