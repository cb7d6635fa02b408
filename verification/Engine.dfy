/**
 * The state and the operations of include/regexp.h.  The file-level variables
 * of the source are the fields of `Regexp`; pointers into the subject, the
 * pattern and the code are indices.
 */
module Engine {
  import opened Bytes
  import opened Semantics
  import opened SearchTheorems
  import opened Program
  import opened Scanning
  import opened Syntax
  import opened Parse
  import opened Emit
  import opened Buffer

  /** How `compile` ends: with ep past the code and so many bytes of input read, or in ERROR. */
  datatype Compiled = Done(ep: nat, read: nat) | Error

  class Regexp {
    const braslist: array<int>
    const braelist: array<int>
    var loc1: int
    var loc2: int
    var locs: int
    var circf: int
    var sed: int
    var nbra: nat
    var nodelim: int
    var low: int
    var size: int

    constructor ()
      ensures Valid() && fresh(braslist) && fresh(braelist)
    {
      braslist := new int[NBRA](_ => 0);
      braelist := new int[NBRA](_ => 0);
      loc1, loc2, locs, circf, sed, nbra, nodelim, low, size := 0, 0, -1, 0, 0, 0, 0, 0, 0;
    }

    ghost predicate Valid()
    {
      braslist.Length == NBRA && braelist.Length == NBRA && braslist != braelist
    }

    /** The current contents of the two capture arrays. */
    ghost function Caps(): Captures
      requires Valid()
      reads braslist, braelist
    {
      Captures(braslist[..], braelist[..])
    }

    // ----- intervals -----

    method GetRange(code: seq<Byte>, str: nat)
      requires str + 1 < |code|
      modifies this`low, this`size
      ensures low == code[str] && (code[str] <= code[str + 1] ==> size >= 0)
      ensures code[str] <= code[str + 1] ==> low + size == UpperLimit((code[str], code[str + 1]))
      ensures size == if code[str + 1] == 255 then 20000 else (code[str + 1] as int) - (code[str] as int)
    {
      low := code[str];
      size := if code[str + 1] == UNBOUNDED then UNBOUNDED_SIZE else (code[str + 1] as int) - low;
    }

    /**
     * What every interval loop establishes: it fails when fewer than `low`
     * bytes of the set are there; otherwise curlp is past the first `low` of
     * them and lp one past the longest run of at most `low + size`.
     */
    static ghost predicate RangeScanned(s: set<Byte>, t: Subject, lp0: nat, low: nat, size: nat,
                                        ok: bool, curlp: nat, lp: nat)
      requires lp0 < |t|
    {
      (ok <==> RunLength(s, t, lp0) >= low) &&
      (ok ==> curlp == lp0 + low && lp == lp0 + Min(RunLength(s, t, lp0), low + size) + 1)
    }

    method RangeChr(t: Subject, lp0: nat, c: Byte, ghost op: Op) returns (ok: bool, curlp: nat, lp: nat)
      requires lp0 < |t| && low >= 0 && size >= 0
      requires c != 0 && op == Chr(c)
      modifies this`low, this`size
      ensures RangeScanned(ByteSet(op), t, lp0, old(low), old(size), ok, curlp, lp)
    {
      lp, curlp, ok := lp0, lp0, false;
      while low != 0
        invariant low >= 0 && lp == lp0 + old(low) - low && lp < |t| && size == old(size)
        invariant RunLength(ByteSet(op), t, lp0) == lp - lp0 + RunLength(ByteSet(op), t, lp)
        decreases low
      {
        low := low - 1;
        lp := lp + 1;
        var refused := t[lp - 1] != c;
        if refused { return; }
      }
      low := low - 1;
      curlp, ok := lp, true;
      var broke := false;
      while size != 0
        invariant size >= 0 && lp == curlp + old(size) - size && lp < |t|
        invariant RunLength(ByteSet(op), t, lp0) == lp - lp0 + RunLength(ByteSet(op), t, lp)
        decreases size
      {
        size := size - 1;
        lp := lp + 1;
        var refused := t[lp - 1] != c;
        if refused { broke := true; break; }
      }
      if !broke { size := size - 1; }
      if size < 0 { lp := lp + 1; }
    }

    method RangeDot(t: Subject, lp0: nat, ghost op: Op) returns (ok: bool, curlp: nat, lp: nat)
      requires lp0 < |t| && low >= 0 && size >= 0 && op == Dot
      modifies this`low, this`size
      ensures RangeScanned(ByteSet(op), t, lp0, old(low), old(size), ok, curlp, lp)
    {
      lp, curlp, ok := lp0, lp0, false;
      while low != 0
        invariant low >= 0 && lp == lp0 + old(low) - low && lp < |t| && size == old(size)
        invariant RunLength(ByteSet(op), t, lp0) == lp - lp0 + RunLength(ByteSet(op), t, lp)
        decreases low
      {
        low := low - 1;
        lp := lp + 1;
        var refused := t[lp - 1] == 0;
        if refused { return; }
      }
      low := low - 1;
      curlp, ok := lp, true;
      var broke := false;
      while size != 0
        invariant size >= 0 && lp == curlp + old(size) - size && lp < |t|
        invariant RunLength(ByteSet(op), t, lp0) == lp - lp0 + RunLength(ByteSet(op), t, lp)
        decreases size
      {
        size := size - 1;
        lp := lp + 1;
        var refused := t[lp - 1] == 0;
        if refused { broke := true; break; }
      }
      if !broke { size := size - 1; }
      if size < 0 { lp := lp + 1; }
    }

    method RangeWide(t: Subject, lp0: nat, code: seq<Byte>, ep: nat, ghost op: Op) returns (ok: bool, curlp: nat, lp: nat)
      requires lp0 < |t| && low >= 0 && size >= 0
      requires op.Cxcl? && Sound(Instr(op, One)) && BitmapAt(code, ep, op.members, 32)
      modifies this`low, this`size
      ensures RangeScanned(ByteSet(op), t, lp0, old(low), old(size), ok, curlp, lp)
    {
      lp, curlp, ok := lp0, lp0, false;
      while low != 0
        invariant low >= 0 && lp == lp0 + old(low) - low && lp < |t| && size == old(size)
        invariant RunLength(ByteSet(op), t, lp0) == lp - lp0 + RunLength(ByteSet(op), t, lp)
        decreases low
      {
        low := low - 1;
        lp := lp + 1;
        var there := TestWide(code, ep, t[lp - 1], op.members);
        var refused := !there;
        if refused { return; }
      }
      low := low - 1;
      curlp, ok := lp, true;
      var broke := false;
      while size != 0
        invariant size >= 0 && lp == curlp + old(size) - size && lp < |t|
        invariant RunLength(ByteSet(op), t, lp0) == lp - lp0 + RunLength(ByteSet(op), t, lp)
        decreases size
      {
        size := size - 1;
        lp := lp + 1;
        var there := TestWide(code, ep, t[lp - 1], op.members);
        var refused := !there;
        if refused { broke := true; break; }
      }
      if !broke { size := size - 1; }
      if size < 0 { lp := lp + 1; }
    }

    method RangeNarrow(t: Subject, lp0: nat, code: seq<Byte>, ep: nat, neg: bool, ghost op: Op) returns (ok: bool, curlp: nat, lp: nat)
      requires lp0 < |t| && low >= 0 && size >= 0
      requires Sound(Instr(op, One)) && (if neg then op.Nccl? else op.Ccl?)
      requires BitmapAt(code, ep, op.members, 16)
      modifies this`low, this`size
      ensures RangeScanned(ByteSet(op), t, lp0, old(low), old(size), ok, curlp, lp)
    {
      lp, curlp, ok := lp0, lp0, false;
      while low != 0
        invariant low >= 0 && lp == lp0 + old(low) - low && lp < |t| && size == old(size)
        invariant RunLength(ByteSet(op), t, lp0) == lp - lp0 + RunLength(ByteSet(op), t, lp)
        decreases low
      {
        low := low - 1;
        lp := lp + 1;
        var refused := RefuseNarrow(code, ep, t[lp - 1], neg, op.members);
        if refused { return; }
      }
      low := low - 1;
      curlp, ok := lp, true;
      var broke := false;
      while size != 0
        invariant size >= 0 && lp == curlp + old(size) - size && lp < |t|
        invariant RunLength(ByteSet(op), t, lp0) == lp - lp0 + RunLength(ByteSet(op), t, lp)
        decreases size
      {
        size := size - 1;
        lp := lp + 1;
        var refused := RefuseNarrow(code, ep, t[lp - 1], neg, op.members);
        if refused { broke := true; break; }
      }
      if !broke { size := size - 1; }
      if size < 0 { lp := lp + 1; }
    }

    // ----- one step of `advance` -----

    /** A byte test: it reads one byte of the subject and its own operands. */
    static method AdvanceByte(t: Subject, lp0: nat, code: seq<Byte>, ep0: nat, op: Byte, ghost i: Instr)
      returns (ok: bool, lp: nat, ep: nat)
      requires lp0 < |t| && Sound(i) && i.quant.One? && ByteTest(i.op) && op == Opcode(i) && OperandsAt(code, ep0, i)
      ensures ok <==> t[lp0] in ByteSet(i.op)
      ensures ok ==> lp0 < Len(t)
      ensures lp == lp0 + 1 && ep == ep0 + Size(i) - 1
    {
      lp, ep := lp0 + 1, ep0;
      if op == CCHR {
        ep := ep + 1;
        ok := code[ep - 1] == t[lp - 1];
      } else if op == CDOT {
        ok := t[lp - 1] != 0;
      } else if op == CXCL {
        ok := TestWide(code, ep, t[lp - 1], i.op.members);
        ep := ep + 32;
      } else {
        ok := TestNarrow(code, ep, t[lp - 1], op == NCCL, i.op.members);
        ep := ep + 16;
      }
    }

    /** The cases for instructions without repetition: match one copy here or fail. */
    method AdvanceOnce(t: Subject, lp0: nat, code: seq<Byte>, ep0: nat, op: Byte,
                       ghost i: Instr, ghost begun: set<Group>, ghost ended: set<Group>)
      returns (ok: bool, lp: nat, ep: nat)
      requires Valid() && lp0 < |t|
      requires Sound(i) && i.quant.One? && op == Opcode(i) && OperandsAt(code, ep0, i)
      requires InScope(Meaning(i).atom, begun, ended) && Spans(Caps(), begun, ended, lp0)
      modifies braslist, braelist
      ensures ok <==> Unit(Meaning(i).atom, t, lp0, old(Caps())).Some?
      ensures ok ==> lp == Unit(Meaning(i).atom, t, lp0, old(Caps())).value
      ensures ok ==> ep == ep0 + Size(i) - 1
      ensures Caps() == Mark(Meaning(i).atom, lp0, old(Caps()))
    {
      lp, ep, ok := lp0, ep0, false;
      if op == CCHR || op == CDOT || op == CXCL || op == NCCL || op == CCL {
        ok, lp, ep := AdvanceByte(t, lp, code, ep, op, i);
      } else if op == CDOL {
        ok := t[lp] == 0;
      } else if op == CBRA {
        braslist[code[ep]] := lp;
        ep, ok := ep + 1, true;
      } else if op == CKET {
        braelist[code[ep]] := lp;
        ep, ok := ep + 1, true;
      } else {
        assert op == CBACK;
        var bbeg := braslist[code[ep]];
        var ct := braelist[code[ep]] - bbeg;
        ep := ep + 1;
        ok := SameText(t, bbeg, lp, ct);
        lp := lp + ct;
      }
    }

    /** How far a repeated byte test can run from lp0, and what it needs at least. */
    static ghost predicate Scanned(i: Instr, t: Subject, lp0: nat, ok: bool, curlp: nat, lp: nat)
      requires lp0 < |t| && ByteTest(i.op)
    {
      var n := Min(RunLength(ByteSet(i.op), t, lp0), Most(Meaning(i).rep, t));
      var least := Least(Meaning(i).rep);
      (ok <==> n >= least) && (ok ==> curlp == lp0 + least && lp == lp0 + n + 1)
    }

    static lemma {:induction false} ScannedInRange(i: Instr, t: Subject, lp0: nat, ok: bool, curlp: nat, lp: nat)
      requires lp0 < |t| && Sound(i) && i.quant.Intervals?
      requires var pair := i.quant.pairs[0];
               RangeScanned(ByteSet(i.op), t, lp0, pair.0, UpperLimit(pair) - pair.0, ok, curlp, lp)
      ensures Scanned(i, t, lp0, ok, curlp, lp)
    {
    }

    /**
     * The cases for byte tests in intervals, up to the jump to `star`.  The
     * flags only set clear bits of these opcodes, so op | flag is op + flag.
     */
    method ScanRange(t: Subject, lp0: nat, code: seq<Byte>, ep0: nat, op: Byte, ghost i: Instr)
      returns (ok: bool, curlp: nat, lp: nat, ep: nat)
      requires lp0 < |t|
      requires Sound(i) && i.quant.Intervals? && op == Opcode(i) && OperandsAt(code, ep0, i)
      modifies this`low, this`size
      ensures Scanned(i, t, lp0, ok, curlp, lp)
      ensures ep == ep0 + Size(i) - 1
    {
      lp, curlp, ep, ok := lp0, lp0, ep0, true;
      if op == CCHR + RNGE {
        ep := ep + 1;
        GetRange(code, ep);
        ok, curlp, lp := RangeChr(t, lp, code[ep - 1], i.op);
        ep := ep + 2;
      } else if op == CDOT + RNGE {
        GetRange(code, ep);
        ok, curlp, lp := RangeDot(t, lp, i.op);
        ep := ep + 2;
      } else if op == CXCL + RNGE {
        GetRange(code, ep + 32);
        ok, curlp, lp := RangeWide(t, lp, code, ep, i.op);
        ep := ep + 34;
      } else {
        assert op == NCCL + RNGE || op == CCL + RNGE;
        GetRange(code, ep + 16);
        ok, curlp, lp := RangeNarrow(t, lp, code, ep, op == NCCL + RNGE, i.op);
        ep := ep + 18;
      }
      ScannedInRange(i, t, lp0, ok, curlp, lp);
    }

    /** The cases for starred byte tests, up to the jump to `star`. */
    method ScanStar(t: Subject, curlp: nat, code: seq<Byte>, ep0: nat, op: Byte, ghost i: Instr)
      returns (lp: nat, ep: nat)
      requires curlp < |t|
      requires Sound(i) && i.quant.Starred? && ByteTest(i.op) && op == Opcode(i) && OperandsAt(code, ep0, i)
      ensures Scanned(i, t, curlp, true, curlp, lp)
      ensures ep == ep0 + Size(i) - 1
    {
      ep := ep0;
      if op == CDOT + STAR {
        lp := StarDot(t, curlp);
      } else if op == CCHR + STAR {
        lp := StarChr(t, curlp, code, ep);
        ep := ep + 1;
      } else if op == CXCL + STAR {
        lp := StarWide(t, curlp, code, ep, i.op.members);
        ep := ep + 32;
      } else {
        assert op == NCCL + STAR || op == CCL + STAR;
        lp := StarNarrow(t, curlp, code, ep, op == NCCL + STAR, i.op);
        ep := ep + 16;
      }
    }

    // ----- advance -----

    /**
     * The program stands in the code at ep and may be run from lp: groups
     * `begun` and `ended` were opened and closed on the way here.
     */
    ghost predicate Ready(t: Subject, lp: nat, code: seq<Byte>, ep: nat, prog: seq<Instr>,
                          begun: set<Group>, ended: set<Group>)
      reads braslist, braelist
    {
      Valid() && lp < |t| && AllSound(prog) && HasCode(code, ep, prog) &&
      Scoped(Meanings(prog), begun, ended) && Spans(Caps(), begun, ended, lp)
    }

    /**
     * The result is the one the search specifies: on success loc2 and the
     * capture arrays are those of the path found, on failure the arrays
     * differ at most in groups of the program that was tried.
     */
    ghost predicate Delivers(r: bool, o: Outcome, items: seq<Item>, t: Subject, p: nat, caps: Captures)
      requires Valid() && p < |t|
      reads this, braslist, braelist
    {
      (r <==> o.Found?) &&
      (r ==> var f := Follow(items, o.path, t, p, caps); f.Some? && f.value.pos == loc2 && f.value.caps == Caps()) &&
      (!r ==> Untouched(items, caps, Caps()))
    }

    /** The search from p has this outcome (quantified, so that it is spelled out only on demand). */
    static ghost predicate Searching(items: seq<Item>, t: Subject, p: nat, caps: Captures, locs: int, o: Outcome)
      requires p < |t|
    {
      forall n: nat {:trigger Search(items, t, n, caps, locs)} :: n == p ==> Search(items, t, n, caps, locs) == o
    }

    /** The same for the search that starts with k copies of the first item. */
    static ghost predicate Trying(items: seq<Item>, t: Subject, p: nat, caps: Captures, locs: int, k: nat, o: Outcome)
      requires p < |t| && items != []
    {
      forall n: nat {:trigger Descend(items, t, p, caps, locs, n)} ::
        n == k ==> Descend(items, t, p, caps, locs, n) == o
    }

    /**
     * Trying the rest of the program after captures were left behind by an
     * abandoned attempt is as good as trying it with the captures `caps` of
     * the way here.
     */
    method Retry(t: Subject, lp: nat, code: seq<Byte>, ep: nat, ghost prog: seq<Instr>,
                 ghost begun: set<Group>, ghost ended: set<Group>, ghost caps: Captures, ghost o: Outcome)
      returns (r: bool)
      requires Valid() && lp < |t| && AllSound(prog) && HasCode(code, ep, prog)
      requires Scoped(Meanings(prog), begun, ended) && Spans(caps, begun, ended, lp)
      requires Untouched(Meanings(prog), caps, Caps())
      requires Searching(Meanings(prog), t, lp, caps, locs, o) && !o.Hangs?
      modifies this`loc2, this`low, this`size, braslist, braelist
      ensures Delivers(r, o, Meanings(prog), t, lp, caps)
      ensures !r ==> loc2 == old(loc2)
      decreases |prog|, 2
    {
      ghost var items, stale := Meanings(prog), Caps();
      UntouchedAgrees(items, begun, ended, caps, stale);
      SearchIgnoresStale(items, t, lp, caps, stale, locs, begun, ended);
      if o.Found? { FollowErasesStale(items, o.path, t, lp, caps, stale, begun, ended); }
      r := Advance(t, lp, code, ep, prog, begun, ended);
    }

    /** One round of the search through the counts of a repeated byte test. */
    static lemma {:induction false} DescendStep(items: seq<Item>, rest: seq<Item>, t: Subject, p: nat, caps: Captures,
                                                locs: int, k: nat, want: Outcome) returns (o: Outcome)
      requires p < |t| && items != [] && Barrier(items[0]) && rest == items[1..]
      requires Allowed(items[0].rep, k) && Copies(items[0].atom, k, t, p, caps).Some?
      requires Trying(items, t, p, caps, locs, k, want)
      ensures p + k < |t| && Searching(rest, t, p + k, caps, locs, o)
      ensures if p + k == locs then want.NotFound?
              else if o.Hangs? then want.Hangs?
              else if o.Found? then
                want.Found? && Follow(items, want.path, t, p, caps) == Follow(rest, o.path, t, p + k, caps)
              else if k > Least(items[0].rep) then Trying(items, t, p, caps, locs, k - 1, want)
              else want.NotFound?
    {
      ByteCopiesEnd(items[0].atom.members, k, t, p, caps);
      o := Search(rest, t, p + k, caps, locs);
      assert want == Descend(items, t, p, caps, locs, k);
      if o.Found? { assert ([k] + o.path)[1..] == o.path; }
    }

    /**
     * The code at `star`: give bytes back one at a time and try the rest of
     * the program.  The item is the repeated byte test, matched k0 times from p.
     */
    method Star(t: Subject, lp0: nat, curlp: nat, code: seq<Byte>, ep: nat, ghost item: Item, ghost prog: seq<Instr>,
                ghost p: nat, ghost k0: nat, ghost begun: set<Group>, ghost ended: set<Group>, ghost want: Outcome)
      returns (r: bool)
      requires Barrier(item) && Ready(t, p, code, ep, prog, begun, ended)
      requires curlp == p + Least(item.rep) && lp0 == p + k0 + 1
      requires Allowed(item.rep, k0) && Copies(item.atom, k0, t, p, Caps()).Some?
      requires Trying([item] + Meanings(prog), t, p, Caps(), locs, k0, want) && !want.Hangs?
      modifies this`loc2, this`low, this`size, braslist, braelist
      ensures Delivers(r, want, [item] + Meanings(prog), t, p, old(Caps()))
      ensures !r ==> loc2 == old(loc2)
      decreases |prog|, 3
    {
      ghost var rest, caps, k := Meanings(prog), Caps(), k0;
      ghost var items := [item] + rest;
      assert items[1..] == rest;
      var lp := lp0;
      while true
        invariant curlp < lp == p + k + 1
        invariant Allowed(item.rep, k) && Copies(item.atom, k, t, p, caps).Some?
        invariant Trying(items, t, p, caps, locs, k, want)
        invariant Untouched(rest, caps, Caps()) && loc2 == old(loc2)
        decreases lp
      {
        lp := lp - 1;
        ghost var o := DescendStep(items, rest, t, p, caps, locs, k, want);
        if lp == locs {
          UntouchedRest(items, caps, Caps());
          return false;
        }
        r := Retry(t, lp, code, ep, prog, begun, ended, caps, o);
        if r { return true; }
        if !(lp > curlp) {
          UntouchedRest(items, caps, Caps());
          return false;
        }
        FewerCopies(item.atom, k - 1, k, t, p, caps);
        k := k - 1;
      }
    }

    static lemma {:induction false} UntouchedRest(items: seq<Item>, c: Captures, d: Captures)
      requires items != [] && Untouched(items[1..], c, d)
      ensures Untouched(items, c, d)
    {
      forall g: Group { MarksOfTail(items, g); }
    }

    /** Giving one copy of a capture back. */
    static lemma {:induction false} OneCopyLess(g: Group, t: Subject, p: nat, caps: Captures, k: nat, q: nat)
      requires p < |t| && k > 0 && Copies(Back(g), k, t, p, caps) == Some(q)
      ensures var w := caps.ends[g] - caps.starts[g];
              w <= q - p && Copies(Back(g), k - 1, t, p, caps) == Some(q - w)
    {
      var w := caps.ends[g] - caps.starts[g];
      FewerCopies(Back(g), k - 1, k, t, p, caps);
      BackCopiesEnd(g, k, t, p, caps);
      BackCopiesEnd(g, k - 1, t, p, caps);
      assert k * w == (k - 1) * w + w;
    }

    /** One round of the search through the copies of a starred back-reference. */
    static lemma {:induction false} DescendBackStep(items: seq<Item>, rest: seq<Item>, t: Subject, p: nat, caps: Captures,
                                                    locs: int, k: nat, q: nat, want: Outcome) returns (o: Outcome)
      requires p < |t| && items != [] && items[0].atom.Back? && items[0].rep.Star? && rest == items[1..]
      requires Copies(items[0].atom, k, t, p, caps) == Some(q) && Trying(items, t, p, caps, locs, k, want)
      ensures Searching(rest, t, q, caps, locs, o)
      ensures if o.Hangs? then want.Hangs?
              else if o.Found? then
                want.Found? && Follow(items, want.path, t, p, caps) == Follow(rest, o.path, t, q, caps)
              else if k > 0 then Trying(items, t, p, caps, locs, k - 1, want)
              else want.NotFound?
    {
      o := Search(rest, t, q, caps, locs);
      assert want == Descend(items, t, p, caps, locs, k);
      if o.Found? { assert ([k] + o.path)[1..] == o.path; }
    }

    /** A search that ends starts with as many copies of a capture, which is not empty, as there are. */
    static lemma {:induction false} StarredBack(items: seq<Item>, t: Subject, p: nat, caps: Captures, locs: int,
                                                want: Outcome)
      requires p < |t| && items != [] && items[0].atom.Back? && items[0].rep.Star?
      requires Searching(items, t, p, caps, locs, want) && !want.Hangs?
      ensures caps.ends[items[0].atom.g] != caps.starts[items[0].atom.g]
      ensures Trying(items, t, p, caps, locs, CountUp(items[0].atom, t, p, caps, |t|), want)
    {
      assert Search(items, t, p, caps, locs) == want;
    }

    /** The starred back-reference: give copies of the capture back one at a time; `locs` plays no part. */
    method AdvanceBackStar(t: Subject, curlp: nat, code: seq<Byte>, ep0: nat, ghost g: Group, ghost prog: seq<Instr>,
                           ghost begun: set<Group>, ghost ended: set<Group>, ghost want: Outcome)
      returns (r: bool)
      requires Valid() && ep0 < |code| && code[ep0] == g && g in ended
      requires Ready(t, curlp, code, ep0 + 1, prog, begun, ended)
      requires Searching([Item(Back(g), Semantics.Star)] + Meanings(prog), t, curlp, Caps(), locs, want) && !want.Hangs?
      modifies this`loc2, this`low, this`size, braslist, braelist
      ensures Delivers(r, want, [Item(Back(g), Semantics.Star)] + Meanings(prog), t, curlp, old(Caps()))
      ensures !r ==> loc2 == old(loc2)
      decreases |prog|, 3
    {
      ghost var rest, caps := Meanings(prog), Caps();
      ghost var item := Item(Back(g), Semantics.Star);
      ghost var items := [item] + rest;
      assert items[1..] == rest;
      StarredBack(items, t, curlp, caps, locs, want);
      var bbeg := braslist[code[ep0]];
      var ct := braelist[code[ep0]] - bbeg;
      var ep := ep0 + 1;
      var top;
      ghost var k;
      top, k := StarBack(t, curlp, bbeg, ct, g, caps);
      var lp: int := top;
      r := false;
      while lp >= curlp
        invariant lp >= curlp ==> Copies(item.atom, k, t, curlp, caps) == Some(lp)
        invariant if lp >= curlp then Trying(items, t, curlp, caps, locs, k, want) else want.NotFound?
        invariant Untouched(rest, caps, Caps()) && loc2 == old(loc2)
        decreases lp
      {
        ghost var o := DescendBackStep(items, rest, t, curlp, caps, locs, k, lp, want);
        if k > 0 { OneCopyLess(g, t, curlp, caps, k, lp); }
        r := Retry(t, lp, code, ep, prog, begun, ended, caps, o);
        if r { return true; }
        lp := lp - ct;
        k := if k > 0 then k - 1 else 0;
      }
      UntouchedRest(items, caps, Caps());
    }

    /** A repeated byte test: run as far as it goes, then work back from there. */
    method AdvanceRepeated(t: Subject, lp0: nat, code: seq<Byte>, ep0: nat, op: Byte, ghost i: Instr,
                           ghost prog: seq<Instr>, ghost begun: set<Group>, ghost ended: set<Group>)
      returns (r: bool)
      requires Sound(i) && !i.quant.One? && ByteTest(i.op) && op == Opcode(i) && OperandsAt(code, ep0, i)
      requires Ready(t, lp0, code, ep0 + Size(i) - 1, prog, begun, ended)
      requires !Search([Meaning(i)] + Meanings(prog), t, lp0, Caps(), locs).Hangs?
      modifies this`loc2, this`low, this`size, braslist, braelist
      ensures var items := [Meaning(i)] + Meanings(prog);
              Delivers(r, Search(items, t, lp0, old(Caps()), locs), items, t, lp0, old(Caps()))
      ensures !r ==> loc2 == old(loc2)
      decreases |prog|, 4
    {
      ghost var item := Meaning(i);
      ghost var k := CountUp(item.atom, t, lp0, Caps(), Most(item.rep, t));
      CountUpIsRun(ByteSet(i.op), t, lp0, Caps(), Most(item.rep, t));
      CountsAreAnInterval(item, k, t, lp0, Caps());
      var ok, curlp, lp, ep := true, lp0, lp0, ep0;
      if op == CDOT + STAR || op == CCHR + STAR || op == CXCL + STAR || op == NCCL + STAR || op == CCL + STAR {
        lp, ep := ScanStar(t, lp0, code, ep0, op, i);
      } else {
        ok, curlp, lp, ep := ScanRange(t, lp0, code, ep0, op, i);
      }
      if !ok { return false; }
      r := Star(t, lp, curlp, code, ep, item, prog, lp0, k, begun, ended,
                Search([item] + Meanings(prog), t, lp0, Caps(), locs));
    }

    /** What is left of a search once the first items have been dealt with. */
    static ghost predicate Continues(want: Outcome, items: seq<Item>, p: nat, caps: Captures,
                                     o: Outcome, rest: seq<Item>, q: nat, now: Captures, t: Subject)
      requires p < |t| && q < |t|
    {
      (want.Found? <==> o.Found?) && (want.Hangs? <==> o.Hangs?) &&
      (o.Found? ==> Follow(items, want.path, t, p, caps) == Follow(rest, o.path, t, q, now))
    }

    /** One item without repetition. */
    static lemma {:induction false} OnceStep(items: seq<Item>, rest: seq<Item>, t: Subject, p: nat, caps: Captures, locs: int)
      requires p < |t| && items != [] && items[0].rep.Once? && rest == items[1..]
      ensures var u := Unit(items[0].atom, t, p, caps);
              if u.None? then Search(items, t, p, caps, locs).NotFound?
              else
                var now := Mark(items[0].atom, p, caps);
                Continues(Search(items, t, p, caps, locs), items, p, caps,
                          Search(rest, t, u.value, now, locs), rest, u.value, now, t)
    {
      var u := Unit(items[0].atom, t, p, caps);
      OnceSearch(items, t, p, caps, locs);
      if u.Some? {
        var o := Search(rest, t, u.value, Mark(items[0].atom, p, caps), locs);
        assert Copies(items[0].atom, 0, t, u.value, caps) == u;
        assert Copies(items[0].atom, 1, t, p, caps) == u;
        if o.Found? { assert ([1] + o.path)[1..] == o.path; }
      }
    }

    /** The marks of some items are among the marks of others. */
    static ghost predicate Within(part: seq<Item>, whole: seq<Item>) {
      forall g: Group :: (Opens(part, g) ==> Opens(whole, g)) && (Closes(part, g) ==> Closes(whole, g))
    }

    static lemma {:induction false} UntouchedStep(whole: seq<Item>, part: seq<Item>, caps: Captures, now: Captures, p: nat)
      requires part != [] && Within(part, whole) && Untouched(whole, caps, now)
      ensures Within(part[1..], whole) && Untouched(whole, caps, Mark(part[0].atom, p, now))
    {
      forall g: Group { MarksOfTail(part, g); }
    }

    static lemma {:induction false} UntouchedThen(whole: seq<Item>, part: seq<Item>, caps: Captures, now: Captures, later: Captures)
      requires Within(part, whole) && Untouched(whole, caps, now) && Untouched(part, now, later)
      ensures Untouched(whole, caps, later)
    {
    }

    /** The opcodes whose cases match exactly one copy. */
    static predicate Unrepeated(op: Byte) {
      op == CCHR || op == CDOT || op == CDOL || op == CXCL || op == NCCL || op == CCL ||
      op == CBRA || op == CKET || op == CBACK
    }

    static lemma {:induction false} OnceScope(items: seq<Item>, rest: seq<Item>, t: Subject, p: nat, caps: Captures,
                           begun: set<Group>, ended: set<Group>)
      requires p < |t| && items != [] && rest == items[1..]
      requires Scoped(items, begun, ended) && Spans(caps, begun, ended, p)
      ensures InScope(items[0].atom, begun, ended)
      ensures Scoped(rest, Begun(items[0].atom, begun), Ended(items[0].atom, ended))
      ensures var u := Unit(items[0].atom, t, p, caps);
              u.Some? ==> Spans(Mark(items[0].atom, p, caps), Begun(items[0].atom, begun),
                                Ended(items[0].atom, ended), u.value)
    {
    }

    /** One round of the loop of `advance` on an instruction without repetition. */
    method AdvancePlain(t: Subject, lp0: nat, code: seq<Byte>, ep0: nat, op: Byte, ghost prog: seq<Instr>,
                        ghost begun: set<Group>, ghost ended: set<Group>)
      returns (ok: bool, lp: nat, ep: nat)
      requires prog != [] && Unrepeated(op) && op == Opcode(prog[0])
      requires Ready(t, lp0, code, ep0, prog, begun, ended)
      modifies braslist, braelist
      ensures Caps() == Mark(Meanings(prog)[0].atom, lp0, old(Caps()))
      ensures !ok ==> Search(Meanings(prog), t, lp0, old(Caps()), locs).NotFound?
      ensures ok ==> Ready(t, lp, code, ep, prog[1..], Begun(Meanings(prog)[0].atom, begun),
                           Ended(Meanings(prog)[0].atom, ended))
      ensures ok ==> Continues(Search(Meanings(prog), t, lp0, old(Caps()), locs), Meanings(prog), lp0, old(Caps()),
                               Search(Meanings(prog[1..]), t, lp, Caps(), locs), Meanings(prog[1..]), lp, Caps(), t)
    {
      ghost var items, i := Meanings(prog), prog[0];
      assert items[1..] == Meanings(prog[1..]);
      HasCodeStep(code, ep0, prog);
      OperandsFollow(code, ep0, i);
      HasCodeTail(code, ep0, prog);
      OnceStep(items, Meanings(prog[1..]), t, lp0, Caps(), locs);
      OnceScope(items, Meanings(prog[1..]), t, lp0, Caps(), begun, ended);
      ok, lp, ep := AdvanceOnce(t, lp0, code, ep0 + 1, op, i, begun, ended);
    }

    /** The instructions that end a run of the loop, by trying the rest of the program recursively. */
    method AdvanceOther(t: Subject, lp: nat, code: seq<Byte>, ep: nat, op: Byte, ghost prog: seq<Instr>,
                        ghost begun: set<Group>, ghost ended: set<Group>)
      returns (r: bool)
      requires prog != [] && !Unrepeated(op) && op == Opcode(prog[0])
      requires Ready(t, lp, code, ep, prog, begun, ended)
      requires !Search(Meanings(prog), t, lp, Caps(), locs).Hangs?
      modifies this`loc2, this`low, this`size, braslist, braelist
      ensures Delivers(r, Search(Meanings(prog), t, lp, old(Caps()), locs), Meanings(prog), t, lp, old(Caps()))
      ensures !r ==> loc2 == old(loc2)
      decreases |prog|, 0
    {
      ghost var i := prog[0];
      assert Meanings(prog) == [Meaning(i)] + Meanings(prog[1..]);
      HasCodeStep(code, ep, prog);
      OperandsFollow(code, ep, i);
      HasCodeTail(code, ep, prog);
      if op == CBACK + STAR {
        r := AdvanceBackStar(t, lp, code, ep + 1, i.op.g, prog[1..], begun, ended,
                             Search(Meanings(prog), t, lp, Caps(), locs));
      } else {
        r := AdvanceRepeated(t, lp, code, ep + 1, op, i, prog[1..], begun, ended);
      }
    }

    method Advance(t: Subject, lp0: nat, code: seq<Byte>, ep0: nat, ghost prog: seq<Instr>,
                   ghost begun: set<Group>, ghost ended: set<Group>)
      returns (r: bool)
      requires Ready(t, lp0, code, ep0, prog, begun, ended)
      requires !Search(Meanings(prog), t, lp0, Caps(), locs).Hangs?
      modifies this`loc2, this`low, this`size, braslist, braelist
      ensures Delivers(r, Search(Meanings(prog), t, lp0, old(Caps()), locs), Meanings(prog), t, lp0, old(Caps()))
      ensures !r ==> loc2 == old(loc2)
      decreases |prog|, 1
    {
      var lp: nat, ep: nat := lp0, ep0;
      ghost var items, caps := Meanings(prog), Caps();
      ghost var want := Search(items, t, lp0, caps, locs);
      ghost var rest, bg, en := prog, begun, ended;
      while true
        invariant Ready(t, lp, code, ep, rest, bg, en) && |rest| <= |prog|
        invariant Continues(want, items, lp0, caps,
                            Search(Meanings(rest), t, lp, Caps(), locs), Meanings(rest), lp, Caps(), t)
        invariant Within(Meanings(rest), items) && Untouched(items, caps, Caps()) && loc2 == old(loc2)
        decreases |rest|
      {
        HasCodeStep(code, ep, rest);
        var op := code[ep];
        if op == CCEOF {
          assert rest == [] by { if rest != [] { SameKind(rest[0], rest[0]); } }
          loc2 := lp;
          return true;
        }
        ghost var i, now := rest[0], Caps();
        if Unrepeated(op) {
          UntouchedStep(items, Meanings(rest), caps, now, lp);
          var ok;
          ok, lp, ep := AdvancePlain(t, lp, code, ep, op, rest, bg, en);
          if !ok { return false; }
          bg, en, rest := Begun(Meaning(i).atom, bg), Ended(Meaning(i).atom, en), rest[1..];
        } else {
          r := AdvanceOther(t, lp, code, ep, op, rest, bg, en);
          if !r { UntouchedThen(items, Meanings(rest), caps, now, Caps()); }
          return;
        }
      }
    }

    // ----- step -----

    /** The result is the one the leftmost scan specifies, loc1 included. */
    ghost predicate DeliversHit(r: bool, h: Hit, items: seq<Item>, t: Subject, caps: Captures,
                                loc1Before: int, loc2Before: int)
      requires Valid()
      reads this, braslist, braelist
    {
      (r <==> h.At?) &&
      (r ==> h.start < |t| && loc1 == h.start &&
             var f := Follow(items, h.path, t, h.start, caps);
             f.Some? && f.value.pos == loc2 && f.value.caps == Caps()) &&
      (!r ==> loc1 == loc1Before && loc2 == loc2Before && Untouched(items, caps, Caps()))
    }

    /** The regular loop: try every position up to and including the terminating NUL. */
    method StepRegular(t: Subject, p0: nat, code: seq<Byte>, p2: nat, ghost prog: seq<Instr>) returns (r: bool)
      requires Ready(t, p0, code, p2, prog, {}, {})
      requires !Leftmost(Meanings(prog), t, p0, Caps(), locs).Endless?
      modifies this`loc1, this`loc2, this`low, this`size, braslist, braelist
      ensures DeliversHit(r, Leftmost(Meanings(prog), t, p0, old(Caps()), locs), Meanings(prog), t,
                          old(Caps()), old(loc1), old(loc2))
    {
      ghost var items, caps := Meanings(prog), Caps();
      ghost var want := Leftmost(items, t, p0, caps, locs);
      var p1 := p0;
      while true
        invariant p1 < |t| && want == Leftmost(items, t, p1, caps, locs)
        invariant Untouched(items, caps, Caps()) && loc1 == old(loc1) && loc2 == old(loc2)
        decreases |t| - p1
      {
        r := Retry(t, p1, code, p2, prog, {}, {}, caps, Search(Meanings(prog), t, p1, caps, locs));
        if r {
          loc1 := p1;
          return true;
        }
        if t[p1] == 0 { return false; }
        p1 := p1 + 1;
      }
    }

    static lemma {:induction false} FirstCharacterFails(items: seq<Item>, c: Byte, t: Subject, p: nat, caps: Captures, locs: int)
      requires p < |t| && items != [] && items[0] == Item(OneOf({c}), Once) && t[p] != c
      ensures Search(items, t, p, caps, locs).NotFound?
    {
    }

    /** The loop that skips positions which do not hold the first character. */
    method StepFast(t: Subject, p0: nat, code: seq<Byte>, p2: nat, ghost prog: seq<Instr>) returns (r: bool)
      requires Ready(t, p0, code, p2, prog, {}, {}) && p2 < |code| && code[p2] == CCHR
      requires !Leftmost(Meanings(prog), t, p0, Caps(), locs).Endless?
      modifies this`loc1, this`loc2, this`low, this`size, braslist, braelist
      ensures DeliversHit(r, Leftmost(Meanings(prog), t, p0, old(Caps()), locs), Meanings(prog), t,
                          old(Caps()), old(loc1), old(loc2))
    {
      ghost var items, caps := Meanings(prog), Caps();
      ghost var want := Leftmost(items, t, p0, caps, locs);
      HasCodeStep(code, p2, prog);
      OperandsFollow(code, p2, prog[0]);
      var c := code[p2 + 1];
      assert items[0] == Item(OneOf({c}), Once);
      var p1 := p0;
      while true
        invariant p1 < |t| && want == Leftmost(items, t, p1, caps, locs)
        invariant Untouched(items, caps, Caps()) && loc1 == old(loc1) && loc2 == old(loc2)
        decreases |t| - p1
      {
        if t[p1] != c {
          FirstCharacterFails(items, c, t, p1, caps, locs);
        } else {
          r := Retry(t, p1, code, p2, prog, {}, {}, caps, Search(Meanings(prog), t, p1, caps, locs));
          if r {
            loc1 := p1;
            return true;
          }
        }
        if t[p1] == 0 { return false; }
        p1 := p1 + 1;
      }
    }

    method Step(t: Subject, p1: nat, code: seq<Byte>, p2: nat, ghost prog: seq<Instr>) returns (r: bool)
      requires Ready(t, p1, code, p2, prog, {}, {})
      requires circf != 0 ==> !Search(Meanings(prog), t, p1, Caps(), locs).Hangs?
      requires circf == 0 ==> !Leftmost(Meanings(prog), t, p1, Caps(), locs).Endless?
      modifies this`loc1, this`loc2, this`low, this`size, braslist, braelist
      ensures circf != 0 ==> loc1 == p1 && (!r ==> loc2 == old(loc2))
      ensures circf != 0 ==>
              Delivers(r, Search(Meanings(prog), t, p1, old(Caps()), locs), Meanings(prog), t, p1, old(Caps()))
      ensures circf == 0 ==>
              DeliversHit(r, Leftmost(Meanings(prog), t, p1, old(Caps()), locs), Meanings(prog), t,
                          old(Caps()), old(loc1), old(loc2))
    {
      HasCodeStep(code, p2, prog);
      if circf != 0 {
        loc1 := p1;
        r := Advance(t, p1, code, p2, prog, {}, {});
      } else if code[p2] == CCHR {
        r := StepFast(t, p1, code, p2, prog);
      } else {
        r := StepRegular(t, p1, code, p2, prog);
      }
    }

    // ----- compile -----

    /** The parse fails, or its code leaves no room for the end mark. */
    static ghost predicate TooLong(p: Option<Parsed>, room: int) {
      p.None? || CodeSize(p.value.state.terms) >= room
    }

    /**
     * What is left to parse, and what will be written at endbuf (quantified,
     * so that it is spelled out only on demand).
     */
    static ghost predicate Pending(input: seq<Byte>, pos: nat, eof: Byte, mode: bool, st: State, room: int,
                                   p: Option<Parsed>, b: Option<Byte>)
    {
      pos <= |input| &&
      forall s {:trigger ParseFrom(s, eof, mode, st)} {:trigger Spilled(s, eof, mode, st, room)} :: s == input[pos..] ==>
        ParseFrom(s, eof, mode, st) == p && Spilled(s, eof, mode, st, room) == b
    }

    /**
     * Whether an item has put its second byte into the cell at endbuf.  Then
     * the pattern is too long; otherwise the rest of it is still pending.
     */
    static ghost predicate Left(input: seq<Byte>, pos: nat, eof: Byte, mode: bool, next: State, room: int,
                                p: Option<Parsed>, b: Option<Byte>, spilled: bool)
    {
      if spilled then b.Some? && TooLong(p, room) else Pending(input, pos, eof, mode, next, room, p, b)
    }

    /** The item from terms to `next` puts its second byte, b, into the cell at endbuf. */
    static ghost predicate SpillsOver(terms: seq<Term>, next: seq<Term>, room: int, b: Option<Byte>) {
      CodeSize(terms) == room - 1 && TwoMore(terms, next) && b == Some(LastByte(next[|next| - 1]))
    }

    /** One token that can be applied. */
    static lemma {:induction false} TokenStep(input: seq<Byte>, pos: nat, eof: Byte, mode: bool, st: State, l: Lexed<Token>,
                                              next: State, room: int, p: Option<Parsed>, b: Option<Byte>)
      returns (spilled: bool)
      requires Pending(input, pos, eof, mode, st, room, p, b) && CodeSize(st.terms) < room
      requires Lex(input[pos..], eof, mode, st.terms == []) == Some(l) && !l.value.End? && Apply(st, l.value) == Some(next)
      ensures pos < pos + l.used <= |input| && Left(input, pos + l.used, eof, mode, next, room, p, b, spilled)
      ensures spilled <==> CodeSize(st.terms) == room - 1 && TwoMore(st.terms, next.terms)
      ensures spilled ==> SpillsOver(st.terms, next.terms, room, b)
      ensures CodeSize(next.terms) >= room && !TwoMore(st.terms, next.terms) ==> TooLong(p, room) && b.None?
    {
      spilled := CodeSize(st.terms) == room - 1 && TwoMore(st.terms, next.terms);
      var s := input[pos..];
      assert Spilled(s, eof, mode, st, room) == b && ParseFrom(s, eof, mode, st) == p;
      assert s[l.used..] == input[pos + l.used..];
      if p.Some? { ParseGrows(s[l.used..], eof, mode, next); }
      assert CodeSize(next.terms) >= room ==> Spilled(s[l.used..], eof, mode, next, room).None?;
    }

    /** No token, or one that cannot be applied. */
    static lemma {:induction false} NoStep(input: seq<Byte>, pos: nat, eof: Byte, mode: bool, st: State, room: int,
                                           p: Option<Parsed>, b: Option<Byte>)
      requires Pending(input, pos, eof, mode, st, room, p, b) && CodeSize(st.terms) < room
      requires var l := Lex(input[pos..], eof, mode, st.terms == []);
               l.None? || (!l.value.value.End? && Apply(st, l.value.value).None?)
      ensures TooLong(p, room)
      ensures b == if CodeSize(st.terms) == room - 1 then SecondByte(input[pos..], eof, mode, st) else None
    {
      var s := input[pos..];
      assert Spilled(s, eof, mode, st, room) == b && ParseFrom(s, eof, mode, st) == p;
    }

    /** At the end of the pattern, or of the buffer. */
    static lemma {:induction false} NothingPending(input: seq<Byte>, pos: nat, eof: Byte, mode: bool, st: State, room: int,
                                                   p: Option<Parsed>, b: Option<Byte>, spilled: bool)
      requires Left(input, pos, eof, mode, st, room, p, b, spilled)
      ensures spilled ==> b.Some? && TooLong(p, room)
      ensures !spilled && (CodeSize(st.terms) >= room || pos == |input|) ==> b.None? && TooLong(p, room)
      ensures !spilled && pos < |input| && (input[pos] == eof || input[pos] == NEWLINE) ==> b.None?
    {
      if !spilled {
        var s := input[pos..];
        assert Spilled(s, eof, mode, st, room) == b && ParseFrom(s, eof, mode, st) == p;
        if p.Some? { ParseGrows(s, eof, mode, st); }
      }
    }

    /** Code has grown from ep0 to ep, with this second byte if there are two. */
    static predicate Grown(before: seq<Byte>, after: seq<Byte>, start: nat, ep0: nat, ep: nat, second: Option<Byte>) {
      ep0 <= ep <= ep0 + 2 && (second.Some? <==> ep == ep0 + 2) && SameOutside(before, after, start, ep) &&
      CellIs(before, after, ep0 + 1, second)
    }

    /** The state after a character that is neither special in this place nor the start of a class. */
    static function AfterPlain(st: State, c: Byte, atEnd: bool): State {
      if c == DOT then Push(st, Plain(Dot))
      else if c == ASTERISK then Apply(st, StarToken).value
      else if c == DOLLAR && atEnd then Push(st, Plain(Dol))
      else Push(st, Plain(Chr(c)))
    }

    /** The second byte of its code. */
    static function PlainSecond(st: State, c: Byte, atEnd: bool): Option<Byte> {
      if c == DOT || (c == DOLLAR && atEnd) || (c == ASTERISK && !StarIsLiteral(st.terms)) then None else Some(c)
    }

    static lemma {:induction false} PlainIsTwo(st: State, c: Byte, atEnd: bool)
      ensures var next, second := AfterPlain(st, c, atEnd).terms, PlainSecond(st, c, atEnd);
              (second.Some? <==> TwoMore(st.terms, next)) &&
              (second.Some? ==> second.value == LastByte(next[|next| - 1]))
    {
      if PlainSecond(st, c, atEnd).Some? {
        PushIsTwo(st.terms, Chr(c));
      } else if c == ASTERISK {
        StarAddsNothing(st);
      } else {
        CodeSizePush(st.terms, Term(Plain(if c == DOT then Dot else Dol), One));
      }
    }

    /** The token of such a character. */
    static function PlainToken(c: Byte, atEnd: bool): Token {
      if c == DOT then Atomic(Plain(Dot))
      else if c == ASTERISK then StarToken
      else if c == DOLLAR && atEnd then Atomic(Plain(Dol))
      else Atomic(Plain(Chr(c)))
    }

    static lemma {:induction false} PlainLexed(input: seq<Byte>, pos: nat, eof: Byte, sed: bool, first: bool)
      requires pos < |input| && input[pos] != LBRACKET
      requires input[pos] != BACKSLASH && input[pos] != eof && input[pos] != NEWLINE
      ensures var atEnd := pos + 1 < |input| && (input[pos + 1] == eof || input[pos + 1] == NEWLINE);
              Lex(input[pos..], eof, sed, first) == Some(Lexed(PlainToken(input[pos], atEnd), 1))
    {
      var s := input[pos..];
      assert s[0] == input[pos] && (|s| > 1 ==> s[1] == input[pos + 1]);
    }

    static lemma {:induction false} PlainStep(input: seq<Byte>, pos: nat, eof: Byte, mode: bool, st: State, room: int,
                                              p: Option<Parsed>, b: Option<Byte>)
      returns (next: State, spilled: bool)
      requires pos < |input| && Pending(input, pos, eof, mode, st, room, p, b) && CodeSize(st.terms) < room
      requires input[pos] != LBRACKET && input[pos] != BACKSLASH && input[pos] != eof && input[pos] != NEWLINE
      ensures var atEnd := pos + 1 < |input| && (input[pos + 1] == eof || input[pos + 1] == NEWLINE);
              next == AfterPlain(st, input[pos], atEnd) && next == st.(terms := next.terms)
      ensures Left(input, pos + 1, eof, mode, next, room, p, b, spilled)
      ensures var atEnd := pos + 1 < |input| && (input[pos + 1] == eof || input[pos + 1] == NEWLINE);
              var second := PlainSecond(st, input[pos], atEnd);
              (spilled <==> CodeSize(st.terms) == room - 1 && second.Some?) && (spilled ==> b == second)
    {
      var atEnd := pos + 1 < |input| && (input[pos + 1] == eof || input[pos + 1] == NEWLINE);
      next := AfterPlain(st, input[pos], atEnd);
      PlainIsTwo(st, input[pos], atEnd);
      PlainLexed(input, pos, eof, mode, st.terms == []);
      spilled := TokenStep(input, pos, eof, mode, st, Lexed(PlainToken(input[pos], atEnd), 1), next, room, p, b);
    }

    static lemma {:induction false} BracketLexed(input: seq<Byte>, pos: nat, eof: Byte, sed: bool, first: bool)
      requires pos < |input| && input[pos] == LBRACKET != eof
      ensures var l := LexClass(input[pos + 1..]);
              Lex(input[pos..], eof, sed, first) ==
              if l.None? then None else Some(Lexed(Atomic(Class(l.value.value)), l.value.used + 1))
    {
      assert input[pos..][1..] == input[pos + 1..];
    }

    static lemma {:induction false} ClassHasMore(terms: seq<Term>, cls: ClassExpr)
      ensures !TwoMore(terms, terms + [Term(Class(cls), One)])
    {
      CodeSizePush(terms, Term(Class(cls), One));
    }

    static lemma {:induction false} ClassStep(input: seq<Byte>, pos: nat, eof: Byte, mode: bool, st: State, room: int,
                                              p: Option<Parsed>, b: Option<Byte>)
      returns (l: Option<Lexed<ClassExpr>>, pos1: nat, next: State)
      requires pos < |input| && Pending(input, pos, eof, mode, st, room, p, b) && CodeSize(st.terms) < room
      requires input[pos] == LBRACKET != eof
      ensures ClassAt(input, pos + 1, l)
      ensures if l.None? then TooLong(p, room) && b.None?
              else
                next == st.(terms := next.terms) && next.terms == st.terms + [Term(Class(l.value.value), One)] &&
                pos1 == pos + 1 + l.value.used <= |input| && Left(input, pos1, eof, mode, next, room, p, b, false) &&
                !TwoMore(st.terms, next.terms) && (CodeSize(next.terms) >= room ==> TooLong(p, room) && b.None?)
    {
      BracketLexed(input, pos, eof, mode, st.terms == []);
      l, pos1, next := LexClass(input[pos + 1..]), pos, st;
      if l.Some? {
        pos1, next := pos + 1 + l.value.used, Push(st, Class(l.value.value));
        ClassHasMore(st.terms, l.value.value);
        var spilled := TokenStep(input, pos, eof, mode, st, Lexed(Atomic(Class(l.value.value)), l.value.used + 1), next,
                                 room, p, b);
      } else {
        NoStep(input, pos, eof, mode, st, room, p, b);
        assert input[pos..][0] == LBRACKET;
      }
    }

    /** One character of the pattern that is neither an escape, the end, nor the start of a class. */
    static method PutPlain(buf: array<Byte>, start: nat, ep0: nat, c: Byte, atEnd: bool, lastep0: int, ghost st: State)
      returns (ep: nat, lastep: int)
      requires ep0 < buf.Length && Emitted(buf, start, ep0, lastep0, st.terms)
      requires PlainSecond(st, c, atEnd).Some? ==> ep0 + 1 < buf.Length
      modifies buf
      ensures Emitted(buf, start, ep, lastep, AfterPlain(st, c, atEnd).terms)
      ensures Grown(old(buf[..]), buf[..], start, ep0, ep, PlainSecond(st, c, atEnd))
    {
      if c == DOT {
        PlainCode(Dot);
        ep, lastep := PutOne(buf, start, ep0, CDOT, lastep0, st.terms, Term(Plain(Dot), One));
      } else if c == ASTERISK {
        ep, lastep := PutStar(buf, start, ep0, lastep0, st.terms);
      } else if c == DOLLAR && atEnd {
        PlainCode(Dol);
        ep, lastep := PutOne(buf, start, ep0, CDOL, lastep0, st.terms, Term(Plain(Dol), One));
      } else {
        ghost var next;
        ep, lastep, next := PutCharacter(buf, start, ep0, lastep0, c, st);
      }
    }

    /** A character of the pattern that is neither an escape, the end nor the start of a class. */
    static method CompileCharacter(input: seq<Byte>, pos0: nat, buf: array<Byte>, start: nat, ep0: nat, ghost endbuf: nat,
                                   eof: Byte, ghost mode: bool, lastep0: int,
                                   ghost st: State, ghost p: Option<Parsed>, ghost b: Option<Byte>)
      returns (pos: nat, ep: nat, lastep: int, ghost next: State, ghost spilled: bool)
      requires pos0 < |input| && ep0 < endbuf <= buf.Length && Emitted(buf, start, ep0, lastep0, st.terms)
      requires input[pos0] != BACKSLASH && input[pos0] != LBRACKET && input[pos0] != eof && input[pos0] != NEWLINE
      requires Pending(input, pos0, eof, mode, st, endbuf - start, p, b) && (b.Some? ==> endbuf < buf.Length)
      modifies buf
      ensures pos0 < pos <= |input| && ep0 <= ep <= endbuf + 1 && SameOutside(old(buf[..]), buf[..], start, ep)
      ensures Emitted(buf, start, ep, lastep, next.terms) && next == st.(terms := next.terms)
      ensures Left(input, pos, eof, mode, next, endbuf - start, p, b, spilled) && (spilled ==> ep == endbuf + 1)
      ensures CellIs(old(buf[..]), buf[..], endbuf, if spilled then b else None)
    {
      pos := pos0 + 1;
      EmittedSize(buf, start, ep0, lastep0, st.terms);
      next, spilled := PlainStep(input, pos0, eof, mode, st, endbuf - start, p, b);
      var atEnd := pos < |input| && (input[pos] == eof || input[pos] == NEWLINE);
      ep, lastep := PutPlain(buf, start, ep0, input[pos0], atEnd, lastep0, st);
    }

    /** A bracket expression. */
    static method CompileBracket(input: seq<Byte>, pos0: nat, buf: array<Byte>, start: nat, ep0: nat, endbuf: nat,
                                 ghost eof: Byte, ghost mode: bool, ghost lastep0: int,
                                 ghost st: State, ghost p: Option<Parsed>, ghost b: Option<Byte>)
      returns (ok: bool, pos: nat, ep: nat, lastep: int, ghost next: State)
      requires pos0 < |input| && ep0 < endbuf <= buf.Length && Emitted(buf, start, ep0, lastep0, st.terms)
      requires input[pos0] == LBRACKET != eof && Pending(input, pos0, eof, mode, st, endbuf - start, p, b)
      modifies buf
      ensures ok ==> pos0 < pos <= |input| && ep0 <= ep <= endbuf + 1 && SameOutside(old(buf[..]), buf[..], start, ep)
      ensures ok ==> Emitted(buf, start, ep, lastep, next.terms) && next == st.(terms := next.terms)
      ensures ok ==> Left(input, pos, eof, mode, next, endbuf - start, p, b, false)
      ensures SameOutside(old(buf[..]), buf[..], start, endbuf)
      ensures !ok ==> TooLong(p, endbuf - start) && b.None?
    {
      ghost var l, pos1;
      EmittedSize(buf, start, ep0, lastep0, st.terms);
      l, pos1, next := ClassStep(input, pos0, eof, mode, st, endbuf - start, p, b);
      ok, pos, ep, lastep := PutClass(input, pos0 + 1, buf, start, ep0, endbuf, lastep0, st.terms, l);
      assert ok ==> pos == pos1;
    }

    /** One character of the pattern that is neither an escape nor the end. */
    static method CompilePlain(input: seq<Byte>, pos0: nat, buf: array<Byte>, start: nat, ep0: nat, endbuf: nat,
                               eof: Byte, ghost mode: bool, lastep0: int,
                               ghost st: State, ghost p: Option<Parsed>, ghost b: Option<Byte>)
      returns (ok: bool, pos: nat, ep: nat, lastep: int, ghost next: State, ghost spilled: bool)
      requires pos0 < |input| && ep0 < endbuf <= buf.Length && Emitted(buf, start, ep0, lastep0, st.terms)
      requires input[pos0] != BACKSLASH && input[pos0] != eof && input[pos0] != NEWLINE
      requires Pending(input, pos0, eof, mode, st, endbuf - start, p, b) && (b.Some? ==> endbuf < buf.Length)
      modifies buf
      ensures ok ==> pos0 < pos <= |input| && ep0 <= ep <= endbuf + 1 && SameOutside(old(buf[..]), buf[..], start, ep)
      ensures ok ==> Emitted(buf, start, ep, lastep, next.terms) && next == st.(terms := next.terms)
      ensures ok ==> Left(input, pos, eof, mode, next, endbuf - start, p, b, spilled) && (spilled ==> ep == endbuf + 1)
      ensures ok ==> CellIs(old(buf[..]), buf[..], endbuf, if spilled then b else None)
      ensures !ok ==> TooLong(p, endbuf - start) && CellIs(old(buf[..]), buf[..], endbuf, b)
      ensures !ok ==> SameOutside(old(buf[..]), buf[..], start, endbuf + 1)
    {
      if input[pos0] == LBRACKET {
        spilled := false;
        ok, pos, ep, lastep, next := CompileBracket(input, pos0, buf, start, ep0, endbuf, eof, mode, lastep0, st, p, b);
      } else {
        ok := true;
        pos, ep, lastep, next, spilled :=
          CompileCharacter(input, pos0, buf, start, ep0, endbuf, eof, mode, lastep0, st, p, b);
      }
    }

    static lemma {:induction false} EscapeLexed(input: seq<Byte>, pos: nat, eof: Byte, sed: bool, first: bool)
      requires pos < |input| && input[pos] == BACKSLASH != eof
      ensures var s := input[pos..];
              if pos + 1 == |input| then Lex(s, eof, sed, first).None?
              else
                Lex(s, eof, sed, first) == LexEscape(s, first) && s[1] == input[pos + 1] && s[2..] == input[pos + 2..]
    {
    }

    static lemma {:induction false} IntervalStep(input: seq<Byte>, pos: nat, eof: Byte, mode: bool, st: State, room: int,
                                                 p: Option<Parsed>, b: Option<Byte>)
      returns (l: Option<Lexed<(Byte, Byte)>>, second: Option<Byte>, pos1: nat, next: State)
      requires pos + 1 < |input| && Pending(input, pos, eof, mode, st, room, p, b) && CodeSize(st.terms) < room
      requires input[pos] == BACKSLASH != eof && input[pos + 1] == LBRACE && st.terms != []
      ensures IntervalAt(input, pos + 2, l, second) && (CodeSize(st.terms) == room - 1 ==> b == second)
      ensures if l.None? then TooLong(p, room) && (CodeSize(st.terms) < room - 1 ==> b.None?)
              else
                pos1 == pos + 2 + l.value.used <= |input| && next == st.(terms := AfterInterval(st.terms, l.value.value)) &&
                Left(input, pos1, eof, mode, next, room, p, b, CodeSize(st.terms) == room - 1)
    {
      EscapeLexed(input, pos, eof, mode, false);
      l, second, pos1, next := LexInterval(input[pos + 2..]), SecondWritten(input[pos + 2..]), pos, st;
      if l.Some? {
        var pair := l.value.value;
        pos1, next := pos + 2 + l.value.used, st.(terms := AfterInterval(st.terms, pair));
        SecondIsUpper(input[pos + 2..]);
        IntervalIsTwo(st.terms, pair);
        var spilled := TokenStep(input, pos, eof, mode, st, Lexed(IntervalToken(pair.0, pair.1), l.value.used + 2), next,
                                 room, p, b);
      } else {
        NoStep(input, pos, eof, mode, st, room, p, b);
      }
    }

    /** The second byte of the code of an escape. */
    static function EscapeSecond(st: State, c: Byte): Option<Byte> {
      var a := Apply(st, EscapeToken(c));
      if a.None? then None else Some(LastByte(a.value.terms[|st.terms|]))
    }

    static lemma {:induction false} EscapeStep(input: seq<Byte>, pos: nat, eof: Byte, mode: bool, st: State, room: int,
                                               p: Option<Parsed>, b: Option<Byte>)
      returns (next: Option<State>, spilled: bool)
      requires pos < |input| && Pending(input, pos, eof, mode, st, room, p, b) && CodeSize(st.terms) < room
      requires input[pos] == BACKSLASH != eof && (pos + 1 < |input| && input[pos + 1] == LBRACE ==> st.terms == [])
      ensures next == (if pos + 1 == |input| || input[pos + 1] == NEWLINE then None
                       else Apply(st, EscapeToken(input[pos + 1])))
      ensures next.None? ==> TooLong(p, room) && b.None?
      ensures next.Some? ==> Left(input, pos + 2, eof, mode, next.value, room, p, b, spilled)
      ensures next.Some? ==>
                (spilled <==> CodeSize(st.terms) == room - 1) && (spilled ==> b == EscapeSecond(st, input[pos + 1]))
    {
      next, spilled := None, false;
      EscapeLexed(input, pos, eof, mode, st.terms == []);
      if pos + 1 == |input| || input[pos + 1] == NEWLINE {
        NoStep(input, pos, eof, mode, st, room, p, b);
      } else {
        next := Apply(st, EscapeToken(input[pos + 1]));
        EscapeIsTwo(st, input[pos + 1]);
        if next.None? {
          NoStep(input, pos, eof, mode, st, room, p, b);
        } else {
          spilled := TokenStep(input, pos, eof, mode, st, Lexed(EscapeToken(input[pos + 1]), 2), next.value, room, p, b);
        }
      }
    }

    /** The bracket stack and the counters agree with the state of the parse. */
    ghost predicate Stacked(bracket: array<Group>, bp: nat, closed: nat, st: State)
      reads this, bracket
    {
      bracket.Length == NBRA && bp == |st.stack| <= NBRA && bracket[..bp] == st.stack &&
      |st.stack| <= st.nbra == nbra <= NBRA && closed == st.closed
    }

    /** `\(`: a mark with the number of the group, which goes on the stack. */
    method PutOpen(buf: array<Byte>, start: nat, ep0: nat, ghost lastep0: int, bracket: array<Group>, bp0: nat,
                   ghost closed: nat, ghost st: State)
      returns (ok: bool, ep: nat, lastep: int, bp: nat, ghost next: Option<State>)
      requires (Apply(st, OpenToken).Some? ==> ep0 + 1 < buf.Length) && Emitted(buf, start, ep0, lastep0, st.terms) && Stacked(bracket, bp0, closed, st)
      modifies buf, bracket, this`nbra
      ensures next == Apply(st, OpenToken) && (ok <==> next.Some?)
      ensures ok ==> Emitted(buf, start, ep, lastep, next.value.terms)
      ensures Grown(old(buf[..]), buf[..], start, ep0, ep, if ok then Some(LastByte(next.value.terms[|st.terms|])) else None)
      ensures ok ==> Stacked(bracket, bp, closed, next.value)
    {
      ok, ep, lastep, bp, next := true, ep0, ep0, bp0, Apply(st, OpenToken);
      if nbra >= NBRA { return false, ep, lastep, bp, next; }
      bracket[bp] := nbra;
      bp := bp + 1;
      assert bracket[..bp] == st.stack + [nbra];
      PlainCode(Bra(nbra));
      ep, lastep := PutTwo(buf, start, ep, CBRA, nbra, lastep0, st.terms, Term(Plain(Bra(nbra)), One));
      nbra := nbra + 1;
    }

    /** `\)`: a mark with the number of the innermost open group, which leaves the stack. */
    method PutClose(buf: array<Byte>, start: nat, ep0: nat, ghost lastep0: int, bracket: array<Group>, bp0: nat,
                    closed0: nat, ghost st: State)
      returns (ok: bool, ep: nat, lastep: int, bp: nat, closed: nat, ghost next: Option<State>)
      requires (Apply(st, CloseToken).Some? ==> ep0 + 1 < buf.Length) && Emitted(buf, start, ep0, lastep0, st.terms) && Stacked(bracket, bp0, closed0, st)
      modifies buf
      ensures next == Apply(st, CloseToken) && (ok <==> next.Some?)
      ensures ok ==> Emitted(buf, start, ep, lastep, next.value.terms)
      ensures Grown(old(buf[..]), buf[..], start, ep0, ep, if ok then Some(LastByte(next.value.terms[|st.terms|])) else None)
      ensures ok ==> Stacked(bracket, bp, closed, next.value)
    {
      ok, ep, lastep, bp, closed, next := true, ep0, ep0, bp0, closed0, Apply(st, CloseToken);
      if bp == 0 { return false, ep, lastep, bp, closed, next; }
      bp := bp - 1;
      ghost var g := st.stack[bp];
      assert bracket[bp] == bracket[..bp0][bp] == g;
      assert bracket[..bp] == st.stack[..bp];
      PlainCode(Ket(g));
      ep, lastep := PutTwo(buf, start, ep, CKET, bracket[bp], lastep0, st.terms, Term(Plain(Ket(g)), One));
      closed := closed + 1;
    }

    /** A back-reference, refused unless as many groups are closed as its number asks for. */
    static method PutBack(buf: array<Byte>, start: nat, ep0: nat, ghost lastep0: int, closed: nat, d: Group, ghost st: State)
      returns (ok: bool, ep: nat, lastep: int, ghost next: Option<State>)
      requires (Apply(st, BackToken(d)).Some? ==> ep0 + 1 < buf.Length) && Emitted(buf, start, ep0, lastep0, st.terms) && closed == st.closed
      modifies buf
      ensures next == Apply(st, BackToken(d)) && (ok <==> next.Some?)
      ensures ok ==> Emitted(buf, start, ep, lastep, next.value.terms)
      ensures Grown(old(buf[..]), buf[..], start, ep0, ep, if ok then Some(LastByte(next.value.terms[|st.terms|])) else None)
    {
      ok, ep, lastep, next := d < closed, ep0, ep0, Apply(st, BackToken(d));
      if ok {
        PlainCode(Backref(d));
        ep, lastep := PutTwo(buf, start, ep0, CBACK, d, lastep0, st.terms, Term(Plain(Backref(d)), One));
      }
    }

    /** A character that stands for itself. */
    static method PutCharacter(buf: array<Byte>, start: nat, ep0: nat, ghost lastep0: int, c: Byte, ghost st: State)
      returns (ep: nat, lastep: int, ghost next: State)
      requires ep0 + 1 < buf.Length && Emitted(buf, start, ep0, lastep0, st.terms)
      modifies buf
      ensures next == Push(st, Plain(Chr(c))) && Emitted(buf, start, ep, lastep, next.terms)
      ensures Grown(old(buf[..]), buf[..], start, ep0, ep, Some(c))
    {
      next := Push(st, Plain(Chr(c)));
      PlainCode(Chr(c));
      ep, lastep := PutTwo(buf, start, ep0, CCHR, c, lastep0, st.terms, Term(Plain(Chr(c)), One));
    }

    /** Any escape that is not an interval. */
    method PutEscaped(buf: array<Byte>, start: nat, ep0: nat, c: Byte, ghost lastep0: int,
                      bracket: array<Group>, bp0: nat, closed0: nat, ghost st: State, ghost next: Option<State>)
      returns (ok: bool, ep: nat, lastep: int, bp: nat, closed: nat)
      requires (EscapeSecond(st, c).Some? ==> ep0 + 1 < buf.Length) && Emitted(buf, start, ep0, lastep0, st.terms)
      requires Stacked(bracket, bp0, closed0, st) && next == Apply(st, EscapeToken(c))
      modifies buf, bracket, this`nbra
      ensures ok <==> next.Some?
      ensures ok ==> Emitted(buf, start, ep, lastep, next.value.terms)
      ensures Grown(old(buf[..]), buf[..], start, ep0, ep, EscapeSecond(st, c))
      ensures ok ==> Stacked(bracket, bp, closed, next.value)
    {
      ghost var after;
      ok, bp, closed := true, bp0, closed0;
      if c == LPAREN {
        ok, ep, lastep, bp, after := PutOpen(buf, start, ep0, lastep0, bracket, bp, closed, st);
      } else if c == RPAREN {
        ok, ep, lastep, bp, closed, after := PutClose(buf, start, ep0, lastep0, bracket, bp, closed, st);
      } else if ONE <= c <= NINE {
        ok, ep, lastep, after := PutBack(buf, start, ep0, lastep0, closed, c - ONE, st);
      } else {
        ghost var pushed;
        ep, lastep, pushed := PutCharacter(buf, start, ep0, lastep0, if c == LETTER_N then NEWLINE else c, st);
        after := Some(pushed);
      }
      assert after == next;
    }

    /** An interval of the pattern. */
    static method CompileBraces(input: seq<Byte>, pos0: nat, buf: array<Byte>, start: nat, ep0: nat, ghost endbuf: nat,
                                ghost eof: Byte, ghost mode: bool, lastep: int,
                                ghost st: State, ghost p: Option<Parsed>, ghost b: Option<Byte>)
      returns (ok: bool, pos: nat, ep: nat, ghost next: State, ghost spilled: bool)
      requires pos0 + 1 < |input| && ep0 < endbuf <= buf.Length && Emitted(buf, start, ep0, lastep, st.terms)
      requires input[pos0] == BACKSLASH != eof && input[pos0 + 1] == LBRACE && st.terms != []
      requires Pending(input, pos0, eof, mode, st, endbuf - start, p, b) && (b.Some? ==> endbuf < buf.Length)
      modifies buf
      ensures ok ==> pos0 < pos <= |input| && ep == ep0 + 2 && SameOutside(old(buf[..]), buf[..], start, ep)
      ensures ok ==> Emitted(buf, start, ep, lastep, next.terms) && next == st.(terms := next.terms)
      ensures ok ==> Left(input, pos, eof, mode, next, endbuf - start, p, b, spilled) && (spilled <==> ep == endbuf + 1)
      ensures ok ==> CellIs(old(buf[..]), buf[..], endbuf, if spilled then b else None)
      ensures !ok ==> TooLong(p, endbuf - start) && CellIs(old(buf[..]), buf[..], endbuf, b)
      ensures !ok ==> SameOutside(old(buf[..]), buf[..], start, endbuf + 1)
    {
      ghost var l, second, pos1;
      EmittedSize(buf, start, ep0, lastep, st.terms);
      l, second, pos1, next := IntervalStep(input, pos0, eof, mode, st, endbuf - start, p, b);
      spilled := CodeSize(st.terms) == endbuf - start - 1;
      ok, pos, ep := PutInterval(input, pos0 + 2, buf, start, ep0, lastep, st.terms, l, second);
      assert ok ==> pos == pos1;
    }

    /** An escape that is not an interval. */
    method CompileQuoted(input: seq<Byte>, pos0: nat, buf: array<Byte>, start: nat, ep0: nat, ghost endbuf: nat, ghost eof: Byte,
                         ghost mode: bool, ghost lastep0: int, bracket: array<Group>, bp0: nat, closed0: nat,
                         ghost st: State, ghost p: Option<Parsed>, ghost b: Option<Byte>)
      returns (ok: bool, pos: nat, ep: nat, lastep: int, bp: nat, closed: nat, ghost next: State, ghost spilled: bool)
      requires pos0 < |input| && ep0 < endbuf <= buf.Length && Emitted(buf, start, ep0, lastep0, st.terms)
      requires input[pos0] == BACKSLASH != eof && Stacked(bracket, bp0, closed0, st)
      requires pos0 + 1 < |input| && input[pos0 + 1] == LBRACE ==> st.terms == []
      requires Pending(input, pos0, eof, mode, st, endbuf - start, p, b) && (b.Some? ==> endbuf < buf.Length)
      modifies buf, bracket, this`nbra
      ensures ok ==> pos0 < pos <= |input| && ep0 <= ep <= endbuf + 1 && SameOutside(old(buf[..]), buf[..], start, ep)
      ensures ok ==> Emitted(buf, start, ep, lastep, next.terms) && Stacked(bracket, bp, closed, next)
      ensures ok ==> Left(input, pos, eof, mode, next, endbuf - start, p, b, spilled) && (spilled ==> ep == endbuf + 1)
      ensures ok ==> CellIs(old(buf[..]), buf[..], endbuf, if spilled then b else None)
      ensures !ok ==> TooLong(p, endbuf - start) && CellIs(old(buf[..]), buf[..], endbuf, b)
      ensures !ok ==> SameOutside(old(buf[..]), buf[..], start, endbuf + 1)
    {
      ok, pos, ep, lastep, bp, closed, next, spilled := false, pos0 + 1, ep0, ep0, bp0, closed0, st, false;
      EmittedSize(buf, start, ep0, lastep0, st.terms);
      ghost var after;
      after, spilled := EscapeStep(input, pos0, eof, mode, st, endbuf - start, p, b);
      if pos >= |input| { return; }
      var c := input[pos];
      if c == NEWLINE { return; }
      pos := pos0 + 2;
      ok, ep, lastep, bp, closed := PutEscaped(buf, start, ep0, c, lastep0, bracket, bp0, closed0, st, after);
      if ok { next := after.value; }
    }

    /** One escape of the pattern. */
    method CompileEscape(input: seq<Byte>, pos0: nat, buf: array<Byte>, start: nat, ep0: nat, ghost endbuf: nat, eof: Byte,
                         ghost mode: bool, lastep0: int, bracket: array<Group>, bp0: nat, closed0: nat,
                         ghost st: State, ghost p: Option<Parsed>, ghost b: Option<Byte>)
      returns (ok: bool, pos: nat, ep: nat, lastep: int, bp: nat, closed: nat, ghost next: State, ghost spilled: bool)
      requires pos0 < |input| && ep0 < endbuf <= buf.Length && Emitted(buf, start, ep0, lastep0, st.terms)
      requires input[pos0] == BACKSLASH != eof && Stacked(bracket, bp0, closed0, st)
      requires Pending(input, pos0, eof, mode, st, endbuf - start, p, b) && (b.Some? ==> endbuf < buf.Length)
      modifies buf, bracket, this`nbra
      ensures ok ==> pos0 < pos <= |input| && ep0 <= ep <= endbuf + 1 && SameOutside(old(buf[..]), buf[..], start, ep)
      ensures ok ==> Emitted(buf, start, ep, lastep, next.terms) && Stacked(bracket, bp, closed, next)
      ensures ok ==> Left(input, pos, eof, mode, next, endbuf - start, p, b, spilled) && (spilled ==> ep == endbuf + 1)
      ensures ok ==> CellIs(old(buf[..]), buf[..], endbuf, if spilled then b else None)
      ensures !ok ==> TooLong(p, endbuf - start) && CellIs(old(buf[..]), buf[..], endbuf, b)
      ensures !ok ==> SameOutside(old(buf[..]), buf[..], start, endbuf + 1)
    {
      bp, closed, lastep := bp0, closed0, lastep0;
      EmittedSize(buf, start, ep0, lastep0, st.terms);
      if pos0 + 1 < |input| && input[pos0 + 1] == LBRACE && lastep != -1 {
        ok, pos, ep, next, spilled := CompileBraces(input, pos0, buf, start, ep0, endbuf, eof, mode, lastep, st, p, b);
      } else {
        ok, pos, ep, lastep, bp, closed, next, spilled :=
          CompileQuoted(input, pos0, buf, start, ep0, endbuf, eof, mode, lastep, bracket, bp, closed, st, p, b);
      }
    }

    /** The delimiter, or a newline that is left unread, ends the pattern. */
    static lemma {:induction false} EndStep(input: seq<Byte>, pos: nat, eof: Byte, mode: bool, st: State, room: int,
                                            p: Option<Parsed>, b: Option<Byte>)
      requires Pending(input, pos, eof, mode, st, room, p, b)
      requires pos < |input| && (input[pos] == eof || input[pos] == NEWLINE)
      ensures p == if st.stack != [] || (input[pos] != eof && mode) then None
                   else Some(Parsed(st, |input| - pos - (if input[pos] == eof then 1 else 0), input[pos] == eof))
    {
      assert ParseFrom(input[pos..], eof, mode, st) == p;
    }

    static lemma {:induction false} FinishCode(code: seq<Byte>, start: nat, ep: nat, terms: seq<Term>)
      requires start <= ep < |code| && IsCode(code[start..ep], terms) && code[ep] == CCEOF
      ensures code[start..ep + 1] == Code(LowerAll(terms))
    {
      assert code[start..ep + 1] == code[start..ep] + [CCEOF];
      assert Encode(LowerAll(terms)) == code[start..ep];
    }

    /** The pattern is empty: the program already in the buffer is to be used again. */
    static predicate IsEmpty(input: seq<Byte>, eof: Byte) {
      input != [] && (input[0] == eof || input[0] == NEWLINE)
    }

    /** What is written at endbuf, `room` cells behind the start of the code, while the pattern is read. */
    static function SpilledAt(input: seq<Byte>, eof: Byte, sed: bool, room: int): Option<Byte> {
      if input == [] || IsEmpty(input, eof) then None
      else Spilled(if input[0] == CARET then input[1..] else input, eof, sed, START, room)
    }

    /** The end of a pattern: the end mark, unless a group is still open. */
    static method Finish(buf: array<Byte>, start: nat, ep0: nat, bp: nat, ghost lastep: int, ghost terms: seq<Term>)
      returns (ok: bool, ep: nat)
      requires ep0 < buf.Length && Emitted(buf, start, ep0, lastep, terms)
      modifies buf
      ensures ok <==> bp == 0
      ensures ep == ep0 + 1 && SameOutside(old(buf[..]), buf[..], start, ep)
      ensures ok ==> buf[start..ep] == Code(LowerAll(terms))
    {
      EmittedNow(buf, start, ep0, lastep, terms);
      buf[ep0] := CCEOF;
      ep := ep0 + 1;
      assert buf[..][start..ep0] == old(buf[..])[start..ep0];
      FinishCode(buf[..], start, ep0, terms);
      ok := bp == 0;
    }

    /** If its delimiter ended the pattern, it has been read, and `nodelim` is as before; a newline is still to be read. */
    static predicate DelimitedBy(input: seq<Byte>, read: nat, eof: Byte, delimited: bool, nodelim: int, before: int) {
      if delimited then nodelim == before && 0 < read <= |input| && input[read - 1] == eof
      else nodelim == 1 && read < |input| && input[read] == NEWLINE
    }

    /** The delimiter or a newline: the end of the pattern. */
    method CompileEnd(input: seq<Byte>, pos0: nat, buf: array<Byte>, start: nat, ep0: nat, eof: Byte, bp: nat,
                      ghost lastep: int, ghost st: State, ghost room: int, ghost p: Option<Parsed>, ghost b: Option<Byte>)
      returns (r: Compiled)
      requires pos0 < |input| && ep0 < buf.Length && (input[pos0] == eof || input[pos0] == NEWLINE)
      requires Emitted(buf, start, ep0, lastep, st.terms) && bp == |st.stack|
      requires Pending(input, pos0, eof, sed != 0, st, room, p, b)
      modifies this`nodelim, buf
      ensures r.Done? <==> p.Some?
      ensures r.Done? ==> p.value.state == st && r.ep == ep0 + 1 && r.read + p.value.left == |input|
      ensures r.Done? ==> DelimitedBy(input, r.read, eof, p.value.delimited, nodelim, old(nodelim))
      ensures r.Done? ==> if input[pos0] == eof then p.value.delimited && nodelim == old(nodelim) && r.read == pos0 + 1
                          else !p.value.delimited && nodelim == 1 && r.read == pos0
      ensures r.Done? ==> buf[start..r.ep] == Code(LowerAll(st.terms))
      ensures SameOutside(old(buf[..]), buf[..], start, ep0 + 1)
    {
      EndStep(input, pos0, eof, sed != 0, st, room, p, b);
      var pos := pos0;
      if input[pos] == eof {
        pos := pos + 1;
      } else if sed != 0 {
        return Error;
      } else {
        nodelim := 1;
      }
      var ok, ep := Finish(buf, start, ep0, bp, lastep, st.terms);
      if !ok { return Error; }
      return Done(ep, pos);
    }

    /** One item of the pattern: the code grows by it, or the pattern is refused. */
    method CompileItem(input: seq<Byte>, pos0: nat, buf: array<Byte>, start: nat, ep0: nat, endbuf: nat, eof: Byte,
                       ghost mode: bool, lastep0: int, bracket: array<Group>, bp0: nat, closed0: nat,
                       ghost st: State, ghost p: Option<Parsed>, ghost b: Option<Byte>)
      returns (ok: bool, pos: nat, ep: nat, lastep: int, bp: nat, closed: nat, ghost next: State, ghost spilled: bool)
      requires pos0 < |input| && ep0 < endbuf <= buf.Length && Emitted(buf, start, ep0, lastep0, st.terms)
      requires input[pos0] != eof && input[pos0] != NEWLINE && Stacked(bracket, bp0, closed0, st)
      requires Pending(input, pos0, eof, mode, st, endbuf - start, p, b) && (b.Some? ==> endbuf < buf.Length)
      modifies buf, bracket, this`nbra
      ensures ok ==> pos0 < pos <= |input| && ep0 <= ep <= endbuf + 1 && SameOutside(old(buf[..]), buf[..], start, ep)
      ensures ok ==> Emitted(buf, start, ep, lastep, next.terms) && Stacked(bracket, bp, closed, next)
      ensures ok ==> Left(input, pos, eof, mode, next, endbuf - start, p, b, spilled) && (spilled ==> ep == endbuf + 1)
      ensures ok ==> CellIs(old(buf[..]), buf[..], endbuf, if spilled then b else None)
      ensures !ok ==> TooLong(p, endbuf - start) && CellIs(old(buf[..]), buf[..], endbuf, b)
      ensures !ok ==> SameOutside(old(buf[..]), buf[..], start, endbuf + 1)
    {
      bp, closed := bp0, closed0;
      if input[pos0] == BACKSLASH {
        ok, pos, ep, lastep, bp, closed, next, spilled :=
          CompileEscape(input, pos0, buf, start, ep0, endbuf, eof, mode, lastep0, bracket, bp, closed, st, p, b);
      } else {
        ok, pos, ep, lastep, next, spilled :=
          CompilePlain(input, pos0, buf, start, ep0, endbuf, eof, mode, lastep0, st, p, b);
      }
    }

    /** The state of the loop over the items: `before` is what the array held at first. */
    static ghost predicate Running(buf: array<Byte>, before: seq<Byte>, start: nat, ep: nat, lastep: int, endbuf: nat,
                                   input: seq<Byte>, pos: nat, eof: Byte, mode: bool, st: State, p: Option<Parsed>,
                                   b: Option<Byte>, spilled: bool)
      reads buf
    {
      Emitted(buf, start, ep, lastep, st.terms) && Left(input, pos, eof, mode, st, endbuf - start, p, b, spilled) &&
      (spilled ==> ep == endbuf + 1) && pos <= |input| &&
      SameOutside(before, buf[..], start, ep) && SameOutside(before, buf[..], start, endbuf + 1) &&
      CellIs(before, buf[..], endbuf, if spilled then b else None)
    }

    /** Where the loop stops: the buffer is full, or the pattern, or the input, is at its end. */
    static lemma {:induction false} Stops(before: seq<Byte>, now: seq<Byte>, start: nat, ep: nat, endbuf: nat,
                                          input: seq<Byte>, pos: nat, eof: Byte, mode: bool, st: State,
                                          p: Option<Parsed>, b: Option<Byte>, spilled: bool)
      requires ep - start == CodeSize(st.terms) && Left(input, pos, eof, mode, st, endbuf - start, p, b, spilled)
      requires (spilled ==> ep == endbuf + 1) && CellIs(before, now, endbuf, if spilled then b else None)
      ensures ep < endbuf ==> !spilled
      ensures ep >= endbuf || pos == |input| ==> TooLong(p, endbuf - start) && CellIs(before, now, endbuf, b)
      ensures ep < endbuf && pos < |input| && (input[pos] == eof || input[pos] == NEWLINE) ==> b.None?
    {
      NothingPending(input, pos, eof, mode, st, endbuf - start, p, b, spilled);
    }

    /** One round of the loop. */
    method CompileRound(input: seq<Byte>, pos0: nat, buf: array<Byte>, start: nat, ep0: nat, endbuf: nat, eof: Byte,
                        ghost mode: bool, lastep0: int, bracket: array<Group>, bp0: nat, closed0: nat, ghost st: State,
                        ghost p: Option<Parsed>, ghost b: Option<Byte>, ghost before: seq<Byte>)
      returns (ok: bool, pos: nat, ep: nat, lastep: int, bp: nat, closed: nat, ghost next: State, ghost spilled: bool)
      requires Running(buf, before, start, ep0, lastep0, endbuf, input, pos0, eof, mode, st, p, b, false)
      requires pos0 < |input| && input[pos0] != eof && input[pos0] != NEWLINE && Stacked(bracket, bp0, closed0, st)
      requires ep0 < endbuf <= buf.Length && (b.Some? ==> endbuf < buf.Length)
      modifies buf, bracket, this`nbra
      ensures ok ==> Running(buf, before, start, ep, lastep, endbuf, input, pos, eof, mode, next, p, b, spilled)
      ensures ok ==> pos0 < pos && Stacked(bracket, bp, closed, next)
      ensures !ok ==> TooLong(p, endbuf - start) && CellIs(before, buf[..], endbuf, b)
      ensures !ok ==> SameOutside(before, buf[..], start, endbuf + 1)
    {
      ok, pos, ep, lastep, bp, closed, next, spilled :=
        CompileItem(input, pos0, buf, start, ep0, endbuf, eof, mode, lastep0, bracket, bp0, closed0, st, p, b);
    }

    /**
     * The loop over the items of a pattern.  The array must reach beyond
     * endbuf if a byte is to be written there, and only then.
     */
    method CompileItems(input: seq<Byte>, pos0: nat, buf: array<Byte>, start: nat, endbuf: nat, eof: Byte,
                        ghost p: Option<Parsed>, ghost b: Option<Byte>)
      returns (r: Compiled)
      requires start <= buf.Length && endbuf <= buf.Length && (b.Some? ==> endbuf < buf.Length)
      requires Pending(input, pos0, eof, sed != 0, START, endbuf - start, p, b)
      modifies this`nbra, this`nodelim, buf
      ensures r.Done? <==> p.Some? && start + CodeSize(p.value.state.terms) < endbuf
      ensures r.Done? ==> r.ep == start + CodeSize(p.value.state.terms) + 1 && r.read + p.value.left == |input|
      ensures r.Done? ==> buf[start..r.ep] == Code(LowerAll(p.value.state.terms))
      ensures r.Done? ==> SameOutside(old(buf[..]), buf[..], start, r.ep)
      ensures r.Done? ==> nbra == p.value.state.nbra
      ensures r.Done? ==> DelimitedBy(input, r.read, eof, p.value.delimited, nodelim, old(nodelim))
      ensures SameOutside(old(buf[..]), buf[..], start, endbuf + 1) && CellIs(old(buf[..]), buf[..], endbuf, b)
    {
      var bracket := new Group[NBRA](_ => 0);
      var pos: nat, bp: nat, closed: nat, ep: nat, lastep: int := pos0, 0, 0, start, -1;
      nbra := 0;
      ghost var st, mode, spilled, before := START, sed != 0, false, buf[..];
      assert LowerAll([]) == [];
      var ok;
      while true
        invariant Running(buf, before, start, ep, lastep, endbuf, input, pos, eof, mode, st, p, b, spilled)
        invariant Stacked(bracket, bp, closed, st) && fresh(bracket) && nodelim == old(nodelim)
        decreases |input| - pos
      {
        EmittedSize(buf, start, ep, lastep, st.terms);
        Stops(before, buf[..], start, ep, endbuf, input, pos, eof, mode, st, p, b, spilled);
        if ep >= endbuf { return Error; }
        if pos >= |input| { return Error; }
        var c := input[pos];
        if c == eof || c == NEWLINE {
          r := CompileEnd(input, pos, buf, start, ep, eof, bp, lastep, st, endbuf - start, p, b);
          return;
        }
        ok, pos, ep, lastep, bp, closed, st, spilled :=
          CompileRound(input, pos, buf, start, ep, endbuf, eof, mode, lastep, bracket, bp, closed, st, p, b, before);
        if !ok { return Error; }
      }
    }

    /**
     * Succeeds exactly when the pattern can be parsed and its code fits, and
     * then the buffer holds that code and nothing else has been written.
     */
    method Compile(input: seq<Byte>, buf: array<Byte>, start: nat, endbuf: nat, seof: Byte) returns (r: Compiled)
      requires start < buf.Length && endbuf <= buf.Length
      requires SpilledAt(input, seof, sed != 0, endbuf - start).Some? ==> endbuf < buf.Length
      modifies this`circf, this`nbra, this`nodelim, buf
      ensures SameOutside(old(buf[..]), buf[..], start, endbuf + 1)
      ensures CellIs(old(buf[..]), buf[..], endbuf, SpilledAt(input, seof, sed != 0, endbuf - start))
      ensures input == [] ==> r.Error?
      ensures IsEmpty(input, seof) ==>
                SameOutside(old(buf[..]), buf[..], 0, 0) && circf == old(circf) && nbra == old(nbra) &&
                nodelim == (if input[0] == NEWLINE then 1 else old(nodelim)) &&
                r == if buf[start] == 0 && sed == 0 then Error else Done(start, if input[0] == NEWLINE then 0 else 1)
      ensures input != [] && !IsEmpty(input, seof) ==>
                var p := ParsePattern(input, seof, sed != 0);
                (r.Done? <==> p.Some? && start + CodeSize(p.value.state.terms) < endbuf) &&
                (r.Done? ==>
                   r.ep == start + CodeSize(p.value.state.terms) + 1 <= endbuf && r.read + p.value.left == |input| &&
                   buf[start..r.ep] == Code(LowerAll(p.value.state.terms)) && SameOutside(old(buf[..]), buf[..], start, r.ep) &&
                   DelimitedBy(input, r.read, seof, p.value.delimited, nodelim, old(nodelim)) &&
                   nbra == p.value.state.nbra && circf == if input[0] == CARET then 1 else 0)
    {
      if |input| == 0 { return Error; }
      var c := input[0];
      var pos: nat := 1;
      if c == seof || c == NEWLINE {
        if c == NEWLINE { pos, nodelim := 0, 1; }
        if buf[start] == 0 && sed == 0 { return Error; }
        return Done(start, pos);
      }
      circf := 0;
      if c == CARET { circf := 1; } else { pos := 0; }
      assert input[0..] == input;
      r := CompileItems(input, pos, buf, start, endbuf, seof, ParsePattern(input, seof, sed != 0),
                        SpilledAt(input, seof, sed != 0, endbuf - start));
    }
  }
}
