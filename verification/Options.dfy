/**
 * The option buffer of include/xti.h: variable-length options in one buffer,
 * each with a header at an aligned address, read by the FIRSTHDR and NEXTHDR
 * macros.  Addresses are numbers of `w` bits, every sum of the macros wraps
 * around at the end of the address space, and address 0 is the null pointer.
 */
module Options {
  import opened Bytes

  /** sizeof (struct t_opthdr); t_scalar_t and int32_t, which give the alignments, have four bytes. */
  const HEADER_SIZE: nat := 16

  /** The fields of a t_opthdr, four bytes each, in their order. */
  datatype Field = Length | Level | Name | Status

  function Offset(f: Field): nat {
    match f
    case Length => 0
    case Level => 4
    case Name => 8
    case Status => 12
  }

  /** buf and len of a netbuf. */
  datatype NetBuf = NetBuf(buf: nat, len: nat)

  /** The len field of the header at each address. */
  type Lengths = nat -> nat

  /** It has 32 bits, no more than an address. */
  ghost predicate Bounded(w: nat, lengths: Lengths) { forall a: nat :: lengths(a) < Pow2(w) }

  // ----- alignment -----

  /** A sum of two numbers of w bits, as the machine leaves it. */
  function Wrap(w: nat, x: nat): nat { if x < Pow2(w) then x else x - Pow2(w) }

  /** _T_OPT_ALIGN(x, 4): the sum with 3, under the mask ~3, a number of w bits. */
  function AlignUp(w: nat, x: nat): nat { Combine(AndOp, Wrap(w, x + 3), Mask(w)) }

  function Mask(w: nat): nat {
    if w < 2 then 0 else FourDivides(w); Pow2(w) - 4
  }

  predicate Aligned(x: nat) { x % 4 == 0 }

  /** The least multiple of four that is not below x, whatever its width. */
  function Ceiling(x: nat): nat { (x + 3) / 4 * 4 }

  lemma {:induction false} FourDivides(w: nat)
    requires w >= 2
    ensures Pow2(w) == 4 * Pow2(w - 2) >= 4
  {
    assert Pow2(w) == 2 * Pow2(w - 1) && Pow2(w - 1) == 2 * Pow2(w - 2);
    Pow2Positive(w - 2);
  }

  lemma {:induction false} Pow2Positive(n: nat)
    ensures Pow2(n) >= 1
  {
    if n > 0 { Pow2Positive(n - 1); }
  }

  lemma {:induction false} AndOdd(y: nat, n: nat)
    requires Combine(AndOp, y / 2, n) == y / 2
    ensures Combine(AndOp, y, 2 * n + 1) == y
  {
    assert (2 * n + 1) / 2 == n && (2 * n + 1) % 2 == 1;
  }

  lemma {:induction false} AllOnes(y: nat, bits: nat)
    requires y < Pow2(bits)
    ensures Combine(AndOp, y, Pow2(bits) - 1) == y
  {
    if bits > 0 {
      var n := Pow2(bits - 1) - 1;
      assert Pow2(bits) - 1 == 2 * n + 1;
      AllOnes(y / 2, bits - 1);
      AndOdd(y, n);
    }
  }

  lemma {:induction false} AndEven(y: nat, m: nat)
    ensures Combine(AndOp, y, 2 * m) == 2 * Combine(AndOp, y / 2, m)
  {
    assert (2 * m) / 2 == m && (2 * m) % 2 == 0;
  }

  /** Masking rounds down to a multiple of four. */
  lemma {:induction false} MaskRoundsDown(w: nat, y: nat)
    requires w >= 2 && y < Pow2(w)
    ensures Combine(AndOp, y, Mask(w)) == y / 4 * 4
  {
    FourDivides(w);
    var ones := Pow2(w - 2) - 1;
    AndEven(y, 2 * ones);
    AndEven(y / 2, ones);
    assert y / 2 / 2 == y / 4;
    AllOnes(y / 4, w - 2);
  }

  /** The macro gives the next aligned address, less the size of the address space if that is beyond its end. */
  lemma {:induction false} AlignUpWraps(w: nat, x: nat)
    requires w >= 2 && x + 3 < 2 * Pow2(w)
    ensures AlignUp(w, x) == Wrap(w, Ceiling(x))
  {
    FourDivides(w);
    MaskRoundsDown(w, Wrap(w, x + 3));
    CeilingShifts(x, Pow2(w - 2));
  }

  lemma {:induction false} CeilingShifts(x: nat, q: nat)
    ensures x + 3 < 4 * q <==> Ceiling(x) < 4 * q
    ensures x + 3 >= 4 * q ==> (x + 3 - 4 * q) / 4 * 4 == Ceiling(x) - 4 * q
  {
  }

  // ----- the macros -----

  /** An address as a pointer: 0 is NULL, with which a walk ends. */
  function Pointer(a: nat): Option<nat> { if a == 0 then None else Some(a) }

  /** T_OPT_FIRSTHDR */
  function FirstHeader(nb: NetBuf): Option<nat> {
    if nb.len >= HEADER_SIZE then Pointer(nb.buf) else None
  }

  /** T_OPT_NEXTHDR; the length of the option at h is read from its header. */
  function NextHeader(w: nat, nb: NetBuf, lengths: Lengths, h: nat): Option<nat> {
    var next := AlignUp(w, h + lengths(h));
    if Wrap(w, next + HEADER_SIZE) <= nb.buf + nb.len then Pointer(next) else None
  }

  /** T_OPT_DATA */
  function Data(w: nat, h: nat): nat { AlignUp(w, h + HEADER_SIZE) }

  // ----- one step -----

  /** An aligned buffer somewhere in the address space. */
  predicate GoodBuffer(w: nat, nb: NetBuf) {
    w >= 2 && Aligned(nb.buf) && nb.buf + nb.len < Pow2(w)
  }

  /** A header at an aligned address, wholly inside the buffer. */
  predicate HeaderIn(nb: NetBuf, h: nat) {
    0 < h && Aligned(h) && nb.buf <= h && h + HEADER_SIZE <= nb.buf + nb.len
  }

  /** A header behind an option of length n at h would not lie in the address space, nor start right at its end, which is NULL. */
  predicate Strays(w: nat, h: nat, n: nat) {
    var c := Ceiling(h + n);
    c + HEADER_SIZE >= Pow2(w) && c != Pow2(w)
  }

  lemma {:induction false} CeilingIsLeast(x: nat)
    ensures Aligned(Ceiling(x)) && x <= Ceiling(x) < x + 4
    ensures Aligned(x) ==> Ceiling(x) == x
  {
  }

  /** The sums of NEXTHDR, with their wrap-around written out. */
  lemma {:induction false} NextIs(w: nat, nb: NetBuf, lengths: Lengths, h: nat)
    requires GoodBuffer(w, nb) && lengths(h) < Pow2(w) && HeaderIn(nb, h)
    ensures var c := Ceiling(h + lengths(h));
            NextHeader(w, nb, lengths, h) ==
            if Strays(w, h, lengths(h)) then Some(Wrap(w, c))
            else if c + HEADER_SIZE <= nb.buf + nb.len then Some(c) else None
    ensures var c := Ceiling(h + lengths(h)); c >= Pow2(w) ==> c - Pow2(w) <= h
  {
    FourDivides(w);
    AlignUpWraps(w, h + lengths(h));
    NoFurther(h, lengths(h), Pow2(w - 2));
  }

  lemma {:induction false} NoFurther(h: nat, n: nat, q: nat)
    requires Aligned(h) && n < 4 * q
    ensures Ceiling(h + n) >= 4 * q ==> Ceiling(h + n) - 4 * q <= h
  {
  }

  /** The next header, if there is one, lies inside the buffer and behind the option before it. */
  predicate GoodStep(nb: NetBuf, h: nat, n: nat, next: Option<nat>) {
    next.Some? ==> HeaderIn(nb, next.value) && h + n <= next.value
  }

  /**
   * For every buffer and every header in it, whatever its length: NEXTHDR goes
   * on inside the buffer or ends the walk if and only if no sum wraps around,
   * or the address of the next header wraps around to NULL.
   */
  lemma {:induction false} StepsInsideExactlyWhen(w: nat, nb: NetBuf, lengths: Lengths, h: nat)
    requires GoodBuffer(w, nb) && lengths(h) < Pow2(w) && HeaderIn(nb, h)
    ensures GoodStep(nb, h, lengths(h), NextHeader(w, nb, lengths, h)) <==> !Strays(w, h, lengths(h))
  {
    var n := lengths(h);
    NextIs(w, nb, lengths, h);
    CeilingIsLeast(h + n);
    if n == 0 { CeilingIsLeast(h); }
  }

  /** A step that does not stray goes forward exactly when the option has a length. */
  lemma {:induction false} NextMovesOn(w: nat, nb: NetBuf, lengths: Lengths, h: nat)
    requires GoodBuffer(w, nb) && lengths(h) < Pow2(w) && HeaderIn(nb, h) && !Strays(w, h, lengths(h))
    ensures var next := NextHeader(w, nb, lengths, h);
            next.Some? ==> HeaderIn(nb, next.value) && h <= next.value && (h < next.value <==> lengths(h) > 0)
    ensures lengths(h) == 0 ==> NextHeader(w, nb, lengths, h) == Some(h)
  {
    NextIs(w, nb, lengths, h);
    CeilingIsLeast(h + lengths(h));
  }

  // ----- walking a buffer -----

  /** The header reached by FIRSTHDR and k times NEXTHDR, as long as there is one. */
  ghost function Visited(w: nat, nb: NetBuf, lengths: Lengths, k: nat): Option<nat> {
    if k == 0 then FirstHeader(nb)
    else var h := Visited(w, nb, lengths, k - 1);
         if h.None? then None else NextHeader(w, nb, lengths, h.value)
  }

  lemma {:induction false} VisitNext(w: nat, nb: NetBuf, lengths: Lengths, k: nat, h: nat)
    requires Visited(w, nb, lengths, k) == Some(h)
    ensures Visited(w, nb, lengths, k + 1) == NextHeader(w, nb, lengths, h)
  {
  }

  /** The walk strays from the k-th header it visits. */
  ghost predicate StraysAt(w: nat, nb: NetBuf, lengths: Lengths, k: nat) {
    var h := Visited(w, nb, lengths, k);
    h.Some? && Strays(w, h.value, lengths(h.value))
  }

  /** No step of the walk wraps around, except to NULL. */
  ghost predicate NeverStrays(w: nat, nb: NetBuf, lengths: Lengths) {
    forall k: nat :: !StraysAt(w, nb, lengths, k)
  }

  /** The k-th header visited, if any, lies inside the buffer, and the next one behind its option. */
  ghost predicate InsideAt(w: nat, nb: NetBuf, lengths: Lengths, k: nat) {
    var h := Visited(w, nb, lengths, k);
    h.Some? ==> HeaderIn(nb, h.value) && GoodStep(nb, h.value, lengths(h.value), Visited(w, nb, lengths, k + 1))
  }

  ghost predicate StaysInside(w: nat, nb: NetBuf, lengths: Lengths) {
    forall k: nat :: InsideAt(w, nb, lengths, k)
  }

  /** As long as no step before it strays, a header visited is aligned and wholly inside. */
  lemma {:induction false} VisitsStayInside(w: nat, nb: NetBuf, lengths: Lengths, k: nat)
    requires GoodBuffer(w, nb) && Bounded(w, lengths) && Visited(w, nb, lengths, k).Some?
    requires forall j: nat :: j < k ==> !StraysAt(w, nb, lengths, j)
    ensures HeaderIn(nb, Visited(w, nb, lengths, k).value)
  {
    if k > 0 {
      VisitsStayInside(w, nb, lengths, k - 1);
      assert !StraysAt(w, nb, lengths, k - 1);
      var h := Visited(w, nb, lengths, k - 1).value;
      NextMovesOn(w, nb, lengths, h);
      VisitNext(w, nb, lengths, k - 1, h);
    }
  }

  /**
   * For every aligned buffer, whatever it holds: the whole walk goes forward
   * inside the buffer if and only if none of its steps strays.
   */
  lemma {:induction false} StaysInsideExactlyWhen(w: nat, nb: NetBuf, lengths: Lengths)
    requires GoodBuffer(w, nb) && Bounded(w, lengths)
    ensures StaysInside(w, nb, lengths) <==> NeverStrays(w, nb, lengths)
  {
    if StaysInside(w, nb, lengths) {
      forall k: nat ensures !StraysAt(w, nb, lengths, k) {
        assert InsideAt(w, nb, lengths, k);
        StepAt(w, nb, lengths, k);
      }
    }
    if NeverStrays(w, nb, lengths) {
      forall k: nat ensures InsideAt(w, nb, lengths, k) {
        if Visited(w, nb, lengths, k).Some? {
          VisitsStayInside(w, nb, lengths, k);
          assert !StraysAt(w, nb, lengths, k);
          StepAt(w, nb, lengths, k);
        }
      }
    }
  }

  lemma {:induction false} StepAt(w: nat, nb: NetBuf, lengths: Lengths, k: nat)
    requires GoodBuffer(w, nb) && Bounded(w, lengths)
    requires var h := Visited(w, nb, lengths, k); h.Some? ==> HeaderIn(nb, h.value)
    ensures InsideAt(w, nb, lengths, k) <==> !StraysAt(w, nb, lengths, k)
  {
    var h := Visited(w, nb, lengths, k);
    if h.Some? {
      VisitNext(w, nb, lengths, k, h.value);
      StepsInsideExactlyWhen(w, nb, lengths, h.value);
    }
  }

  ghost predicate Ends(w: nat, nb: NetBuf, lengths: Lengths) {
    exists k: nat :: Visited(w, nb, lengths, k).None?
  }

  ghost predicate StallsAt(w: nat, nb: NetBuf, lengths: Lengths, k: nat) {
    var h := Visited(w, nb, lengths, k);
    h.Some? && lengths(h.value) == 0
  }

  /** Some header visited has length zero. */
  ghost predicate Stalls(w: nat, nb: NetBuf, lengths: Lengths) {
    exists k: nat :: StallsAt(w, nb, lengths, k)
  }

  lemma {:induction false} SomeBefore(w: nat, nb: NetBuf, lengths: Lengths, j: nat, k: nat)
    requires j <= k && Visited(w, nb, lengths, k).Some?
    ensures Visited(w, nb, lengths, j).Some?
    decreases k
  {
    if j < k { SomeBefore(w, nb, lengths, j, k - 1); }
  }

  lemma {:induction false} VisitedMovesOn(w: nat, nb: NetBuf, lengths: Lengths, k: nat)
    requires GoodBuffer(w, nb) && Bounded(w, lengths) && NeverStrays(w, nb, lengths) && Visited(w, nb, lengths, k).Some?
    ensures var h, next := Visited(w, nb, lengths, k).value, Visited(w, nb, lengths, k + 1);
            (next.Some? ==> h <= next.value && (h < next.value <==> lengths(h) > 0)) &&
            (lengths(h) == 0 ==> next == Some(h))
  {
    VisitsStayInside(w, nb, lengths, k);
    assert !StraysAt(w, nb, lengths, k);
    NextMovesOn(w, nb, lengths, Visited(w, nb, lengths, k).value);
    VisitNext(w, nb, lengths, k, Visited(w, nb, lengths, k).value);
  }

  lemma {:induction false} StallsForever(w: nat, nb: NetBuf, lengths: Lengths, j: nat, k: nat)
    requires GoodBuffer(w, nb) && Bounded(w, lengths) && NeverStrays(w, nb, lengths)
    requires StallsAt(w, nb, lengths, j) && j <= k
    ensures Visited(w, nb, lengths, k) == Visited(w, nb, lengths, j)
    decreases k
  {
    if j < k {
      StallsForever(w, nb, lengths, j, k - 1);
      VisitedMovesOn(w, nb, lengths, k - 1);
    }
  }

  lemma {:induction false} VisitsAdvance(w: nat, nb: NetBuf, lengths: Lengths, k: nat)
    requires GoodBuffer(w, nb) && Bounded(w, lengths) && NeverStrays(w, nb, lengths)
    requires !Stalls(w, nb, lengths) && Visited(w, nb, lengths, k).Some?
    ensures nb.buf + k <= Visited(w, nb, lengths, k).value
  {
    if k > 0 {
      assert !StallsAt(w, nb, lengths, k - 1);
      VisitsAdvance(w, nb, lengths, k - 1);
      VisitedMovesOn(w, nb, lengths, k - 1);
    }
  }

  /**
   * On every aligned buffer, whatever it holds, a walk of which no step
   * strays ends exactly when it meets no header of length zero.
   */
  lemma {:induction false} EndsExactlyWhen(w: nat, nb: NetBuf, lengths: Lengths)
    requires GoodBuffer(w, nb) && Bounded(w, lengths) && NeverStrays(w, nb, lengths)
    ensures Ends(w, nb, lengths) <==> !Stalls(w, nb, lengths)
  {
    if !Stalls(w, nb, lengths) && !Ends(w, nb, lengths) {
      assert Visited(w, nb, lengths, nb.len).Some?;
      VisitsAdvance(w, nb, lengths, nb.len);
      VisitsStayInside(w, nb, lengths, nb.len);
    }
    if Stalls(w, nb, lengths) && Ends(w, nb, lengths) {
      var j: nat :| StallsAt(w, nb, lengths, j);
      var k: nat :| Visited(w, nb, lengths, k).None?;
      if j <= k { StallsForever(w, nb, lengths, j, k); } else { SomeBefore(w, nb, lengths, k, j); }
    }
  }

  /** A buffer that lies further from the end of the address space than its longest option is walked without straying. */
  lemma {:induction false} FarFromTheEnd(w: nat, nb: NetBuf, lengths: Lengths, longest: nat)
    requires GoodBuffer(w, nb) && (forall a: nat :: lengths(a) <= longest)
    requires nb.buf + nb.len + longest + 4 <= Pow2(w)
    ensures NeverStrays(w, nb, lengths)
  {
    forall k: nat ensures !StraysAt(w, nb, lengths, k) { FarVisit(w, nb, lengths, longest, k); }
  }

  lemma {:induction false} FarVisit(w: nat, nb: NetBuf, lengths: Lengths, longest: nat, k: nat)
    requires GoodBuffer(w, nb) && (forall a: nat :: lengths(a) <= longest)
    requires nb.buf + nb.len + longest + 4 <= Pow2(w)
    ensures !StraysAt(w, nb, lengths, k)
    ensures var h := Visited(w, nb, lengths, k); h.Some? ==> HeaderIn(nb, h.value)
  {
    if k > 0 {
      FarVisit(w, nb, lengths, longest, k - 1);
      var g := Visited(w, nb, lengths, k - 1);
      if g.Some? {
        NextMovesOn(w, nb, lengths, g.value);
        VisitNext(w, nb, lengths, k - 1, g.value);
      }
    }
    var h := Visited(w, nb, lengths, k);
    if h.Some? { CeilingIsLeast(h.value + lengths(h.value)); }
  }

  // ----- buffers as they are written -----

  /** Options written one after the other from `at` on: each at the next aligned address. */
  function Layout(sizes: seq<nat>, at: nat): (r: seq<nat>)
    ensures |r| == |sizes|
  {
    if sizes == [] then [] else [at] + Layout(sizes[1..], Ceiling(at + sizes[0]))
  }

  /** Where the next option would go. */
  function LayoutEnd(sizes: seq<nat>, at: nat): nat {
    if sizes == [] then at else LayoutEnd(sizes[1..], Ceiling(at + sizes[0]))
  }

  /** Every option holds at least its header and ends by the end of the buffer. */
  predicate Fits(sizes: seq<nat>, at: nat, end: nat) {
    sizes == [] ||
    (HEADER_SIZE <= sizes[0] && at + sizes[0] <= end && Fits(sizes[1..], Ceiling(at + sizes[0]), end))
  }

  /** The headers say how long the options are. */
  ghost predicate Describes(w: nat, lengths: Lengths, sizes: seq<nat>, at: nat) {
    forall i :: 0 <= i < |sizes| ==> lengths(Layout(sizes, at)[i]) == sizes[i] < Pow2(w)
  }

  lemma {:induction false} DescribesTail(w: nat, lengths: Lengths, sizes: seq<nat>, at: nat)
    requires sizes != [] && Describes(w, lengths, sizes, at)
    ensures Describes(w, lengths, sizes[1..], Ceiling(at + sizes[0])) && lengths(at) == sizes[0] < Pow2(w)
  {
    var next := Ceiling(at + sizes[0]);
    assert Layout(sizes, at)[0] == at;
    forall i | 0 <= i < |sizes[1..]| ensures lengths(Layout(sizes[1..], next)[i]) == sizes[1..][i] < Pow2(w) {
      assert Layout(sizes, at)[i + 1] == Layout(sizes[1..], next)[i];
    }
  }

  /** The walk from its k-th header on sees these headers, and ends. */
  ghost predicate Sees(w: nat, nb: NetBuf, lengths: Lengths, k: nat, headers: seq<nat>)
    decreases |headers|
  {
    if headers == [] then Visited(w, nb, lengths, k).None?
    else Visited(w, nb, lengths, k) == Some(headers[0]) && Sees(w, nb, lengths, k + 1, headers[1..])
  }

  /** The end of what was written is recognised: there is no room for another header, or its address is NULL. */
  predicate Recognised(w: nat, nb: NetBuf, end: nat) {
    nb.buf + nb.len < end + HEADER_SIZE < Pow2(w) || end == Pow2(w)
  }

  /** From any option on: the options that were written are seen, and then the end, if and only if it is recognised. */
  lemma {:induction false} SeesLayout(w: nat, nb: NetBuf, lengths: Lengths, sizes: seq<nat>, at: nat, k: nat)
    requires GoodBuffer(w, nb) && nb.buf <= at && 0 < at && Aligned(at) && sizes != []
    requires Visited(w, nb, lengths, k) == Some(at)
    requires Describes(w, lengths, sizes, at) && Fits(sizes, at, nb.buf + nb.len)
    ensures Sees(w, nb, lengths, k, Layout(sizes, at)) <==> Recognised(w, nb, LayoutEnd(sizes, at))
    decreases |sizes|
  {
    var rest, next := sizes[1..], Ceiling(at + sizes[0]);
    DescribesTail(w, lengths, sizes, at);
    CeilingIsLeast(at + sizes[0]);
    VisitNext(w, nb, lengths, k, at);
    NextIs(w, nb, lengths, at);
    assert Layout(sizes, at)[1..] == Layout(rest, next);
    if rest != [] {
      SeesLayout(w, nb, lengths, rest, next, k + 1);
    }
  }

  /**
   * For every list of options written one after the other from the start of
   * an aligned buffer: FIRSTHDR and NEXTHDR give exactly their headers, in
   * order, and then end, if and only if there is no room for another header
   * behind the last option and such a header would not lie beyond the end of
   * the address space, or would start right there.  A buffer at NULL has no
   * headers.
   */
  lemma {:induction false} WalkUndoesLayout(w: nat, nb: NetBuf, lengths: Lengths, sizes: seq<nat>)
    requires GoodBuffer(w, nb) && Describes(w, lengths, sizes, nb.buf) && Fits(sizes, nb.buf, nb.buf + nb.len)
    ensures sizes != [] ==>
              (Sees(w, nb, lengths, 0, Layout(sizes, nb.buf)) <==>
               0 < nb.buf && Recognised(w, nb, LayoutEnd(sizes, nb.buf)))
    ensures sizes == [] ==> (Sees(w, nb, lengths, 0, []) <==> nb.len < HEADER_SIZE || nb.buf == 0)
  {
    if sizes != [] && 0 < nb.buf { SeesLayout(w, nb, lengths, sizes, nb.buf, 0); }
  }

  lemma {:induction false} LayoutEndNear(sizes: seq<nat>, at: nat, end: nat)
    requires sizes != [] && Fits(sizes, at, end)
    ensures LayoutEnd(sizes, at) < end + 4
    decreases |sizes|
  {
    CeilingIsLeast(at + sizes[0]);
    if |sizes| > 1 { LayoutEndNear(sizes[1..], Ceiling(at + sizes[0]), end); }
  }

  /** So a buffer that ends with its last option is read back, unless it lies at the very end of the address space. */
  lemma {:induction false} FullBufferIsReadBack(w: nat, nb: NetBuf, lengths: Lengths, sizes: seq<nat>)
    requires GoodBuffer(w, nb) && 0 < nb.buf && nb.buf + nb.len + 3 + HEADER_SIZE < Pow2(w) && sizes != []
    requires Describes(w, lengths, sizes, nb.buf) && Fits(sizes, nb.buf, nb.buf + nb.len)
    requires LayoutEnd(sizes, nb.buf) >= nb.buf + nb.len
    ensures Sees(w, nb, lengths, 0, Layout(sizes, nb.buf))
  {
    WalkUndoesLayout(w, nb, lengths, sizes);
    LayoutEndNear(sizes, nb.buf, nb.buf + nb.len);
  }

  /** The data of an option start right after the sixteen bytes of its header, inside the buffer. */
  lemma {:induction false} DataFollowsHeader(w: nat, nb: NetBuf, h: nat)
    requires GoodBuffer(w, nb) && HeaderIn(nb, h)
    ensures Data(w, h) == h + 16 <= nb.buf + nb.len
  {
    AlignUpWraps(w, h + HEADER_SIZE);
    CeilingIsLeast(h + HEADER_SIZE);
  }

  /** The field is aligned and lies inside the buffer, and d is right behind the last field. */
  predicate FieldIn(nb: NetBuf, h: nat, f: Field, d: nat) {
    var at := h + Offset(f);
    nb.buf <= at && at + 4 <= d && Aligned(at) && d == h + Offset(Status) + 4 <= nb.buf + nb.len
  }

  lemma {:induction false} FieldsOfHeader(nb: NetBuf, h: nat, f: Field)
    requires HeaderIn(nb, h)
    ensures FieldIn(nb, h, f, h + 16)
  {
    match f
    case Length =>
    case Level => assert Aligned(h + 4);
    case Name => assert Aligned(h + 8);
    case Status => assert Aligned(h + 12);
  }

  /**
   * Of every header visited before the walk strays, every field is aligned
   * and lies inside the buffer, and the data of the option start right behind
   * the last field, no further than the end of the buffer.
   */
  lemma {:induction false} FieldsAreInside(w: nat, nb: NetBuf, lengths: Lengths, k: nat, f: Field)
    requires GoodBuffer(w, nb) && Bounded(w, lengths) && Visited(w, nb, lengths, k).Some?
    requires forall j: nat :: j < k ==> !StraysAt(w, nb, lengths, j)
    ensures var h := Visited(w, nb, lengths, k).value; FieldIn(nb, h, f, Data(w, h))
  {
    var h := Visited(w, nb, lengths, k).value;
    VisitsStayInside(w, nb, lengths, k);
    DataFollowsHeader(w, nb, h);
    FieldsOfHeader(nb, h, f);
  }

  /** FIRSTHDR gives the start of a buffer exactly when all fields of a header there lie inside it. */
  lemma {:induction false} FirstIsWhole(nb: NetBuf)
    ensures FirstHeader(nb) ==
            if nb.buf != 0 && (forall f: Field :: Offset(f) + 4 <= nb.len) then Some(nb.buf) else None
  {
    if nb.len < 16 { assert Offset(Status) + 4 > nb.len; }
  }

  // ----- where it fails -----

  /** In 64 bits: a header whose length reaches beyond the end of the address space leads out of the buffer. */
  lemma {:induction false} LeavesTheBuffer(lengths: Lengths)
    requires lengths(0xFFFF_FFFF_FFFF_FF00) == 0x200
    ensures var nb := NetBuf(0xFFFF_FFFF_FFFF_FF00, 64);
            GoodBuffer(64, nb) && Visited(64, nb, lengths, 0) == Some(nb.buf) &&
            Visited(64, nb, lengths, 1) == Some(0x100) && !HeaderIn(nb, 0x100)
  {
    var nb := NetBuf(0xFFFF_FFFF_FFFF_FF00, 64);
    Pow2Of64();
    NextIs(64, nb, lengths, nb.buf);
    VisitNext(64, nb, lengths, 0, nb.buf);
  }

  lemma {:induction false} Pow2Of64()
    ensures Pow2(32) == 0x1_0000_0000 && Pow2(64) == 0x1_0000_0000_0000_0000
  {
    assert Pow2(8) == 256;
    Pow2Adds(8, 8);
    Pow2Adds(16, 16);
    Pow2Adds(32, 32);
  }

  lemma {:induction false} Double(a: nat, b: nat)
    ensures a * (2 * b) == 2 * (a * b)
  {
  }

  lemma {:induction false} Pow2Adds(j: nat, k: nat)
    ensures Pow2(j + k) == Pow2(j) * Pow2(k)
    decreases k
  {
    if k > 0 {
      Pow2Adds(j, k - 1);
      Double(Pow2(j), Pow2(k - 1));
    }
  }

  /** Two headers that lead to each other. */
  ghost predicate Circle(w: nat, nb: NetBuf, lengths: Lengths, n: nat) {
    GoodBuffer(w, nb) && 0 < nb.buf && 0 < n && Aligned(n) && n + HEADER_SIZE <= nb.len &&
    lengths(nb.buf) == n && n <= Pow2(w) && lengths(nb.buf + n) == Pow2(w) - n
  }

  lemma {:induction false} AlignedSums(a: nat, b: nat, q: nat)
    requires Aligned(a) && Aligned(b)
    ensures Aligned(a + b) && Ceiling(a + b) == a + b && Ceiling(a + 4 * q) == a + 4 * q
  {
  }

  lemma {:induction false} CircleGoesOn(w: nat, nb: NetBuf, lengths: Lengths, n: nat)
    requires Circle(w, nb, lengths, n)
    ensures HeaderIn(nb, nb.buf + n) && NextHeader(w, nb, lengths, nb.buf) == Some(nb.buf + n)
  {
    AlignedSums(nb.buf, n, 0);
    NextIs(w, nb, lengths, nb.buf);
  }

  lemma {:induction false} CircleGoesBack(w: nat, nb: NetBuf, lengths: Lengths, n: nat)
    requires Circle(w, nb, lengths, n)
    ensures NextHeader(w, nb, lengths, nb.buf + n) == Some(nb.buf)
  {
    FourDivides(w);
    AlignedSums(nb.buf, n, Pow2(w - 2));
    NextIs(w, nb, lengths, nb.buf + n);
  }

  lemma {:induction false} CircleVisits(w: nat, nb: NetBuf, lengths: Lengths, n: nat, k: nat)
    requires Circle(w, nb, lengths, n)
    ensures var v := Visited(w, nb, lengths, k); v == Some(nb.buf) || v == Some(nb.buf + n)
  {
    CircleGoesOn(w, nb, lengths, n);
    CircleGoesBack(w, nb, lengths, n);
    if k > 0 {
      CircleVisits(w, nb, lengths, n, k - 1);
      VisitNext(w, nb, lengths, k - 1, Visited(w, nb, lengths, k - 1).value);
    }
  }

  /** In any width: such a walk never ends, although neither header has length zero. */
  lemma {:induction false} CirclesForever(w: nat, nb: NetBuf, lengths: Lengths, n: nat)
    requires Circle(w, nb, lengths, n)
    ensures !Ends(w, nb, lengths) && !Stalls(w, nb, lengths)
  {
    if k: nat :| Visited(w, nb, lengths, k).None? { CircleVisits(w, nb, lengths, n, k); }
    if k: nat :| StallsAt(w, nb, lengths, k) { CircleVisits(w, nb, lengths, n, k); }
  }

  /** In 32 bits this is an ordinary buffer with lengths of 32 bits. */
  lemma {:induction false} NeverEndsIn32Bits(lengths: Lengths)
    requires lengths(0x1000) == 32 && lengths(0x1020) == 0xFFFF_FFE0
    ensures var nb := NetBuf(0x1000, 64);
            GoodBuffer(32, nb) && !Ends(32, nb, lengths) && !Stalls(32, nb, lengths)
  {
    Pow2Of64();
    CirclesForever(32, NetBuf(0x1000, 64), lengths, 32);
  }
}
