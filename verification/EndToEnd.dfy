/**
 * Compiling a pattern and searching a subject with the result, as the
 * programs that include include/regexp.h do.
 */
module EndToEnd {
  import opened Bytes
  import opened Semantics
  import opened SearchTheorems
  import opened Hanging
  import opened Cuts
  import opened Program
  import opened Syntax
  import opened Parse
  import opened Buffer
  import opened Groups
  import opened Past
  import opened Accepted
  import opened Print
  import opened Engine

  /** A pattern `advance` can run: AcceptedTerms and ScopedExactlyWhen say which of the accepted ones are. */
  predicate Runnable(terms: seq<Term>) { AllSupported(terms) && Scoped(PatternMeaning(terms), {}, {}) }

  /** The search of `step` comes to an end: it meets no starred back-reference to an empty capture. */
  predicate SearchEnds(items: seq<Item>, anchored: bool, t: Subject, caps: Captures, locs: int) {
    if anchored then !Search(items, t, 0, caps, locs).Hangs? else !Leftmost(items, t, 0, caps, locs).Endless?
  }

  /** For a pattern that passes the check on starred back-references every search ends. */
  lemma {:induction false} ProgressiveSearchEnds(terms: seq<Term>, anchored: bool, t: Subject, caps: Captures, locs: int)
    requires Runnable(terms) && Progressive(PatternMeaning(terms), {}, {})
    ensures SearchEnds(PatternMeaning(terms), anchored, t, caps, locs)
  {
    LoweringPreservesMeaning(terms);
    MeaningsShaped(LowerAll(terms));
    ProgressiveNeverHangs(PatternMeaning(terms), t, 0, caps, locs);
    ProgressiveScanEnds(PatternMeaning(terms), t, 0, caps, locs);
  }

  lemma {:induction false} MeaningEndsLast(terms: seq<Term>)
    requires AllSupported(terms) && AnchorLast(terms)
    ensures EndsLast(PatternMeaning(terms))
  {
    forall i | 0 <= i < |terms| - 1 ensures !PatternMeaning(terms)[i].atom.AtEnd? { assert Supported(terms[i]); }
  }

  /** And only for such a pattern: for every accepted pattern `advance` can run, the check decides whether every search ends. */
  lemma {:induction false} AlwaysEndsExactlyWhen(s: seq<Byte>, eof: Byte, sed: bool, anchored: bool)
    requires s != [] && ParsePattern(s, eof, sed).Some? && Runnable(ParsePattern(s, eof, sed).value.state.terms)
    ensures var items := PatternMeaning(ParsePattern(s, eof, sed).value.state.terms);
            Progressive(items, {}, {}) <==>
            forall t: Subject, caps, locs :: SearchEnds(items, anchored, t, caps, locs)
  {
    var terms := ParsePattern(s, eof, sed).value.state.terms;
    var items := PatternMeaning(terms);
    if Progressive(items, {}, {}) {
      forall t: Subject, caps, locs ensures SearchEnds(items, anchored, t, caps, locs) {
        ProgressiveSearchEnds(terms, anchored, t, caps, locs);
      }
    } else {
      LoweringPreservesMeaning(terms);
      MeaningsShaped(LowerAll(terms));
      AcceptedTerms(s, eof, sed);
      MeaningEndsLast(terms);
      var t := HangsSomewhere(items);
      var zeros: Marks := [0, 0, 0, 0, 0, 0, 0, 0, 0];
      var none := Captures(zeros, zeros);
      assert Search(items, t, 0, none, -1).Hangs?;
      assert !SearchEnds(items, anchored, t, none, -1);
    }
  }

  /** Whether a search ends does not depend on the captures it starts with. */
  lemma {:induction false} EndsRegardless(terms: seq<Term>, anchored: bool, t: Subject, c: Captures, d: Captures, locs: int)
    requires Runnable(terms)
    ensures SearchEnds(PatternMeaning(terms), anchored, t, c, locs) <==>
            SearchEnds(PatternMeaning(terms), anchored, t, d, locs)
  {
    if anchored {
      SearchIgnoresStale(PatternMeaning(terms), t, 0, c, d, locs, {}, {});
    } else {
      LeftmostIgnoresStale(PatternMeaning(terms), t, 0, c, d, locs);
    }
  }

  /**
   * Where a pattern is accepted whose back-reference stands inside the group
   * it names, behind some text of that group, the outcome at the start of some
   * subject does depend on the captures left in it by earlier searches.
   */
  lemma {:induction false} SelfReferenceDependsOnThePast(s: seq<Byte>, eof: Byte, sed: bool, g: Group, locs: int)
    returns (t: Subject, c: Captures, d: Captures)
    requires s != [] && ParsePattern(s, eof, sed).Some? && locs < 0
    requires var terms := ParsePattern(s, eof, sed).value.state.terms;
             AllSupported(terms) && NamesItself(PatternMeaning(terms), g, {}, {}, {}, {}) &&
             forall i :: 0 <= i < |terms| ==> !Blocks(PatternMeaning(terms)[i])
    ensures var items := PatternMeaning(ParsePattern(s, eof, sed).value.state.terms);
            Within(c, Len(t)) && Within(d, Len(t)) && Search(items, t, 0, c, locs) != Search(items, t, 0, d, locs)
  {
    var terms := ParsePattern(s, eof, sed).value.state.terms;
    assert Tracked(START);
    ParseNests(if s[0] == CARET then s[1..] else s, eof, sed, START);
    NestedIsOrdered(terms);
    LoweringPreservesMeaning(terms);
    MeaningsShaped(LowerAll(terms));
    AcceptedTerms(s, eof, sed);
    MeaningEndsLast(terms);
    t, c, d := DependsOnThePast(PatternMeaning(terms), g, locs);
  }

  /** What `step` must report about a pattern and a subject; `path` is the match it found. */
  ghost predicate Reported(found: bool, anchored: bool, items: seq<Item>, t: Subject, caps: Captures,
                           loc1: int, loc2: int, after: Captures, path: seq<nat>)
  {
    (found ==> 0 <= loc1 < |t| && Follow(items, path, t, loc1, caps).Some? &&
               Follow(items, path, t, loc1, caps).value.pos == loc2 &&
               Follow(items, path, t, loc1, caps).value.caps == after) &&
    (found ==> forall other: seq<nat> :: Follow(items, other, t, loc1, caps).Some? ==>
                 other == path || Beats(path, other)) &&
    (if anchored then loc1 == 0 && (found <==> MatchesFrom(items, t, 0, caps))
     else forall i :: 0 <= i < (if found then loc1 else |t|) ==> !MatchesFrom(items, t, i, caps))
  }

  lemma {:induction false} AnchoredReported(items: seq<Item>, t: Subject, caps: Captures, locs: int,
                                            found: bool, loc2: int, after: Captures) returns (path: seq<nat>)
    requires Shaped(items) && !(0 <= locs <= Len(t)) && !Search(items, t, 0, caps, locs).Hangs?
    requires found <==> Search(items, t, 0, caps, locs).Found?
    requires found ==> var f := Follow(items, Search(items, t, 0, caps, locs).path, t, 0, caps);
                       f.Some? && f.value.pos == loc2 && f.value.caps == after
    ensures Reported(found, true, items, t, caps, 0, loc2, after, path)
  {
    var o := Search(items, t, 0, caps, locs);
    path := if o.Found? then o.path else [];
    SearchDecides(items, t, 0, caps, locs);
    if found {
      forall other: seq<nat> | Follow(items, other, t, 0, caps).Some? ensures other == path || Beats(path, other) {
        FoundIsGreediest(items, t, 0, caps, locs, other);
      }
    }
  }

  lemma {:induction false} ScanReported(items: seq<Item>, t: Subject, caps: Captures, locs: int,
                                        found: bool, loc1: int, loc2: int, after: Captures) returns (path: seq<nat>)
    requires Shaped(items) && !(0 <= locs <= Len(t)) && !Leftmost(items, t, 0, caps, locs).Endless?
    requires var h := Leftmost(items, t, 0, caps, locs);
             (found <==> h.At?) &&
             (found ==> h.start < |t| && loc1 == h.start &&
                        var f := Follow(items, h.path, t, h.start, caps);
                        f.Some? && f.value.pos == loc2 && f.value.caps == after)
    ensures Reported(found, false, items, t, caps, loc1, loc2, after, path)
  {
    var h := Leftmost(items, t, 0, caps, locs);
    path := if h.At? then h.path else [];
    LeftmostDecides(items, t, 0, caps, locs);
    if found {
      forall other: seq<nat> | Follow(items, other, t, loc1, caps).Some? ensures other == path || Beats(path, other) {
        LeftmostIsGreediest(items, t, 0, caps, locs, other);
      }
    }
  }

  /** The code of a supported pattern can be read as no other program, whatever follows it in the buffer. */
  lemma {:induction false} CompiledDecodesUniquely(terms: seq<Term>, prog: seq<Instr>, code: seq<Byte>)
    requires AllSupported(terms) && AllSound(prog)
    requires Code(LowerAll(terms)) <= code && Code(prog) <= code
    ensures prog == LowerAll(terms)
  {
    LoweringPreservesMeaning(terms);
    var a, b := Code(LowerAll(terms)), Code(prog);
    assert a + code[|a|..] == code == b + code[|b|..];
    DecodeUnique(LowerAll(terms), prog, code[|a|..], code[|b|..]);
  }

  /** The last term is the anchor `$`. */
  predicate EndAnchored(terms: seq<Term>) { terms != [] && terms[|terms| - 1].piece == Plain(Dol) }

  /** What is reported is a cutting of the text between loc1 and loc2; with `$` at the end, up to the end of the subject. */
  lemma {:induction false} ReportedIsCut(terms: seq<Term>, found: bool, anchored: bool, t: Subject, caps: Captures,
                                         loc1: int, loc2: int, after: Captures, path: seq<nat>)
    requires Runnable(terms) && Reported(found, anchored, PatternMeaning(terms), t, caps, loc1, loc2, after, path) && found
    ensures 0 <= loc1 <= loc2 < |t| &&
            exists x :: CutsTo(PatternMeaning(terms), path, t, loc1, caps, x, Point(loc2, after))
    ensures EndAnchored(terms) ==> t[loc2] == 0
  {
    var items := PatternMeaning(terms);
    FollowIsCutting(items, path, t, loc1, caps, Follow(items, path, t, loc1, caps).value);
    if EndAnchored(terms) {
      assert Supported(terms[|terms| - 1]);
      LastIsEnd(items, path, t, loc1, caps);
    }
  }

  /** `step` on a compiled pattern reports what the pattern means. */
  method StepCompiled(re: Regexp, ghost terms: seq<Term>, anchored: bool, code: seq<Byte>, t: Subject)
    returns (found: bool, ghost path: seq<nat>)
    requires re.Valid() && !(0 <= re.locs <= Len(t)) && Runnable(terms)
    requires Code(LowerAll(terms)) <= code && (anchored <==> re.circf != 0)
    requires SearchEnds(PatternMeaning(terms), anchored, t, re.Caps(), re.locs)
    modifies re`loc1, re`loc2, re`low, re`size, re.braslist, re.braelist
    ensures Reported(found, anchored, PatternMeaning(terms), t, old(re.Caps()), re.loc1, re.loc2, re.Caps(), path)
    ensures found && EndAnchored(terms) ==> re.loc2 == Len(t)
  {
    ghost var prog, items, caps := LowerAll(terms), PatternMeaning(terms), re.Caps();
    LoweringPreservesMeaning(terms);
    MeaningsShaped(prog);
    CodeHasCode(code, 0, prog);
    found := re.Step(t, 0, code, 0, prog);
    if anchored {
      path := AnchoredReported(items, t, caps, re.locs, found, re.loc2, re.Caps());
    } else {
      path := ScanReported(items, t, caps, re.locs, found, re.loc1, re.loc2, re.Caps());
    }
    if found { ReportedIsCut(terms, found, anchored, t, caps, re.loc1, re.loc2, re.Caps(), path); }
  }

  /** The code buffer is not one of the capture arrays. */
  ghost predicate Separate(re: Regexp, buf: array<Byte>) {
    (buf as object) != re.braslist && (buf as object) != re.braelist
  }

  /** The array reaches up to endbuf, and beyond it if `compile` is going to write there. */
  ghost predicate HasRoom(re: Regexp, input: seq<Byte>, buf: array<Byte>, endbuf: nat, eof: Byte)
    reads re`sed
  {
    0 < buf.Length && endbuf <= buf.Length &&
    (Regexp.SpilledAt(input, eof, re.sed != 0, endbuf).Some? ==> endbuf < buf.Length)
  }

  /**
   * Any pattern text is accepted exactly when it can be parsed and its code
   * fits.  If the caller then goes on to search, with a pattern that can be
   * run and on a subject on which the search ends, the search reports what the
   * pattern means.
   */
  method CompileAndStep(re: Regexp, input: seq<Byte>, buf: array<Byte>, endbuf: nat, eof: Byte, t: Subject, search: bool)
    returns (accepted: bool, found: bool, ghost path: seq<nat>)
    requires re.Valid() && !(0 <= re.locs <= Len(t)) && Separate(re, buf) && HasRoom(re, input, buf, endbuf, eof)
    requires input != [] && input[0] != eof && input[0] != NEWLINE
    requires var p := ParsePattern(input, eof, re.sed != 0);
             search && p.Some? && CodeSize(p.value.state.terms) < endbuf ==>
               Runnable(p.value.state.terms) &&
               SearchEnds(PatternMeaning(p.value.state.terms), input[0] == CARET, t, re.Caps(), re.locs)
    modifies re`circf, re`nbra, re`nodelim, re`loc1, re`loc2, re`low, re`size, re.braslist, re.braelist, buf
    ensures var p := ParsePattern(input, eof, re.sed != 0);
            accepted <==> p.Some? && CodeSize(p.value.state.terms) < endbuf
    ensures accepted && search ==>
              Reported(found, input[0] == CARET,
                       PatternMeaning(ParsePattern(input, eof, re.sed != 0).value.state.terms),
                       t, old(re.Caps()), re.loc1, re.loc2, re.Caps(), path)
    ensures accepted && search && found && EndAnchored(ParsePattern(input, eof, re.sed != 0).value.state.terms) ==>
              re.loc2 == Len(t)
  {
    ghost var p := ParsePattern(input, eof, re.sed != 0);
    found, path := false, [];
    var c := re.Compile(input, buf, 0, endbuf, eof);
    accepted := !c.Error?;
    if accepted && search {
      assert buf[..][..c.ep] == buf[0..c.ep];
      found, path := StepCompiled(re, p.value.state.terms, re.circf != 0, buf[..], t);
    }
  }

  /**
   * For every printable pattern: its printed text is accepted whenever its
   * code fits, and the search reports what the pattern means.
   */
  method PrintCompileAndStep(re: Regexp, p: Pattern, buf: array<Byte>, endbuf: nat, eof: Byte, t: Subject)
    returns (accepted: bool, found: bool, ghost path: seq<nat>)
    requires re.Valid() && !(0 <= re.locs <= Len(t)) && Separate(re, buf)
    requires HasRoom(re, PrintPattern(p, eof), buf, endbuf, eof)
    requires GoodDelimiter(eof) && Printable(p) && Runnable(p.terms)
    requires SearchEnds(PatternMeaning(p.terms), p.anchored, t, re.Caps(), re.locs)
    modifies re`circf, re`nbra, re`nodelim, re`loc1, re`loc2, re`low, re`size, re.braslist, re.braelist, buf
    ensures accepted <==> CodeSize(p.terms) < endbuf
    ensures accepted ==>
              Reported(found, p.anchored, PatternMeaning(p.terms), t, old(re.Caps()),
                       re.loc1, re.loc2, re.Caps(), path) && (found && EndAnchored(p.terms) ==> re.loc2 == Len(t))
  {
    var text := PrintPattern(p, eof);
    assert text + [] == text;
    FirstByte(p, eof);
    ParseUndoesPrint(p, eof, re.sed != 0, []);
    accepted, found, path := CompileAndStep(re, text, buf, endbuf, eof, t, true);
  }
}
