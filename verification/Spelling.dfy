/**
 * The pattern language from the side of the writer: which texts stand for
 * which token, with the characters by their numbers.  A text is read as a
 * token exactly when it is one of its spellings.
 */
module Spelling {
  import opened Bytes
  import opened Program
  import opened Syntax
  import opened Parse

  // ----- numbers -----

  predicate Digits(ds: seq<Byte>) { forall i :: 0 <= i < |ds| ==> 48 <= ds[i] <= 57 }

  /** The number that decimal digits stand for. */
  function Number(ds: seq<Byte>): nat
    requires Digits(ds)
  {
    if ds == [] then 0 else 10 * Number(ds[..|ds| - 1]) + (ds[|ds| - 1] - 48)
  }

  predicate IsDecimal(ds: seq<Byte>, n: nat) { ds != [] && Digits(ds) && Number(ds) == n }

  /** The number after more digits have been read. */
  function ReadOn(ds: seq<Byte>, acc: nat): nat
    requires Digits(ds)
  {
    if ds == [] then acc else ReadOn(ds[1..], 10 * acc + (ds[0] - 48))
  }

  lemma {:induction false} ReadOnSnoc(ds: seq<Byte>, d: Byte, acc: nat)
    requires Digits(ds) && 48 <= d <= 57
    ensures ReadOn(ds + [d], acc) == 10 * ReadOn(ds, acc) + (d - 48)
    decreases |ds|
  {
    var all := ds + [d];
    if ds == [] {
      assert all[1..] == [];
    } else {
      assert all[1..] == ds[1..] + [d];
      ReadOnSnoc(ds[1..], d, 10 * acc + (ds[0] - 48));
    }
  }

  lemma {:induction false} ReadFromTheLeft(ds: seq<Byte>)
    requires Digits(ds)
    ensures ReadOn(ds, 0) == Number(ds)
    decreases |ds|
  {
    if ds != [] {
      var n := |ds| - 1;
      assert ds == ds[..n] + [ds[n]];
      ReadFromTheLeft(ds[..n]);
      ReadOnSnoc(ds[..n], ds[n], 0);
    }
  }

  lemma {:induction false} NumberOn(ds: seq<Byte>, acc: nat, tail: seq<Byte>)
    requires ds != [] && Digits(ds) && tail != [] && (tail[0] == 92 || tail[0] == 44)
    ensures LexNumber(ds + tail, acc) == Some(Lexed(ReadOn(ds, acc), |ds|))
    decreases |ds|
  {
    var s := ds + tail;
    if |ds| == 1 {
      assert ds[1..] == [] && s[1] == tail[0];
    } else {
      assert s[1..] == ds[1..] + tail && s[1] == ds[1];
      NumberOn(ds[1..], 10 * acc + (ds[0] - 48), tail);
    }
  }

  /** Digits in front of a `\` or `,` are read as their number. */
  lemma {:induction false} NumberRead(ds: seq<Byte>, n: nat, tail: seq<Byte>)
    requires IsDecimal(ds, n) && tail != [] && (tail[0] == 92 || tail[0] == 44)
    ensures LexNumber(ds + tail, 0) == Some(Lexed(n, |ds|))
  {
    NumberOn(ds, 0, tail);
    ReadFromTheLeft(ds);
  }

  lemma {:induction false} DigitsTaken(s: seq<Byte>, acc: nat)
    requires LexNumber(s, acc).Some?
    ensures var l := LexNumber(s, acc).value; Digits(s[..l.used]) && ReadOn(s[..l.used], acc) == l.value
    decreases |s|
  {
    var v, n := 10 * acc + (s[0] - ZERO), LexNumber(s, acc).value.used;
    if s[1] in {BACKSLASH, COMMA} {
      assert s[..1] == [s[0]] && s[..1][1..] == [];
    } else {
      DigitsTaken(s[1..], v);
      assert s[..n][1..] == s[1..][..n - 1];
      assert s[..n] == [s[0]] + s[1..][..n - 1];
    }
  }

  /** And nothing else is read as a number. */
  lemma {:induction false} NumberTaken(s: seq<Byte>)
    requires LexNumber(s, 0).Some?
    ensures var l := LexNumber(s, 0).value; IsDecimal(s[..l.used], l.value) && s[l.used] in {44, 92}
  {
    DigitsTaken(s, 0);
    ReadFromTheLeft(s[..LexNumber(s, 0).value.used]);
  }

  // ----- intervals -----

  /** `\}` or `n\}`, after the comma. */
  ghost predicate SpellsUpper(text: seq<Byte>, high: nat) {
    (text == [92, 125] && high == 255) ||
    (high <= 254 && exists n :: IsDecimal(n, high) && text == n + [92, 125])
  }

  /** `m\}`, `m,\}` or `m,n\}`, after the opening brace. */
  ghost predicate SpellsInterval(text: seq<Byte>, low: nat, high: nat) {
    low <= 254 && low <= high &&
    ((high == low && exists m :: IsDecimal(m, low) && text == m + [92, 125]) ||
     exists m, u :: IsDecimal(m, low) && SpellsUpper(u, high) && text == m + [44] + u)
  }

  lemma {:induction false} UpperRead(text: seq<Byte>, high: Byte, tail: seq<Byte>)
    requires SpellsUpper(text, high)
    ensures LexUpper(text + tail) == Some(Lexed(high, |text|))
  {
    var close := [92, 125];
    if text != close {
      var n :| IsDecimal(n, high) && text == n + close;
      var s := text + tail;
      assert s == n + (close + tail);
      NumberRead(n, high, close + tail);
      assert s[0] == n[0] && s[|n|..] == close + tail;
    }
  }

  lemma {:induction false} ExactRead(m: seq<Byte>, low: Byte, tail: seq<Byte>)
    requires IsDecimal(m, low) && low <= 254
    ensures LexInterval(m + [92, 125] + tail) == Some(Lexed((low, low), |m + [92, 125]|))
  {
    var close := [92, 125] + tail;
    assert m + [92, 125] + tail == m + close;
    NumberRead(m, low, close);
    assert (m + close)[|m|] == 92 && (m + close)[|m|..] == close && ClosesInterval(close);
  }

  lemma {:induction false} LimitsRead(s: seq<Byte>, n: nat, low: Byte, high: Byte, k: nat)
    requires n < |s| && LexNumber(s, 0) == Some(Lexed(low, n)) && s[n] == 44 && low <= 254 && low <= high
    requires LexUpper(s[n + 1..]) == Some(Lexed(high, k))
    ensures LexInterval(s) == Some(Lexed((low, high), n + 1 + k))
  {
  }

  lemma {:induction false} Behind(s: seq<Byte>, m: seq<Byte>, c: Byte, u: seq<Byte>)
    requires s == m + ([c] + u)
    ensures s[|m|] == c && s[|m| + 1..] == u
  {
  }

  lemma {:induction false} RangeReadAt(s: seq<Byte>, m: seq<Byte>, low: Byte, u: seq<Byte>, high: Byte, tail: seq<Byte>)
    requires IsDecimal(m, low) && low <= 254 && low <= high && SpellsUpper(u, high) && s == m + ([44] + (u + tail))
    ensures LexInterval(s) == Some(Lexed((low, high), |m| + 1 + |u|))
  {
    NumberRead(m, low, [44] + (u + tail));
    UpperRead(u, high, tail);
    Behind(s, m, 44, u + tail);
    LimitsRead(s, |m|, low, high, |u|);
  }

  lemma {:induction false} RangeRead(m: seq<Byte>, low: Byte, u: seq<Byte>, high: Byte, tail: seq<Byte>)
    requires IsDecimal(m, low) && low <= 254 && low <= high && SpellsUpper(u, high)
    ensures LexInterval(m + [44] + u + tail) == Some(Lexed((low, high), |m| + 1 + |u|))
  {
    Associative(m + [44], u, tail);
    Associative(m, [44], u + tail);
    RangeReadAt(m + [44] + u + tail, m, low, u, high, tail);
  }

  lemma {:induction false} IntervalRead(text: seq<Byte>, low: Byte, high: Byte, tail: seq<Byte>)
    requires SpellsInterval(text, low, high)
    ensures LexInterval(text + tail) == Some(Lexed((low, high), |text|))
  {
    if m :| high == low && IsDecimal(m, low) && text == m + [92, 125] {
      ExactRead(m, low, tail);
    } else {
      var m, u :| IsDecimal(m, low) && SpellsUpper(u, high) && text == m + [44] + u;
      RangeRead(m, low, u, high, tail);
    }
  }

  lemma {:induction false} UpperTaken(s: seq<Byte>)
    requires LexUpper(s).Some?
    ensures var l := LexUpper(s).value; SpellsUpper(s[..l.used], l.value)
  {
    if ClosesInterval(s) {
      assert s[..2] == [92, 125];
    } else {
      NumberTaken(s);
      var n := LexNumber(s, 0).value.used;
      assert s[..n + 2] == s[..n] + [92, 125];
    }
  }

  lemma {:induction false} RangeTaken(s: seq<Byte>, n: nat)
    requires n < |s| && s[n] == 44 && LexUpper(s[n + 1..]).Some?
    ensures var u := LexUpper(s[n + 1..]).value;
            SpellsUpper(s[n + 1..][..u.used], u.value) &&
            s[..n + 1 + u.used] == s[..n] + [44] + s[n + 1..][..u.used]
  {
    UpperTaken(s[n + 1..]);
  }

  lemma {:induction false} IntervalTaken(s: seq<Byte>)
    requires LexInterval(s).Some?
    ensures var l := LexInterval(s).value; SpellsInterval(s[..l.used], l.value.0, l.value.1)
  {
    NumberTaken(s);
    var l, n := LexInterval(s).value, LexNumber(s, 0).value.used;
    var m := s[..n];
    if s[n] == COMMA {
      RangeTaken(s, n);
      var u := s[n + 1..][..l.used - n - 1];
      assert IsDecimal(m, l.value.0) && SpellsUpper(u, l.value.1) && s[..l.used] == m + [44] + u;
    } else {
      assert s[..l.used] == m + [92, 125];
    }
  }

  // ----- bracket expressions -----

  /** A character, or a dash and a character. */
  function ElemText(e: Elem): seq<Byte> { if e.Single? then [e.c] else [45, e.c] }

  function BodyText(body: seq<Elem>): seq<Byte> {
    if body == [] then [] else ElemText(body[0]) + BodyText(body[1..])
  }

  /** The end of a class: a dash that stands for itself, if any, and the bracket. */
  function CloseText(dash: bool): seq<Byte> { if dash then [45, 93] else [93] }

  /** A bracket expression after its opening bracket. */
  function ClassText(cls: ClassExpr): seq<Byte> {
    (if cls.neg then [94] else []) + (BodyText(cls.body) + CloseText(cls.dash))
  }

  /**
   * An element that can stand after the character lc, or at the start.  A
   * dash makes a range unless it is at the start or follows NUL; a bracket
   * stands for itself only at the start; NUL and newline only end a range.
   */
  predicate ElemFits(e: Elem, lc: Byte, first: bool) {
    if e.Single? then e.c != 0 && e.c != 10 && (e.c == 93 ==> first) && (e.c == 45 ==> lc == 0)
    else !first && lc != 0 && e.c != 93
  }

  predicate BodyFits(body: seq<Elem>, dash: bool, lc: Byte, first: bool) {
    if body == [] then !first && (dash ==> lc != 0)
    else ElemFits(body[0], lc, first) && BodyFits(body[1..], dash, body[0].c, false)
  }

  /** An expression that can be written; without `^` it must not start like one with it. */
  predicate ClassFits(cls: ClassExpr) {
    BodyFits(cls.body, cls.dash, 0, true) && (!cls.neg ==> cls.body[0].c != 94)
  }

  lemma {:induction false} ElemRead(e: Elem, lc: Byte, first: bool, t: seq<Byte>)
    requires ElemFits(e, lc, first) && t != [] && (e.To? ==> !first)
    ensures LexBody(ElemText(e) + t, lc) == LexMore(ElemText(e) + t, e, |ElemText(e)|)
  {
  }

  lemma {:induction false} MoreRead(a: seq<Byte>, t: seq<Byte>, e: Elem)
    requires a != [] && t != []
    ensures LexMore(a + t, e, |a|) ==
            if t[0] == 93 then Some(Lexed(([e], false), |a| + 1))
            else match LexBody(t, e.c)
              case None => None
              case Some(l) => Some(Lexed(([e] + l.value.0, l.value.1), |a| + l.used))
  {
    assert (a + t)[|a|..] == t;
  }

  /** What follows an element starts with the bracket only if nothing is left. */
  lemma {:induction false} RestStarts(body: seq<Elem>, dash: bool, lc: Byte)
    requires BodyFits(body, dash, lc, false)
    ensures var text := BodyText(body) + CloseText(dash);
            text != [] && (text[0] == 93 <==> body == [] && !dash) && (body == [] && !dash ==> |text| == 1)
  {
  }

  lemma {:induction false} BodyRead(body: seq<Elem>, dash: bool, lc: Byte, first: bool, tail: seq<Byte>)
    requires BodyFits(body, dash, lc, first) && (body == [] ==> dash) && (first ==> lc == 0)
    ensures var text := BodyText(body) + CloseText(dash);
            LexBody(text + tail, lc) == Some(Lexed((body, dash), |text|))
    decreases |body|
  {
    if body == [] {
      assert [] + CloseText(dash) + tail == [45, 93] + tail;
    } else {
      var e, rest := body[0], body[1..];
      var more := BodyText(rest) + CloseText(dash);
      RestStarts(rest, dash, e.c);
      Associative(ElemText(e), BodyText(rest), CloseText(dash));
      Associative(ElemText(e), more, tail);
      ElemRead(e, lc, first, more + tail);
      MoreRead(ElemText(e), more + tail, e);
      assert (more + tail)[0] == more[0];
      if rest == [] && !dash {
        assert body == [e];
      } else {
        assert body == [e] + rest;
        BodyRead(rest, dash, e.c, false, tail);
      }
    }
  }

  lemma {:induction false} ClassRead(cls: ClassExpr, tail: seq<Byte>)
    requires ClassFits(cls)
    ensures LexClass(ClassText(cls) + tail) == Some(Lexed(cls, |ClassText(cls)|))
  {
    var text := BodyText(cls.body) + CloseText(cls.dash);
    var s := ClassText(cls) + tail;
    var n := if cls.neg then 1 else 0;
    assert s[n..] == text + tail;
    assert !cls.neg ==> s[0] == text[0] == cls.body[0].c;
    BodyRead(cls.body, cls.dash, 0, true, tail);
  }

  /** The first element that is taken, unless it is the closing dash. */
  function FirstElem(s: seq<Byte>, lc: Byte): Elem
    requires LexBody(s, lc).Some?
  {
    if s[0] == 45 && lc != 0 then To(s[1]) else Single(s[0])
  }

  lemma {:induction false} ElemTaken(s: seq<Byte>, lc: Byte, first: bool)
    requires LexBody(s, lc).Some? && (first ==> lc == 0) && (!first ==> s[0] != 93)
    requires !(s[0] == 45 && lc != 0 && s[1] == 93)
    ensures var e := FirstElem(s, lc);
            var k := |ElemText(e)|;
            k < |s| && s[..k] == ElemText(e) && LexBody(s, lc) == LexMore(s, e, k) && ElemFits(e, lc, first)
  {
  }

  lemma {:induction false} BodyStep(e: Elem, rest: seq<Elem>, dash: bool, lc: Byte, first: bool)
    requires ElemFits(e, lc, first) && BodyFits(rest, dash, e.c, false)
    ensures BodyFits([e] + rest, dash, lc, first)
    ensures BodyText([e] + rest) + CloseText(dash) == ElemText(e) + (BodyText(rest) + CloseText(dash))
  {
    assert ([e] + rest)[1..] == rest;
  }

  lemma {:induction false} Split(s: seq<Byte>, k: nat, n: nat)
    requires k + n <= |s|
    ensures s[..k + n] == s[..k] + s[k..][..n]
  {
  }

  lemma {:induction false} BodyTaken(s: seq<Byte>, lc: Byte, first: bool)
    requires LexBody(s, lc).Some? && (first ==> lc == 0) && (!first ==> s[0] != 93)
    ensures var l := LexBody(s, lc).value;
            BodyFits(l.value.0, l.value.1, lc, first) && s[..l.used] == BodyText(l.value.0) + CloseText(l.value.1)
    decreases |s|
  {
    if s[0] == 45 && lc != 0 && s[1] == 93 {
      assert s[..2] == [45, 93];
    } else {
      var e := FirstElem(s, lc);
      var k := |ElemText(e)|;
      ElemTaken(s, lc, first);
      if s[k] == 93 {
        BodyStep(e, [], false, lc, first);
        assert [e] + [] == [e];
        Split(s, k, 1);
        assert s[k..][..1] == [93];
      } else {
        BodyTaken(s[k..], e.c, false);
        var r := LexBody(s[k..], e.c).value;
        BodyStep(e, r.value.0, r.value.1, lc, first);
        Split(s, k, r.used);
      }
    }
  }

  lemma {:induction false} ClassTaken(s: seq<Byte>)
    requires LexClass(s).Some?
    ensures var l := LexClass(s).value; ClassFits(l.value) && s[..l.used] == ClassText(l.value)
  {
    var n := if s != [] && s[0] == CARET then 1 else 0;
    var l := LexBody(s[n..], 0).value;
    BodyTaken(s[n..], 0, true);
    Split(s, n, l.used);
    assert l.value.0[0].c == s[n..][..l.used][0];
  }

  // ----- tokens -----

  /** What follows is the delimiter or a newline. */
  predicate EndsHere(next: seq<Byte>, eof: Byte) { next != [] && (next[0] == eof || next[0] == 10) }

  /** A character by itself, behind a backslash, or as `\n`. */
  predicate SpellsChar(text: seq<Byte>, c: Byte, next: seq<Byte>, eof: Byte, first: bool) {
    (text == [c] && c != 10 && c != 42 && c != 46 && c != 91 && c != 92 && (c == 36 ==> !EndsHere(next, eof))) ||
    (text == [92, c] && c != 10 && c != 40 && c != 41 && !(49 <= c <= 57) && c != 110 && (c == 123 ==> first)) ||
    (text == [92, 110] && c == 10)
  }

  /**
   * The text, with `next` behind it, is a spelling of the token.  `first` says
   * that no term has been read yet.
   */
  ghost predicate SpelledAs(tok: Token, text: seq<Byte>, next: seq<Byte>, eof: Byte, first: bool) {
    text != [] && text[0] != eof &&
    match tok
    case End => false
    case StarToken => text == [42]
    case OpenToken => text == [92, 40]
    case CloseToken => text == [92, 41]
    case BackToken(d) => text == [92, 49 + d]
    case IntervalToken(low, high) =>
      !first && |text| >= 2 && text[..2] == [92, 123] && SpellsInterval(text[2..], low, high)
    case Atomic(Class(cls)) => text[0] == 91 && ClassFits(cls) && text[1..] == ClassText(cls)
    case Atomic(Plain(op)) =>
      (op == Dot && text == [46]) || (op == Dol && text == [36] && EndsHere(next, eof)) ||
      (op.Chr? && SpellsChar(text, op.c, next, eof, first))
  }

  lemma {:induction false} IntervalTokenRead(text: seq<Byte>, low: Byte, high: Byte, next: seq<Byte>, eof: Byte, sed: bool)
    requires |text| >= 2 && text[..2] == [92, 123] && SpellsInterval(text[2..], low, high) && eof != 92
    ensures Lex(text + next, eof, sed, false) == Some(Lexed(IntervalToken(low, high), |text|))
  {
    var s := text + next;
    assert s[2..] == text[2..] + next && s[0] == text[..2][0] && s[1] == text[..2][1];
    IntervalRead(text[2..], low, high, next);
    assert Lex(s, eof, sed, false) == LexEscape(s, false);
  }

  lemma {:induction false} ClassTokenRead(text: seq<Byte>, cls: ClassExpr, next: seq<Byte>, eof: Byte, sed: bool, first: bool)
    requires text != [] && text[0] == 91 && ClassFits(cls) && text[1..] == ClassText(cls) && eof != 91
    ensures Lex(text + next, eof, sed, first) == Some(Lexed(Atomic(Class(cls)), |text|))
  {
    assert (text + next)[1..] == text[1..] + next;
    ClassRead(cls, next);
  }

  /** An escape that is no interval. */
  lemma {:induction false} EscapeRead(c: Byte, next: seq<Byte>, eof: Byte, sed: bool, first: bool)
    requires eof != 92 && c != 10 && (c == 123 ==> first)
    ensures Lex([92, c] + next, eof, sed, first) == Some(Lexed(EscapeToken(c), 2))
  {
    var s := [92, c] + next;
    assert s[0] == 92 && s[1] == c;
    assert Lex(s, eof, sed, first) == LexEscape(s, first);
  }

  /** A single character. */
  lemma {:induction false} PlainRead(c: Byte, next: seq<Byte>, eof: Byte, sed: bool, first: bool)
    requires eof != c && c != 10 && c != 91 && c != 92
    ensures Lex([c] + next, eof, sed, first) ==
            Some(Lexed(if c == 46 then Atomic(Plain(Dot)) else if c == 42 then StarToken
                       else if c == 36 && EndsHere(next, eof) then Atomic(Plain(Dol)) else Atomic(Plain(Chr(c))), 1))
  {
    var s := [c] + next;
    assert next != [] ==> s[1] == next[0];
  }

  lemma {:induction false} TokenRead(tok: Token, text: seq<Byte>, next: seq<Byte>, eof: Byte, sed: bool, first: bool)
    requires SpelledAs(tok, text, next, eof, first)
    ensures Lex(text + next, eof, sed, first) == Some(Lexed(tok, |text|))
  {
    if tok.IntervalToken? {
      assert text[..2][0] == text[0];
      IntervalTokenRead(text, tok.low, tok.high, next, eof, sed);
    } else if tok.Atomic? && tok.piece.Class? {
      ClassTokenRead(text, tok.piece.cls, next, eof, sed, first);
    } else if |text| == 2 {
      assert text == [92, text[1]];
      EscapeRead(text[1], next, eof, sed, first);
    } else {
      assert text == [text[0]];
      PlainRead(text[0], next, eof, sed, first);
    }
  }

  lemma {:induction false} EscapeTaken(c: Byte, next: seq<Byte>, eof: Byte, first: bool)
    requires eof != 92 && c != 10 && (c == 123 ==> first)
    ensures SpelledAs(EscapeToken(c), [92, c], next, eof, first)
  {
  }

  lemma {:induction false} IntervalTokenTaken(s: seq<Byte>, eof: Byte, first: bool)
    requires |s| >= 2 && s[0] == 92 && s[1] == 123 && LexInterval(s[2..]).Some? && !first && eof != 92
    ensures var l := LexInterval(s[2..]).value;
            SpelledAs(IntervalToken(l.value.0, l.value.1), s[..l.used + 2], s[l.used + 2..], eof, first)
  {
    var n := LexInterval(s[2..]).value.used;
    IntervalTaken(s[2..]);
    Split(s, 2, n);
    assert s[..n + 2][..2] == [92, 123] && s[..n + 2][2..] == s[2..][..n];
  }

  lemma {:induction false} ClassTokenTaken(s: seq<Byte>, eof: Byte, first: bool)
    requires s != [] && s[0] == 91 && LexClass(s[1..]).Some? && eof != 91
    ensures var l := LexClass(s[1..]).value;
            SpelledAs(Atomic(Class(l.value)), s[..l.used + 1], s[l.used + 1..], eof, first)
  {
    var n := LexClass(s[1..]).value.used;
    ClassTaken(s[1..]);
    assert s[..n + 1][1..] == s[1..][..n];
  }

  lemma {:induction false} PlainTaken(c: Byte, next: seq<Byte>, eof: Byte, first: bool)
    requires eof != c && c != 10 && c != 91 && c != 92
    ensures SpelledAs(if c == 46 then Atomic(Plain(Dot)) else if c == 42 then StarToken
                      else if c == 36 && EndsHere(next, eof) then Atomic(Plain(Dol)) else Atomic(Plain(Chr(c))),
                      [c], next, eof, first)
  {
  }

  lemma {:induction false} TokenTaken(s: seq<Byte>, eof: Byte, sed: bool, first: bool)
    requires var l := Lex(s, eof, sed, first); l.Some? && !l.value.value.End?
    ensures var l := Lex(s, eof, sed, first).value; SpelledAs(l.value, s[..l.used], s[l.used..], eof, first)
  {
    if s[0] == 91 {
      ClassTokenTaken(s, eof, first);
    } else if s[0] != 92 {
      assert s[..1] == [s[0]] && s == [s[0]] + s[1..];
      PlainRead(s[0], s[1..], eof, sed, first);
      PlainTaken(s[0], s[1..], eof, first);
    } else if s[1] == 123 && !first {
      IntervalTokenTaken(s, eof, first);
    } else {
      assert s[..2] == [92, s[1]] && s == [92, s[1]] + s[2..];
      EscapeRead(s[1], s[2..], eof, sed, first);
      EscapeTaken(s[1], s[2..], eof, first);
    }
  }

  /** A text is read as a token exactly when it starts with one of the spellings of that token. */
  lemma {:induction false} TokenExactlyWhen(s: seq<Byte>, eof: Byte, sed: bool, first: bool, tok: Token, n: nat)
    requires !tok.End? && n <= |s|
    ensures Lex(s, eof, sed, first) == Some(Lexed(tok, n)) <==> SpelledAs(tok, s[..n], s[n..], eof, first)
  {
    if Lex(s, eof, sed, first) == Some(Lexed(tok, n)) {
      TokenTaken(s, eof, sed, first);
    } else if SpelledAs(tok, s[..n], s[n..], eof, first) {
      assert s == s[..n] + s[n..];
      TokenRead(tok, s[..n], s[n..], eof, sed, first);
    }
  }

  // ----- whole patterns -----

  /** The end: the delimiter, which is taken, or a newline, which is not and which the editor `sed` refuses. */
  predicate SpellsEnd(s: seq<Byte>, left: nat, delimited: bool, eof: Byte, sed: bool) {
    s != [] && if delimited then s[0] == eof && left == |s| - 1 else s[0] == 10 && eof != 10 && !sed && left == |s|
  }

  /** The text starts with spellings of the tokens, one after the other, and then with the end. */
  ghost predicate Spells(s: seq<Byte>, toks: seq<Token>, left: nat, delimited: bool, eof: Byte, sed: bool, first: bool)
    decreases |toks|
  {
    if toks == [] then SpellsEnd(s, left, delimited, eof, sed)
    else
      exists n :: 0 < n <= |s| && SpelledAs(toks[0], s[..n], s[n..], eof, first) &&
        Spells(s[n..], toks[1..], left, delimited, eof, sed, false)
  }

  function ApplyAll(st: State, toks: seq<Token>): Option<State>
    decreases |toks|
  {
    if toks == [] then Some(st)
    else if toks[0].End? then None
    else match Apply(st, toks[0])
      case None => None
      case Some(next) => ApplyAll(next, toks[1..])
  }

  lemma {:induction false} EndTaken(s: seq<Byte>, eof: Byte, sed: bool, first: bool)
    requires var l := Lex(s, eof, sed, first); l.Some? && l.value.value.End?
    ensures SpellsEnd(s, |s| - Lex(s, eof, sed, first).value.used, s[0] == eof, eof, sed)
  {
  }

  lemma {:induction false} EndRead(s: seq<Byte>, left: nat, delimited: bool, eof: Byte, sed: bool, first: bool)
    requires SpellsEnd(s, left, delimited, eof, sed)
    ensures Lex(s, eof, sed, first) == Some(Lexed(End, |s| - left)) && delimited == (s[0] == eof)
  {
  }

  /** Every token leaves some term behind. */
  lemma {:induction false} SomeTerm(st: State, tok: Token)
    requires !tok.End? && Apply(st, tok).Some?
    ensures Apply(st, tok).value.terms != []
  {
  }

  lemma {:induction false} ParseTaken(s: seq<Byte>, eof: Byte, sed: bool, st: State) returns (toks: seq<Token>)
    requires ParseFrom(s, eof, sed, st).Some?
    ensures var p := ParseFrom(s, eof, sed, st).value;
            Spells(s, toks, p.left, p.delimited, eof, sed, st.terms == []) && ApplyAll(st, toks) == Some(p.state) &&
            p.state.stack == []
    decreases |s|
  {
    var l := Lex(s, eof, sed, st.terms == []).value;
    if l.value.End? {
      EndTaken(s, eof, sed, st.terms == []);
      toks := [];
    } else {
      var next := Apply(st, l.value).value;
      TokenTaken(s, eof, sed, st.terms == []);
      SomeTerm(st, l.value);
      var more := ParseTaken(s[l.used..], eof, sed, next);
      toks := [l.value] + more;
      assert toks[1..] == more;
    }
  }

  lemma {:induction false} ParseRead(s: seq<Byte>, eof: Byte, sed: bool, st: State, toks: seq<Token>, p: Parsed)
    requires Spells(s, toks, p.left, p.delimited, eof, sed, st.terms == [])
    requires ApplyAll(st, toks) == Some(p.state) && p.state.stack == []
    ensures ParseFrom(s, eof, sed, st) == Some(p)
    decreases |toks|
  {
    if toks == [] {
      EndRead(s, p.left, p.delimited, eof, sed, st.terms == []);
    } else {
      var n :| 0 < n <= |s| && SpelledAs(toks[0], s[..n], s[n..], eof, st.terms == []) &&
        Spells(s[n..], toks[1..], p.left, p.delimited, eof, sed, false);
      TokenExactlyWhen(s, eof, sed, st.terms == [], toks[0], n);
      SomeTerm(st, toks[0]);
      ParseRead(s[n..], eof, sed, Apply(st, toks[0]).value, toks[1..], p);
    }
  }

  /**
   * A text is accepted as a pattern exactly when, after an optional `^`, it is
   * spelled by tokens that can be applied one after the other and leave no
   * group open, and then ended; the same for every delimiter.
   */
  lemma {:induction false} AcceptedExactlyWhen(s: seq<Byte>, eof: Byte, sed: bool, p: Parsed)
    requires s != []
    ensures ParsePattern(s, eof, sed) == Some(p) <==>
            exists toks :: Spells(if s[0] == 94 then s[1..] else s, toks, p.left, p.delimited, eof, sed, true) &&
              ApplyAll(START, toks) == Some(p.state) && p.state.stack == []
  {
    var s1 := if s[0] == 94 then s[1..] else s;
    if ParsePattern(s, eof, sed) == Some(p) {
      var toks := ParseTaken(s1, eof, sed, START);
    } else if toks :| Spells(s1, toks, p.left, p.delimited, eof, sed, true) &&
                      ApplyAll(START, toks) == Some(p.state) && p.state.stack == [] {
      ParseRead(s1, eof, sed, START, toks, p);
    }
  }

  // ----- which tokens can follow each other -----

  function Openings(toks: seq<Token>): nat {
    if toks == [] then 0 else Openings(toks[..|toks| - 1]) + if toks[|toks| - 1].OpenToken? then 1 else 0
  }

  function Closings(toks: seq<Token>): nat {
    if toks == [] then 0 else Closings(toks[..|toks| - 1]) + if toks[|toks| - 1].CloseToken? then 1 else 0
  }

  /**
   * Token i is allowed after those before it: no tenth opening, no closing
   * without an opening, no `\d` before d closings, no interval at the start.
   */
  predicate AllowedAt(toks: seq<Token>, i: nat)
    requires i < |toks|
  {
    var before := toks[..i];
    match toks[i]
    case End => false
    case OpenToken => Openings(before) < 9
    case CloseToken => Closings(before) < Openings(before)
    case BackToken(d) => d + 1 <= Closings(before)
    case IntervalToken(_, _) => i > 0
    case _ => true
  }

  predicate AllAllowed(toks: seq<Token>) { forall i :: 0 <= i < |toks| ==> AllowedAt(toks, i) }

  lemma {:induction false} AllowedSnoc(toks: seq<Token>)
    requires toks != []
    ensures var n := |toks| - 1; AllAllowed(toks) <==> AllAllowed(toks[..n]) && AllowedAt(toks, n)
  {
    var n := |toks| - 1;
    forall i | 0 <= i < n ensures AllowedAt(toks, i) == AllowedAt(toks[..n], i) { assert toks[..n][..i] == toks[..i]; }
  }

  lemma {:induction false} ApplyAllSnoc(st: State, toks: seq<Token>, tok: Token)
    ensures ApplyAll(st, toks + [tok]) ==
            match ApplyAll(st, toks)
            case None => None
            case Some(mid) => if tok.End? then None else Apply(mid, tok)
    decreases |toks|
  {
    var all := toks + [tok];
    if toks == [] {
      assert all[1..] == [];
    } else {
      assert all[0] == toks[0] && all[1..] == toks[1..] + [tok];
      if !toks[0].End? && Apply(st, toks[0]).Some? { ApplyAllSnoc(Apply(st, toks[0]).value, toks[1..], tok); }
    }
  }

  /** The counters of the parser count openings and closings. */
  predicate Counted(st: State, toks: seq<Token>) {
    st.nbra == Openings(toks) && st.closed == Closings(toks) && |st.stack| == Openings(toks) - Closings(toks) &&
    (st.terms == [] <==> toks == [])
  }

  /** Tokens can be applied one after the other exactly when each is allowed after those before it. */
  lemma {:induction false} AppliesExactlyWhen(toks: seq<Token>)
    ensures ApplyAll(START, toks).Some? <==> AllAllowed(toks)
    ensures ApplyAll(START, toks).Some? ==> Counted(ApplyAll(START, toks).value, toks)
    decreases |toks|
  {
    if toks != [] {
      var n := |toks| - 1;
      assert toks == toks[..n] + [toks[n]];
      AppliesExactlyWhen(toks[..n]);
      ApplyAllSnoc(START, toks[..n], toks[n]);
      AllowedSnoc(toks);
    }
  }

  /** After an optional `^`, the tokens spell the text up to its end, each is allowed in its place, and all groups are closed. */
  ghost predicate WellSpelled(s: seq<Byte>, toks: seq<Token>, left: nat, delimited: bool, eof: Byte, sed: bool)
    requires s != []
  {
    Spells(if s[0] == 94 then s[1..] else s, toks, left, delimited, eof, sed, true) &&
    AllAllowed(toks) && Openings(toks) == Closings(toks)
  }

  lemma {:induction false} WellSpelledRead(s: seq<Byte>, toks: seq<Token>, left: nat, delimited: bool, eof: Byte, sed: bool)
    requires s != [] && WellSpelled(s, toks, left, delimited, eof, sed)
    ensures ParsePattern(s, eof, sed).Some?
  {
    AppliesExactlyWhen(toks);
    ParseRead(if s[0] == 94 then s[1..] else s, eof, sed, START, toks,
              Parsed(ApplyAll(START, toks).value, left, delimited));
  }

  /** So the accepted texts are exactly those that are well spelled. */
  lemma {:induction false} AcceptedTexts(s: seq<Byte>, eof: Byte, sed: bool)
    requires s != []
    ensures ParsePattern(s, eof, sed).Some? <==>
            exists toks, left: nat, delimited :: WellSpelled(s, toks, left, delimited, eof, sed)
  {
    if ParsePattern(s, eof, sed).Some? {
      var p := ParsePattern(s, eof, sed).value;
      var toks := ParseTaken(if s[0] == 94 then s[1..] else s, eof, sed, START);
      AppliesExactlyWhen(toks);
      assert WellSpelled(s, toks, p.left, p.delimited, eof, sed);
    }
    if toks, left: nat, delimited :| WellSpelled(s, toks, left, delimited, eof, sed) {
      WellSpelledRead(s, toks, left, delimited, eof, sed);
    }
  }

  // ----- ranges -----

  /** `[a-b]` stands for the characters from a to b, for every a and b that can be written there. */
  lemma {:induction false} RangeClass(a: Byte, b: Byte, tail: seq<Byte>)
    requires a != 0 && a != 10 && a != 94 && b != 93 && a <= b
    ensures var l := LexClass([a, 45, b, 93] + tail);
            l.Some? && l.value.used == 4 && forall x: Byte :: x in Denotes(l.value.value) <==> a <= x <= b
  {
    var cls := ClassExpr(false, [Single(a), To(b)], false);
    assert cls.body[1..] == [To(b)] && cls.body[1..][1..] == [];
    assert BodyFits([To(b)], false, a, false);
    assert BodyText([To(b)]) == [45, b];
    assert ClassText(cls) == [a, 45, b, 93];
    ClassRead(cls, tail);
    forall x: Byte ensures x in Denotes(cls) <==> a <= x <= b {
      DenotesExactly(cls, x);
      if a <= x <= b { assert WrittenAt(cls.body, 1, x); }
    }
  }

  // ----- what stands for itself at the start -----

  /** `*` at the start or after a mark, and `\{` at the start, are characters, for every delimiter that is neither. */
  lemma {:induction false} LiteralStar(st: State, eof: Byte, sed: bool, tail: seq<Byte>)
    requires st.terms == [] || (var t := st.terms[|st.terms| - 1];
                                t.quant == One && t.piece.Plain? && (t.piece.op.Bra? || t.piece.op.Ket?))
    requires eof != 42
    ensures ParseFrom([42] + tail, eof, sed, st) ==
            ParseFrom(tail, eof, sed, st.(terms := st.terms + [Term(Plain(Chr(42)), One)]))
  {
    assert ([42] + tail)[1..] == tail;
  }

  lemma {:induction false} LiteralBrace(eof: Byte, sed: bool, tail: seq<Byte>)
    requires eof != 92
    ensures var after := ParseFrom(tail, eof, sed, START.(terms := [Term(Plain(Chr(123)), One)]));
            ParsePattern([92, 123] + tail, eof, sed) == after && ParsePattern([94, 92, 123] + tail, eof, sed) == after
  {
    var s := [92, 123] + tail;
    assert s[2..] == tail && ([94, 92, 123] + tail)[1..] == s;
    assert [] + [Term(Plain(Chr(123)), One)] == [Term(Plain(Chr(123)), One)];
  }
}
