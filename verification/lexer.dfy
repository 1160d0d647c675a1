/**
 * The lexer of jas/jasvm.cpp: `lex_token` as a terminating state machine
 * over an immutable buffer. `Step` is one iteration of its `for(;;)` loop,
 * `Scan` the loop itself and `LexToken` one call.
 */
module Lexer {
  import opened Optional
  import opened Tokens

  /** Lexer state: the cursor, the start of a pending span (a null pointer when absent) and the row counter. */
  datatype Cursor = Cursor(pos: nat, row: nat, start: Option<nat>)

  /** The cursor lies within the buffer or on its terminator, and a pending span is non-empty. */
  predicate Valid(buf: seq<char>, c: Cursor)
  {
    c.pos <= |buf| && (c.start.Some? ==> c.start.value < c.pos)
  }

  /**
   * What one call returns. The source aborts the process on a misplaced
   * sigil; `EndOfInput` stands where it would read past the terminator.
   */
  datatype Outcome =
    | Emit(token: Token, next: Cursor)
    | UnexpectedSigil(ch: char, row: nat)
    | EndOfInput

  /** One loop iteration either returns from the call or continues with a new cursor and span kind. */
  datatype StepResult =
    | Return(outcome: Outcome)
    | Continue(cursor: Cursor, kind: TokenType)

  /** The comment loop: the first position from `pos` holding a newline or a NUL byte. */
  function SkipComment(buf: seq<char>, pos: nat): (r: nat)
    requires pos <= |buf|
    ensures pos <= r <= |buf|
    ensures At(buf, r) == '\0' || At(buf, r) == '\n'
    ensures forall i | pos <= i < r :: buf[i] != '\0' && buf[i] != '\n'
    decreases |buf| - pos
  {
    if At(buf, pos) != '\0' && At(buf, pos) != '\n' then SkipComment(buf, pos + 1) else pos
  }

  /**
   * One iteration of the loop: first a delimiter finishes a pending span
   * without moving, then the byte is dispatched on. `kind` is the local
   * `type` variable of the call.
   */
  function Step(buf: seq<char>, c: Cursor, kind: TokenType): (s: StepResult)
    requires Valid(buf, c)
    ensures s.Continue? ==> Valid(buf, s.cursor) && c.pos < s.cursor.pos
    ensures s.Continue? && c.start.Some? ==> s.cursor.start == c.start
  {
    var ch := At(buf, c.pos);
    if IsDelimiter(ch) && c.start.Some? then
      Return(Emit(Token(kind, c.start.value, c.pos - c.start.value, c.row), c.(start := None)))
    else if ch == '#' then
      Continue(c.(pos := SkipComment(buf, c.pos)), kind)
    else if IsPunct(ch) then
      Return(Emit(Token(KindOf(ch), c.pos, 1, c.row), Cursor(c.pos + 1, c.row, None)))
    else if IsSigil(ch) then
      if c.start.Some? then Return(UnexpectedSigil(ch, c.row))
      else Continue(Cursor(c.pos + 1, c.row, Some(c.pos)), KindOf(ch))
    else if ch == '\n' then
      Continue(c.(pos := c.pos + 1, row := c.row + 1), kind)
    else if IsBlank(ch) then
      Continue(c.(pos := c.pos + 1), kind)
    else if c.pos == |buf| then
      // the default arm would consume the terminator and read past the buffer
      Return(EndOfInput)
    else if c.start.None? then
      Continue(Cursor(c.pos + 1, c.row, Some(c.pos)), IDN)
    else
      Continue(c.(pos := c.pos + 1), kind)
  }

  /** The `for(;;)` loop of one call; it ends because every iteration that does not return advances the cursor. */
  function Scan(buf: seq<char>, c: Cursor, kind: TokenType): (o: Outcome)
    requires Valid(buf, c)
    ensures o.Emit? ==> Valid(buf, o.next) && o.next.start.None? && c.pos <= o.next.pos
    ensures o.Emit? && c.start.None? ==> c.pos < o.next.pos
    decreases |buf| - c.pos
  {
    match Step(buf, c, kind)
    case Return(o) => o
    case Continue(c', kind') => Scan(buf, c', kind')
  }

  /** `lex_token`: one call, whose local `type` starts as NONE. */
  function LexToken(buf: seq<char>, c: Cursor): (o: Outcome)
    requires Valid(buf, c)
    ensures o.Emit? ==> Valid(buf, o.next) && o.next.start.None? && c.pos <= o.next.pos
    ensures o.Emit? && c.start.None? ==> c.pos < o.next.pos
  {
    Scan(buf, c, NONE)
  }

  // ----- What a call skips -----

  /** Byte `i` lies in a comment opened at or after `lo`: a `#` precedes it on its line with no NUL between. */
  predicate InComment(buf: seq<char>, lo: nat, i: nat)
    requires lo <= i < |buf|
    decreases i
  {
    buf[i] != '\n' && buf[i] != '\0' && (buf[i] == '#' || (lo < i && InComment(buf, lo, i - 1)))
  }

  /** Bytes the lexer may drop between tokens: whitespace and comment text. */
  predicate Skippable(buf: seq<char>, lo: nat, i: nat)
    requires lo <= i < |buf|
  {
    IsBlank(buf[i]) || InComment(buf, lo, i)
  }

  /** Every byte of `buf[lo..hi]` is whitespace or comment text. */
  predicate Gap(buf: seq<char>, lo: nat, hi: nat)
    requires lo <= hi <= |buf|
  {
    forall i | lo <= i < hi :: Skippable(buf, lo, i)
  }

  /**
   * `s` is where the skippable run from `lo` ends: every byte before it is
   * whitespace or comment text, and the byte at `s`, if any, is neither.
   */
  ghost predicate GapEnd(buf: seq<char>, lo: nat, s: nat)
  {
    lo <= s <= |buf| && Gap(buf, lo, s) && (s < |buf| ==> !Skippable(buf, lo, s))
  }

  /** The cursor is not inside comment text: a byte there that a comment covers is the `#` itself. */
  predicate NotMidComment(buf: seq<char>, lo: nat, pos: nat)
  {
    lo <= pos < |buf| && InComment(buf, lo, pos) ==> buf[pos] == '#'
  }

  /** From `lo`, the skippable run ends at `s`, a span starts there and a sigil at `p` interrupts it. */
  ghost predicate SpanThenSigil(buf: seq<char>, lo: nat, s: nat, p: nat, ch: char)
  {
    GapEnd(buf, lo, s) && s < p < |buf| && IsSpan(buf, s, p, SpanKind(buf[s])) && buf[p] == ch && IsSigil(ch)
  }

  /** From `lo`, the skippable run ends at `s`, and from there the buffer holds at most one unfinished span. */
  ghost predicate PendingTail(buf: seq<char>, lo: nat, s: nat)
  {
    GapEnd(buf, lo, s) && (s == |buf| || IsSpan(buf, s, |buf|, SpanKind(buf[s])))
  }

  // ----- The loop invariant of one call -----

  /**
   * Within a call started at `c0`: the row counts exactly the newlines
   * consumed; with no span pending, everything consumed was skippable and
   * the cursor is not inside comment text; a pending span starts where the
   * skippable run ends and is a span of the current kind.
   */
  ghost predicate ScanInv(buf: seq<char>, c0: Cursor, c: Cursor, kind: TokenType)
  {
    Valid(buf, c) && c0.pos <= c.pos && c.row == c0.row + NewlinesIn(buf, c0.pos, c.pos) &&
    match c.start
    case None => kind == NONE && Gap(buf, c0.pos, c.pos) && NotMidComment(buf, c0.pos, c.pos)
    case Some(s) => GapEnd(buf, c0.pos, s) && IsSpan(buf, s, c.pos, kind)
  }

  /**
   * The token a call started at `c0` with no pending span returns: the
   * first thing after the skippable run, with its row, and the cursor just
   * past it with no span pending.
   */
  ghost predicate EmitOk(buf: seq<char>, c0: Cursor, tok: Token, next: Cursor)
  {
    WellFormed(buf, tok) && GapEnd(buf, c0.pos, tok.start) &&
    tok.row == c0.row + NewlinesIn(buf, c0.pos, tok.start) &&
    next == Cursor(End(tok), c0.row + NewlinesIn(buf, c0.pos, End(tok)), None)
  }

  /** The outcome of a call started at `c0` with no pending span; `OutcomeExact` shows it has exactly one solution. */
  ghost predicate OutcomeOk(buf: seq<char>, c0: Cursor, o: Outcome)
    requires c0.pos <= |buf|
  {
    match o
    case Emit(tok, next) => EmitOk(buf, c0, tok, next)
    case UnexpectedSigil(ch, row) =>
      exists s: nat, p: nat | c0.pos <= s < p < |buf| ::
        SpanThenSigil(buf, c0.pos, s, p, ch) && row == c0.row + NewlinesIn(buf, c0.pos, p)
    case EndOfInput => exists s: nat | c0.pos <= s <= |buf| :: PendingTail(buf, c0.pos, s)
  }

  /** Comment text from a `#` up to the position the comment loop stops at is skippable. */
  lemma {:induction false} CommentGap(buf: seq<char>, lo: nat, pos: nat, r: nat)
    requires lo <= pos <= r <= |buf|
    requires pos < r ==> buf[pos] == '#'
    requires forall i | pos <= i < r :: buf[i] != '\0' && buf[i] != '\n'
    ensures forall i | pos <= i < r :: InComment(buf, lo, i)
    decreases r - pos
  {
    if pos < r {
      CommentGap(buf, lo, pos, r - 1);
      assert InComment(buf, lo, r - 1) by {
        if pos < r - 1 {
          assert InComment(buf, lo, r - 2);
        }
      }
    }
  }

  /** A byte that opens a span, met outside comment text, ends the skippable run. */
  lemma OpensSpanEndsGap(buf: seq<char>, lo: nat, pos: nat)
    requires lo <= pos < |buf| && Gap(buf, lo, pos) && NotMidComment(buf, lo, pos)
    requires buf[pos] != '#' && !IsBlank(buf[pos])
    ensures GapEnd(buf, lo, pos)
  {
  }

  /** An iteration that continues keeps the invariant. */
  lemma StepKeepsInv(buf: seq<char>, c0: Cursor, c: Cursor, kind: TokenType)
    requires ScanInv(buf, c0, c, kind)
    ensures Step(buf, c, kind).Continue? ==>
      ScanInv(buf, c0, Step(buf, c, kind).cursor, Step(buf, c, kind).kind)
  {
    var ch := At(buf, c.pos);
    if IsDelimiter(ch) && c.start.Some? {
    } else if ch == '#' {
      var r := SkipComment(buf, c.pos);
      CommentGap(buf, c0.pos, c.pos, r);
      NoNewlines(buf, c.pos, r);
      NewlinesSplit(buf, c0.pos, c.pos, r);
      assert Gap(buf, c0.pos, r) by {
        forall i | c0.pos <= i < r
          ensures Skippable(buf, c0.pos, i)
        {
          if i >= c.pos {
            assert InComment(buf, c0.pos, i);
          }
        }
      }
    } else if IsPunct(ch) {
    } else if IsSigil(ch) {
      if c.start.None? {
        OpensSpanEndsGap(buf, c0.pos, c.pos);
      }
    } else if ch == '\n' || IsBlank(ch) {
      assert Skippable(buf, c0.pos, c.pos);
      assert !InComment(buf, c0.pos, c.pos);
    } else if c.pos == |buf| {
    } else if c.start.None? {
      OpensSpanEndsGap(buf, c0.pos, c.pos);
    } else {
    }
  }

  /** An iteration that returns produces an outcome satisfying `OutcomeOk`. */
  lemma StepReturnOk(buf: seq<char>, c0: Cursor, c: Cursor, kind: TokenType)
    requires ScanInv(buf, c0, c, kind)
    ensures Step(buf, c, kind).Return? ==> OutcomeOk(buf, c0, Step(buf, c, kind).outcome)
  {
    var ch := At(buf, c.pos);
    if IsDelimiter(ch) && c.start.Some? {
      var s := c.start.value;
      NoNewlines(buf, s, c.pos);
      NewlinesSplit(buf, c0.pos, s, c.pos);
      var tok := Token(kind, s, c.pos - s, c.row);
      assert IsSpanToken(buf, tok);
    } else if ch == '#' {
    } else if IsPunct(ch) {
      assert GapEnd(buf, c0.pos, c.pos);
    } else if IsSigil(ch) {
      if c.start.Some? {
        assert SpanThenSigil(buf, c0.pos, c.start.value, c.pos, ch);
      }
    } else if ch == '\n' || IsBlank(ch) {
    } else if c.pos == |buf| {
      match c.start
      case None => assert PendingTail(buf, c0.pos, c.pos);
      case Some(s) => assert PendingTail(buf, c0.pos, s);
    } else {
    }
  }

  /** The loop keeps its invariant to the end, so whatever it returns satisfies `OutcomeOk`. */
  lemma {:induction false} ScanOk(buf: seq<char>, c0: Cursor, c: Cursor, kind: TokenType)
    requires ScanInv(buf, c0, c, kind)
    ensures OutcomeOk(buf, c0, Scan(buf, c, kind))
    decreases |buf| - c.pos
  {
    match Step(buf, c, kind)
    case Return(o) =>
      StepReturnOk(buf, c0, c, kind);
    case Continue(c', kind') =>
      StepKeepsInv(buf, c0, c, kind);
      ScanOk(buf, c0, c', kind');
  }

  /** A call with no pending span satisfies `OutcomeOk`. */
  lemma LexTokenOk(buf: seq<char>, c: Cursor)
    requires Valid(buf, c) && c.start.None?
    ensures OutcomeOk(buf, c, LexToken(buf, c))
  {
    ScanOk(buf, c, c, NONE);
  }

  // ----- The outcome is determined -----

  /** Two positions that both end the skippable run from `lo` are the same. */
  lemma GapEndUnique(buf: seq<char>, lo: nat, s1: nat, s2: nat)
    requires GapEnd(buf, lo, s1) && GapEnd(buf, lo, s2)
    ensures s1 == s2
  {
  }

  /** A span may stop only at the end of the buffer, a delimiter or a sigil. */
  predicate StopsSpan(buf: seq<char>, e: nat)
  {
    e == |buf| || (e < |buf| && (IsDelimiter(buf[e]) || IsSigil(buf[e])))
  }

  /** A span opened at `s` stops at one place only. */
  lemma SpanStopUnique(buf: seq<char>, s: nat, e1: nat, e2: nat, k1: TokenType, k2: TokenType)
    requires IsSpan(buf, s, e1, k1) && IsSpan(buf, s, e2, k2)
    requires StopsSpan(buf, e1) && StopsSpan(buf, e2)
    ensures e1 == e2
  {
  }

  /** Where an outcome's text starts (`s`) and where the call stopped reading it (`e`). */
  lemma Anchor(buf: seq<char>, c0: Cursor, o: Outcome) returns (s: nat, e: nat)
    requires c0.pos <= |buf| && OutcomeOk(buf, c0, o)
    ensures GapEnd(buf, c0.pos, s) && s <= e <= |buf|
    ensures o.Emit? ==> s == o.token.start && e == End(o.token)
    ensures o.UnexpectedSigil? ==>
      SpanThenSigil(buf, c0.pos, s, e, o.ch) && o.row == c0.row + NewlinesIn(buf, c0.pos, e)
    ensures o.EndOfInput? ==> e == |buf| && PendingTail(buf, c0.pos, s)
  {
    match o
    case Emit(tok, next) =>
      s, e := tok.start, End(tok);
    case UnexpectedSigil(ch, row) =>
      s, e :| c0.pos <= s < e < |buf| &&
        SpanThenSigil(buf, c0.pos, s, e, ch) && row == c0.row + NewlinesIn(buf, c0.pos, e);
    case EndOfInput =>
      s :| c0.pos <= s <= |buf| && PendingTail(buf, c0.pos, s);
      e := |buf|;
  }

  /** `OutcomeOk` has at most one solution. */
  lemma OutcomeUnique(buf: seq<char>, c0: Cursor, o1: Outcome, o2: Outcome)
    requires c0.pos <= |buf| && OutcomeOk(buf, c0, o1) && OutcomeOk(buf, c0, o2)
    ensures o1 == o2
  {
    var s1, e1 := Anchor(buf, c0, o1);
    var s2, e2 := Anchor(buf, c0, o2);
    GapEndUnique(buf, c0.pos, s1, s2);
    if s1 < |buf| && !IsPunct(buf[s1]) {
      assert StopsSpan(buf, e1) && StopsSpan(buf, e2);
      assert IsSpan(buf, s1, e1, SpanKind(buf[s1])) && IsSpan(buf, s1, e2, SpanKind(buf[s1]));
      SpanStopUnique(buf, s1, e1, e2, SpanKind(buf[s1]), SpanKind(buf[s1]));
    }
  }

  /**
   * For a call with no pending span, `OutcomeOk` describes exactly what
   * `LexToken` returns: the call's result satisfies it, and nothing else does.
   */
  lemma OutcomeExact(buf: seq<char>, c: Cursor, o: Outcome)
    requires Valid(buf, c) && c.start.None?
    ensures OutcomeOk(buf, c, o) <==> o == LexToken(buf, c)
  {
    LexTokenOk(buf, c);
    if OutcomeOk(buf, c, o) {
      OutcomeUnique(buf, c, o, LexToken(buf, c));
    }
  }

  // ----- Single cases of the dispatch -----

  /** With no span pending, punctuation is returned at once as a one-byte token of its table kind. */
  lemma PunctuationToken(buf: seq<char>, c: Cursor)
    requires Valid(buf, c) && c.start.None? && IsPunct(At(buf, c.pos))
    ensures LexToken(buf, c) ==
      Emit(Token(KindOf(buf[c.pos]), c.pos, 1, c.row), Cursor(c.pos + 1, c.row, None))
    ensures KindOf(buf[c.pos]) in {PAL, PAR, COM, COL}
  {
  }

  /** With no span pending, a sigil opens the span of the returned token, whose kind is the sigil's and whose text starts with it. */
  lemma {:induction false} SigilOpensSpan(buf: seq<char>, c: Cursor)
    requires Valid(buf, c) && c.start.None? && IsSigil(At(buf, c.pos))
    ensures LexToken(buf, c).Emit? ==>
      var t := LexToken(buf, c).token;
      t.start == c.pos && IsSpanToken(buf, t) && t.kind == KindOf(buf[c.pos]) && t.kind in {DIR, REG, IMM}
  {
    LexTokenOk(buf, c);
    // the sigil is neither whitespace nor comment text, so the gap before the token is empty
    assert !Skippable(buf, c.pos, c.pos);
  }

  /**
   * A span the call opens and a sigil then meets make the whole call abort
   * with that sigil on the row the call started on, with no token returned.
   */
  lemma SigilInsideSpanAborts(buf: seq<char>, c: Cursor, p: nat)
    requires Valid(buf, c) && c.start.None? && c.pos < p < |buf|
    requires IsSpan(buf, c.pos, p, SpanKind(buf[c.pos])) && IsSigil(buf[p])
    ensures LexToken(buf, c) == UnexpectedSigil(buf[p], c.row)
  {
    NoNewlines(buf, c.pos, p);
    assert SpanThenSigil(buf, c.pos, c.pos, p, buf[p]);
    OutcomeExact(buf, c, UnexpectedSigil(buf[p], c.row));
  }

  /**
   * A span the call opens is returned at the first delimiter after it, with
   * the kind its first byte selects and the row the call started on; the
   * delimiter is left for the next call.
   */
  lemma SpanToken(buf: seq<char>, c: Cursor, e: nat)
    requires Valid(buf, c) && c.start.None? && c.pos < e < |buf|
    requires IsSpan(buf, c.pos, e, SpanKind(buf[c.pos])) && IsDelimiter(buf[e])
    ensures LexToken(buf, c) ==
      Emit(Token(SpanKind(buf[c.pos]), c.pos, e - c.pos, c.row), Cursor(e, c.row, None))
  {
    NoNewlines(buf, c.pos, e);
    var tok := Token(SpanKind(buf[c.pos]), c.pos, e - c.pos, c.row);
    assert IsSpanToken(buf, tok);
    OutcomeExact(buf, c, Emit(tok, Cursor(e, c.row, None)));
  }

  /** A span the call opens that runs to the end of the buffer is never finished: the call reaches `EndOfInput`. */
  lemma UnfinishedSpan(buf: seq<char>, c: Cursor)
    requires Valid(buf, c) && c.start.None? && c.pos < |buf|
    requires IsSpan(buf, c.pos, |buf|, SpanKind(buf[c.pos]))
    ensures LexToken(buf, c) == EndOfInput
  {
    assert PendingTail(buf, c.pos, c.pos);
    OutcomeExact(buf, c, EndOfInput);
  }

  /** With no span pending, a call at a space, tab or carriage return returns what a call one byte on returns, on the same row. */
  lemma BlankSkipped(buf: seq<char>, c: Cursor)
    requires Valid(buf, c) && c.start.None? && IsBlank(At(buf, c.pos)) && At(buf, c.pos) != '\n'
    ensures LexToken(buf, c) == LexToken(buf, Cursor(c.pos + 1, c.row, None))
  {
  }

  /**
   * With no span pending, a call at `#` returns what a call at the end of
   * the comment line returns: the comment emits nothing and keeps the row.
   */
  lemma CommentSkipsToLineEnd(buf: seq<char>, c: Cursor)
    requires Valid(buf, c) && c.start.None? && At(buf, c.pos) == '#'
    ensures c.pos < SkipComment(buf, c.pos)
    ensures LexToken(buf, c) == LexToken(buf, Cursor(SkipComment(buf, c.pos), c.row, None))
  {
  }

  /** With no span pending, a call at a newline returns what a call one byte on, one row down, returns. */
  lemma NewlineAddsRow(buf: seq<char>, c: Cursor)
    requires Valid(buf, c) && c.start.None? && At(buf, c.pos) == '\n'
    ensures LexToken(buf, c) == LexToken(buf, Cursor(c.pos + 1, c.row + 1, None))
  {
  }

  /**
   * The kind is a local of the call, so a span already pending when the call
   * starts is returned with kind NONE at the next delimiter.
   */
  lemma PendingOnEntryHasNoKind(buf: seq<char>, c: Cursor)
    requires Valid(buf, c) && c.start.Some? && IsDelimiter(At(buf, c.pos))
    ensures LexToken(buf, c) ==
      Emit(Token(NONE, c.start.value, c.pos - c.start.value, c.row), c.(start := None))
  {
  }

  /** A call with no pending span never returns a NONE token. */
  lemma {:induction false} FreshCallHasKind(buf: seq<char>, c: Cursor)
    requires Valid(buf, c) && c.start.None?
    ensures LexToken(buf, c).Emit? ==> LexToken(buf, c).token.kind !in {NONE, COUNT}
    ensures LexToken(buf, c).Emit? && IsSpanToken(buf, LexToken(buf, c).token) ==>
      (LexToken(buf, c).token.kind == IDN <==> !IsSigil(buf[LexToken(buf, c).token.start]))
  {
    LexTokenOk(buf, c);
    if LexToken(buf, c).Emit? {
      WellFormedText(buf, LexToken(buf, c).token);
    }
  }
}
