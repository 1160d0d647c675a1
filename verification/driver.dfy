/**
 * The token-collecting loop of `main` in jas/jasvm.cpp: starting at row 0
 * with no pending span, call the lexer while the cursor is not on a NUL byte.
 */
module Driver {
  import opened Optional
  import opened Tokens
  import opened Lexer

  /** How a run ends: on a NUL byte (the terminator or an embedded one), past the end of the buffer (where the source reads out of bounds), or on an aborting sigil. */
  datatype Stop = Terminator | PastEnd | Aborted(ch: char, row: nat)

  /** The tokens collected, in order, and how the run ended. */
  datatype Run = Run(tokens: seq<Token>, stop: Stop)

  /** The lexer as `main` initialises it: it meets the loop's invariant for every buffer. */
  function Initial(): (c: Cursor)
    ensures forall buf: seq<char> :: CollectInv(buf, c, [])
  {
    Cursor(0, 0, None)
  }

  /** The driver loop from cursor `c`, with `acc` already collected. */
  function Collect(buf: seq<char>, c: Cursor, acc: seq<Token>): (r: Run)
    requires Valid(buf, c) && c.start.None?
    ensures acc <= r.tokens
    ensures |r.tokens| - |acc| <= |buf| - c.pos
    decreases |buf| - c.pos
  {
    if At(buf, c.pos) == '\0' then Run(acc, Terminator)
    else
      match LexToken(buf, c)
      case Emit(tok, next) => Collect(buf, next, acc + [tok])
      case UnexpectedSigil(ch, row) => Run(acc, Aborted(ch, row))
      case EndOfInput => Run(acc, PastEnd)
  }

  /** All tokens of a buffer; `RunExact` shows `RunOk` admits no other run. */
  function Tokenize(buf: seq<char>): (r: Run)
    ensures RunOk(buf, r)
  {
    CollectOk(buf, Initial(), []);
    Collect(buf, Initial(), [])
  }

  /** The loop of `main`, collecting into a growing sequence. */
  method CollectTokens(buf: seq<char>) returns (tokens: seq<Token>, stop: Stop)
    ensures Run(tokens, stop) == Tokenize(buf)
    ensures RunOk(buf, Run(tokens, stop))
  {
    var lex := Initial();
    tokens := [];
    while At(buf, lex.pos) != '\0'
      invariant Valid(buf, lex) && lex.start.None?
      invariant Collect(buf, lex, tokens) == Tokenize(buf)
      decreases |buf| - lex.pos
    {
      match LexToken(buf, lex)
      case Emit(tok, next) =>
        tokens := tokens + [tok];
        lex := next;
      case UnexpectedSigil(ch, row) =>
        stop := Aborted(ch, row);
        return;
      case EndOfInput =>
        stop := PastEnd;
        return;
    }
    stop := Terminator;
  }

  // ----- Properties of a whole run -----

  /** Where token `k`'s predecessor ends (0 for the first token). */
  function PrevEnd(toks: seq<Token>, k: nat): nat
    requires k <= |toks|
  {
    if k == 0 then 0 else End(toks[k - 1])
  }

  /**
   * Token `k` is what a call at its predecessor's end returns: the driver
   * did not stop there, the token is well formed, it starts where the
   * skippable run from there ends, and its row is the number of newlines
   * before its first byte.
   */
  ghost predicate TokenOk(buf: seq<char>, toks: seq<Token>, k: nat)
    requires k < |toks|
  {
    PrevEnd(toks, k) <= |buf| && At(buf, PrevEnd(toks, k)) != '\0' &&
    WellFormed(buf, toks[k]) && GapEnd(buf, PrevEnd(toks, k), toks[k].start) &&
    toks[k].row == NewlinesIn(buf, 0, toks[k].start)
  }

  ghost predicate TokensOk(buf: seq<char>, toks: seq<Token>)
  {
    forall k | 0 <= k < |toks| :: TokenOk(buf, toks, k)
  }

  /**
   * What a run from row 0 satisfies: every token is `TokenOk`, and the stop
   * is what the bytes after the last token dictate. The run stops on a NUL
   * byte there; otherwise it aborts on a sigil interrupting the next span,
   * or runs past the end when only whitespace, comment text and at most one
   * unfinished span remain.
   */
  ghost predicate RunOk(buf: seq<char>, r: Run)
  {
    TokensOk(buf, r.tokens) && PrevEnd(r.tokens, |r.tokens|) <= |buf| &&
    var lo := PrevEnd(r.tokens, |r.tokens|);
    match r.stop
    case Terminator => At(buf, lo) == '\0'
    case PastEnd => At(buf, lo) != '\0' && exists s: nat | lo <= s <= |buf| :: PendingTail(buf, lo, s)
    case Aborted(ch, row) =>
      At(buf, lo) != '\0' &&
      exists s: nat, p: nat | lo <= s < p < |buf| :: SpanThenSigil(buf, lo, s, p, ch) && row == NewlinesIn(buf, 0, p)
  }

  /** The state of the driver loop: the cursor sits at the end of the last token on the row it has counted. */
  ghost predicate CollectInv(buf: seq<char>, c: Cursor, acc: seq<Token>)
  {
    Valid(buf, c) && c.start.None? && c.pos == PrevEnd(acc, |acc|) &&
    c.row == NewlinesIn(buf, 0, c.pos) && TokensOk(buf, acc)
  }

  /** One token the loop appends, past its `*lex.current` test, keeps `CollectInv`. */
  lemma EmitKeepsInv(buf: seq<char>, c: Cursor, acc: seq<Token>)
    requires CollectInv(buf, c, acc) && At(buf, c.pos) != '\0' && LexToken(buf, c).Emit?
    ensures CollectInv(buf, LexToken(buf, c).next, acc + [LexToken(buf, c).token])
  {
    LexTokenOk(buf, c);
    var tok, next := LexToken(buf, c).token, LexToken(buf, c).next;
    var acc' := acc + [tok];
    NewlinesSplit(buf, 0, c.pos, tok.start);
    NewlinesSplit(buf, 0, c.pos, next.pos);
    assert TokenOk(buf, acc', |acc|);
    forall k | 0 <= k < |acc'|
      ensures TokenOk(buf, acc', k)
    {
      if k < |acc| {
        assert acc'[k] == acc[k];
        assert PrevEnd(acc', k) == PrevEnd(acc, k);
        assert TokenOk(buf, acc, k);
      }
    }
  }

  /** The loop keeps `CollectInv`, so the run it builds satisfies `RunOk`. */
  lemma {:induction false} CollectOk(buf: seq<char>, c: Cursor, acc: seq<Token>)
    requires CollectInv(buf, c, acc)
    ensures RunOk(buf, Collect(buf, c, acc))
    decreases |buf| - c.pos
  {
    if At(buf, c.pos) != '\0' {
      LexTokenOk(buf, c);
      match LexToken(buf, c)
      case Emit(tok, next) =>
        EmitKeepsInv(buf, c, acc);
        CollectOk(buf, next, acc + [tok]);
      case UnexpectedSigil(ch, row) =>
        var s: nat, p: nat :| c.pos <= s < p < |buf| &&
          SpanThenSigil(buf, c.pos, s, p, ch) && row == c.row + NewlinesIn(buf, c.pos, p);
        NewlinesSplit(buf, 0, c.pos, p);
      case EndOfInput =>
    }
  }

  /** A token satisfying `TokenOk` is exactly what a call at its predecessor's end returns. */
  lemma TokenIsNextCall(buf: seq<char>, toks: seq<Token>, k: nat)
    requires k < |toks| && TokenOk(buf, toks, k)
    ensures LexToken(buf, Cursor(PrevEnd(toks, k), NewlinesIn(buf, 0, PrevEnd(toks, k)), None)) ==
      Emit(toks[k], Cursor(End(toks[k]), NewlinesIn(buf, 0, End(toks[k])), None))
  {
    var pe := PrevEnd(toks, k);
    var c := Cursor(pe, NewlinesIn(buf, 0, pe), None);
    var tok := toks[k];
    NewlinesSplit(buf, 0, pe, tok.start);
    NewlinesSplit(buf, 0, pe, End(tok));
    assert EmitOk(buf, c, tok, Cursor(End(tok), NewlinesIn(buf, 0, End(tok)), None));
    OutcomeExact(buf, c, Emit(tok, Cursor(End(tok), NewlinesIn(buf, 0, End(tok)), None)));
  }

  /** After the last token of a run satisfying `RunOk`, the driver stops as the run says. */
  lemma StopIsLastCall(buf: seq<char>, r: Run)
    requires RunOk(buf, r)
    ensures var lo := PrevEnd(r.tokens, |r.tokens|);
      Collect(buf, Cursor(lo, NewlinesIn(buf, 0, lo), None), r.tokens) == r
  {
    var lo := PrevEnd(r.tokens, |r.tokens|);
    var c := Cursor(lo, NewlinesIn(buf, 0, lo), None);
    match r.stop
    case Terminator =>
    case PastEnd =>
      OutcomeExact(buf, c, EndOfInput);
    case Aborted(ch, row) =>
      var s: nat, p: nat :| lo <= s < p < |buf| && SpanThenSigil(buf, lo, s, p, ch) && row == NewlinesIn(buf, 0, p);
      NewlinesSplit(buf, 0, lo, p);
      OutcomeExact(buf, c, UnexpectedSigil(ch, row));
  }

  /** Past the loop's test, a call that returns a token lets the loop go on from the next cursor with that token appended. */
  lemma CollectEmit(buf: seq<char>, c: Cursor, acc: seq<Token>, tok: Token, next: Cursor)
    requires Valid(buf, c) && c.start.None? && At(buf, c.pos) != '\0'
    requires LexToken(buf, c) == Emit(tok, next)
    ensures Collect(buf, c, acc) == Collect(buf, next, acc + [tok])
  {
  }

  /**
   * The loop, started at the end of token `k - 1`, returns token `k` and
   * goes on from its end: a token satisfying `TokenOk` is what one more
   * iteration appends.
   */
  lemma TokenIsNextIteration(buf: seq<char>, toks: seq<Token>, k: nat)
    requires k < |toks| && TokenOk(buf, toks, k)
    ensures End(toks[k]) <= |buf|
    ensures Collect(buf, Cursor(PrevEnd(toks, k), NewlinesIn(buf, 0, PrevEnd(toks, k)), None), toks[..k]) ==
      Collect(buf, Cursor(End(toks[k]), NewlinesIn(buf, 0, End(toks[k])), None), toks[..k + 1])
  {
    var pe, e := PrevEnd(toks, k), End(toks[k]);
    var c, next := Cursor(pe, NewlinesIn(buf, 0, pe), None), Cursor(e, NewlinesIn(buf, 0, e), None);
    TokenIsNextCall(buf, toks, k);
    CollectEmit(buf, c, toks[..k], toks[k], next);
    PrefixGrows(toks, k);
  }

  /** The first `k + 1` tokens are the first `k` with token `k` appended. */
  lemma PrefixGrows(toks: seq<Token>, k: nat)
    requires k < |toks|
    ensures toks[..k] + [toks[k]] == toks[..k + 1]
  {
  }

  /**
   * When the loop, started after the last of `toks`, ends with run `r`, then
   * started after token `k - 1` with the tokens before it, it ends with `r`
   * too: every later token is what the next iteration appends.
   */
  lemma {:induction false} TokensFollowDriver(buf: seq<char>, toks: seq<Token>, k: nat, r: Run)
    requires TokensOk(buf, toks) && k <= |toks| && PrevEnd(toks, |toks|) <= |buf|
    requires Collect(buf, Cursor(PrevEnd(toks, |toks|), NewlinesIn(buf, 0, PrevEnd(toks, |toks|)), None), toks) == r
    ensures PrevEnd(toks, k) <= |buf|
    ensures Collect(buf, Cursor(PrevEnd(toks, k), NewlinesIn(buf, 0, PrevEnd(toks, k)), None), toks[..k]) == r
    decreases |toks| - k
  {
    if k == |toks| {
      assert toks[..k] == toks;
    } else {
      assert TokenOk(buf, toks, k);
      TokenIsNextIteration(buf, toks, k);
      TokensFollowDriver(buf, toks, k + 1, r);
    }
  }

  /** `RunOk` describes exactly the run of the driver: `Tokenize` satisfies it, and no other run does. */
  lemma RunExact(buf: seq<char>, r: Run)
    ensures RunOk(buf, r) <==> r == Tokenize(buf)
  {
    if RunOk(buf, r) {
      StopIsLastCall(buf, r);
      TokensFollowDriver(buf, r.tokens, 0, r);
    }
  }

  /** Tokens come in buffer order without overlapping, and their rows never decrease. */
  lemma {:induction false} TokensInOrder(buf: seq<char>, toks: seq<Token>, i: nat, j: nat)
    requires TokensOk(buf, toks)
    requires i < j < |toks|
    ensures End(toks[i]) <= toks[j].start
    ensures toks[i].row <= toks[j].row
    decreases j - i
  {
    assert TokenOk(buf, toks, i);
    assert TokenOk(buf, toks, j);
    if i + 1 < j {
      TokensInOrder(buf, toks, i, j - 1);
      assert TokenOk(buf, toks, j - 1);
    }
    NewlinesSplit(buf, 0, toks[i].start, toks[j].start);
  }

  /**
   * A run that stops on the terminator of a buffer without NUL bytes ended
   * on a punctuation token: the buffer is empty or its last byte is `:`,
   * `,`, `(` or `)`. Any other input, a file ending in a newline among
   * them, never stops cleanly: it aborts or runs past the end.
   */
  lemma CompleteRunEndsWithPunctuation(buf: seq<char>)
    requires forall i | 0 <= i < |buf| :: buf[i] != '\0'
    requires Tokenize(buf).stop == Terminator
    ensures |buf| == 0 || IsPunct(buf[|buf| - 1])
    ensures |Tokenize(buf).tokens| > 0 ==> IsPunctToken(buf, Tokenize(buf).tokens[|Tokenize(buf).tokens| - 1])
  {
    var toks := Tokenize(buf).tokens;
    if |toks| > 0 {
      assert TokenOk(buf, toks, |toks| - 1);
    }
  }

  /**
   * Non-empty input made only of whitespace and comments yields no token and
   * reaches the point where the source reads past the end of the buffer.
   */
  lemma BlankOrCommentInputRunsPastEnd(buf: seq<char>)
    requires |buf| > 0
    requires Gap(buf, 0, |buf|)
    ensures Tokenize(buf) == Run([], PastEnd)
  {
    assert Skippable(buf, 0, 0);
    assert PendingTail(buf, 0, |buf|);
    OutcomeExact(buf, Initial(), EndOfInput);
  }
}
