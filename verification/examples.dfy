/** Concrete runs of the driver over short inputs. */
module Examples {
  import opened Optional
  import opened Tokens
  import opened Lexer
  import opened Driver

  /** Identifiers, punctuation and parentheses, ending on `)` so the run completes. */
  lemma MnemonicWithOperands()
    ensures Tokenize("mov, (rax)") == Run([
      Token(IDN, 0, 3, 0), Token(COM, 3, 1, 0), Token(PAL, 5, 1, 0),
      Token(IDN, 6, 3, 0), Token(PAR, 9, 1, 0)], Terminator)
  {
    var buf := "mov, (rax)";
    MnemonicFirstCalls();
    MnemonicParenCall();
    MnemonicLastCalls();
    var toks := [Token(IDN, 0, 3, 0), Token(COM, 3, 1, 0), Token(PAL, 5, 1, 0),
                 Token(IDN, 6, 3, 0), Token(PAR, 9, 1, 0)];
    assert Collect(buf, Cursor(10, 0, None), toks) == Run(toks, Terminator);
    assert Collect(buf, Cursor(9, 0, None), toks[..4]) == Run(toks, Terminator);
    assert Collect(buf, Cursor(6, 0, None), toks[..3]) == Run(toks, Terminator);
    assert Collect(buf, Cursor(4, 0, None), toks[..2]) == Run(toks, Terminator);
    assert Collect(buf, Cursor(3, 0, None), toks[..1]) == Run(toks, Terminator);
  }

  /** The two calls of `MnemonicWithOperands` that return `mov` and the comma ending it. */
  lemma MnemonicFirstCalls()
    ensures LexToken("mov, (rax)", Cursor(0, 0, None)) == Emit(Token(IDN, 0, 3, 0), Cursor(3, 0, None))
    ensures LexToken("mov, (rax)", Cursor(3, 0, None)) == Emit(Token(COM, 3, 1, 0), Cursor(4, 0, None))
  {
    SpanToken("mov, (rax)", Cursor(0, 0, None), 3);
    PunctuationToken("mov, (rax)", Cursor(3, 0, None));
  }

  /** The call of `MnemonicWithOperands` that skips the blank and returns `(`. */
  lemma MnemonicParenCall()
    ensures LexToken("mov, (rax)", Cursor(4, 0, None)) == Emit(Token(PAL, 5, 1, 0), Cursor(6, 0, None))
  {
    BlankSkipped("mov, (rax)", Cursor(4, 0, None));
    PunctuationToken("mov, (rax)", Cursor(5, 0, None));
  }

  /** The two calls of `MnemonicWithOperands` that return `rax` and the `)` ending it. */
  lemma MnemonicLastCalls()
    ensures LexToken("mov, (rax)", Cursor(6, 0, None)) == Emit(Token(IDN, 6, 3, 0), Cursor(9, 0, None))
    ensures LexToken("mov, (rax)", Cursor(9, 0, None)) == Emit(Token(PAR, 9, 1, 0), Cursor(10, 0, None))
  {
    SpanToken("mov, (rax)", Cursor(6, 0, None), 9);
    PunctuationToken("mov, (rax)", Cursor(9, 0, None));
  }

  /** A sigil inside an identifier aborts with that sigil on row 0. */
  lemma SigilInsideIdentifier()
    ensures Tokenize("ab.c") == Run([], Aborted('.', 0))
  {
    SigilInsideSpanAborts("ab.c", Cursor(0, 0, None), 2);
  }

  /** Rows start at 0; the unfinished `b` at the end is dropped when the run reaches the terminator. */
  lemma TrailingSpanRunsPastEnd()
    ensures Tokenize("a\nb") == Run([Token(IDN, 0, 1, 0)], PastEnd)
  {
    var buf := "a\nb";
    SpanToken(buf, Cursor(0, 0, None), 1);
    NewlineAddsRow(buf, Cursor(1, 0, None));
    UnfinishedSpan(buf, Cursor(2, 1, None));
    assert Collect(buf, Cursor(1, 0, None), [Token(IDN, 0, 1, 0)]) == Run([Token(IDN, 0, 1, 0)], PastEnd);
  }

  /** An identifier alone yields no token: its span is never finished. */
  lemma LoneIdentifierRunsPastEnd()
    ensures Tokenize("mov") == Run([], PastEnd)
  {
    UnfinishedSpan("mov", Cursor(0, 0, None));
  }

  /** A file ending in a newline can also stop on an abort rather than past the end. */
  lemma NewlineEndedFileAborts()
    ensures Tokenize("a.b\n") == Run([], Aborted('.', 0))
  {
    SigilInsideSpanAborts("a.b\n", Cursor(0, 0, None), 1);
  }

  /** With no span left unfinished, a trailing comment and newline still run past the end. */
  lemma TrailingCommentRunsPastEnd()
    ensures Tokenize("a #c\n") == Run([Token(IDN, 0, 1, 0)], PastEnd)
  {
    var buf := "a #c\n";
    SpanToken(buf, Cursor(0, 0, None), 1);
    TrailingCommentCall();
    assert Collect(buf, Cursor(1, 0, None), [Token(IDN, 0, 1, 0)]) == Run([Token(IDN, 0, 1, 0)], PastEnd);
  }

  /** The second call of `TrailingCommentRunsPastEnd`: blank, comment and newline are skipped, and the terminator is reached. */
  lemma TrailingCommentCall()
    ensures LexToken("a #c\n", Cursor(1, 0, None)) == EndOfInput
  {
    var buf := "a #c\n";
    BlankSkipped(buf, Cursor(1, 0, None));
    CommentSkipsToLineEnd(buf, Cursor(2, 0, None));
    assert SkipComment(buf, 2) == 4;
    NewlineAddsRow(buf, Cursor(4, 0, None));
    assert LexToken(buf, Cursor(5, 1, None)) == EndOfInput;
  }

  /** `#` finishes a pending span, and the comment text is skipped. */
  lemma CommentFinishesSpan()
    ensures Tokenize("%r1#x\n,") == Run([Token(REG, 0, 3, 0), Token(COM, 6, 1, 1)], Terminator)
  {
    var buf := "%r1#x\n,";
    CommentSpanCall();
    CommentCommaCall();
    var toks := [Token(REG, 0, 3, 0), Token(COM, 6, 1, 1)];
    assert Collect(buf, Cursor(7, 1, None), toks) == Run(toks, Terminator);
    assert Collect(buf, Cursor(3, 0, None), toks[..1]) == Run(toks, Terminator);
  }

  /** The first call of `CommentFinishesSpan`: the REG span up to `#`. */
  lemma CommentSpanCall()
    ensures LexToken("%r1#x\n,", Cursor(0, 0, None)) == Emit(Token(REG, 0, 3, 0), Cursor(3, 0, None))
  {
    SpanToken("%r1#x\n,", Cursor(0, 0, None), 3);
  }

  /** The second call of `CommentFinishesSpan`: the comment and the newline are skipped, then the comma is returned on row 1. */
  lemma CommentCommaCall()
    ensures LexToken("%r1#x\n,", Cursor(3, 0, None)) == Emit(Token(COM, 6, 1, 1), Cursor(7, 1, None))
  {
    var buf := "%r1#x\n,";
    CommentSkipsToLineEnd(buf, Cursor(3, 0, None));
    assert SkipComment(buf, 3) == 5;
    NewlineAddsRow(buf, Cursor(5, 0, None));
    PunctuationToken(buf, Cursor(6, 1, None));
  }

  /** A double quote is an ordinary identifier byte. */
  lemma QuoteIsIdentifierByte()
    ensures Tokenize("\"hi\":") == Run([Token(IDN, 0, 4, 0), Token(COL, 4, 1, 0)], Terminator)
  {
    var buf := "\"hi\":";
    QuoteCalls();
    var toks := [Token(IDN, 0, 4, 0), Token(COL, 4, 1, 0)];
    assert Collect(buf, Cursor(5, 0, None), toks) == Run(toks, Terminator);
    assert Collect(buf, Cursor(4, 0, None), toks[..1]) == Run(toks, Terminator);
  }

  /** The two lexer calls of `QuoteIsIdentifierByte`: the quoted span up to the colon, then the colon. */
  lemma QuoteCalls()
    ensures LexToken("\"hi\":", Cursor(0, 0, None)) == Emit(Token(IDN, 0, 4, 0), Cursor(4, 0, None))
    ensures LexToken("\"hi\":", Cursor(4, 0, None)) == Emit(Token(COL, 4, 1, 0), Cursor(5, 0, None))
  {
    SpanToken("\"hi\":", Cursor(0, 0, None), 4);
    PunctuationToken("\"hi\":", Cursor(4, 0, None));
  }
}
