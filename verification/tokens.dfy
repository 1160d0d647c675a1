/**
 * Token kinds, token records and the byte classes the jas lexer switches on.
 * A buffer is a `seq<char>` whose characters stand for the bytes of the
 * source file; offsets into it replace the source's `const char*` pointers.
 */
module Tokens {

  /** The token kinds, in declaration order; COUNT is the enumeration's size. */
  datatype TokenType = IDN | DIR | REG | IMM | PAL | PAR | COM | COL | NONE | COUNT

  /** A token borrows `size` bytes of the buffer from offset `start`; `row` is the lexer's row when it was returned. */
  datatype Token = Token(kind: TokenType, start: nat, size: nat, row: nat)

  /** Offset just past the token's text. */
  function End(t: Token): nat
  {
    t.start + t.size
  }

  /** The text a token borrows from the buffer. */
  function Text(buf: seq<char>, t: Token): seq<char>
    requires End(t) <= |buf|
  {
    buf[t.start..End(t)]
  }

  /** The byte at `pos` of the NUL-terminated buffer: one past the last byte sits the terminator. */
  function At(buf: seq<char>, pos: nat): char
  {
    if pos < |buf| then buf[pos] else '\0'
  }

  /** Single-byte punctuation tokens. */
  predicate IsPunct(ch: char)
  {
    ch == ':' || ch == ',' || ch == '(' || ch == ')'
  }

  /** Bytes that open a directive, register or immediate span. */
  predicate IsSigil(ch: char)
  {
    ch == '.' || ch == '%' || ch == '$'
  }

  /** Whitespace: newline, space, carriage return and tab. */
  predicate IsBlank(ch: char)
  {
    ch == '\n' || ch == ' ' || ch == '\r' || ch == '\t'
  }

  /** Bytes that finish a pending span without being consumed by it. */
  predicate IsDelimiter(ch: char)
  {
    ch == '#' || IsPunct(ch) || IsBlank(ch)
  }

  type Byte = b: int | 0 <= b < 256

  /** The `(u8)` cast the table lookup applies to a character. */
  function U8(ch: char): Byte
  {
    (ch as int) % 256
  }

  /**
   * The byte-indexed kind table. Its initialiser `{ TOKEN_TYPE_COUNT }` sets
   * entry 0 to COUNT and zero-fills every other entry, and zero is IDN; seven
   * entries are then overwritten.
   */
  function TypesTable(b: Byte): (t: TokenType)
    ensures t != NONE
    ensures t == COUNT <==> b == 0
    ensures t in {PAL, PAR, COM, COL} <==> b in {'(' as int, ')' as int, ',' as int, ':' as int}
    ensures t in {DIR, REG, IMM} <==> b in {'.' as int, '%' as int, '$' as int}
  {
    if b == ':' as int then COL
    else if b == ',' as int then COM
    else if b == '(' as int then PAL
    else if b == ')' as int then PAR
    else if b == '.' as int then DIR
    else if b == '%' as int then REG
    else if b == '$' as int then IMM
    else if b == 0 then COUNT
    else IDN
  }

  /** `types[(u8)ch]`: punctuation and sigils get their own kinds, and the lookup never yields NONE. */
  function KindOf(ch: char): (t: TokenType)
    ensures t != NONE
    ensures IsPunct(ch) ==> t in {PAL, PAR, COM, COL}
    ensures IsSigil(ch) ==> t in {DIR, REG, IMM}
    ensures ch == '\0' ==> t == COUNT
  {
    TypesTable(U8(ch))
  }

  /** The kind a span gets from its first byte: the sigil's entry, or IDN for any other byte. */
  function SpanKind(first: char): TokenType
  {
    if IsSigil(first) then KindOf(first) else IDN
  }

  /** Number of newline bytes in `buf[i..j]`. */
  function NewlinesIn(buf: seq<char>, i: nat, j: nat): nat
    requires i <= j <= |buf|
    decreases j - i
  {
    if i == j then 0 else NewlinesIn(buf, i, j - 1) + (if buf[j - 1] == '\n' then 1 else 0)
  }

  /**
   * `buf[s..e]` is a lexer span of the given kind: it is non-empty, holds no
   * delimiter, its kind is determined by its first byte, and no sigil follows
   * that first byte.
   */
  predicate IsSpan(buf: seq<char>, s: nat, e: nat, kind: TokenType)
  {
    s < e <= |buf| && !IsDelimiter(buf[s]) && kind == SpanKind(buf[s]) &&
    forall i | s < i < e :: !IsDelimiter(buf[i]) && !IsSigil(buf[i])
  }

  /** A one-byte punctuation token whose kind is the table's entry for that byte. */
  predicate IsPunctToken(buf: seq<char>, t: Token)
  {
    t.size == 1 && t.start < |buf| && IsPunct(buf[t.start]) && t.kind == KindOf(buf[t.start])
  }

  /** A span token, finished by the delimiter byte that follows it in the buffer. */
  predicate IsSpanToken(buf: seq<char>, t: Token)
  {
    IsSpan(buf, t.start, End(t), t.kind) && End(t) < |buf| && IsDelimiter(buf[End(t)])
  }

  /** The shapes of token the lexer can return. */
  predicate WellFormed(buf: seq<char>, t: Token)
  {
    IsPunctToken(buf, t) || IsSpanToken(buf, t)
  }

  /** Rows add up over adjacent ranges. */
  lemma {:induction false} NewlinesSplit(buf: seq<char>, i: nat, j: nat, k: nat)
    requires i <= j <= k <= |buf|
    ensures NewlinesIn(buf, i, k) == NewlinesIn(buf, i, j) + NewlinesIn(buf, j, k)
    decreases k - j
  {
    if j < k {
      NewlinesSplit(buf, i, j, k - 1);
    }
  }

  /** A range without newline bytes adds no row. */
  lemma {:induction false} NoNewlines(buf: seq<char>, i: nat, j: nat)
    requires i <= j <= |buf|
    requires forall p | i <= p < j :: buf[p] != '\n'
    ensures NewlinesIn(buf, i, j) == 0
    decreases j - i
  {
    if i < j {
      NoNewlines(buf, i, j - 1);
    }
  }

  /** A well-formed token never has kind NONE or COUNT, and its text has no line break and no `#`; a span's text has no delimiter at all. */
  lemma WellFormedText(buf: seq<char>, t: Token)
    requires WellFormed(buf, t)
    ensures t.kind != NONE && t.kind != COUNT
    ensures End(t) <= |buf| && t.size >= 1
    ensures forall i | t.start <= i < End(t) :: buf[i] != '\n' && buf[i] != '#'
    ensures IsSpanToken(buf, t) ==> forall i | t.start <= i < End(t) :: !IsDelimiter(buf[i])
    ensures NewlinesIn(buf, t.start, End(t)) == 0
    ensures |Text(buf, t)| == t.size && '\n' !in Text(buf, t) && '#' !in Text(buf, t)
    ensures IsSpanToken(buf, t) ==> forall i | 0 <= i < |Text(buf, t)| :: !IsDelimiter(Text(buf, t)[i])
  {
    NoNewlines(buf, t.start, End(t));
  }
}
