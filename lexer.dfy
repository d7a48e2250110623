/**
 * The hand-written single-pass lexer: whitespace skipping, overflow-checked
 * decimal literals, single-character operators, and a stream with a
 * one-token look-ahead cache.
 */
module Lexer {

  /** LONG_MAX on the LP64 platforms the source targets. */
  const LongMax: nat := 0x7FFF_FFFF_FFFF_FFFF

  datatype TokenType =
    | TokNumber
    | TokPlus
    | TokMinus
    | TokMul
    | TokDiv
    | TokLParen
    | TokRParen
    | TokEof
    | TokInvalid

  /**
   * A C `char` of the source text: the lexer reads it byte by byte, so each
   * element is one byte value (0 .. 255), and a multi-byte encoding of one
   * character is that many elements.
   */
  type CChar = c: char | c as int < 256 witness 'a'

  /** A token: its type, its value (meaningful for TokNumber) and its start offset in the source. */
  datatype Token = Token(kind: TokenType, value: int, pos: nat)

  /** isspace in the C locale: space, \t, \n, \v, \f and \r. */
  predicate IsSpace(c: char)
  {
    c == ' ' || ('\t' <= c <= '\r')
  }

  /** isdigit */
  predicate IsDigit(c: char)
  {
    '0' <= c <= '9'
  }

  function DigitValue(c: char): nat
    requires IsDigit(c)
  {
    c as int - '0' as int
  }

  /** Whether src[lo..hi] is all digits. */
  predicate DigitRun(src: seq<CChar>, lo: nat, hi: nat)
    requires lo <= hi <= |src|
  {
    forall k :: lo <= k < hi ==> IsDigit(src[k])
  }

  /** The number the digits src[lo..hi] spell, most significant digit first. */
  function RunValue(src: seq<CChar>, lo: nat, hi: nat): nat
    requires lo <= hi <= |src| && DigitRun(src, lo, hi)
    decreases hi
  {
    if hi == lo then 0 else RunValue(src, lo, hi - 1) * 10 + DigitValue(src[hi - 1])
  }

  /** strlen: the offset of the first NUL, or the whole string when it has none. */
  function StrLen(s: seq<CChar>): (n: nat)
    ensures n <= |s|
    ensures forall k :: 0 <= k < n ==> s[k] != '\0'
    ensures n < |s| ==> s[n] == '\0'
  {
    if |s| == 0 || s[0] == '\0' then 0 else 1 + StrLen(s[1..])
  }

  /** Where the run of whitespace starting at pos ends. */
  function SpaceEnd(src: seq<CChar>, len: nat, pos: nat): (p: nat)
    requires pos <= len <= |src|
    ensures pos <= p <= len
    ensures forall k :: pos <= k < p ==> IsSpace(src[k])
    ensures p == len || !IsSpace(src[p])
    decreases len - pos
  {
    if pos < len && IsSpace(src[pos]) then SpaceEnd(src, len, pos + 1) else pos
  }

  /** Where the run of digits starting at pos ends. */
  function DigitEnd(src: seq<CChar>, len: nat, pos: nat): (p: nat)
    requires pos <= len <= |src|
    ensures pos <= p <= len
    ensures DigitRun(src, pos, p)
    ensures p == len || !IsDigit(src[p])
    decreases len - pos
  {
    if pos < len && IsDigit(src[pos]) then DigitEnd(src, len, pos + 1) else pos
  }

  /** The token a single non-digit character stands for. */
  function Punctuation(c: char): TokenType
  {
    match c
    case '+' => TokPlus
    case '-' => TokMinus
    case '*' => TokMul
    case '/' => TokDiv
    case '(' => TokLParen
    case ')' => TokRParen
    case _ => TokInvalid
  }

  /**
   * What lexer_next scans from pos when nothing is cached: the token and
   * the position after it. Every token but EOF consumes at least one
   * character, and none reaches past len.
   */
  function Scan(src: seq<CChar>, len: nat, pos: nat): (r: (Token, nat))
    requires pos <= len <= |src|
    ensures pos <= r.0.pos <= r.1 <= len
    ensures r.0.kind != TokEof ==> r.0.pos < r.1
  {
    var start := SpaceEnd(src, len, pos);
    if start >= len then (Token(TokEof, 0, start), start)
    else if IsDigit(src[start]) then
      var end := DigitEnd(src, len, start);
      var v := RunValue(src, start, end);
      if v <= LongMax then (Token(TokNumber, v, start), end) else (Token(TokInvalid, 0, start), end)
    else (Token(Punctuation(src[start]), 0, start), start + 1)
  }

  /**
   * The token classes of lexer_next, stated on the characters: EOF exactly
   * when only whitespace is left; a number is a maximal run of digits whose
   * value fits a long; a run whose value does not fit is one INVALID token
   * that still consumes every digit; any other character is one token of
   * one character, INVALID unless it is an operator or a parenthesis.
   */
  lemma ScanClassifies(src: seq<CChar>, len: nat, pos: nat)
    requires pos <= len <= |src|
    ensures var (t, p) := Scan(src, len, pos);
            (forall k :: pos <= k < t.pos ==> IsSpace(src[k])) &&
            (t.kind == TokEof <==> forall k :: pos <= k < len ==> IsSpace(src[k])) &&
            (t.kind == TokEof ==> t.pos == p == len)
    ensures var (t, p) := Scan(src, len, pos);
            t.kind != TokEof && IsDigit(src[t.pos]) ==>
              DigitRun(src, t.pos, p) && (p == len || !IsDigit(src[p])) &&
              (RunValue(src, t.pos, p) <= LongMax ==> t == Token(TokNumber, RunValue(src, t.pos, p), t.pos)) &&
              (RunValue(src, t.pos, p) > LongMax ==> t == Token(TokInvalid, 0, t.pos))
    ensures var (t, p) := Scan(src, len, pos);
            t.kind != TokEof && !IsDigit(src[t.pos]) ==>
              p == t.pos + 1 && t == Token(Punctuation(src[t.pos]), 0, t.pos)
  {
    var (t, p) := Scan(src, len, pos);
    if t.kind != TokEof {
      assert !IsSpace(src[t.pos]);
    }
  }

  /** Whitespace before a token is skipped: scanning from inside it gives the same token. */
  lemma ScanSkipsSpace(src: seq<CChar>, len: nat, pos: nat)
    requires pos < len <= |src| && IsSpace(src[pos])
    ensures Scan(src, len, pos) == Scan(src, len, pos + 1)
  {
  }

  /**
   * Bytes outside ASCII are scanned one at a time: the two-byte UTF-8
   * encoding of 'é' (0xC3 0xA9) is two INVALID tokens, at offsets 0 and 1,
   * then EOF at 2.
   */
  lemma MultiByteCharacter()
    ensures var src: seq<CChar> := [0xC3 as char, 0xA9 as char];
            Tokens(src, |src|, 0) == [Token(TokInvalid, 0, 0), Token(TokInvalid, 0, 1), Token(TokEof, 0, 2)]
  {
    var src: seq<CChar> := [0xC3 as char, 0xA9 as char];
    TokensStep(src, 2, 0);
    TokensStep(src, 2, 1);
    TokensStep(src, 2, 2);
  }

  /** The decimal numeral of n, most significant digit first, without leading zeros. */
  function Decimal(n: nat): (s: seq<CChar>)
    ensures |s| >= 1 && DigitRun(s, 0, |s|)
  {
    var d := ((n % 10) + '0' as int) as char;
    if n < 10 then [d] else Decimal(n / 10) + [d]
  }

  /** The value of a run depends only on the characters in it. */
  lemma {:induction false} RunValueFrame(src: seq<CChar>, src': seq<CChar>, lo: nat, hi: nat)
    requires lo <= hi <= |src| && hi <= |src'| && DigitRun(src, lo, hi)
    requires forall k :: lo <= k < hi ==> src'[k] == src[k]
    ensures DigitRun(src', lo, hi) && RunValue(src', lo, hi) == RunValue(src, lo, hi)
    decreases hi
  {
    if hi > lo {
      RunValueFrame(src, src', lo, hi - 1);
    }
  }

  lemma {:induction false} RunValueDecimal(n: nat)
    ensures RunValue(Decimal(n), 0, |Decimal(n)|) == n
  {
    var s := Decimal(n);
    if n >= 10 {
      RunValueDecimal(n / 10);
      RunValueFrame(Decimal(n / 10), s, 0, |s| - 1);
    }
  }

  /**
   * Round trip: the lexer reads the numeral of n back as the number n when
   * n fits a long, and as one INVALID token otherwise, consuming the
   * numeral in both cases.
   */
  lemma ScanDecimal(n: nat)
    ensures var s := Decimal(n);
            Scan(s, |s|, 0) == (if n <= LongMax then Token(TokNumber, n, 0) else Token(TokInvalid, 0, 0), |s|)
  {
    var s := Decimal(n);
    RunValueDecimal(n);
    assert !IsSpace(s[0]);
    assert DigitEnd(s, |s|, 0) == |s|;
  }

  /** Appending a digit never makes the value smaller, so a run is worth at least any of its prefixes. */
  lemma {:induction false} RunValuePrefix(src: seq<CChar>, lo: nat, mid: nat, hi: nat)
    requires lo <= mid <= hi <= |src| && DigitRun(src, lo, hi)
    ensures RunValue(src, lo, mid) <= RunValue(src, lo, hi)
    decreases hi
  {
    if mid < hi {
      RunValuePrefix(src, lo, mid, hi - 1);
    }
  }

  /**
   * The source's overflow test `value > (LONG_MAX - digit) / 10` holds
   * exactly when value * 10 + digit exceeds LONG_MAX.
   */
  lemma OverflowTest(value: nat, digit: nat)
    requires digit <= 9
    ensures value > (LongMax - digit) / 10 <==> value * 10 + digit > LongMax
  {
    var q := (LongMax - digit) / 10;
    assert LongMax - digit == q * 10 + (LongMax - digit) % 10;
  }

  /** The tokens a token list still has to deliver: at least one, ending with the only EOF. */
  predicate TokenList(ts: seq<Token>)
  {
    |ts| > 0 && ts[|ts| - 1].kind == TokEof &&
    forall k :: 0 <= k < |ts| - 1 ==> ts[k].kind != TokEof
  }

  /** Consuming the first token; at EOF the stream keeps returning EOF. */
  function Advance(ts: seq<Token>): (r: seq<Token>)
    requires TokenList(ts)
    ensures TokenList(r)
    ensures ts[0].kind == TokEof ==> r == ts
    ensures ts[0].kind != TokEof ==> r == ts[1..]
  {
    if ts[0].kind == TokEof then ts else ts[1..]
  }

  /** Every token lexer_next would return from pos on, up to and including EOF. */
  function Tokens(src: seq<CChar>, len: nat, pos: nat): (ts: seq<Token>)
    requires pos <= len <= |src|
    ensures TokenList(ts)
    ensures ts[0] == Scan(src, len, pos).0
    decreases len - pos
  {
    var (t, p) := Scan(src, len, pos);
    if t.kind == TokEof then [t] else [t] + Tokens(src, len, p)
  }

  /** Scanning one token takes it off the front of the token list; at EOF the list is just that EOF. */
  lemma TokensStep(src: seq<CChar>, len: nat, pos: nat)
    requires pos <= len <= |src|
    ensures var (t, p) := Scan(src, len, pos);
            Tokens(src, len, pos) == [t] + (if t.kind == TokEof then [] else Tokens(src, len, p)) &&
            (t.kind == TokEof ==> t == Token(TokEof, 0, len) && p == len && Tokens(src, len, p) == [t])
  {
    var (t, p) := Scan(src, len, pos);
    if t.kind == TokEof {
      assert SpaceEnd(src, len, p) == p;
    }
  }

  /** TokenStream: the source, the read head and the one-token look-ahead cache. */
  class TokenStream {
    const src: seq<CChar>
    const len: nat
    var pos: nat
    var current: Token
    var hasCurrent: bool

    /**
     * The read head stays within the source; a cached EOF was scanned at
     * the end of the source, so the head is there too.
     */
    ghost predicate Valid()
      reads this
    {
      len <= |src| && pos <= len &&
      (hasCurrent && current.kind == TokEof ==> current == Token(TokEof, 0, len) && pos == len)
    }

    /** The tokens still to be delivered: the cached one, if any, then those scanned from pos. */
    ghost function Remaining(): (ts: seq<Token>)
      reads this
      requires Valid()
      ensures TokenList(ts)
    {
      if hasCurrent && current.kind != TokEof then [current] + Tokens(src, len, pos)
      else Tokens(src, len, pos)
    }

    /** lexer_init: a stream over s up to its first NUL, at offset 0 with nothing cached. */
    constructor Init(s: seq<CChar>)
      ensures Valid()
      ensures src == s && len == StrLen(s) && pos == 0 && !hasCurrent
      ensures Remaining() == Tokens(s, StrLen(s), 0)
    {
      src := s;
      len := StrLen(s);
      pos := 0;
      current := Token(TokEof, 0, 0);
      hasCurrent := false;
    }

    /**
     * lexer_next: drains the cache if it holds a token; otherwise skips
     * whitespace and scans one token. It returns the first remaining token
     * and consumes it (EOF is never consumed).
     */
    method Next() returns (t: Token)
      requires Valid()
      modifies this
      ensures Valid()
      ensures t == old(Remaining())[0]
      ensures Remaining() == Advance(old(Remaining()))
      ensures !hasCurrent && current == old(current)
      ensures old(hasCurrent) ==> t == old(current) && pos == old(pos)
      ensures !old(hasCurrent) ==> (t, pos) == Scan(src, len, old(pos))
      ensures old(pos) <= pos <= len
    {
      if hasCurrent {
        hasCurrent := false;
        return current;
      }
      ghost var before := pos;
      t := ScanToken();
      TokensStep(src, len, before);
    }

    /** lexer_next with an empty cache: skips whitespace, then scans EOF, a literal or one character. */
    method ScanToken() returns (t: Token)
      requires Valid() && !hasCurrent
      modifies this`pos
      ensures Valid()
      ensures (t, pos) == Scan(src, len, old(pos))
    {
      pos := SkipWs(src, pos, len);
      if pos >= len {
        return Token(TokEof, 0, pos);
      }
      var start := pos;
      var c := src[pos];
      if IsDigit(c) {
        t := ScanNumber(start);
        return;
      }
      pos := pos + 1;
      t := Token(Punctuation(c), 0, start);
    }

    /**
     * The literal branch of lexer_next: accumulates digits while the
     * overflow test passes; on overflow it drains the rest of the run and
     * returns INVALID.
     */
    method ScanNumber(start: nat) returns (t: Token)
      requires Valid() && !hasCurrent && start == pos < len && IsDigit(src[pos])
      modifies this`pos
      ensures Valid()
      ensures (t, pos) == Scan(src, len, start)
    {
      ghost var end := DigitEnd(src, len, start);
      var value: nat := 0;
      while pos < len && IsDigit(src[pos])
        invariant start <= pos <= end
        invariant DigitEnd(src, len, pos) == end
        invariant value == RunValue(src, start, pos) <= LongMax
        decreases len - pos
      {
        var digit := DigitValue(src[pos]);
        OverflowTest(value, digit);
        if value > (LongMax - digit) / 10 {
          RunValuePrefix(src, start, pos + 1, end);
          pos := SkipDigits(pos);
          return Token(TokInvalid, 0, start);
        }
        value := value * 10 + digit;
        pos := pos + 1;
      }
      t := Token(TokNumber, value, start);
    }

    /** The drain loop of the overflow branch: moves the head past the rest of the digit run. */
    method SkipDigits(lo: nat) returns (p: nat)
      requires lo <= len <= |src|
      ensures p == DigitEnd(src, len, lo)
    {
      p := lo;
      while p < len && IsDigit(src[p])
        invariant lo <= p <= len
        invariant DigitEnd(src, len, p) == DigitEnd(src, len, lo)
        decreases len - p
      {
        p := p + 1;
      }
    }

    /**
     * lexer_peek: fills the cache if it is empty. The token it returns is
     * the next one lexer_next will return, and the remaining tokens are
     * unchanged; with a full cache it changes nothing at all, so repeated
     * peeks agree.
     */
    method Peek() returns (t: Token)
      requires Valid()
      modifies this
      ensures Valid()
      ensures t == Remaining()[0] && Remaining() == old(Remaining())
      ensures hasCurrent && current == t
      ensures old(hasCurrent) ==> pos == old(pos) && current == old(current)
      ensures old(pos) <= pos <= len
    {
      if !hasCurrent {
        current := Next();
        hasCurrent := true;
      }
      t := current;
    }
  }

  /** skip_ws: the end of the whitespace run starting at pos. */
  method SkipWs(src: seq<CChar>, pos: nat, len: nat) returns (p: nat)
    requires pos <= len <= |src|
    ensures p == SpaceEnd(src, len, pos)
  {
    p := pos;
    while p < len && IsSpace(src[p])
      invariant pos <= p <= len
      invariant SpaceEnd(src, len, p) == SpaceEnd(src, len, pos)
      decreases len - p
    {
      p := p + 1;
    }
  }
}
