/**
 * Text normalisation of the tokenizer: lower-casing, turning every character
 * that is neither a word character nor white space into a space, splitting on
 * white space and dropping the empty pieces. Also the single-space join used
 * by decoding.
 */
module Text {

  /** `\w` of a JavaScript regular expression without the `u` flag. */
  predicate IsWordChar(c: char) {
    ('a' <= c <= 'z') || ('A' <= c <= 'Z') || ('0' <= c <= '9') || c == '_'
  }

  /** `\s` of a JavaScript regular expression: white space and line terminators. */
  predicate IsSpace(c: char) {
    c == '\t' || c == '\n' || c == '\U{000B}' || c == '\U{000C}' || c == '\r' || c == ' '
    || c == '\U{00A0}' || c == '\U{1680}' || ('\U{2000}' <= c <= '\U{200A}')
    || c == '\U{2028}' || c == '\U{2029}' || c == '\U{202F}' || c == '\U{205F}'
    || c == '\U{3000}' || c == '\U{FEFF}'
  }

  /** A character a token can hold: a lower-case ASCII letter, a digit or `_`. */
  predicate IsTokenChar(c: char) {
    ('a' <= c <= 'z') || ('0' <= c <= '9') || c == '_'
  }

  /** The shape of every token: non-empty and made of token characters only. */
  predicate IsWord(w: string) {
    |w| > 0 && forall i :: 0 <= i < |w| ==> IsTokenChar(w[i])
  }

  /** Lower-casing of one character (ASCII letters only). */
  function ToLower(c: char): (d: char)
    ensures IsWordChar(d) <==> IsWordChar(c)
    ensures IsSpace(d) <==> IsSpace(c)
    ensures IsWordChar(d) ==> IsTokenChar(d)
  {
    if 'A' <= c <= 'Z' then (c as int + 32) as char else c
  }

  /** `text.toLowerCase()` */
  function LowerCase(s: string): string {
    seq(|s|, i requires 0 <= i < |s| => ToLower(s[i]))
  }

  /**
   * Lower-casing maps each upper-case ASCII letter to the lower-case letter
   * at the same place in the alphabet and leaves every other character as it
   * is.
   */
  lemma LowerCaseAscii(s: string)
    ensures |LowerCase(s)| == |s|
    ensures forall i :: 0 <= i < |s| && 'A' <= s[i] <= 'Z' ==>
              'a' <= LowerCase(s)[i] <= 'z' && LowerCase(s)[i] as int - 'a' as int == s[i] as int - 'A' as int
    ensures forall i :: 0 <= i < |s| && !('A' <= s[i] <= 'Z') ==> LowerCase(s)[i] == s[i]
  {
  }

  /** `.replace(/[^\w\s]/g, ' ')` */
  function ReplaceNonWord(s: string): string {
    seq(|s|, i requires 0 <= i < |s| => if IsWordChar(s[i]) || IsSpace(s[i]) then s[i] else ' ')
  }

  /**
   * Splits at every white-space character. Splitting at runs of white space,
   * as `.split(/\s+/)` does, gives the same pieces once the empty ones are
   * dropped, which the tokenizer always does next.
   */
  function SplitOnSpace(s: string): (pieces: seq<string>)
    ensures |pieces| >= 1
    ensures forall i, j :: 0 <= i < |pieces| && 0 <= j < |pieces[i]| ==>
              !IsSpace(pieces[i][j]) && pieces[i][j] in s
  {
    if s == [] then [[]]
    else
      var rest := SplitOnSpace(s[1..]);
      if IsSpace(s[0]) then [[]] + rest
      else [[s[0]] + rest[0]] + rest[1..]
  }

  /** `.filter(word => word.length > 0)` */
  function NonEmpty(pieces: seq<string>): (r: seq<string>)
    ensures forall i :: 0 <= i < |r| ==> |r[i]| > 0 && r[i] in pieces
  {
    if pieces == [] then []
    else (if |pieces[0]| > 0 then [pieces[0]] else []) + NonEmpty(pieces[1..])
  }

  /**
   * The filter keeps exactly the non-empty pieces: a piece is kept if and
   * only if it is non-empty. `NonEmptyConcat` gives their order.
   */
  lemma {:induction false} NonEmptyExact(pieces: seq<string>)
    ensures forall p :: p in NonEmpty(pieces) <==> p in pieces && |p| > 0
  {
    if pieces != [] {
      NonEmptyExact(pieces[1..]);
      assert pieces == [pieces[0]] + pieces[1..];
    }
  }

  /** The whole normalisation before the split. */
  function Normalise(text: string): string {
    ReplaceNonWord(LowerCase(text))
  }

  /** `tokenize`: the maximal runs of ASCII word characters, lower-cased. */
  function Tokenize(text: string): seq<string> {
    NonEmpty(SplitOnSpace(Normalise(text)))
  }

  /** `.join(' ')` */
  function Join(ws: seq<string>): string {
    if |ws| == 0 then ""
    else if |ws| == 1 then ws[0]
    else ws[0] + " " + Join(ws[1..])
  }

  /** Every token is non-empty and holds only lower-case ASCII letters, digits and `_`. */
  lemma TokensAreWords(text: string)
    ensures forall i :: 0 <= i < |Tokenize(text)| ==> IsWord(Tokenize(text)[i])
  {
    NormalisedChars(text);
  }

  /** After normalisation every character is white space or a token character. */
  lemma NormalisedChars(text: string)
    ensures forall c :: c in Normalise(text) && !IsSpace(c) ==> IsTokenChar(c)
  {
    forall c | c in Normalise(text) && !IsSpace(c) ensures IsTokenChar(c) {
      var k :| 0 <= k < |text| && Normalise(text)[k] == c;
      assert LowerCase(text)[k] == ToLower(text[k]);
    }
  }

  /** A white-space character cuts the input into two independently split halves. */
  lemma {:induction false} SplitAtSpace(a: string, c: char, b: string)
    requires IsSpace(c)
    ensures SplitOnSpace(a + [c] + b) == SplitOnSpace(a) + SplitOnSpace(b)
  {
    if a == [] {
      assert a + [c] + b == [c] + b;
      assert ([c] + b)[1..] == b;
    } else {
      assert (a + [c] + b)[1..] == a[1..] + [c] + b;
      SplitAtSpace(a[1..], c, b);
    }
  }

  /** A string without white space is one piece. */
  lemma {:induction false} SplitWord(w: string)
    requires forall i :: 0 <= i < |w| ==> !IsSpace(w[i])
    ensures SplitOnSpace(w) == [w]
  {
    if w != [] {
      SplitWord(w[1..]);
      assert [w[0]] + w[1..] == w;
    }
  }

  lemma {:induction false} NonEmptyConcat(a: seq<string>, b: seq<string>)
    ensures NonEmpty(a + b) == NonEmpty(a) + NonEmpty(b)
  {
    if a == [] {
      assert a + b == b;
    } else {
      assert (a + b)[1..] == a[1..] + b;
      NonEmptyConcat(a[1..], b);
    }
  }

  /**
   * Every character outside `[A-Za-z0-9_]` is a separator: the tokens of
   * `a + [c] + b` are the tokens of `a` followed by those of `b`. Punctuation
   * is therefore dropped, never kept as a token.
   */
  lemma TokenizeAtSeparator(a: string, c: char, b: string)
    requires !IsWordChar(c)
    ensures Tokenize(a + [c] + b) == Tokenize(a) + Tokenize(b)
  {
    var sep := if IsSpace(c) then c else ' ';
    assert Normalise(a + [c] + b) == Normalise(a) + [sep] + Normalise(b);
    SplitAtSpace(Normalise(a), sep, Normalise(b));
    NonEmptyConcat(SplitOnSpace(Normalise(a)), SplitOnSpace(Normalise(b)));
  }

  /** A token is its own (only) token. */
  lemma TokenizeWord(w: string)
    requires IsWord(w)
    ensures Tokenize(w) == [w]
  {
    assert Normalise(w) == w;
    SplitWord(w);
    assert NonEmpty([w]) == [w] + NonEmpty([]);
  }

  /**
   * A run of word characters is one token: the run lower-cased. With
   * `TokenizeAtSeparator` this gives the whole of `tokenize`: the maximal
   * runs of `[A-Za-z0-9_]`, lower-cased, in order.
   */
  lemma TokenizeRun(w: string)
    requires |w| > 0 && forall i :: 0 <= i < |w| ==> IsWordChar(w[i])
    ensures Tokenize(w) == [LowerCase(w)]
  {
    var lw := LowerCase(w);
    assert Normalise(w) == lw;
    assert IsWord(lw);
    assert Normalise(lw) == lw;
    TokenizeWord(lw);
  }

  /**
   * Joining tokens with single spaces and tokenizing again gives the tokens
   * back.
   */
  lemma {:induction false} TokenizeJoin(ws: seq<string>)
    requires forall i :: 0 <= i < |ws| ==> IsWord(ws[i])
    ensures Tokenize(Join(ws)) == ws
  {
    if |ws| == 0 {
      assert Normalise("") == "";
    } else if |ws| == 1 {
      TokenizeWord(ws[0]);
    } else {
      TokenizeWord(ws[0]);
      TokenizeJoin(ws[1..]);
      assert Join(ws) == ws[0] + [' '] + Join(ws[1..]);
      TokenizeAtSeparator(ws[0], ' ', Join(ws[1..]));
      assert [ws[0]] + ws[1..] == ws;
    }
  }

  /** Tokenization is idempotent on its own space-joined output. */
  lemma TokenizeIdempotent(text: string)
    ensures Tokenize(Join(Tokenize(text))) == Tokenize(text)
  {
    TokensAreWords(text);
    TokenizeJoin(Tokenize(text));
  }

  /** No token contains a character outside `[a-z0-9_]`, `<` and `>` included. */
  lemma TokensAvoid(text: string, c: char)
    requires !IsTokenChar(c)
    ensures forall i :: 0 <= i < |Tokenize(text)| ==> c !in Tokenize(text)[i]
  {
    TokensAreWords(text);
  }
}
