/**
 * The lexer of src/lex.rs: one token per input char, each with its span
 * of UTF-8 byte offsets, and the `Display` of a token, which writes back
 * the char it came from.
 */
module Lex {
  import opened Options
  import opened Utf8

  datatype Token = Alt | Star | Plus | Quest | ParenL | ParenR | Colon | Dot | Char(ch: char)

  /** The eight chars with a token of their own. */
  predicate Punct(c: char)
  {
    c == '|' || c == '*' || c == '+' || c == '?' || c == '(' || c == ')' || c == ':' || c == '.'
  }

  /** `Display for Token`: the single char the token writes. */
  function Display(t: Token): char
  {
    match t
    case Alt => '|'
    case Star => '*'
    case Plus => '+'
    case Quest => '?'
    case ParenL => '('
    case ParenR => ')'
    case Colon => ':'
    case Dot => '.'
    case Char(c) => c
  }

  /**
   * The char-to-token map of `Lexer::next`: a punctuation char gets its own
   * token, any other char is a literal; displaying the token gives the char
   * back.
   */
  function TokenOf(c: char): (t: Token)
    ensures Display(t) == c
    ensures t.Char? <==> !Punct(c)
    ensures t.Char? ==> t.ch == c
  {
    match c
    case '|' => Alt
    case '*' => Star
    case '+' => Plus
    case '?' => Quest
    case '(' => ParenL
    case ')' => ParenR
    case ':' => Colon
    case '.' => Dot
    case _ => Char(c)
  }

  /**
   * The other direction: lexing a token's display gives the token back,
   * except for a literal of a punctuation char, which no input lexes to.
   */
  lemma DisplayRoundTrip(t: Token)
    ensures TokenOf(Display(t)) == t <==> !(t.Char? && Punct(t.ch))
  {
  }

  /** A token with its span: the byte offset of its char and the offset just after it. */
  type Spanned = (nat, Token, nat)

  /** Everything the lexer yields for `s`, in order. */
  function Tokens(s: seq<char>): (ts: seq<Spanned>)
    ensures |ts| == |s|
  {
    seq(|s|, k requires 0 <= k < |s| => (ByteLen(s[..k]), TokenOf(s[k]), ByteLen(s[..k + 1])))
  }

  /**
   * The spans: the first starts at 0, each ends where the next starts, the
   * last ends at the end of the input, and each is the UTF-8 length of its
   * char, 1 to 4 bytes.
   */
  lemma TokenSpans(s: seq<char>)
    ensures var ts := Tokens(s);
      (|s| > 0 ==> ts[0].0 == 0 && ts[|s| - 1].2 == ByteLen(s)) &&
      (forall k :: 0 <= k < |s| - 1 ==> ts[k].2 == ts[k + 1].0) &&
      forall k :: 0 <= k < |s| ==> ts[k].2 == ts[k].0 + Utf8Len(s[k]) && ts[k].0 + 1 <= ts[k].2 <= ts[k].0 + 4
  {
    SpanLengths(s);
    SpansContiguous(s);
    SpansEnds(s);
  }

  lemma SpanLengths(s: seq<char>)
    ensures forall k :: 0 <= k < |s| ==> Tokens(s)[k].2 == Tokens(s)[k].0 + Utf8Len(s[k])
  {
    var ts := Tokens(s);
    forall k | 0 <= k < |s|
      ensures ts[k].2 == ts[k].0 + Utf8Len(s[k])
    {
      assert ts[k].0 == ByteLen(s[..k]) && ts[k].2 == ByteLen(s[..k + 1]);
      ByteLenSnoc(s, k);
    }
  }

  lemma SpansContiguous(s: seq<char>)
    ensures forall k :: 0 <= k < |s| - 1 ==> Tokens(s)[k].2 == Tokens(s)[k + 1].0
  {
    var ts := Tokens(s);
    forall k | 0 <= k < |s| - 1
      ensures ts[k].2 == ts[k + 1].0
    {
      assert ts[k].2 == ByteLen(s[..k + 1]) == ts[k + 1].0;
    }
  }

  lemma SpansEnds(s: seq<char>)
    ensures |s| > 0 ==> Tokens(s)[0].0 == 0 && Tokens(s)[|s| - 1].2 == ByteLen(s)
  {
    if |s| > 0 {
      assert Tokens(s)[0].0 == ByteLen(s[..0]) && s[..0] == [];
      assert Tokens(s)[|s| - 1].2 == ByteLen(s[..|s|]) && s[..|s|] == s;
    }
  }

  /** `Lexer`: the `char_indices` iterator, as the chars read and the byte offset reached. */
  class Lexer {
    const s: seq<char>
    var pos: nat
    var offset: nat

    ghost predicate Valid()
      reads this`pos, this`offset
    {
      pos <= |s| && offset == ByteLen(s[..pos])
    }

    /** `Lexer::new`: at the start of `s`. */
    constructor (s: seq<char>)
      ensures this.s == s && pos == 0 && offset == 0 && Valid()
    {
      this.s := s;
      pos := 0;
      offset := 0;
    }

    /**
     * `Lexer::next`: the token of the next char, spanning from the current
     * offset to the one after the char, which is the next entry of
     * `Tokens(s)`; at the end of the input, None and no move. It never
     * yields an error.
     */
    method Next() returns (r: Option<Spanned>)
      requires Valid()
      modifies this`pos, this`offset
      ensures Valid()
      ensures old(pos) < |s| ==> pos == old(pos) + 1 && r == Some(Tokens(s)[old(pos)])
      ensures old(pos) < |s| ==> r.value.0 == old(offset) && r.value.2 == offset
      ensures old(pos) == |s| ==> r.None? && pos == old(pos) && offset == old(offset)
    {
      if pos == |s| {
        return None;
      }
      var ch := s[pos];
      var tok := TokenOf(ch);
      var i := offset;
      ByteLenSnoc(s, pos);
      offset := offset + Utf8Len(ch);
      pos := pos + 1;
      r := Some((i, tok, offset));
    }
  }
}
