/** The command-line client's statement splitter: SQL text is cut into the
    complete statements it holds, each with the delimiter that ended it, and
    the partial statement after the last delimiter. Two string routines sit
    beside it: `IsEmptyStatement` (only whitespace and comments) and
    `SqueezeStatement` (whitespace runs collapsed to one space).

    The SQL lexer is reduced to the token classes the splitter depends on.
    At each token start the delimiters are tried first, in order; then
    whitespace, `--` line comments, bracketed comments, single-quoted
    strings, double-quoted and backquoted identifiers (a doubled quote
    escapes the quote, and the longest well-formed prefix wins), runs of
    word characters, and otherwise a single unrecognized character. */
module StatementSplitter {
  import opened Wrappers

  // ---------------------------------------------------------------------
  // Characters and prefixes
  // ---------------------------------------------------------------------

  /** The characters of the lexer's whitespace token. */
  predicate IsWhitespace(c: char)
  {
    c == ' ' || c == '\t' || c == '\r' || c == '\n'
  }

  /** The characters `String.trim` removes: every code point up to space. */
  predicate IsBlank(c: char)
  {
    c <= ' '
  }

  predicate IsWordChar(c: char)
  {
    ('a' <= c <= 'z') || ('A' <= c <= 'Z') || ('0' <= c <= '9') || c == '_'
  }

  predicate StartsWith(s: string, prefix: string)
  {
    |prefix| <= |s| && s[..|prefix|] == prefix
  }

  // ---------------------------------------------------------------------
  // Tokens
  // ---------------------------------------------------------------------

  datatype TokenKind =
    | Delimiter
    | Whitespace
    | LineComment
    | BlockComment
    | StringLiteral
    | QuotedIdentifier
    | BackquotedIdentifier
    | Word
    | Unrecognized

  datatype Token = Token(kind: TokenKind, text: string)

  /** Whitespace and comments go to the lexer's hidden channel. */
  predicate IsHidden(t: Token)
  {
    t.kind == Whitespace || t.kind == LineComment || t.kind == BlockComment
  }

  /** The first non-empty delimiter, in order, that the text starts with. */
  function MatchingDelimiter(s: string, delimiters: seq<string>): (r: Option<string>)
    ensures r.Some? ==> r.value in delimiters && r.value != [] && StartsWith(s, r.value)
    ensures r.None? ==> forall d :: d in delimiters && d != [] ==> !StartsWith(s, d)
  {
    if delimiters == [] then None
    else if delimiters[0] != [] && StartsWith(s, delimiters[0]) then Some(delimiters[0])
    else MatchingDelimiter(s, delimiters[1..])
  }

  /** The length of the leading run of whitespace. */
  function WhitespaceRun(s: string): (n: nat)
    ensures n <= |s|
    ensures forall i :: 0 <= i < n ==> IsWhitespace(s[i])
    ensures n < |s| ==> !IsWhitespace(s[n])
  {
    if s != [] && IsWhitespace(s[0]) then 1 + WhitespaceRun(s[1..]) else 0
  }

  /** The length of the leading run of word characters. */
  function WordRun(s: string): (n: nat)
    ensures n <= |s|
    ensures forall i :: 0 <= i < n ==> IsWordChar(s[i])
  {
    if s != [] && IsWordChar(s[0]) then 1 + WordRun(s[1..]) else 0
  }

  /** The length of the leading run of characters other than CR and LF. */
  function LineRun(s: string): (n: nat)
    ensures n <= |s|
    ensures forall i :: 0 <= i < n ==> s[i] != '\r' && s[i] != '\n'
  {
    if s != [] && s[0] != '\r' && s[0] != '\n' then 1 + LineRun(s[1..]) else 0
  }

  /** A line comment: `--`, the rest of the line, then an optional CR and an
      optional LF. */
  function LineCommentLength(s: string): (n: nat)
    requires StartsWith(s, "--")
    ensures 2 <= n <= |s|
  {
    var k := 2 + LineRun(s[2..]);
    var k' := if k < |s| && s[k] == '\r' then k + 1 else k;
    if k' < |s| && s[k'] == '\n' then k' + 1 else k'
  }

  // The end of the first comment close (star, slash) at or after position i.
  function CommentClose(s: string, i: nat): (r: Option<nat>)
    ensures r.Some? ==> i + 2 <= r.value <= |s| && s[r.value - 2] == '*' && s[r.value - 1] == '/'
    decreases |s| - i
  {
    if i + 1 >= |s| then None
    else if s[i] == '*' && s[i + 1] == '/' then Some(i + 2)
    else CommentClose(s, i + 1)
  }

  /** The end of the longest prefix that is a quoted token: the quote, then
      characters other than the quote or doubled quotes, then the quote.
      `last` is the end of the longest such prefix found before position i. */
  function QuotedEnd(s: string, q: char, i: nat, last: Option<nat>): (r: Option<nat>)
    requires 1 <= i
    requires last.Some? ==> 2 <= last.value <= |s|
    ensures r.Some? ==> 2 <= r.value <= |s|
    decreases |s| - i
  {
    if i >= |s| then last
    else if s[i] != q then QuotedEnd(s, q, i + 1, last)
    else if i + 1 < |s| && s[i + 1] == q then QuotedEnd(s, q, i + 2, Some(i + 1))
    else Some(i + 1)
  }

  /** The quoted token a quote character starts, if it is terminated. */
  function QuotedToken(s: string, q: char, kind: TokenKind): (r: Option<Token>)
    requires s != [] && s[0] == q
    ensures r.Some? ==> 2 <= |r.value.text| <= |s| && r.value.text == s[..|r.value.text|]
    ensures r.Some? ==> r.value.kind == kind
  {
    match QuotedEnd(s, q, 1, None)
    case Some(n) => Some(Token(kind, s[..n]))
    case None => None
  }

  /** The token at the start of non-empty text. */
  function NextToken(s: string, delimiters: seq<string>): (t: Token)
    requires s != []
    ensures 0 < |t.text| <= |s| && t.text == s[..|t.text|]
    ensures t.kind == Delimiter <==> MatchingDelimiter(s, delimiters).Some?
    ensures t.kind == Delimiter ==> t.text in delimiters
  {
    match MatchingDelimiter(s, delimiters)
    case Some(d) => Token(Delimiter, d)
    case None => PlainToken(s)
  }

  /** The token at the start of non-empty text that no delimiter starts. */
  function PlainToken(s: string): (t: Token)
    requires s != []
    ensures 0 < |t.text| <= |s| && t.text == s[..|t.text|]
    ensures t.kind != Delimiter
  {
    if IsWhitespace(s[0]) then Token(Whitespace, s[..WhitespaceRun(s)])
    else if StartsWith(s, "--") then Token(LineComment, s[..LineCommentLength(s)])
    else if StartsWith(s, "/*") && CommentClose(s, 2).Some? then Token(BlockComment, s[..CommentClose(s, 2).value])
    else if s[0] == '\'' && QuotedToken(s, '\'', StringLiteral).Some? then QuotedToken(s, '\'', StringLiteral).value
    else if s[0] == '"' && QuotedToken(s, '"', QuotedIdentifier).Some? then QuotedToken(s, '"', QuotedIdentifier).value
    else if s[0] == '`' && QuotedToken(s, '`', BackquotedIdentifier).Some? then QuotedToken(s, '`', BackquotedIdentifier).value
    else if IsWordChar(s[0]) then Token(Word, s[..WordRun(s)])
    else Token(Unrecognized, [s[0]])
  }

  /** The token stream of a text. */
  function Lex(s: string, delimiters: seq<string>): (tokens: seq<Token>)
    ensures forall t :: t in tokens ==> t.text != []
    ensures forall t :: t in tokens && t.kind == Delimiter ==> t.text in delimiters
    decreases |s|
  {
    if s == [] then []
    else
      var t := NextToken(s, delimiters);
      [t] + Lex(s[|t.text|..], delimiters)
  }

  /** One step of the lexer. */
  lemma LexStep(s: string, delimiters: seq<string>)
    requires s != []
    ensures Lex(s, delimiters) == [NextToken(s, delimiters)] + Lex(s[|NextToken(s, delimiters).text|..], delimiters)
  {
  }

  /** A text that is one token lexes to that token alone. */
  lemma LexWhole(s: string, delimiters: seq<string>)
    requires s != [] && |NextToken(s, delimiters).text| == |s|
    ensures Lex(s, delimiters) == [NextToken(s, delimiters)]
  {
    LexStep(s, delimiters);
    assert s[|s|..] == [];
  }

  /** Moving one token from the text to the tokens already read. */
  lemma LexAdvance(seen: seq<Token>, s: string, delimiters: seq<string>)
    requires s != []
    ensures seen + Lex(s, delimiters) ==
      (seen + [NextToken(s, delimiters)]) + Lex(s[|NextToken(s, delimiters).text|..], delimiters)
  {
    var t := NextToken(s, delimiters);
    LexStep(s, delimiters);
    ConcatAssociates(seen, [t], Lex(s[|t.text|..], delimiters));
  }

  /** The texts of tokens, concatenated. */
  function Text(tokens: seq<Token>): string
  {
    if tokens == [] then [] else tokens[0].text + Text(tokens[1..])
  }

  /** The lexer loses nothing: its tokens spell out the input. */
  lemma {:induction false} LexSpellsInput(s: string, delimiters: seq<string>)
    ensures Text(Lex(s, delimiters)) == s
    decreases |s|
  {
    if s != [] {
      var t := NextToken(s, delimiters);
      var rest := s[|t.text|..];
      LexSpellsInput(rest, delimiters);
      assert Lex(s, delimiters) == [t] + Lex(rest, delimiters);
      assert ([t] + Lex(rest, delimiters))[1..] == Lex(rest, delimiters);
      assert s == t.text + rest;
    }
  }

  lemma {:induction false} TextAppend(a: seq<Token>, b: seq<Token>)
    ensures Text(a + b) == Text(a) + Text(b)
  {
    if a != [] {
      assert (a + b)[1..] == a[1..] + b;
      TextAppend(a[1..], b);
    } else {
      assert a + b == b;
    }
  }

  /** A text in which no delimiter starts anywhere lexes without a
      delimiter token. */
  lemma {:induction false} NoDelimiterToken(s: string, delimiters: seq<string>)
    requires forall i, d :: 0 <= i < |s| && d in delimiters && d != [] ==> !StartsWith(s[i..], d)
    ensures forall t :: t in Lex(s, delimiters) ==> t.kind != Delimiter
    decreases |s|
  {
    if s != [] {
      var t := NextToken(s, delimiters);
      var rest := s[|t.text|..];
      forall d | d in delimiters && d != [] ensures !StartsWith(s, d) {
        assert s[0..] == s;
      }
      forall i, d | 0 <= i < |rest| && d in delimiters && d != [] ensures !StartsWith(rest[i..], d) {
        assert rest[i..] == s[|t.text| + i..];
      }
      NoDelimiterToken(rest, delimiters);
    }
  }

  // ---------------------------------------------------------------------
  // Lexing a text whose first token is known
  // ---------------------------------------------------------------------

  /** Text that starts with a known token lexes to it, then to the rest. */
  lemma LexCons(t: Token, rest: string, delimiters: seq<string>)
    requires t.text != [] && NextToken(t.text + rest, delimiters) == t
    ensures Lex(t.text + rest, delimiters) == [t] + Lex(rest, delimiters)
  {
    LexStep(t.text + rest, delimiters);
    assert (t.text + rest)[|t.text|..] == rest;
  }

  /** No delimiter starts with the character. */
  predicate NoDelimiterStartsWith(c: char, delimiters: seq<string>)
  {
    forall d :: d in delimiters && d != [] ==> d[0] != c
  }

  lemma NoDelimiterMatches(s: string, delimiters: seq<string>)
    requires s != [] && NoDelimiterStartsWith(s[0], delimiters)
    ensures MatchingDelimiter(s, delimiters).None?
  {
    forall d | d in delimiters && d != [] ensures !StartsWith(s, d) {
      assert |d| <= |s| ==> s[..|d|][0] == s[0];
    }
  }

  /** A delimiter that no other delimiter shares a first character with
      is a delimiter token wherever it starts the text. */
  lemma DelimiterToken(d: string, rest: string, delimiters: seq<string>)
    requires d in delimiters && d != []
    requires forall e :: e in delimiters && e != [] && e != d ==> e[0] != d[0]
    ensures Lex(d + rest, delimiters) == [Token(Delimiter, d)] + Lex(rest, delimiters)
  {
    var s := d + rest;
    assert s[..|d|] == d;
    var m := MatchingDelimiter(s, delimiters);
    assert m.Some?;
    assert m.value[0] == s[..|m.value|][0] == d[0];
    LexCons(Token(Delimiter, d), rest, delimiters);
  }

  lemma {:induction false} WhitespaceRunOf(w: string, rest: string)
    requires forall i :: 0 <= i < |w| ==> IsWhitespace(w[i])
    requires rest == [] || !IsWhitespace(rest[0])
    ensures WhitespaceRun(w + rest) == |w|
    decreases |w|
  {
    if w == [] {
      assert w + rest == rest;
    } else {
      assert (w + rest)[1..] == w[1..] + rest;
      WhitespaceRunOf(w[1..], rest);
    }
  }

  /** A whitespace run that the end or another character follows is one
      whitespace token. */
  lemma WhitespaceToken(w: string, rest: string, delimiters: seq<string>)
    requires w != [] && forall i :: 0 <= i < |w| ==> IsWhitespace(w[i])
    requires rest == [] || !IsWhitespace(rest[0])
    requires NoDelimiterStartsWith(w[0], delimiters)
    ensures Lex(w + rest, delimiters) == [Token(Whitespace, w)] + Lex(rest, delimiters)
  {
    var s := w + rest;
    assert s[0] == w[0];
    NoDelimiterMatches(s, delimiters);
    WhitespaceRunOf(w, rest);
    assert s[..|w|] == w;
    LexCons(Token(Whitespace, w), rest, delimiters);
  }

  lemma {:induction false} WordRunOf(w: string, rest: string)
    requires forall i :: 0 <= i < |w| ==> IsWordChar(w[i])
    requires rest == [] || !IsWordChar(rest[0])
    ensures WordRun(w + rest) == |w|
    decreases |w|
  {
    if w == [] {
      assert w + rest == rest;
    } else {
      assert (w + rest)[1..] == w[1..] + rest;
      WordRunOf(w[1..], rest);
    }
  }

  /** A run of word characters that the end or another character follows
      is one word token. */
  lemma WordToken(w: string, rest: string, delimiters: seq<string>)
    requires w != [] && forall i :: 0 <= i < |w| ==> IsWordChar(w[i])
    requires rest == [] || !IsWordChar(rest[0])
    requires NoDelimiterStartsWith(w[0], delimiters)
    ensures Lex(w + rest, delimiters) == [Token(Word, w)] + Lex(rest, delimiters)
  {
    var s := w + rest;
    assert s[0] == w[0];
    assert |s| >= 2 ==> s[..2][0] == w[0];
    NoDelimiterMatches(s, delimiters);
    WordRunOf(w, rest);
    assert s[..|w|] == w;
    LexCons(Token(Word, w), rest, delimiters);
  }

  /** A character that starts no other token is a token of its own. */
  lemma OtherToken(c: char, rest: string, delimiters: seq<string>)
    requires !IsWhitespace(c) && !IsWordChar(c) && c != '\'' && c != '"' && c != '`'
    requires c == '-' ==> rest == [] || rest[0] != '-'
    requires c == '/' ==> rest == [] || rest[0] != '*'
    requires NoDelimiterStartsWith(c, delimiters)
    ensures Lex([c] + rest, delimiters) == [Token(Unrecognized, [c])] + Lex(rest, delimiters)
  {
    var s := [c] + rest;
    assert s[0] == c;
    assert |s| >= 2 ==> s[..2][0] == c && s[..2][1] == rest[0];
    NoDelimiterMatches(s, delimiters);
    LexCons(Token(Unrecognized, [c]), rest, delimiters);
  }

  /** The quote characters and the tokens they open. */
  predicate QuoteOpens(q: char, kind: TokenKind)
  {
    (q == '\'' && kind == StringLiteral) ||
    (q == '"' && kind == QuotedIdentifier) ||
    (q == '`' && kind == BackquotedIdentifier)
  }

  /** A terminated quoted token at the start of the text is the next
      token. */
  lemma QuotedNext(s: string, q: char, kind: TokenKind, delimiters: seq<string>)
    requires QuoteOpens(q, kind) && s != [] && s[0] == q
    requires QuotedEnd(s, q, 1, None).Some?
    requires NoDelimiterStartsWith(q, delimiters)
    ensures NextToken(s, delimiters) == Token(kind, s[..QuotedEnd(s, q, 1, None).value])
  {
    assert |s| >= 2 ==> s[..2][0] == q;
    NoDelimiterMatches(s, delimiters);
  }

  /** A terminated quoted token of any of the three kinds is one token, its
      content kept as written, blanks, delimiters and comment markers
      included. */
  lemma QuotedTokenLexes(q: char, kind: TokenKind, x: string, rest: string, delimiters: seq<string>)
    requires QuoteOpens(q, kind)
    requires QuotedContent(x, q)
    requires rest == [] || rest[0] != q
    requires NoDelimiterStartsWith(q, delimiters)
    ensures Lex([q] + x + [q] + rest, delimiters) == [Token(kind, [q] + x + [q])] + Lex(rest, delimiters)
  {
    var quoted := [q] + x + [q];
    var s := quoted + rest;
    assert s[0] == q;
    QuotedEndOf(s, q, x, rest);
    QuotedNext(s, q, kind, delimiters);
    assert s[..|quoted|] == quoted;
    LexCons(Token(kind, quoted), rest, delimiters);
  }

  lemma QuotedEndOf(s: string, q: char, x: string, rest: string)
    requires s == [q] + x + [q] + rest
    requires QuotedContent(x, q)
    requires rest == [] || rest[0] != q
    ensures QuotedEnd(s, q, 1, None) == Some(|x| + 2)
  {
    var tail := x + [q] + rest;
    assert s == [q] + tail;
    assert s[1..] == tail;
    QuotedEndScans(s, q, 1, None, x, rest);
  }

  lemma {:induction false} QuotedEndUnclosed(s: string, q: char, i: nat)
    requires 1 <= i
    requires forall k :: i <= k < |s| ==> s[k] != q
    ensures QuotedEnd(s, q, i, None) == None
    decreases |s| - i
  {
    if i < |s| {
      QuotedEndUnclosed(s, q, i + 1);
    }
  }

  /** A quote that is never closed is a token of its own. */
  lemma UnclosedQuoteToken(q: char, rest: string, delimiters: seq<string>)
    requires q == '\'' || q == '"' || q == '`'
    requires forall k :: 0 <= k < |rest| ==> rest[k] != q
    requires NoDelimiterStartsWith(q, delimiters)
    ensures Lex([q] + rest, delimiters) == [Token(Unrecognized, [q])] + Lex(rest, delimiters)
  {
    var s := [q] + rest;
    assert s[0] == q;
    assert |s| >= 2 ==> s[..2][0] == q;
    QuotedEndUnclosed(s, q, 1);
    NoDelimiterMatches(s, delimiters);
    LexCons(Token(Unrecognized, [q]), rest, delimiters);
  }

  lemma {:induction false} LineRunOf(x: string, rest: string)
    requires forall i :: 0 <= i < |x| ==> x[i] != '\r' && x[i] != '\n'
    requires rest == [] || rest[0] == '\r' || rest[0] == '\n'
    ensures LineRun(x + rest) == |x|
    decreases |x|
  {
    if x == [] {
      assert x + rest == rest;
    } else {
      assert (x + rest)[1..] == x[1..] + rest;
      LineRunOf(x[1..], rest);
    }
  }

  /** A line comment ended by a line feed is one token, the line feed
      included. */
  lemma LineCommentToken(x: string, rest: string, delimiters: seq<string>)
    requires forall i :: 0 <= i < |x| ==> x[i] != '\r' && x[i] != '\n'
    requires NoDelimiterStartsWith('-', delimiters)
    ensures Lex("--" + x + "\n" + rest, delimiters) == [Token(LineComment, "--" + x + "\n")] + Lex(rest, delimiters)
  {
    var s := "--" + x + "\n" + rest;
    var n := |x| + 3;
    assert s[0] == '-' && s[..2] == "--";
    assert s[2..] == x + ("\n" + rest);
    LineRunOf(x, "\n" + rest);
    assert s[n - 1] == '\n';
    NoDelimiterMatches(s, delimiters);
    assert LineCommentLength(s) == n;
    assert s[..n] == "--" + x + "\n";
    assert s == s[..n] + rest;
    LexCons(Token(LineComment, "--" + x + "\n"), rest, delimiters);
  }

  /** A line comment that runs to the end of the text is its last token. */
  lemma LineCommentAtEnd(x: string, delimiters: seq<string>)
    requires forall i :: 0 <= i < |x| ==> x[i] != '\r' && x[i] != '\n'
    requires NoDelimiterStartsWith('-', delimiters)
    ensures Lex("--" + x, delimiters) == [Token(LineComment, "--" + x)]
  {
    var s := "--" + x;
    assert s[0] == '-' && s[..2] == "--";
    assert s[2..] == x;
    LineRunAll(x);
    NoDelimiterMatches(s, delimiters);
    assert LineCommentLength(s) == |s|;
    assert s[..|s|] == s;
    LexWhole(s, delimiters);
  }

  /** Text without line breaks. */
  predicate NoLineBreak(x: string)
  {
    forall i :: 0 <= i < |x| ==> x[i] != '\r' && x[i] != '\n'
  }

  /** The lexer reads token t at the start of t's text followed by the
      text after: each token class ends where the next character cannot
      continue it. */
  predicate Lexes(t: Token, after: string, delimiters: seq<string>)
  {
    t.text != [] &&
    match t.kind
    case Delimiter =>
      t.text in delimiters && forall e :: e in delimiters && e != [] && e != t.text ==> e[0] != t.text[0]
    case Whitespace =>
      (forall i :: 0 <= i < |t.text| ==> IsWhitespace(t.text[i])) &&
      (after == [] || !IsWhitespace(after[0])) && NoDelimiterStartsWith(t.text[0], delimiters)
    case Word =>
      (forall i :: 0 <= i < |t.text| ==> IsWordChar(t.text[i])) &&
      (after == [] || !IsWordChar(after[0])) && NoDelimiterStartsWith(t.text[0], delimiters)
    case LineComment =>
      |t.text| >= 2 && t.text[..2] == "--" && NoDelimiterStartsWith('-', delimiters) &&
      ((t.text[|t.text| - 1] == '\n' && NoLineBreak(t.text[2..|t.text| - 1])) ||
       (after == [] && NoLineBreak(t.text[2..])))
    case BlockComment => false
    case StringLiteral => QuotedLexes('\'', t.text, after, delimiters)
    case QuotedIdentifier => QuotedLexes('"', t.text, after, delimiters)
    case BackquotedIdentifier => QuotedLexes('`', t.text, after, delimiters)
    case Unrecognized =>
      var c := t.text[0];
      |t.text| == 1 && NoDelimiterStartsWith(c, delimiters) &&
      if c == '\'' || c == '"' || c == '`' then forall k :: 0 <= k < |after| ==> after[k] != c
      else
        !IsWhitespace(c) && !IsWordChar(c) &&
        (c == '-' ==> after == [] || after[0] != '-') &&
        (c == '/' ==> after == [] || after[0] != '*')
  }

  predicate QuotedLexes(q: char, text: string, after: string, delimiters: seq<string>)
  {
    |text| >= 2 && text[0] == q && text[|text| - 1] == q &&
    QuotedContent(text[1..|text| - 1], q) &&
    (after == [] || after[0] != q) && NoDelimiterStartsWith(q, delimiters)
  }

  /** Every token of the list is read as itself from its text followed by
      the texts of the tokens after it. */
  predicate Separated(tokens: seq<Token>, delimiters: seq<string>)
    decreases |tokens|
  {
    tokens == [] ||
    (Lexes(tokens[0], Text(tokens[1..]), delimiters) && Separated(tokens[1..], delimiters))
  }

  /** One token read from the start of the text. */
  lemma LexesStep(t: Token, after: string, delimiters: seq<string>)
    requires Lexes(t, after, delimiters)
    ensures Lex(t.text + after, delimiters) == [t] + Lex(after, delimiters)
  {
    match t.kind
    case Delimiter => DelimiterToken(t.text, after, delimiters);
    case Whitespace => WhitespaceToken(t.text, after, delimiters);
    case Word => WordToken(t.text, after, delimiters);
    case LineComment =>
      if t.text[|t.text| - 1] == '\n' && NoLineBreak(t.text[2..|t.text| - 1]) {
        var x := t.text[2..|t.text| - 1];
        assert t.text == "--" + x + "\n";
        LineCommentToken(x, after, delimiters);
      } else {
        var x := t.text[2..];
        assert t.text == "--" + x;
        assert t.text + after == t.text;
        LineCommentAtEnd(x, delimiters);
      }
    case StringLiteral => QuotedLexesStep('\'', t, after, delimiters);
    case QuotedIdentifier => QuotedLexesStep('"', t, after, delimiters);
    case BackquotedIdentifier => QuotedLexesStep('`', t, after, delimiters);
    case Unrecognized =>
      var c := t.text[0];
      assert t.text == [c];
      if c == '\'' || c == '"' || c == '`' {
        UnclosedQuoteToken(c, after, delimiters);
      } else {
        OtherToken(c, after, delimiters);
      }
  }

  lemma QuotedLexesStep(q: char, t: Token, after: string, delimiters: seq<string>)
    requires QuoteOpens(q, t.kind) && QuotedLexes(q, t.text, after, delimiters)
    ensures Lex(t.text + after, delimiters) == [t] + Lex(after, delimiters)
  {
    var x := t.text[1..|t.text| - 1];
    assert t.text == [q] + x + [q];
    QuotedTokenLexes(q, t.kind, x, after, delimiters);
  }

  /** Lexing inverts writing out: separated tokens, written one after the
      other, lex back to themselves. */
  lemma {:induction false} LexTokens(tokens: seq<Token>, delimiters: seq<string>)
    requires Separated(tokens, delimiters)
    ensures Lex(Text(tokens), delimiters) == tokens
    decreases |tokens|
  {
    if tokens != [] {
      LexesStep(tokens[0], Text(tokens[1..]), delimiters);
      LexTokens(tokens[1..], delimiters);
    }
  }

  // ---------------------------------------------------------------------
  // Trimming
  // ---------------------------------------------------------------------

  function TrimStart(s: string): (r: string)
    ensures |r| <= |s| && r == s[|s| - |r|..]
    ensures r == [] || !IsBlank(r[0])
    ensures forall i :: 0 <= i < |s| - |r| ==> IsBlank(s[i])
  {
    if s != [] && IsBlank(s[0]) then TrimStart(s[1..]) else s
  }

  function TrimEnd(s: string): (r: string)
    ensures |r| <= |s| && r == s[..|r|]
    ensures r == [] || !IsBlank(r[|r| - 1])
    ensures forall i :: |r| <= i < |s| ==> IsBlank(s[i])
  {
    if s != [] && IsBlank(s[|s| - 1]) then TrimEnd(s[..|s| - 1]) else s
  }

  /** `String.trim`: the text without its leading and trailing blanks. */
  function Trim(s: string): string
  {
    TrimEnd(TrimStart(s))
  }

  /** The trimmed text is a slice of the text with only blanks around it,
      and it neither starts nor ends with a blank. */
  lemma TrimIsSlice(s: string) returns (i: nat, j: nat)
    ensures i <= j <= |s| && Trim(s) == s[i..j]
    ensures forall k :: 0 <= k < i ==> IsBlank(s[k])
    ensures forall k :: j <= k < |s| ==> IsBlank(s[k])
    ensures Trim(s) == [] || (!IsBlank(Trim(s)[0]) && !IsBlank(Trim(s)[|Trim(s)| - 1]))
  {
    var t := TrimStart(s);
    var r := TrimEnd(t);
    i := |s| - |t|;
    j := i + |r|;
    assert Trim(s) == r;
    SliceOfSuffix(s, t, r, i);
  }

  /** A prefix r of the suffix t of s that starts at i, followed in t by
      blanks only. */
  lemma SliceOfSuffix(s: string, t: string, r: string, i: nat)
    requires i + |t| == |s| && t == s[i..]
    requires |r| <= |t| && r == t[..|r|]
    requires forall k :: |r| <= k < |t| ==> IsBlank(t[k])
    ensures r == s[i..i + |r|]
    ensures forall k :: i + |r| <= k < |s| ==> IsBlank(s[k])
  {
    forall k | i + |r| <= k < |s| ensures IsBlank(s[k]) {
      assert s[k] == t[k - i];
    }
  }

  /** A text of blanks trims to nothing, and only such a text. */
  lemma TrimEmpty(s: string)
    ensures Trim(s) == [] <==> forall i :: 0 <= i < |s| ==> IsBlank(s[i])
  {
    var t := TrimStart(s);
    if Trim(s) == [] {
      assert t == [];
    }
  }

  // ---------------------------------------------------------------------
  // Splitting
  // ---------------------------------------------------------------------

  /** A complete statement and the delimiter that ended it. */
  datatype Statement = Statement(statement: string, terminator: string)

  /** The delimiters of the one-argument constructor. */
  const DefaultDelimiters: seq<string> := [";"]

  /** The splitter's state after a run of tokens: the complete statements
      found so far, and the text since the last delimiter. A delimiter ends
      the statement buffered before it, which is kept, trimmed, only when it
      is not blank; any other token is appended to the buffer. */
  function Split(tokens: seq<Token>): (r: (seq<Statement>, string))
  {
    if tokens == [] then ([], "")
    else
      var (complete, buffer) := Split(tokens[..|tokens| - 1]);
      var t := tokens[|tokens| - 1];
      if t.kind == Delimiter then
        var statement := Trim(buffer);
        (if statement != [] then complete + [Statement(statement, t.text)] else complete, "")
      else (complete, buffer + t.text)
  }

  /** One step of the splitter. */
  lemma SplitStep(tokens: seq<Token>, t: Token)
    ensures Split(tokens + [t]) ==
      var (complete, buffer) := Split(tokens);
      if t.kind == Delimiter then
        (if Trim(buffer) != [] then complete + [Statement(Trim(buffer), t.text)] else complete, "")
      else (complete, buffer + t.text)
  {
    assert (tokens + [t])[..|tokens|] == tokens;
  }

  function CompleteStatements(sql: string, delimiters: seq<string>): seq<Statement>
  {
    Split(Lex(sql, delimiters)).0
  }

  function PartialStatement(sql: string, delimiters: seq<string>): string
  {
    Trim(Split(Lex(sql, delimiters)).1)
  }

  /** The splitter object: its constructor reads the token stream once and
      records the complete statements and the partial one. */
  class StatementSplitter {
    const completeStatements: seq<Statement>
    const partialStatement: string

    constructor (sql: string, delimiters: seq<string>)
      ensures completeStatements == CompleteStatements(sql, delimiters)
      ensures partialStatement == PartialStatement(sql, delimiters)
    {
      var list: seq<Statement> := [];
      var sb: string := "";
      var rest := sql;
      ghost var seen: seq<Token> := [];
      ghost var tokens := Lex(sql, delimiters);
      assert seen + tokens == tokens;
      while rest != []
        invariant seen + Lex(rest, delimiters) == tokens
        invariant (list, sb) == Split(seen)
        decreases |rest|
      {
        var token := NextToken(rest, delimiters);
        LexAdvance(seen, rest, delimiters);
        SplitStep(seen, token);
        if token.kind == Delimiter {
          var statement := Trim(sb);
          if statement != [] {
            list := list + [Statement(statement, token.text)];
          }
          sb := "";
        } else {
          sb := sb + token.text;
        }
        seen := seen + [token];
        rest := rest[|token.text|..];
      }
      assert seen == tokens by {
        assert Lex(rest, delimiters) == [];
      }
      completeStatements := list;
      partialStatement := Trim(sb);
    }
  }

  /** Every complete statement is non-blank and trimmed, and ends at one of
      the delimiters; the partial statement is trimmed. */
  lemma {:induction false} SplitStatementsTrimmed(tokens: seq<Token>, delimiters: seq<string>)
    requires forall t :: t in tokens && t.kind == Delimiter ==> t.text in delimiters
    ensures forall st :: st in Split(tokens).0 ==>
      st.statement != [] && Trim(st.statement) == st.statement && st.terminator in delimiters
  {
    if tokens != [] {
      var front, last := tokens[..|tokens| - 1], tokens[|tokens| - 1];
      assert tokens == front + [last];
      assert forall t :: t in front ==> t in tokens;
      assert last in tokens;
      SplitStatementsTrimmed(front, delimiters);
      SplitStep(front, last);
      if last.kind == Delimiter && Trim(Split(front).1) != [] {
        var st := Statement(Trim(Split(front).1), last.text);
        TrimIdempotent(Split(front).1);
        assert Split(tokens).0 == Split(front).0 + [st];
      }
    }
  }

  lemma TrimIdempotent(s: string)
    ensures Trim(Trim(s)) == Trim(s)
  {
    var i, j := TrimIsSlice(s);
    var t := Trim(s);
    if t != [] {
      assert TrimStart(t) == t;
    }
  }

  /** The statements of a text are trimmed, non-blank and ended by one of
      the delimiters, and the partial statement is trimmed too. */
  lemma StatementsAreTrimmed(sql: string, delimiters: seq<string>)
    ensures forall st :: st in CompleteStatements(sql, delimiters) ==>
      st.statement != [] && Trim(st.statement) == st.statement && st.terminator in delimiters
    ensures Trim(PartialStatement(sql, delimiters)) == PartialStatement(sql, delimiters)
  {
    SplitStatementsTrimmed(Lex(sql, delimiters), delimiters);
    TrimIdempotent(Split(Lex(sql, delimiters)).1);
  }

  /** Without delimiter tokens nothing is complete and everything is
      buffered. */
  lemma {:induction false} SplitWithoutDelimiters(tokens: seq<Token>)
    requires forall t :: t in tokens ==> t.kind != Delimiter
    ensures Split(tokens) == ([], Text(tokens))
  {
    if tokens != [] {
      var front := tokens[..|tokens| - 1];
      var last := tokens[|tokens| - 1];
      assert forall t :: t in front ==> t in tokens;
      SplitWithoutDelimiters(front);
      assert tokens == front + [last];
      SplitStep(front, last);
      TextAppend(front, [last]);
      assert Text([last]) == last.text;
    }
  }

  /** A run of tokens up to the first delimiter becomes one statement, its
      text trimmed and paired with that delimiter, exactly when the text is
      not blank: a segment of comments alone is a statement, a blank one is
      dropped. */
  lemma SegmentBecomesStatement(seg: seq<Token>, d: string)
    requires forall t :: t in seg ==> t.kind != Delimiter
    ensures Split(seg + [Token(Delimiter, d)]) ==
      (if Trim(Text(seg)) != [] then [Statement(Trim(Text(seg)), d)] else [], "")
  {
    var tok := Token(Delimiter, d);
    SplitWithoutDelimiters(seg);
    SplitStep(seg, tok);
    var st := Trim(Text(seg));
    var none: seq<Statement> := [];
    assert Split(seg + [tok]) == (if st != [] then none + [Statement(st, d)] else none, "");
    assert none + [Statement(st, d)] == [Statement(st, d)];
  }

  /** A text in which no delimiter occurs is one partial statement: the
      whole text, trimmed. */
  lemma NoDelimiterIsPartial(sql: string, delimiters: seq<string>)
    requires forall i, d :: 0 <= i < |sql| && d in delimiters && d != [] ==> !StartsWith(sql[i..], d)
    ensures CompleteStatements(sql, delimiters) == []
    ensures PartialStatement(sql, delimiters) == Trim(sql)
  {
    NoDelimiterToken(sql, delimiters);
    SplitWithoutDelimiters(Lex(sql, delimiters));
    LexSpellsInput(sql, delimiters);
  }

  /** A delimiter empties the buffer: the tokens after it are split as a
      text of their own, their statements following the ones before. */
  lemma {:induction false} SplitAfterDelimiter(prefix: seq<Token>, d: string, more: seq<Token>)
    ensures Split(prefix + [Token(Delimiter, d)] + more) ==
      (Split(prefix + [Token(Delimiter, d)]).0 + Split(more).0, Split(more).1)
    decreases |more|
  {
    var head := prefix + [Token(Delimiter, d)];
    SplitStep(prefix, Token(Delimiter, d));
    if more == [] {
      var none: seq<Statement> := [];
      assert head + more == head;
      assert Split(head).0 + none == Split(head).0;
    } else {
      var front, last := more[..|more| - 1], more[|more| - 1];
      assert head + more == (head + front) + [last];
      assert more == front + [last];
      SplitAfterDelimiter(prefix, d, front);
      SplitStepAfter(Split(head).0, head, front, last);
    }
  }

  /** One step of the splitter on tokens that follow statements already
      complete. */
  lemma SplitStepAfter(done: seq<Statement>, head: seq<Token>, front: seq<Token>, last: Token)
    requires Split(head + front) == (done + Split(front).0, Split(front).1)
    ensures Split(head + front + [last]) == (done + Split(front + [last]).0, Split(front + [last]).1)
  {
    SplitStep(head + front, last);
    SplitStep(front, last);
    if last.kind == Delimiter && Trim(Split(front).1) != [] {
      ConcatAssociates(done, Split(front).0, [Statement(Trim(Split(front).1), last.text)]);
    }
  }

  /** Everything after the last delimiter token is the partial statement,
      trimmed; the complete statements are those that end at or before that
      delimiter, and a text that ends with a delimiter leaves no partial
      statement. */
  lemma PartialAfterLastDelimiter(sql: string, delimiters: seq<string>, prefix: seq<Token>, d: string, rest: seq<Token>)
    requires Lex(sql, delimiters) == prefix + [Token(Delimiter, d)] + rest
    requires forall t :: t in rest ==> t.kind != Delimiter
    ensures Split(Lex(sql, delimiters)) == (Split(prefix + [Token(Delimiter, d)]).0, Text(rest))
    ensures sql == Text(prefix) + d + Text(rest)
    ensures CompleteStatements(sql, delimiters) == Split(prefix + [Token(Delimiter, d)]).0
    ensures PartialStatement(sql, delimiters) == Trim(Text(rest))
    ensures rest == [] ==> PartialStatement(sql, delimiters) == ""
  {
    var head := prefix + [Token(Delimiter, d)];
    var none: seq<Statement> := [];
    SplitAfterDelimiter(prefix, d, rest);
    SplitWithoutDelimiters(rest);
    assert Split(head).0 + none == Split(head).0;
    LexSpellsInput(sql, delimiters);
    TextAppend(head, rest);
    TextAppend(prefix, [Token(Delimiter, d)]);
    assert Text([Token(Delimiter, d)]) == d;
  }

  /** With only delimiters and whitespace tokens there are no statements and
      the partial statement is empty: empty segments are dropped. */
  lemma {:induction false} BlankSegmentsDropped(tokens: seq<Token>)
    requires forall t :: t in tokens ==> t.kind == Delimiter || t.kind == Whitespace
    requires forall t :: t in tokens && t.kind == Whitespace ==> forall i :: 0 <= i < |t.text| ==> IsBlank(t.text[i])
    ensures Split(tokens).0 == []
    ensures forall i :: 0 <= i < |Split(tokens).1| ==> IsBlank(Split(tokens).1[i])
  {
    if tokens != [] {
      var front, last := tokens[..|tokens| - 1], tokens[|tokens| - 1];
      assert tokens == front + [last];
      assert forall t :: t in front ==> t in tokens;
      assert last in tokens;
      BlankSegmentsDropped(front);
      TrimEmpty(Split(front).1);
      SplitStep(front, last);
      if last.kind == Whitespace {
        var b := Split(front).1;
        assert forall i :: 0 <= i < |b + last.text| ==> (b + last.text)[i] == if i < |b| then b[i] else last.text[i - |b|];
      }
    }
  }

  /** A text of whitespace alone has no statements and an empty partial
      statement (when no delimiter starts with whitespace). */
  lemma WhitespaceOnlyIsEmpty(sql: string, delimiters: seq<string>)
    requires forall i :: 0 <= i < |sql| ==> IsWhitespace(sql[i])
    requires forall d :: d in delimiters && d != [] ==> !IsWhitespace(d[0])
    ensures CompleteStatements(sql, delimiters) == []
    ensures PartialStatement(sql, delimiters) == ""
  {
    WhitespaceOnlyLexes(sql, delimiters);
    BlankSegmentsDropped(Lex(sql, delimiters));
    TrimEmpty(Split(Lex(sql, delimiters)).1);
  }

  /** Whitespace lexes to one whitespace token. */
  lemma WhitespaceOnlyLexes(s: string, delimiters: seq<string>)
    requires forall i :: 0 <= i < |s| ==> IsWhitespace(s[i])
    requires forall d :: d in delimiters && d != [] ==> !IsWhitespace(d[0])
    ensures forall t :: t in Lex(s, delimiters) ==>
      t.kind == Whitespace && forall i :: 0 <= i < |t.text| ==> IsBlank(t.text[i])
  {
    if s != [] {
      assert MatchingDelimiter(s, delimiters).None?;
      assert WhitespaceRun(s) == |s|;
      assert s[..|s|] == s;
      assert s[|s|..] == [];
      assert Lex(s, delimiters) == [Token(Whitespace, s)];
    }
  }

  // ---------------------------------------------------------------------
  // Quoted tokens
  // ---------------------------------------------------------------------

  /** Text that may stand between two quotes: characters other than the
      quote, and doubled quotes. */
  predicate QuotedContent(x: string, q: char)
    decreases |x|
  {
    x == [] ||
    (x[0] != q && QuotedContent(x[1..], q)) ||
    (|x| >= 2 && x[0] == q && x[1] == q && QuotedContent(x[2..], q))
  }

  /** Scanning quoted content ends at the closing quote, provided no quote
      follows it (which would make the closing quote half of an escape). */
  lemma {:induction false} QuotedEndScans(s: string, q: char, i: nat, last: Option<nat>, x: string, rest: string)
    requires 1 <= i <= |s| && (last.Some? ==> 2 <= last.value <= |s|)
    requires QuotedContent(x, q)
    requires s[i..] == x + [q] + rest
    requires rest == [] || rest[0] != q
    ensures QuotedEnd(s, q, i, last) == Some(i + |x| + 1)
    decreases |x|
  {
    if x == [] {
      assert s[i] == s[i..][0] == q;
      assert i + 1 < |s| ==> s[i + 1] == s[i..][1] == rest[0];
    } else if x[0] != q && QuotedContent(x[1..], q) {
      assert s[i] == s[i..][0] == x[0];
      assert s[i + 1..] == s[i..][1..] == x[1..] + [q] + rest;
      QuotedEndScans(s, q, i + 1, last, x[1..], rest);
    } else {
      assert s[i] == s[i..][0] == q;
      assert s[i + 1] == s[i..][1] == q;
      assert s[i + 2..] == s[i..][2..] == x[2..] + [q] + rest;
      QuotedEndScans(s, q, i + 2, Some(i + 1), x[2..], rest);
    }
  }

  /** A terminated single-quoted string is one token, whatever delimiters or
      comment markers it holds: a delimiter inside it splits nothing. */
  lemma QuotedStringIsOneToken(x: string, rest: string, delimiters: seq<string>)
    requires QuotedContent(x, '\'')
    requires rest == [] || rest[0] != '\''
    requires forall d :: d in delimiters && d != [] ==> d[0] != '\''
    ensures var s := "'" + x + "'" + rest;
      Lex(s, delimiters) == [Token(StringLiteral, "'" + x + "'")] + Lex(rest, delimiters)
  {
    var s := "'" + x + "'" + rest;
    var n := |x| + 2;
    assert s[1..] == x + ['\''] + rest;
    assert QuotedEnd(s, '\'', 1, None) == Some(n) by {
      QuotedEndScans(s, '\'', 1, None, x, rest);
    }
    assert MatchingDelimiter(s, delimiters).None?;
    assert !IsWhitespace(s[0]) && !StartsWith(s, "--") && !StartsWith(s, "/*");
    assert NextToken(s, delimiters) == Token(StringLiteral, s[..n]);
    assert s[..n] == "'" + x + "'";
    assert s[n..] == rest;
    LexStep(s, delimiters);
  }

  // ---------------------------------------------------------------------
  // Empty statements
  // ---------------------------------------------------------------------

  /** Whether the text holds nothing but whitespace and comments: reads
      tokens until one that is not hidden, or the end. */
  method IsEmptyStatement(sql: string) returns (empty: bool)
    ensures empty <==> forall t :: t in Lex(sql, []) ==> IsHidden(t)
  {
    var rest := sql;
    ghost var seen: seq<Token> := [];
    while rest != []
      invariant seen + Lex(rest, []) == Lex(sql, [])
      invariant forall t :: t in seen ==> IsHidden(t)
      decreases |rest|
    {
      var token := NextToken(rest, []);
      LexStep(rest, []);
      if !IsHidden(token) {
        assert token in Lex(sql, []);
        return false;
      }
      seen := seen + [token];
      rest := rest[|token.text|..];
    }
    return true;
  }

  /** A text whose first character is not whitespace and which does not
      start a comment is not empty; so "x", "123" and "z#oops" are not. */
  lemma NonEmptyStart(sql: string)
    requires sql != [] && !IsWhitespace(sql[0]) && !StartsWith(sql, "--") && !StartsWith(sql, "/*")
    ensures exists t :: t in Lex(sql, []) && !IsHidden(t)
  {
    LexStep(sql, []);
    var t := NextToken(sql, []);
    assert t.kind != Whitespace && t.kind != LineComment && t.kind != BlockComment;
    assert t in Lex(sql, []);
  }

  /** Whitespace alone is empty. */
  lemma WhitespaceIsEmpty(sql: string)
    requires forall i :: 0 <= i < |sql| ==> IsWhitespace(sql[i])
    ensures forall t :: t in Lex(sql, []) ==> IsHidden(t)
  {
    WhitespaceOnlyLexes(sql, []);
  }

  /** A line comment running to the end of the text is empty. */
  lemma LineCommentIsEmpty(x: string)
    requires forall i :: 0 <= i < |x| ==> x[i] != '\r' && x[i] != '\n'
    ensures Lex("--" + x, []) == [Token(LineComment, "--" + x)]
  {
    var s := "--" + x;
    assert NextToken(s, []) == Token(LineComment, s) by {
      assert StartsWith(s, "--") && !IsWhitespace(s[0]);
      assert LineCommentLength(s) == |s| by {
        assert s[2..] == x;
        LineRunAll(x);
      }
      assert s[..|s|] == s;
    }
    LexWhole(s, []);
  }

  lemma {:induction false} LineRunAll(x: string)
    requires forall i :: 0 <= i < |x| ==> x[i] != '\r' && x[i] != '\n'
    ensures LineRun(x) == |x|
  {
    if x != [] {
      LineRunAll(x[1..]);
    }
  }

  // ---------------------------------------------------------------------
  // Squeezing
  // ---------------------------------------------------------------------

  /** A token as squeezing writes it: whitespace as one space. */
  function SqueezedToken(t: Token): string
  {
    if t.kind == Whitespace then " " else t.text
  }

  /** The tokens' texts with every whitespace token written as one space. */
  function SqueezedText(tokens: seq<Token>): string
  {
    if tokens == [] then [] else SqueezedToken(tokens[0]) + SqueezedText(tokens[1..])
  }

  /** Squeezing the text token by token. */
  lemma SqueezeStep(s: string)
    requires s != []
    ensures SqueezedText(Lex(s, [])) ==
      SqueezedToken(NextToken(s, [])) + SqueezedText(Lex(s[|NextToken(s, []).text|..], []))
  {
    var t := NextToken(s, []);
    LexStep(s, []);
    assert ([t] + Lex(s[|t.text|..], []))[1..] == Lex(s[|t.text|..], []);
  }

  function Squeezed(sql: string): string
  {
    Trim(SqueezedText(Lex(sql, [])))
  }

  /** Moving one token from the text to the squeezed output. */
  lemma SqueezeAdvance(sb: string, rest: string, all: string)
    requires rest != [] && sb + SqueezedText(Lex(rest, [])) == all
    ensures (sb + SqueezedToken(NextToken(rest, []))) + SqueezedText(Lex(rest[|NextToken(rest, []).text|..], [])) == all
  {
    var t := NextToken(rest, []);
    SqueezeStep(rest);
    ConcatAssociates(sb, SqueezedToken(t), SqueezedText(Lex(rest[|t.text|..], [])));
  }

  lemma ConcatAssociates<T>(a: seq<T>, b: seq<T>, c: seq<T>)
    ensures (a + b) + c == a + (b + c)
  {
  }

  /** Collapses every whitespace run to one space and trims the result; the
      text of every other token, quoted ones included, is kept. */
  method SqueezeStatement(sql: string) returns (squeezed: string)
    ensures squeezed == Squeezed(sql)
  {
    var sb := "";
    var rest := sql;
    ghost var all := SqueezedText(Lex(sql, []));
    while rest != []
      invariant sb + SqueezedText(Lex(rest, [])) == all
      decreases |rest|
    {
      var token := NextToken(rest, []);
      SqueezeAdvance(sb, rest, all);
      if token.kind == Whitespace {
        sb := sb + " ";
      } else {
        sb := sb + token.text;
      }
      rest := rest[|token.text|..];
    }
    assert sb == all by {
      assert Lex(rest, []) == [];
    }
    squeezed := Trim(sb);
  }

  /** The text without its blanks. */
  function NonBlank(s: string): (r: string)
    ensures |r| <= |s|
  {
    if s == [] then [] else (if IsBlank(s[0]) then [] else [s[0]]) + NonBlank(s[1..])
  }

  lemma {:induction false} NonBlankAppend(a: string, b: string)
    ensures NonBlank(a + b) == NonBlank(a) + NonBlank(b)
  {
    if a != [] {
      assert (a + b)[1..] == a[1..] + b;
      NonBlankAppend(a[1..], b);
    } else {
      assert a + b == b;
    }
  }

  lemma {:induction false} NonBlankOfBlanks(s: string)
    requires forall i :: 0 <= i < |s| ==> IsBlank(s[i])
    ensures NonBlank(s) == []
  {
    if s != [] {
      NonBlankOfBlanks(s[1..]);
    }
  }

  lemma SliceInThree(s: string, i: nat, j: nat)
    requires i <= j <= |s|
    ensures s == s[..i] + s[i..j] + s[j..]
  {
    assert s[..j] == s[..i] + s[i..j];
  }

  lemma TrimKeepsNonBlank(s: string)
    ensures NonBlank(Trim(s)) == NonBlank(s)
  {
    var i, j := TrimIsSlice(s);
    var front, middle, back := s[..i], s[i..j], s[j..];
    assert NonBlank(front) == [] by {
      NonBlankOfBlanks(front);
    }
    assert NonBlank(back) == [] by {
      assert forall k :: 0 <= k < |back| ==> back[k] == s[j + k];
      NonBlankOfBlanks(back);
    }
    assert NonBlank(s) == NonBlank(front) + NonBlank(middle) + NonBlank(back) by {
      SliceInThree(s, i, j);
      NonBlankAppend(front + middle, back);
      NonBlankAppend(front, middle);
    }
    assert NonBlank(s) == NonBlank(middle);
  }

  /** Squeezing only replaces whitespace tokens. */
  lemma {:induction false} SqueezedTextKeepsNonBlank(tokens: seq<Token>)
    requires forall t :: t in tokens ==> t.text != []
    requires forall t :: t in tokens && t.kind == Whitespace ==> forall i :: 0 <= i < |t.text| ==> IsWhitespace(t.text[i])
    ensures NonBlank(SqueezedText(tokens)) == NonBlank(Text(tokens))
    ensures |SqueezedText(tokens)| <= |Text(tokens)|
  {
    if tokens != [] {
      var t := tokens[0];
      assert forall u :: u in tokens[1..] ==> u in tokens;
      SqueezedTextKeepsNonBlank(tokens[1..]);
      var piece := if t.kind == Whitespace then " " else t.text;
      NonBlankAppend(piece, SqueezedText(tokens[1..]));
      NonBlankAppend(t.text, Text(tokens[1..]));
      if t.kind == Whitespace {
        assert t in tokens;
        NonBlankOfBlanks(t.text);
        NonBlankOfBlanks(" ");
      }
    }
  }

  /** Whitespace tokens hold whitespace only. */
  lemma {:induction false} WhitespaceTokens(s: string, delimiters: seq<string>)
    ensures forall t :: t in Lex(s, delimiters) && t.kind == Whitespace ==>
      forall i :: 0 <= i < |t.text| ==> IsWhitespace(t.text[i])
    decreases |s|
  {
    if s != [] {
      var t := NextToken(s, delimiters);
      WhitespaceTokens(s[|t.text|..], delimiters);
    }
  }

  /** Squeezing changes only blanks: the text's other characters survive
      in order, and the result is never longer than the text. */
  lemma SqueezeKeepsContent(sql: string)
    ensures NonBlank(Squeezed(sql)) == NonBlank(sql)
    ensures |Squeezed(sql)| <= |sql|
    ensures Trim(Squeezed(sql)) == Squeezed(sql)
  {
    var tokens := Lex(sql, []);
    WhitespaceTokens(sql, []);
    SqueezedTextKeepsNonBlank(tokens);
    LexSpellsInput(sql, []);
    TrimKeepsNonBlank(SqueezedText(tokens));
    TrimIdempotent(SqueezedText(tokens));
  }

  /** Whitespace alone squeezes to nothing. */
  lemma SqueezeWhitespace(sql: string)
    requires forall i :: 0 <= i < |sql| ==> IsWhitespace(sql[i])
    ensures Squeezed(sql) == ""
  {
    SqueezeKeepsContent(sql);
    NonBlankAllBlank(sql);
    NonBlankEmpty(Squeezed(sql));
    TrimEmpty(Squeezed(sql));
  }

  lemma {:induction false} SqueezedTextAppend(a: seq<Token>, b: seq<Token>)
    ensures SqueezedText(a + b) == SqueezedText(a) + SqueezedText(b)
    decreases |a|
  {
    if a == [] {
      assert a + b == b;
    } else {
      assert (a + b)[0] == a[0];
      assert (a + b)[1..] == a[1..] + b;
      SqueezedTextAppend(a[1..], b);
      ConcatAssociates(SqueezedToken(a[0]), SqueezedText(a[1..]), SqueezedText(b));
    }
  }

  /** Squeezing keeps every token but whitespace verbatim: a quoted
      identifier or string literal keeps the blanks inside it. */
  lemma TokenSqueezedVerbatim(a: seq<Token>, t: Token, b: seq<Token>)
    requires t.kind != Whitespace
    ensures SqueezedText(a + [t] + b) == SqueezedText(a) + t.text + SqueezedText(b)
  {
    SqueezedTextAppend(a + [t], b);
    SqueezedTextAppend(a, [t]);
    assert SqueezedText([t]) == t.text;
  }

  /** A whitespace token is exactly what a whitespace character starts. */
  lemma PlainWhitespace(s: string)
    requires s != []
    ensures PlainToken(s).kind == Whitespace <==> IsWhitespace(s[0])
  {
  }

  /** A whitespace token at the start of the text is the whole run of
      whitespace there. */
  lemma WhitespaceTokenIsRun(s: string, delimiters: seq<string>)
    requires s != [] && NextToken(s, delimiters).kind == Whitespace
    ensures NextToken(s, delimiters).text == s[..WhitespaceRun(s)]
    ensures WhitespaceRun(s) < |s| ==> !IsWhitespace(s[WhitespaceRun(s)])
  {
    assert MatchingDelimiter(s, delimiters).None?;
    assert NextToken(s, delimiters) == PlainToken(s);
    PlainWhitespace(s);
  }

  /** Text that does not start with whitespace does not start with a
      whitespace token. */
  lemma NotAfterWhitespace(s: string, delimiters: seq<string>)
    requires s != [] && !IsWhitespace(s[0])
    ensures NextToken(s, delimiters).kind != Whitespace
  {
    PlainWhitespace(s);
  }

  /** The lexer makes every whitespace run one token: no two consecutive
      tokens are both whitespace. */
  lemma {:induction false} WhitespaceTokensMaximal(s: string, delimiters: seq<string>)
    ensures forall i :: 0 <= i < |Lex(s, delimiters)| - 1 ==>
      Lex(s, delimiters)[i].kind != Whitespace || Lex(s, delimiters)[i + 1].kind != Whitespace
    decreases |s|
  {
    if s != [] {
      var t := NextToken(s, delimiters);
      var rest := s[|t.text|..];
      LexStep(s, delimiters);
      WhitespaceTokensMaximal(rest, delimiters);
      if t.kind == Whitespace && rest != [] {
        WhitespaceTokenIsRun(s, delimiters);
        assert rest[0] == s[WhitespaceRun(s)];
        NotAfterWhitespace(rest, delimiters);
        LexStep(rest, delimiters);
      }
    }
  }

  lemma NeighboursNotWhitespace(tokens: seq<Token>, a: seq<Token>, w: Token, b: seq<Token>)
    requires tokens == a + [w] + b && w.kind == Whitespace
    requires forall i :: 0 <= i < |tokens| - 1 ==> tokens[i].kind != Whitespace || tokens[i + 1].kind != Whitespace
    ensures a != [] ==> a[|a| - 1].kind != Whitespace
    ensures b != [] ==> b[0].kind != Whitespace
  {
    assert tokens[|a|] == w;
    if a != [] {
      assert tokens[|a| - 1] == a[|a| - 1];
    }
    if b != [] {
      assert tokens[|a| + 1] == b[0];
    }
  }

  /** In the squeezed text a whitespace token, which holds a maximal run of
      whitespace, becomes exactly one space, between the squeezed tokens
      before and after it. */
  lemma WhitespaceRunIsOneSpace(sql: string, a: seq<Token>, w: Token, b: seq<Token>)
    requires Lex(sql, []) == a + [w] + b && w.kind == Whitespace
    ensures w.text != [] && forall i :: 0 <= i < |w.text| ==> IsWhitespace(w.text[i])
    ensures a != [] ==> a[|a| - 1].kind != Whitespace
    ensures b != [] ==> b[0].kind != Whitespace
    ensures SqueezedText(Lex(sql, [])) == SqueezedText(a) + " " + SqueezedText(b)
  {
    var tokens := Lex(sql, []);
    assert tokens[|a|] == w;
    assert w in tokens;
    WhitespaceTokens(sql, []);
    WhitespaceTokensMaximal(sql, []);
    NeighboursNotWhitespace(tokens, a, w, b);
    SqueezedTextAppend(a + [w], b);
    SqueezedTextAppend(a, [w]);
    assert SqueezedText([w]) == " ";
  }

  lemma {:induction false} NonBlankAllBlank(s: string)
    requires forall i :: 0 <= i < |s| ==> IsWhitespace(s[i])
    ensures NonBlank(s) == []
  {
    NonBlankOfBlanks(s);
  }

  lemma {:induction false} NonBlankEmpty(s: string)
    requires NonBlank(s) == []
    ensures forall i :: 0 <= i < |s| ==> IsBlank(s[i])
  {
    if s != [] {
      NonBlankEmpty(s[1..]);
      assert forall i :: 1 <= i < |s| ==> s[i] == s[1..][i - 1];
    }
  }
}
