/** The splitter and the squeezer on the inputs of their unit tests, worked
    through to the statements and the squeezed text those tests expect. */
module StatementSplitterCases {
  import opened StatementSplitter

  // ---------------------------------------------------------------------
  // Tools for worked examples
  // ---------------------------------------------------------------------

  /** The statements a run of text ends with a delimiter d: none when it is
      blank, else the text trimmed. */
  function StatementOf(p: string, d: string): seq<Statement>
  {
    if Trim(p) != [] then [Statement(Trim(p), d)] else []
  }

  /** d is a delimiter, and no other delimiter starts with its first
      character. */
  predicate SoleDelimiter(d: string, ds: seq<string>)
  {
    d in ds && d != [] && forall e :: e in ds && e != [] && e != d ==> e[0] != d[0]
  }

  lemma CancelRight<T>(a: seq<T>, b: seq<T>, c: seq<T>)
    requires a + c == b + c
    ensures a == b
  {
    assert |a| == |b|;
    assert a == (a + c)[..|a|];
  }

  /** Text that neither starts nor ends with a blank trims to itself. */
  lemma TrimKeeps(s: string)
    requires s != [] && !IsBlank(s[0]) && !IsBlank(s[|s| - 1])
    ensures Trim(s) == s
  {
    assert TrimStart(s) == s;
  }

  lemma TrimAfterBlank(c: char, s: string)
    requires IsBlank(c) && s != [] && !IsBlank(s[0]) && !IsBlank(s[|s| - 1])
    ensures Trim([c] + s) == s
  {
    assert ([c] + s)[1..] == s;
    assert TrimStart([c] + s) == s;
  }

  lemma TrimBeforeBlank(s: string, c: char)
    requires IsBlank(c) && s != [] && !IsBlank(s[0]) && !IsBlank(s[|s| - 1])
    ensures Trim(s + [c]) == s
  {
    assert (s + [c])[0] == s[0];
    assert TrimStart(s + [c]) == s + [c];
    assert (s + [c])[..|s|] == s;
  }

  lemma TrimAround(c: char, s: string, e: char)
    requires IsBlank(c) && IsBlank(e) && s != [] && !IsBlank(s[0]) && !IsBlank(s[|s| - 1])
    ensures Trim([c] + (s + [e])) == s
  {
    assert ([c] + (s + [e]))[1..] == s + [e];
    assert (s + [e])[0] == s[0];
    assert TrimStart([c] + (s + [e])) == s + [e];
    assert (s + [e])[..|s|] == s;
  }

  /** A run of tokens lexed from the front of a text spells that front. */
  lemma SegmentText(p: string, tokens: seq<Token>, tail: string, ds: seq<string>)
    requires Lex(p + tail, ds) == tokens + Lex(tail, ds)
    ensures Text(tokens) == p
  {
    LexSpellsInput(p + tail, ds);
    LexSpellsInput(tail, ds);
    TextAppend(tokens, Lex(tail, ds));
    CancelRight(Text(tokens), p, tail);
  }

  /** Tokens without a delimiter followed by a delimiter. */
  lemma SegmentStatement(p: string, d: string, seg: seq<Token>)
    requires Text(seg) == p
    requires forall t :: t in seg ==> t.kind != Delimiter
    ensures Split(seg + [Token(Delimiter, d)]).0 == StatementOf(p, d)
  {
    SegmentBecomesStatement(seg, d);
  }

  /** A delimiter alone. */
  lemma DelimiterAlone(d: string, ds: seq<string>)
    requires SoleDelimiter(d, ds)
    ensures Lex(d, ds) == [Token(Delimiter, d)]
  {
    DelimiterToken(d, [], ds);
    assert d + [] == d;
    assert Lex([], ds) == [];
  }

  /** A text that opens with a run of tokens and a delimiter: that run,
      trimmed, is its first statement unless it is blank, and the rest of
      the text is split on its own. */
  lemma StatementThen(p: string, d: string, rest: string, ds: seq<string>, seg: seq<Token>)
    requires Lex(p + (d + rest), ds) == seg + Lex(d + rest, ds)
    requires Lex(d + rest, ds) == [Token(Delimiter, d)] + Lex(rest, ds)
    requires forall t :: t in seg ==> t.kind != Delimiter
    ensures CompleteStatements(p + (d + rest), ds) == StatementOf(p, d) + CompleteStatements(rest, ds)
    ensures PartialStatement(p + (d + rest), ds) == PartialStatement(rest, ds)
  {
    var delimiter := Token(Delimiter, d);
    var after := Lex(rest, ds);
    assert Text(seg) == p by {
      SegmentText(p, seg, d + rest, ds);
    }
    assert Split(Lex(p + (d + rest), ds)) == (Split(seg + [delimiter]).0 + Split(after).0, Split(after).1) by {
      assert Lex(p + (d + rest), ds) == seg + [delimiter] + after;
      SplitAfterDelimiter(seg, d, after);
    }
    SegmentStatement(p, d, seg);
  }

  /** A text that is one run of tokens and a delimiter: one statement,
      unless the run is blank, and nothing partial. */
  lemma FinalStatement(p: string, d: string, ds: seq<string>, seg: seq<Token>)
    requires Lex(p + d, ds) == seg + [Token(Delimiter, d)]
    requires forall t :: t in seg ==> t.kind != Delimiter
    ensures CompleteStatements(p + d, ds) == StatementOf(p, d)
    ensures PartialStatement(p + d, ds) == ""
  {
    var none: seq<Token> := [];
    var delimiter := Token(Delimiter, d);
    assert CompleteStatements(p + d, ds) == Split(seg + [delimiter]).0 && PartialStatement(p + d, ds) == ""
      && Text(seg) == p by {
      assert seg + [delimiter] + none == seg + [delimiter];
      PartialAfterLastDelimiter(p + d, ds, seg, d, none);
      SpelledBefore(p, d, seg, none);
    }
    SegmentStatement(p, d, seg);
  }

  lemma SpelledBefore(p: string, d: string, seg: seq<Token>, none: seq<Token>)
    requires none == [] && p + d == Text(seg) + d + Text(none)
    ensures Text(seg) == p
  {
    assert Text(seg) + d + Text(none) == Text(seg) + d;
    CancelRight(p, Text(seg), d);
  }

  /** A text that lexes without a delimiter is the partial statement. */
  lemma LastStatement(p: string, ds: seq<string>, seg: seq<Token>)
    requires Lex(p, ds) == seg
    requires forall t :: t in seg ==> t.kind != Delimiter
    ensures CompleteStatements(p, ds) == []
    ensures PartialStatement(p, ds) == Trim(p)
  {
    SplitWithoutDelimiters(seg);
    LexSpellsInput(p, ds);
  }

  /** The empty text. */
  lemma NothingLeft(ds: seq<string>)
    ensures CompleteStatements([], ds) == []
    ensures PartialStatement([], ds) == ""
  {
    assert Lex([], ds) == [];
    assert Trim([]) == [];
  }

  /** A delimiter at the start of the text ends an empty statement, which
      is dropped. */
  lemma DelimiterFirst(d: string, rest: string, ds: seq<string>)
    requires SoleDelimiter(d, ds)
    ensures CompleteStatements(d + rest, ds) == CompleteStatements(rest, ds)
    ensures PartialStatement(d + rest, ds) == PartialStatement(rest, ds)
  {
    var none: seq<Token> := [];
    assert CompleteStatements([] + (d + rest), ds) == StatementOf([], d) + CompleteStatements(rest, ds)
      && PartialStatement([] + (d + rest), ds) == PartialStatement(rest, ds) by {
      DelimiterToken(d, rest, ds);
      assert [] + (d + rest) == d + rest;
      StatementThen([], d, rest, ds, none);
    }
    assert [] + (d + rest) == d + rest;
    assert Trim([]) == [];
  }

  lemma {:induction false} UnquotedThen(a: string, rest: string, q: char)
    requires forall i :: 0 <= i < |a| ==> a[i] != q
    requires QuotedContent(rest, q)
    ensures QuotedContent(a + rest, q)
    decreases |a|
  {
    if a == [] {
      assert a + rest == rest;
    } else {
      assert (a + rest)[0] == a[0];
      assert (a + rest)[1..] == a[1..] + rest;
      UnquotedThen(a[1..], rest, q);
    }
  }

  lemma EscapedThen(rest: string, q: char)
    requires QuotedContent(rest, q)
    ensures QuotedContent([q, q] + rest, q)
  {
    assert ([q, q] + rest)[2..] == rest;
  }

  lemma Flat2<T>(a: T, b: T, tail: seq<T>)
    ensures [a] + ([b] + tail) == [a, b] + tail
  {}

  lemma Flat3<T>(a: T, b: T, c: T, tail: seq<T>)
    ensures [a] + ([b] + ([c] + tail)) == [a, b, c] + tail
  {}

  lemma Flat4<T>(a: T, b: T, c: T, d: T, tail: seq<T>)
    ensures [a] + ([b] + ([c] + ([d] + tail))) == [a, b, c, d] + tail
  {}

  lemma Flat7<T>(a: T, b: T, c: T, d: T, e: T, f: T, g: T, tail: seq<T>)
    ensures [a] + ([b] + ([c] + ([d] + ([e] + ([f] + ([g] + tail)))))) == [a, b, c, d, e, f, g] + tail
  {}

  // ---------------------------------------------------------------------
  // Custom delimiters (TestStatementSplitter.java, 84-89)
  // ---------------------------------------------------------------------

  const CustomDelimiters: seq<string> := [";", "//"]

  lemma CustomDelimiterToken(d: string, rest: string, ds: seq<string>)
    requires ds == CustomDelimiters && (d == ";" || d == "//")
    ensures SoleDelimiter(d, ds)
    ensures Lex(d + rest, ds) == [Token(Delimiter, d)] + Lex(rest, ds)
  {
    DelimiterToken(d, rest, ds);
  }

  const SelectStarFrom: seq<Token> := [Token(Word, "select"), Token(Whitespace, " "), Token(Unrecognized, "*"),
    Token(Whitespace, " "), Token(Word, "from")]

  lemma Flat5<T>(a: T, b: T, c: T, d: T, e: T, tail: seq<T>)
    ensures [a] + ([b] + ([c] + ([d] + ([e] + tail)))) == [a, b, c, d, e] + tail
  {}

  lemma LexSelectStar(tail: string, ds: seq<string>)
    requires ds == CustomDelimiters && (tail == [] || !IsWhitespace(tail[0]))
    ensures Lex("select" + (" " + ("*" + (" " + tail))), ds) ==
      [Token(Word, "select")] + ([Token(Whitespace, " ")] + ([Token(Unrecognized, "*")] + ([Token(Whitespace, " ")] + Lex(tail, ds))))
  {
    var s3 := " " + tail;
    var s2 := "*" + s3;
    var s1 := " " + s2;
    assert Lexes(Token(Whitespace, " "), tail, ds);
    assert Lexes(Token(Unrecognized, "*"), s3, ds);
    assert Lexes(Token(Whitespace, " "), s2, ds);
    assert Lexes(Token(Word, "select"), s1, ds);
    LexesStep(Token(Whitespace, " "), tail, ds);
    LexesStep(Token(Unrecognized, "*"), s3, ds);
    LexesStep(Token(Whitespace, " "), s2, ds);
    LexesStep(Token(Word, "select"), s1, ds);
  }

  lemma LexWord(w: string, tail: string, ds: seq<string>)
    requires ds == CustomDelimiters && (w == "from" || w == "foo" || w == "t")
    requires tail == [] || !IsWordChar(tail[0])
    ensures Lex(w + tail, ds) == [Token(Word, w)] + Lex(tail, ds)
  {
    assert Lexes(Token(Word, w), tail, ds);
    LexesStep(Token(Word, w), tail, ds);
  }

  lemma LexBlank(w: string, tail: string, ds: seq<string>)
    requires ds == CustomDelimiters && (w == " " || w == "  ")
    requires tail == [] || !IsWhitespace(tail[0])
    ensures Lex(w + tail, ds) == [Token(Whitespace, w)] + Lex(tail, ds)
  {
    assert Lexes(Token(Whitespace, w), tail, ds);
    LexesStep(Token(Whitespace, w), tail, ds);
  }

  lemma SpellSelectStarFrom(tail: string)
    ensures "select * from" + tail == "select" + (" " + ("*" + (" " + ("from" + tail))))
  {
    assert "select * from" == "select" + (" " + ("*" + (" " + "from")));
  }

  lemma LexSelectStarFromText(tail: string, ds: seq<string>)
    requires ds == CustomDelimiters && (tail == [] || !IsWordChar(tail[0]))
    ensures Lex("select * from" + tail, ds) == SelectStarFrom + Lex(tail, ds)
  {
    SpellSelectStarFrom(tail);
    LexWord("from", tail, ds);
    LexSelectStar("from" + tail, ds);
    Flat5(Token(Word, "select"), Token(Whitespace, " "), Token(Unrecognized, "*"),
      Token(Whitespace, " "), Token(Word, "from"), Lex(tail, ds));
  }

  const FooSegment: seq<Token> := [Token(Whitespace, " ")] + SelectStarFrom +
    [Token(Whitespace, "  "), Token(Word, "foo"), Token(Whitespace, " ")]

  lemma LexFooEnd(tail: string, ds: seq<string>)
    requires ds == CustomDelimiters && (tail == [] || !IsWhitespace(tail[0]))
    ensures Lex("  " + ("foo" + (" " + tail)), ds) ==
      [Token(Whitespace, "  "), Token(Word, "foo"), Token(Whitespace, " ")] + Lex(tail, ds)
  {
    LexBlank(" ", tail, ds);
    LexWord("foo", " " + tail, ds);
    LexBlank("  ", "foo" + (" " + tail), ds);
    Flat3(Token(Whitespace, "  "), Token(Word, "foo"), Token(Whitespace, " "), Lex(tail, ds));
  }

  lemma SpellFooSegment(tail: string)
    ensures " select * from  foo " + tail == " " + ("select * from" + ("  " + ("foo" + (" " + tail))))
  {
    assert " select * from  foo " == " " + ("select * from" + ("  " + ("foo" + " ")));
  }

  lemma LexFooSegment(tail: string, ds: seq<string>)
    requires ds == CustomDelimiters && (tail == [] || !IsWhitespace(tail[0]))
    ensures Lex(" select * from  foo " + tail, ds) == FooSegment + Lex(tail, ds)
  {
    var r := "  " + ("foo" + (" " + tail));
    SpellFooSegment(tail);
    LexFooEnd(tail, ds);
    LexSelectStarFromText(r, ds);
    LexBlank(" ", "select * from" + r, ds);
    Regroup([Token(Whitespace, " ")], SelectStarFrom,
      [Token(Whitespace, "  "), Token(Word, "foo"), Token(Whitespace, " ")], Lex(tail, ds));
  }

  const TSegment: seq<Token> := [Token(Whitespace, " ")] + SelectStarFrom + [Token(Whitespace, " "), Token(Word, "t")]

  lemma SpellTSegment(tail: string)
    ensures " select * from t" + tail == " " + ("select * from" + (" " + ("t" + tail)))
  {
    assert " select * from t" == " " + ("select * from" + (" " + "t"));
  }

  lemma LexTEnd(tail: string, ds: seq<string>)
    requires ds == CustomDelimiters && (tail == [] || !IsWordChar(tail[0]))
    ensures Lex(" " + ("t" + tail), ds) == [Token(Whitespace, " "), Token(Word, "t")] + Lex(tail, ds)
  {
    LexWord("t", tail, ds);
    LexBlank(" ", "t" + tail, ds);
    Flat2(Token(Whitespace, " "), Token(Word, "t"), Lex(tail, ds));
  }

  lemma LexTSegment(tail: string, ds: seq<string>)
    requires ds == CustomDelimiters && (tail == [] || !IsWordChar(tail[0]))
    ensures Lex(" select * from t" + tail, ds) == TSegment + Lex(tail, ds)
  {
    var r := " " + ("t" + tail);
    SpellTSegment(tail);
    LexTEnd(tail, ds);
    LexSelectStarFromText(r, ds);
    LexBlank(" ", "select * from" + r, ds);
    Regroup([Token(Whitespace, " ")], SelectStarFrom, [Token(Whitespace, " "), Token(Word, "t")], Lex(tail, ds));
  }

  const LastSegment: seq<Token> := SelectStarFrom + [Token(Whitespace, " ")]

  lemma LexLastBlank(ds: seq<string>)
    requires ds == CustomDelimiters
    ensures Lex(" ", ds) == [Token(Whitespace, " ")]
  {
    var none: string := [];
    assert " " + none == " ";
    LexBlank(" ", none, ds);
    assert Lex(none, ds) == [];
  }

  lemma SpellLastSegment()
    ensures "select * from " == "select * from" + " "
  {
  }

  lemma LexLastSegment(ds: seq<string>)
    requires ds == CustomDelimiters
    ensures Lex("select * from ", ds) == LastSegment
  {
    SpellLastSegment();
    LexLastBlank(ds);
    LexSelectStarFromText(" ", ds);
  }

  lemma CustomSegmentsWithoutDelimiter()
    ensures forall t :: t in FooSegment ==> t.kind != Delimiter
    ensures forall t :: t in TSegment ==> t.kind != Delimiter
    ensures forall t :: t in LastSegment ==> t.kind != Delimiter
  {}

  lemma TrimFoo()
    ensures Trim(" select * from  foo ") == "select * from  foo"
  {
    assert " select * from  foo " == [' '] + ("select * from  foo" + [' ']);
    TrimAround(' ', "select * from  foo", ' ');
  }

  lemma TrimT()
    ensures Trim(" select * from t") == "select * from t"
  {
    assert " select * from t" == [' '] + "select * from t";
    TrimAfterBlank(' ', "select * from t");
  }

  lemma TrimSelectFrom()
    ensures Trim("select * from ") == "select * from"
  {
    assert "select * from " == "select * from" + [' '];
    TrimBeforeBlank("select * from", ' ');
  }

  /** The first statement, ended by the two-character delimiter. */
  lemma FooStatement(rest: string, ds: seq<string>)
    requires ds == CustomDelimiters
    ensures CompleteStatements(" select * from  foo " + ("//" + rest), ds) ==
      [Statement("select * from  foo", "//")] + CompleteStatements(rest, ds)
    ensures PartialStatement(" select * from  foo " + ("//" + rest), ds) == PartialStatement(rest, ds)
  {
    assert CompleteStatements(" select * from  foo " + ("//" + rest), ds) ==
      StatementOf(" select * from  foo ", "//") + CompleteStatements(rest, ds)
      && PartialStatement(" select * from  foo " + ("//" + rest), ds) == PartialStatement(rest, ds) by {
      LexFooSegment("//" + rest, ds);
      CustomDelimiterToken("//", rest, ds);
      CustomSegmentsWithoutDelimiter();
      StatementThen(" select * from  foo ", "//", rest, ds, FooSegment);
    }
    TrimFoo();
  }

  /** The second statement, ended by the semicolon. */
  lemma TStatement(rest: string, ds: seq<string>)
    requires ds == CustomDelimiters
    ensures CompleteStatements(" select * from t" + (";" + rest), ds) ==
      [Statement("select * from t", ";")] + CompleteStatements(rest, ds)
    ensures PartialStatement(" select * from t" + (";" + rest), ds) == PartialStatement(rest, ds)
  {
    assert CompleteStatements(" select * from t" + (";" + rest), ds) ==
      StatementOf(" select * from t", ";") + CompleteStatements(rest, ds)
      && PartialStatement(" select * from t" + (";" + rest), ds) == PartialStatement(rest, ds) by {
      LexTSegment(";" + rest, ds);
      CustomDelimiterToken(";", rest, ds);
      CustomSegmentsWithoutDelimiter();
      StatementThen(" select * from t", ";", rest, ds, TSegment);
    }
    TrimT();
  }

  /** A delimiter right after a delimiter ends nothing, and the text after
      the last one is the partial statement. */
  lemma CustomTail(ds: seq<string>)
    requires ds == CustomDelimiters
    ensures CompleteStatements("//" + "select * from ", ds) == []
    ensures PartialStatement("//" + "select * from ", ds) == "select * from"
  {
    CustomDelimiterToken("//", "select * from ", ds);
    DelimiterFirst("//", "select * from ", ds);
    LexLastSegment(ds);
    CustomSegmentsWithoutDelimiter();
    LastStatement("select * from ", ds, LastSegment);
    TrimSelectFrom();
  }

  /** Each delimiter of the set ends a statement, and each statement keeps
      the delimiter that ended it. */
  lemma CustomDelimiterStatements()
    ensures CompleteStatements("//" + (" select * from  foo " + ("//" + (" select * from t" + (";" + ("//" + "select * from "))))),
      CustomDelimiters) == [Statement("select * from  foo", "//"), Statement("select * from t", ";")]
    ensures PartialStatement("//" + (" select * from  foo " + ("//" + (" select * from t" + (";" + ("//" + "select * from "))))),
      CustomDelimiters) == "select * from"
  {
    var ds := CustomDelimiters;
    var rest := " select * from t" + (";" + ("//" + "select * from "));
    CustomDelimiterToken("//", " select * from  foo " + ("//" + rest), ds);
    DelimiterFirst("//", " select * from  foo " + ("//" + rest), ds);
    FooStatement(rest, ds);
    TStatement("//" + "select * from ", ds);
    CustomTail(ds);
  }

  // ---------------------------------------------------------------------
  // An escaped single quote (TestStatementSplitter.java, 129-132)
  // ---------------------------------------------------------------------

  const HelloWorld: seq<Token> := [Token(Word, "select"), Token(Whitespace, " "), Token(StringLiteral, "'hello''world'"),
    Token(Whitespace, " "), Token(Word, "from"), Token(Whitespace, " "), Token(Word, "dual")]

  lemma HelloWorldContent()
    ensures QuotedContent("hello''world", '\'')
  {
    UnquotedThen("world", [], '\'');
    assert "world" + [] == "world";
    EscapedThen("world", '\'');
    UnquotedThen("hello", "''" + "world", '\'');
    assert "hello" + ("''" + "world") == "hello''world";
  }

  lemma HelloWorldQuoted()
    ensures "'hello''world'" == ['\''] + "hello''world" + ['\'']
  {}

  lemma LexHelloWorldLiteral(tail: string, ds: seq<string>)
    requires ds == DefaultDelimiters && (tail == [] || tail[0] != '\'')
    ensures Lex("'hello''world'" + tail, ds) == [Token(StringLiteral, "'hello''world'")] + Lex(tail, ds)
  {
    HelloWorldContent();
    HelloWorldQuoted();
    QuotedTokenLexes('\'', StringLiteral, "hello''world", tail, ds);
  }

  lemma LexSelectHelloWorld(tail: string, ds: seq<string>)
    requires ds == DefaultDelimiters && (tail == [] || tail[0] != '\'')
    ensures Lex("select" + (" " + ("'hello''world'" + tail)), ds) ==
      [Token(Word, "select")] + ([Token(Whitespace, " ")] + ([Token(StringLiteral, "'hello''world'")] + Lex(tail, ds)))
  {
    var s2 := "'hello''world'" + tail;
    var s1 := " " + s2;
    assert Lexes(Token(Whitespace, " "), s2, ds);
    assert Lexes(Token(Word, "select"), s1, ds);
    LexHelloWorldLiteral(tail, ds);
    LexesStep(Token(Whitespace, " "), s2, ds);
    LexesStep(Token(Word, "select"), s1, ds);
  }

  lemma LexFromDual(tail: string, ds: seq<string>)
    requires ds == DefaultDelimiters && (tail == [] || !IsWordChar(tail[0]))
    ensures Lex(" " + ("from" + (" " + ("dual" + tail))), ds) ==
      [Token(Whitespace, " ")] + ([Token(Word, "from")] + ([Token(Whitespace, " ")] + ([Token(Word, "dual")] + Lex(tail, ds))))
  {
    var s3 := "dual" + tail;
    var s2 := " " + s3;
    var s1 := "from" + s2;
    assert Lexes(Token(Word, "dual"), tail, ds);
    assert Lexes(Token(Whitespace, " "), s3, ds);
    assert Lexes(Token(Word, "from"), s2, ds);
    assert Lexes(Token(Whitespace, " "), s1, ds);
    LexesStep(Token(Word, "dual"), tail, ds);
    LexesStep(Token(Whitespace, " "), s3, ds);
    LexesStep(Token(Word, "from"), s2, ds);
    LexesStep(Token(Whitespace, " "), s1, ds);
  }

  lemma SpellHelloWorld(tail: string)
    ensures "select 'hello''world' from dual" + tail ==
      "select" + (" " + ("'hello''world'" + (" " + ("from" + (" " + ("dual" + tail))))))
  {
    assert "select 'hello''world' from dual" == "select" + (" " + ("'hello''world'" + (" " + ("from" + (" " + "dual")))));
  }

  lemma LexHelloWorld(tail: string, ds: seq<string>)
    requires ds == DefaultDelimiters && (tail == [] || !IsWordChar(tail[0]))
    ensures Lex("select 'hello''world' from dual" + tail, ds) == HelloWorld + Lex(tail, ds)
  {
    SpellHelloWorld(tail);
    LexFromDual(tail, ds);
    LexSelectHelloWorld(" " + ("from" + (" " + ("dual" + tail))), ds);
    Flat7(Token(Word, "select"), Token(Whitespace, " "), Token(StringLiteral, "'hello''world'"),
      Token(Whitespace, " "), Token(Word, "from"), Token(Whitespace, " "), Token(Word, "dual"), Lex(tail, ds));
  }

  lemma HelloWorldWithoutDelimiter()
    ensures forall t :: t in HelloWorld ==> t.kind != Delimiter
  {}

  lemma TrimHelloWorld()
    ensures Trim("select 'hello''world' from dual") == "select 'hello''world' from dual"
  {
    TrimKeeps("select 'hello''world' from dual");
  }

  /** A doubled quote inside a string literal neither ends the literal nor
      hides the delimiter after it. */
  lemma HelloWorldStatement(ds: seq<string>)
    requires ds == DefaultDelimiters
    ensures Lex("select 'hello''world' from dual" + ";", ds) == HelloWorld + [Token(Delimiter, ";")]
  {
    DelimiterAlone(";", ds);
    LexHelloWorld(";", ds);
  }

  /** A doubled quote inside a string literal neither ends the literal nor
      hides the delimiter after it. */
  lemma EscapedSingleQuote()
    ensures CompleteStatements("select 'hello''world' from dual" + ";", DefaultDelimiters) ==
      [Statement("select 'hello''world' from dual", ";")]
    ensures PartialStatement("select 'hello''world' from dual" + ";", DefaultDelimiters) == ""
  {
    var sql := "select 'hello''world' from dual";
    assert CompleteStatements(sql + ";", DefaultDelimiters) == StatementOf(sql, ";")
      && PartialStatement(sql + ";", DefaultDelimiters) == "" by {
      HelloWorldStatement(DefaultDelimiters);
      HelloWorldWithoutDelimiter();
      FinalStatement(sql, ";", DefaultDelimiters, HelloWorld);
    }
    TrimHelloWorld();
  }

  // ---------------------------------------------------------------------
  // Delimiters alone (TestStatementSplitter.java, 48-50)
  // ---------------------------------------------------------------------

  /** A delimiter alone ends an empty statement, which is dropped. */
  lemma DelimiterAloneIsEmpty(d: string, ds: seq<string>)
    requires SoleDelimiter(d, ds)
    ensures CompleteStatements(d, ds) == []
    ensures PartialStatement(d, ds) == ""
  {
    var delimiter := Token(Delimiter, d);
    DelimiterAlone(d, ds);
    assert Split([delimiter]) == ([], "") by {
      var none: seq<Token> := [];
      assert [delimiter][..0] == none;
      assert Split(none) == ([], "");
      assert Trim([]) == [];
    }
    assert Trim([]) == [];
  }

  lemma DelimitersOnly(d: string, ds: seq<string>)
    requires SoleDelimiter(d, ds)
    ensures CompleteStatements(d + (d + d), ds) == []
    ensures PartialStatement(d + (d + d), ds) == ""
  {
    DelimiterAloneIsEmpty(d, ds);
    DelimiterFirst(d, d, ds);
    DelimiterFirst(d, d + d, ds);
  }

  /** Three delimiters and nothing else: no statement, nothing partial. */
  lemma EmptyStatements()
    ensures CompleteStatements(";;;", DefaultDelimiters) == []
    ensures PartialStatement(";;;", DefaultDelimiters) == ""
  {
    assert ";;;" == ";" + (";" + ";");
    DelimitersOnly(";", DefaultDelimiters);
  }

  // ---------------------------------------------------------------------
  // Line comments (TestStatementSplitter.java, 165-169)
  // ---------------------------------------------------------------------

  /** The line comments of the example, each with its line break. */
  lemma LineCommentLexes(c: string, after: string, ds: seq<string>)
    requires ds == DefaultDelimiters
    requires c == "--empty\n" || c == "-- start\n" || c == "-- junk\n" || c == "-- hi\n"
    ensures Lexes(Token(LineComment, c), after, ds)
  {
  }

  lemma LexEmptyComment(tail: string, ds: seq<string>)
    requires ds == DefaultDelimiters
    ensures Lex("--empty\n" + tail, ds) == [Token(LineComment, "--empty\n")] + Lex(tail, ds)
  {
    LineCommentLexes("--empty\n", tail, ds);
    LexesStep(Token(LineComment, "--empty\n"), tail, ds);
  }

  lemma SpellStartSelect(tail: string)
    ensures "-- start\nselect " + tail == "-- start\n" + ("select" + (" " + tail))
  {
    assert "-- start\nselect " == "-- start\n" + ("select" + " ");
  }

  lemma LexStartSelect(tail: string, ds: seq<string>)
    requires ds == DefaultDelimiters && (tail == [] || !IsWhitespace(tail[0]))
    ensures Lex("-- start\nselect " + tail, ds) ==
      [Token(LineComment, "-- start\n"), Token(Word, "select"), Token(Whitespace, " ")] + Lex(tail, ds)
  {
    var s2 := " " + tail;
    var s1 := "select" + s2;
    assert Lexes(Token(Whitespace, " "), tail, ds);
    assert Lexes(Token(Word, "select"), s2, ds);
    LineCommentLexes("-- start\n", s1, ds);
    LexesStep(Token(Whitespace, " "), tail, ds);
    LexesStep(Token(Word, "select"), s2, ds);
    LexesStep(Token(LineComment, "-- start\n"), s1, ds);
    SpellStartSelect(tail);
    Flat3(Token(LineComment, "-- start\n"), Token(Word, "select"), Token(Whitespace, " "), Lex(tail, ds));
  }

  lemma SpellStarJunk(tail: string)
    ensures "* -- junk\n" + tail == "*" + (" " + ("-- junk\n" + tail))
  {
    assert "* -- junk\n" == "*" + (" " + "-- junk\n");
  }

  lemma LexStarJunk(tail: string, ds: seq<string>)
    requires ds == DefaultDelimiters
    ensures Lex("* -- junk\n" + tail, ds) ==
      [Token(Unrecognized, "*"), Token(Whitespace, " "), Token(LineComment, "-- junk\n")] + Lex(tail, ds)
  {
    var s2 := "-- junk\n" + tail;
    var s1 := " " + s2;
    LineCommentLexes("-- junk\n", tail, ds);
    assert Lexes(Token(Whitespace, " "), s2, ds);
    assert Lexes(Token(Unrecognized, "*"), s1, ds);
    LexesStep(Token(LineComment, "-- junk\n"), tail, ds);
    LexesStep(Token(Whitespace, " "), s2, ds);
    LexesStep(Token(Unrecognized, "*"), s1, ds);
    SpellStarJunk(tail);
    Flat3(Token(Unrecognized, "*"), Token(Whitespace, " "), Token(LineComment, "-- junk\n"), Lex(tail, ds));
  }

  lemma SpellHiFromFoo(tail: string)
    ensures "-- hi\nfrom foo" + tail == "-- hi\n" + ("from" + (" " + ("foo" + tail)))
  {
    assert "-- hi\nfrom foo" == "-- hi\n" + ("from" + (" " + "foo"));
  }

  lemma LexHiFromFoo(tail: string, ds: seq<string>)
    requires ds == DefaultDelimiters && (tail == [] || !IsWordChar(tail[0]))
    ensures Lex("-- hi\nfrom foo" + tail, ds) ==
      [Token(LineComment, "-- hi\n"), Token(Word, "from"), Token(Whitespace, " "), Token(Word, "foo")] + Lex(tail, ds)
  {
    var s3 := "foo" + tail;
    var s2 := " " + s3;
    var s1 := "from" + s2;
    assert Lexes(Token(Word, "foo"), tail, ds);
    assert Lexes(Token(Whitespace, " "), s3, ds);
    assert Lexes(Token(Word, "from"), s2, ds);
    LineCommentLexes("-- hi\n", s1, ds);
    LexesStep(Token(Word, "foo"), tail, ds);
    LexesStep(Token(Whitespace, " "), s3, ds);
    LexesStep(Token(Word, "from"), s2, ds);
    LexesStep(Token(LineComment, "-- hi\n"), s1, ds);
    SpellHiFromFoo(tail);
    Flat4(Token(LineComment, "-- hi\n"), Token(Word, "from"), Token(Whitespace, " "), Token(Word, "foo"), Lex(tail, ds));
  }

  const CommentedSelect: seq<Token> := [Token(LineComment, "-- start\n"), Token(Word, "select"), Token(Whitespace, " "),
    Token(Unrecognized, "*"), Token(Whitespace, " "), Token(LineComment, "-- junk\n"),
    Token(LineComment, "-- hi\n"), Token(Word, "from"), Token(Whitespace, " "), Token(Word, "foo")]

  lemma SpellCommentedSelect(tail: string)
    ensures "-- start\nselect * -- junk\n-- hi\nfrom foo" + tail ==
      "-- start\nselect " + ("* -- junk\n" + ("-- hi\nfrom foo" + tail))
  {
    assert "-- start\nselect * -- junk\n-- hi\nfrom foo" == "-- start\nselect " + ("* -- junk\n" + "-- hi\nfrom foo");
  }

  lemma CommentedSelectChunks()
    ensures [Token(LineComment, "-- start\n"), Token(Word, "select"), Token(Whitespace, " ")] +
      [Token(Unrecognized, "*"), Token(Whitespace, " "), Token(LineComment, "-- junk\n")] +
      [Token(LineComment, "-- hi\n"), Token(Word, "from"), Token(Whitespace, " "), Token(Word, "foo")] == CommentedSelect
  {}

  lemma Regroup<T>(a: seq<T>, b: seq<T>, c: seq<T>, tail: seq<T>)
    ensures a + (b + (c + tail)) == (a + b + c) + tail
  {}

  lemma LexCommentedSelect(tail: string, ds: seq<string>)
    requires ds == DefaultDelimiters && (tail == [] || !IsWordChar(tail[0]))
    ensures Lex("-- start\nselect * -- junk\n-- hi\nfrom foo" + tail, ds) == CommentedSelect + Lex(tail, ds)
  {
    SpellCommentedSelect(tail);
    LexHiFromFoo(tail, ds);
    LexStarJunk("-- hi\nfrom foo" + tail, ds);
    LexStartSelect("* -- junk\n" + ("-- hi\nfrom foo" + tail), ds);
    CommentedSelectChunks();
    Regroup([Token(LineComment, "-- start\n"), Token(Word, "select"), Token(Whitespace, " ")],
      [Token(Unrecognized, "*"), Token(Whitespace, " "), Token(LineComment, "-- junk\n")],
      [Token(LineComment, "-- hi\n"), Token(Word, "from"), Token(Whitespace, " "), Token(Word, "foo")], Lex(tail, ds));
  }

  /** A blank and a line comment that runs to the end of the text. */
  lemma TrailingComment(x: string, ds: seq<string>)
    requires NoLineBreak(x)
    requires NoDelimiterStartsWith(' ', ds) && NoDelimiterStartsWith('-', ds)
    ensures Lex(" " + ("--" + x), ds) == [Token(Whitespace, " "), Token(LineComment, "--" + x)]
  {
    LineCommentAtEnd(x, ds);
    assert Lexes(Token(Whitespace, " "), "--" + x, ds);
    LexesStep(Token(Whitespace, " "), "--" + x, ds);
  }

  /** A blank and a line comment at the end of the text are left partial,
      the blank trimmed away. */
  lemma TrailingCommentIsPartial(x: string, ds: seq<string>)
    requires NoLineBreak(x) && (x == [] || !IsBlank(x[|x| - 1]))
    requires NoDelimiterStartsWith(' ', ds) && NoDelimiterStartsWith('-', ds)
    ensures CompleteStatements(" " + ("--" + x), ds) == []
    ensures PartialStatement(" " + ("--" + x), ds) == "--" + x
  {
    var comment := "--" + x;
    TrailingComment(x, ds);
    LastStatement(" " + comment, ds, [Token(Whitespace, " "), Token(LineComment, comment)]);
    assert comment[0] == '-';
    assert comment[|comment| - 1] == if x == [] then '-' else x[|x| - 1];
    TrimAfterBlank(' ', comment);
  }

  lemma CommentedSelectWithoutDelimiter()
    ensures forall t :: t in CommentedSelect ==> t.kind != Delimiter
  {}

  lemma TrimCommentedSelect()
    ensures Trim("-- start\nselect * -- junk\n-- hi\nfrom foo") == "-- start\nselect * -- junk\n-- hi\nfrom foo"
  {
    TrimKeeps("-- start\nselect * -- junk\n-- hi\nfrom foo");
  }

  lemma TrimEmptyComment()
    ensures Trim("--empty\n") == "--empty"
  {
    TrimBeforeBlank("--empty", '\n');
    assert "--empty" + ['\n'] == "--empty\n";
  }

  lemma SemicolonToken(rest: string, ds: seq<string>)
    requires ds == DefaultDelimiters
    ensures Lex(";" + rest, ds) == [Token(Delimiter, ";")] + Lex(rest, ds)
  {
    DelimiterToken(";", rest, ds);
  }

  lemma CommentedSelectStatement(rest: string, ds: seq<string>)
    requires ds == DefaultDelimiters
    ensures CompleteStatements("-- start\nselect * -- junk\n-- hi\nfrom foo" + (";" + rest), ds) ==
      StatementOf("-- start\nselect * -- junk\n-- hi\nfrom foo", ";") + CompleteStatements(rest, ds)
    ensures PartialStatement("-- start\nselect * -- junk\n-- hi\nfrom foo" + (";" + rest), ds) == PartialStatement(rest, ds)
  {
    LexCommentedSelect(";" + rest, ds);
    SemicolonToken(rest, ds);
    CommentedSelectWithoutDelimiter();
    StatementThen("-- start\nselect * -- junk\n-- hi\nfrom foo", ";", rest, ds, CommentedSelect);
  }

  /** A statement, its delimiter, then a trailing comment left partial. */
  lemma StatementThenComment(p: string, x: string, ds: seq<string>)
    requires ds == DefaultDelimiters
    requires NoLineBreak(x) && (x == [] || !IsBlank(x[|x| - 1]))
    requires p != [] && Trim(p) == p
    requires CompleteStatements(p + (";" + (" " + ("--" + x))), ds) ==
      StatementOf(p, ";") + CompleteStatements(" " + ("--" + x), ds)
    requires PartialStatement(p + (";" + (" " + ("--" + x))), ds) == PartialStatement(" " + ("--" + x), ds)
    ensures CompleteStatements(p + (";" + (" " + ("--" + x))), ds) == [Statement(p, ";")]
    ensures PartialStatement(p + (";" + (" " + ("--" + x))), ds) == "--" + x
  {
    TrailingCommentIsPartial(x, ds);
    assert StatementOf(p, ";") == [Statement(p, ";")];
  }

  /** The text after the first delimiter: a statement that mixes comments
      and code, then a trailing comment left partial. */
  lemma CommentedRest(x: string, ds: seq<string>)
    requires ds == DefaultDelimiters
    requires NoLineBreak(x) && (x == [] || !IsBlank(x[|x| - 1]))
    ensures CompleteStatements("-- start\nselect * -- junk\n-- hi\nfrom foo" + (";" + (" " + ("--" + x))), ds) == [Statement("-- start\nselect * -- junk\n-- hi\nfrom foo", ";")]
    ensures PartialStatement("-- start\nselect * -- junk\n-- hi\nfrom foo" + (";" + (" " + ("--" + x))), ds) == "--" + x
  {
    CommentedSelectStatement(" " + ("--" + x), ds);
    TrimCommentedSelect();
    StatementThenComment("-- start\nselect * -- junk\n-- hi\nfrom foo", x, ds);
  }

  lemma EmptyCommentStatement(rest: string, ds: seq<string>)
    requires ds == DefaultDelimiters
    ensures CompleteStatements("--empty\n" + (";" + rest), ds) == [Statement("--empty", ";")] + CompleteStatements(rest, ds)
    ensures PartialStatement("--empty\n" + (";" + rest), ds) == PartialStatement(rest, ds)
  {
    LexEmptyComment(";" + rest, ds);
    SemicolonToken(rest, ds);
    StatementThen("--empty\n", ";", rest, ds, [Token(LineComment, "--empty\n")]);
    TrimEmptyComment();
  }

  lemma SingleLineCommentsThen(x: string)
    requires NoLineBreak(x) && (x == [] || !IsBlank(x[|x| - 1]))
    ensures CompleteStatements("--empty\n" + (";" + ("-- start\nselect * -- junk\n-- hi\nfrom foo" + (";" + (" " + ("--" + x))))), DefaultDelimiters) ==
      [Statement("--empty", ";"), Statement("-- start\nselect * -- junk\n-- hi\nfrom foo", ";")]
    ensures PartialStatement("--empty\n" + (";" + ("-- start\nselect * -- junk\n-- hi\nfrom foo" + (";" + (" " + ("--" + x))))), DefaultDelimiters) == "--" + x
  {
    EmptyCommentStatement("-- start\nselect * -- junk\n-- hi\nfrom foo" + (";" + (" " + ("--" + x))), DefaultDelimiters);
    CommentedRest(x, DefaultDelimiters);
  }

  lemma DoneFits()
    ensures NoLineBreak(" done") && !IsBlank(" done"[|" done"| - 1])
    ensures "--" + " done" == "-- done"
  {
  }

  /** Line comments run to the end of their line and belong to the
      statement they stand in; a statement of a comment alone is kept, and
      a trailing comment is the partial statement. */
  lemma SingleLineComments()
    ensures CompleteStatements("--empty\n" + (";" + ("-- start\nselect * -- junk\n-- hi\nfrom foo" + (";" + (" " + ("--" + " done"))))),
      DefaultDelimiters) == [Statement("--empty", ";"), Statement("-- start\nselect * -- junk\n-- hi\nfrom foo", ";")]
    ensures PartialStatement("--empty\n" + (";" + ("-- start\nselect * -- junk\n-- hi\nfrom foo" + (";" + (" " + ("--" + " done"))))),
      DefaultDelimiters) == "-- done"
  {
    DoneFits();
    SingleLineCommentsThen(" done");
  }

  // ---------------------------------------------------------------------
  // Squeezing (TestStatementSplitter.java, 300-334)
  // ---------------------------------------------------------------------

  lemma SqueezeCons(t: Token, rest: seq<Token>)
    ensures SqueezedText([t] + rest) == SqueezedToken(t) + SqueezedText(rest)
  {
    assert ([t] + rest)[0] == t;
    assert ([t] + rest)[1..] == rest;
  }

  /** One token read from the start of the text and squeezed. */
  lemma SqueezeThrough(t: Token, after: string)
    requires Lexes(t, after, [])
    ensures SqueezedText(Lex(t.text + after, [])) == SqueezedToken(t) + SqueezedText(Lex(after, []))
  {
    LexesStep(t, after, []);
    SqueezeCons(t, Lex(after, []));
  }

  predicate IsWord(w: string)
  {
    w != [] && forall i :: 0 <= i < |w| ==> IsWordChar(w[i])
  }

  predicate IsSpaces(w: string)
  {
    w != [] && forall i :: 0 <= i < |w| ==> IsWhitespace(w[i])
  }

  /** A character the lexer reads as a token of its own whatever follows. */
  predicate IsLoneChar(c: char)
  {
    !IsWhitespace(c) && !IsWordChar(c) && c != '\'' && c != '"' && c != '`' && c != '-' && c != '/'
  }

  lemma SqueezeLastWord(w: string)
    requires IsWord(w)
    ensures SqueezedText(Lex(w, [])) == w
  {
    var none: string := [];
    assert w + none == w;
    assert Lexes(Token(Word, w), none, []);
    SqueezeThrough(Token(Word, w), none);
    assert SqueezedText(Lex(none, [])) == none;
  }

  /** A word, blanks, a lone character and blanks squeeze to the word and
      the character, each followed by one space. */
  lemma SqueezeWordCharSpaced(w: string, s1: string, c: char, s2: string, tail: string)
    requires IsWord(w) && IsSpaces(s1) && IsLoneChar(c) && IsSpaces(s2)
    requires tail == [] || !IsWhitespace(tail[0])
    ensures SqueezedText(Lex(w + (s1 + ([c] + (s2 + tail))), [])) ==
      w + (" " + ([c] + (" " + SqueezedText(Lex(tail, [])))))
  {
    var r3 := s2 + tail;
    var r2 := [c] + r3;
    var r1 := s1 + r2;
    assert Lexes(Token(Whitespace, s2), tail, []);
    assert Lexes(Token(Unrecognized, [c]), r3, []);
    assert Lexes(Token(Whitespace, s1), r2, []);
    assert Lexes(Token(Word, w), r1, []);
    SqueezeThrough(Token(Whitespace, s2), tail);
    SqueezeThrough(Token(Unrecognized, [c]), r3);
    SqueezeThrough(Token(Whitespace, s1), r2);
    SqueezeThrough(Token(Word, w), r1);
  }

  /** A word, blanks, a word and a lone character squeeze to the words
      with one space between them. */
  lemma SqueezeWordsThenChar(w1: string, s: string, w2: string, c: char, tail: string)
    requires IsWord(w1) && IsSpaces(s) && IsWord(w2) && IsLoneChar(c)
    ensures SqueezedText(Lex(w1 + (s + (w2 + ([c] + tail))), [])) ==
      w1 + (" " + (w2 + ([c] + SqueezedText(Lex(tail, [])))))
  {
    var r3 := [c] + tail;
    var r2 := w2 + r3;
    var r1 := s + r2;
    assert Lexes(Token(Unrecognized, [c]), tail, []);
    assert Lexes(Token(Word, w2), r3, []);
    assert Lexes(Token(Whitespace, s), r2, []);
    assert Lexes(Token(Word, w1), r1, []);
    SqueezeThrough(Token(Unrecognized, [c]), tail);
    SqueezeThrough(Token(Word, w2), r3);
    SqueezeThrough(Token(Whitespace, s), r2);
    SqueezeThrough(Token(Word, w1), r1);
  }

  lemma SqueezeLastSpaces(w: string)
    requires IsSpaces(w)
    ensures SqueezedText(Lex(w, [])) == " "
  {
    var none: string := [];
    assert w + none == w;
    assert Lexes(Token(Whitespace, w), none, []);
    SqueezeThrough(Token(Whitespace, w), none);
    assert SqueezedText(Lex(none, [])) == none;
  }

  /** Two words, each followed by blanks, squeeze to the words each
      followed by one space. */
  lemma SqueezeWordsSpaced(w1: string, s1: string, w2: string, s2: string, tail: string)
    requires IsWord(w1) && IsSpaces(s1) && IsWord(w2) && IsSpaces(s2)
    requires tail == [] || !IsWhitespace(tail[0])
    ensures SqueezedText(Lex(w1 + (s1 + (w2 + (s2 + tail))), [])) ==
      w1 + (" " + (w2 + (" " + SqueezedText(Lex(tail, [])))))
  {
    var r3 := s2 + tail;
    var r2 := w2 + r3;
    var r1 := s1 + r2;
    assert Lexes(Token(Whitespace, s2), tail, []);
    assert Lexes(Token(Word, w2), r3, []);
    assert Lexes(Token(Whitespace, s1), r2, []);
    assert Lexes(Token(Word, w1), r1, []);
    SqueezeThrough(Token(Whitespace, s2), tail);
    SqueezeThrough(Token(Word, w2), r3);
    SqueezeThrough(Token(Whitespace, s1), r2);
    SqueezeThrough(Token(Word, w1), r1);
  }

  /** A word, blanks and a lone character squeeze to the word, one space
      and the character. */
  lemma SqueezeWordChar(w: string, s: string, c: char, tail: string)
    requires IsWord(w) && IsSpaces(s) && IsLoneChar(c)
    ensures SqueezedText(Lex(w + (s + ([c] + tail)), [])) == w + (" " + ([c] + SqueezedText(Lex(tail, []))))
  {
    var r2 := [c] + tail;
    var r1 := s + r2;
    assert Lexes(Token(Unrecognized, [c]), tail, []);
    assert Lexes(Token(Whitespace, s), r2, []);
    assert Lexes(Token(Word, w), r1, []);
    SqueezeThrough(Token(Unrecognized, [c]), tail);
    SqueezeThrough(Token(Whitespace, s), r2);
    SqueezeThrough(Token(Word, w), r1);
  }

  /** A word, blanks and two slashes squeeze to the word, one space and
      the slashes: a slash not followed by a star is a token of its own. */
  lemma SqueezeWordSlashes(w: string, s: string, tail: string)
    requires IsWord(w) && IsSpaces(s)
    requires tail == [] || tail[0] != '*'
    ensures SqueezedText(Lex(w + (s + ("/" + ("/" + tail))), [])) == w + (" " + ("/" + ("/" + SqueezedText(Lex(tail, [])))))
  {
    var r3 := "/" + tail;
    var r2 := "/" + r3;
    var r1 := s + r2;
    assert Lexes(Token(Unrecognized, "/"), tail, []);
    assert Lexes(Token(Unrecognized, "/"), r3, []);
    assert Lexes(Token(Whitespace, s), r2, []);
    assert Lexes(Token(Word, w), r1, []);
    SqueezeThrough(Token(Unrecognized, "/"), tail);
    SqueezeThrough(Token(Unrecognized, "/"), r3);
    SqueezeThrough(Token(Whitespace, s), r2);
    SqueezeThrough(Token(Word, w), r1);
  }

  lemma SpellFromFoo(tail: string)
    ensures "select   *  from\n foo\n  " + tail ==
      "select" + ("   " + ("*" + ("  " + ("from" + ("\n " + ("foo" + ("\n  " + tail)))))))
  {
    assert "select   *  from\n foo\n  " == "select" + ("   " + ("*" + ("  " + ("from" + ("\n " + ("foo" + "\n  "))))));
  }

  lemma SpellSqueezedFromFoo(tail: string)
    ensures "select" + (" " + ("*" + (" " + ("from" + (" " + ("foo" + (" " + tail))))))) == "select * from foo " + tail
  {
    assert "select" + (" " + ("*" + (" " + ("from" + (" " + ("foo" + " ")))))) == "select * from foo ";
  }

  lemma FromFooParts()
    ensures IsWord("select") && IsSpaces("   ") && IsLoneChar('*') && IsSpaces("  ")
    ensures IsWord("from") && IsSpaces("\n ") && IsWord("foo") && IsSpaces("\n  ")
  {
  }

  lemma SqueezeFromFooTokens(tail: string)
    requires tail == [] || !IsWhitespace(tail[0])
    ensures SqueezedText(Lex("select" + ("   " + ("*" + ("  " + ("from" + ("\n " + ("foo" + ("\n  " + tail))))))), [])) ==
      "select" + (" " + ("*" + (" " + ("from" + (" " + ("foo" + (" " + SqueezedText(Lex(tail, [])))))))))
  {
    FromFooParts();
    SqueezeWordsSpaced("from", "\n ", "foo", "\n  ", tail);
    SqueezeWordCharSpaced("select", "   ", '*', "  ", "from" + ("\n " + ("foo" + ("\n  " + tail))));
  }

  /** The query the squeezing tests share: every run of blanks and line
      breaks becomes one space. */
  lemma SqueezeFromFoo(tail: string)
    requires tail == [] || !IsWhitespace(tail[0])
    ensures SqueezedText(Lex("select   *  from\n foo\n  " + tail, [])) == "select * from foo " + SqueezedText(Lex(tail, []))
  {
    SpellFromFoo(tail);
    SqueezeFromFooTokens(tail);
    SpellSqueezedFromFoo(SqueezedText(Lex(tail, [])));
  }

  lemma SpellOrderBy(tail: string)
    ensures "order by " + tail == "order" + (" " + ("by" + (" " + tail)))
    ensures "select   *  from\n foo\n  order by " + tail == "select   *  from\n foo\n  " + ("order by " + tail)
    ensures "select * from foo " + ("order by " + tail) == "select * from foo order by " + tail
  {
    assert "order by " == "order" + (" " + ("by" + " "));
    assert "select   *  from\n foo\n  order by " == "select   *  from\n foo\n  " + "order by ";
    assert "select * from foo " + "order by " == "select * from foo order by ";
  }

  lemma OrderByParts()
    ensures IsWord("order") && IsSpaces(" ") && IsWord("by")
  {
  }

  /** The query of the squeezing tests, up to the word the tests differ in. */
  lemma SqueezeOrderBy(tail: string)
    requires tail == [] || !IsWhitespace(tail[0])
    ensures SqueezedText(Lex("select   *  from\n foo\n  order by " + tail, [])) ==
      "select * from foo order by " + SqueezedText(Lex(tail, []))
  {
    SpellOrderBy(tail);
    OrderByParts();
    SqueezeWordsSpaced("order", " ", "by", " ", tail);
    SqueezeFromFoo("order by " + tail);
    SpellOrderBy(SqueezedText(Lex(tail, [])));
  }

  /** A character the lexer does not recognise stays in place, with no
      space around it. */
  lemma SpellSqueezedError()
    ensures "select" + (" " + ("*" + (" " + ("from" + (" " + ("z" + ("#" + "oops"))))))) == "select * from z#oops"
  {
    assert "z" + ("#" + "oops") == "z#oops";
    assert "from" + (" " + "z#oops") == "from z#oops";
    assert "select" + (" " + ("*" + (" " + "from z#oops"))) == "select * from z#oops";
  }

  lemma ErrorParts()
    ensures IsWord("select") && IsSpaces("   ") && IsLoneChar('*') && IsSpaces("  ")
    ensures IsWord("from") && IsSpaces(" ") && IsWord("z") && IsLoneChar('#') && IsWord("oops")
    ensures "select   *  from z#oops" == "select" + ("   " + ("*" + ("  " + ("from" + (" " + ("z" + ("#" + "oops")))))))
  {
  }

  lemma SqueezeError()
    ensures Squeezed("select   *  from z#oops") == "select * from z#oops"
  {
    ErrorParts();
    SqueezeLastWord("oops");
    SqueezeWordsThenChar("from", " ", "z", '#', "oops");
    SqueezeWordCharSpaced("select", "   ", '*', "  ", "from" + (" " + ("z" + ("#" + "oops"))));
    SpellSqueezedError();
    TrimKeeps("select * from z#oops");
  }


  lemma SqueezeOrderByX()
    ensures SqueezedText(Lex("x ; ", [])) == "x ; "
  {
    assert IsWord("x") && IsSpaces(" ") && IsLoneChar(';');
    assert "x ; " == "x" + (" " + (";" + " "));
    SqueezeWordChar("x", " ", ';', " ");
    SqueezeLastSpaces(" ");
  }

  lemma SpellOrderByX()
    ensures "select   *  from\n foo\n  order by " + "x ; " == "select   *  from\n foo\n  order by x ; "
    ensures "select * from foo order by " + "x ; " == "select * from foo order by x ;" + " "
  {
  }

  /** Blanks and line breaks between tokens become one space each, and
      the trailing blank is trimmed away. */
  lemma SqueezeStatementExample()
    ensures Squeezed("select   *  from\n foo\n  order by x ; ") == "select * from foo order by x ;"
  {
    SqueezeOrderByX();
    SqueezeOrderBy("x ; ");
    SpellOrderByX();
    TrimBeforeBlank("select * from foo order by x ;", ' ');
  }

  lemma SqueezeSlashesX()
    ensures SqueezedText(Lex("x // ", [])) == "x // "
  {
    assert IsWord("x") && IsSpaces(" ");
    assert "x // " == "x" + (" " + ("/" + ("/" + " ")));
    SqueezeWordSlashes("x", " ", " ");
    SqueezeLastSpaces(" ");
  }

  lemma SpellSlashesX()
    ensures "select   *  from\n foo\n  order by " + "x // " == "select   *  from\n foo\n  order by x // "
    ensures "select * from foo order by " + "x // " == "select * from foo order by x //" + " "
  {
  }

  /** Squeezing lexes without delimiters: an alternate delimiter is two
      characters like any other, kept after one space. */
  lemma SqueezeAlternateDelimiter()
    ensures Squeezed("select   *  from\n foo\n  order by x // ") == "select * from foo order by x //"
  {
    SqueezeSlashesX();
    SqueezeOrderBy("x // ");
    SpellSlashesX();
    TrimBeforeBlank("select * from foo order by x //", ' ');
  }

  /** A quote that no later quote closes is a token of its own. */
  lemma SqueezeUnclosedQuote(c: char, s: string, w: string)
    requires IsLoneChar(c) && IsSpaces(s) && IsWord(w)
    ensures SqueezedText(Lex([c] + (s + ("'" + w)), [])) == [c] + (" " + ("'" + w))
  {
    SqueezeLastWord(w);
    assert Lexes(Token(Unrecognized, "'"), w, []);
    SqueezeThrough(Token(Unrecognized, "'"), w);
    assert Lexes(Token(Whitespace, s), "'" + w, []);
    SqueezeThrough(Token(Whitespace, s), "'" + w);
    assert Lexes(Token(Unrecognized, [c]), s + ("'" + w), []);
    SqueezeThrough(Token(Unrecognized, [c]), s + ("'" + w));
  }

  lemma SpellWhereX()
    ensures "where x = 'oops" == "where" + (" " + ("x" + (" " + ("=" + (" " + ("'" + "oops"))))))
    ensures "select   *  from\n foo\n  " + "where x = 'oops" == "select   *  from\n foo\n  where x = 'oops"
    ensures "select * from foo " + "where x = 'oops" == "select * from foo where x = 'oops"
  {
  }

  lemma WhereXParts()
    ensures IsWord("where") && IsSpaces(" ") && IsWord("x") && IsLoneChar('=') && IsWord("oops")
  {
  }

  lemma SqueezeWhereX()
    ensures SqueezedText(Lex("where x = 'oops", [])) == "where x = 'oops"
  {
    SpellWhereX();
    WhereXParts();
    SqueezeUnclosedQuote('=', " ", "oops");
    SqueezeWordsSpaced("where", " ", "x", " ", "=" + (" " + ("'" + "oops")));
  }

  /** A quote that is never closed is a character of its own: it stays
      in place and the text after it is squeezed as usual. */
  lemma SqueezeIncompleteQuotedString()
    ensures Squeezed("select   *  from\n foo\n  where x = 'oops") == "select * from foo where x = 'oops"
  {
    SqueezeWhereX();
    SqueezeFromFoo("where x = 'oops");
    SpellWhereX();
    TrimKeeps("select * from foo where x = 'oops");
  }

  lemma BackquotedContent()
    ensures QuotedContent("  f``o  o`` ", '`')
  {
    var none: string := [];
    UnquotedThen(" ", none, '`');
    assert " " + none == " ";
    EscapedThen(" ", '`');
    UnquotedThen("o  o", "``" + " ", '`');
    EscapedThen("o  o" + ("``" + " "), '`');
    UnquotedThen("  f", "``" + ("o  o" + ("``" + " ")), '`');
    assert "  f" + ("``" + ("o  o" + ("``" + " "))) == "  f``o  o`` ";
  }

  /** A backquoted identifier is one token when its content is. */
  lemma BackquotedLexes(x: string, after: string)
    requires QuotedContent(x, '`') && (after == [] || after[0] != '`')
    ensures Lexes(Token(BackquotedIdentifier, "`" + x + "`"), after, [])
  {
    var text := "`" + x + "`";
    assert text[1..|text| - 1] == x;
  }

  /** A word, blanks, a backquoted identifier and blanks squeeze to the
      word and the identifier, each followed by one space. */
  lemma SqueezeQuotedSpaced(w: string, s1: string, t: Token, s2: string, tail: string)
    requires IsWord(w) && IsSpaces(s1) && IsSpaces(s2) && (tail == [] || !IsWhitespace(tail[0]))
    requires t.kind == BackquotedIdentifier && Lexes(t, s2 + tail, [])
    ensures SqueezedText(Lex(w + (s1 + (t.text + (s2 + tail))), [])) ==
      w + (" " + (t.text + (" " + SqueezedText(Lex(tail, [])))))
  {
    var r3 := s2 + tail;
    var r2 := t.text + r3;
    var r1 := s1 + r2;
    assert Lexes(Token(Whitespace, s2), tail, []);
    assert r2[0] == '`';
    assert Lexes(Token(Whitespace, s1), r2, []);
    assert Lexes(Token(Word, w), r1, []);
    SqueezeThrough(Token(Whitespace, s2), tail);
    SqueezeThrough(t, r3);
    SqueezeThrough(Token(Whitespace, s1), r2);
    SqueezeThrough(Token(Word, w), r1);
  }

  lemma SqueezeWordLast(w1: string, s: string, w2: string)
    requires IsWord(w1) && IsSpaces(s) && IsWord(w2)
    ensures SqueezedText(Lex(w1 + (s + w2), [])) == w1 + (" " + w2)
  {
    SqueezeLastWord(w2);
    assert Lexes(Token(Whitespace, s), w2, []);
    SqueezeThrough(Token(Whitespace, s), w2);
    assert Lexes(Token(Word, w1), s + w2, []);
    SqueezeThrough(Token(Word, w1), s + w2);
  }

  lemma BackquoteParts()
    ensures IsWord("select") && IsSpaces("  ") && IsSpaces("   ") && IsWord("from") && IsSpaces(" ") && IsWord("dual")
    ensures "`  f``o  o`` `" == "`" + "  f``o  o`` " + "`"
  {
  }

  lemma BackquotedTokenLexes()
    ensures Lexes(Token(BackquotedIdentifier, "`  f``o  o`` `"), "   " + ("from" + (" " + "dual")), [])
  {
    BackquoteParts();
    BackquotedContent();
    BackquotedLexes("  f``o  o`` ", "   " + ("from" + (" " + "dual")));
  }

  lemma SqueezeBackquotedTokens()
    ensures SqueezedText(Lex("select" + ("  " + ("`  f``o  o`` `" + ("   " + ("from" + (" " + "dual"))))), [])) ==
      "select" + (" " + ("`  f``o  o`` `" + (" " + ("from" + (" " + "dual")))))
  {
    BackquoteParts();
    BackquotedTokenLexes();
    SqueezeWordLast("from", " ", "dual");
    SqueezeQuotedSpaced("select", "  ", Token(BackquotedIdentifier, "`  f``o  o`` `"), "   ", "from" + (" " + "dual"));
  }

  lemma SpellBackquoteInput()
    ensures "select  `  f``o  o`` `   from dual" == "select" + ("  " + ("`  f``o  o`` `" + ("   " + ("from" + (" " + "dual")))))
  {
    assert "`  f``o  o`` `" + ("   " + ("from" + (" " + "dual"))) == "`  f``o  o`` `   from dual";
  }

  lemma SpellBackquoteOutput()
    ensures "select" + (" " + ("`  f``o  o`` `" + (" " + ("from" + (" " + "dual"))))) == "select `  f``o  o`` ` from dual"
  {
    assert "`  f``o  o`` `" + (" " + ("from" + (" " + "dual"))) == "`  f``o  o`` ` from dual";
  }

  /** Blanks inside a backquoted identifier are part of the name and are
      kept; only the blanks between tokens are squeezed. */
  lemma SqueezeBackquote()
    ensures Squeezed("select  `  f``o  o`` `   from dual") == "select `  f``o  o`` ` from dual"
  {
    SpellBackquoteInput();
    SqueezeBackquotedTokens();
    SpellBackquoteOutput();
    TrimKeeps("select `  f``o  o`` ` from dual");
  }
}
