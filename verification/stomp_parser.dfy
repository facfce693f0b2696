/**
 * `StompParser` (include/NetworkMonitor/Stomp/StompParser.h): a two-token look-ahead parser
 * over `StompTokenizer`.
 *
 * The parser is modelled on the text its lexer reads. `Parse` reads a command token, a header
 * key and a header value and then returns a default-constructed frame: what it parsed is
 * discarded. Any step can throw, and any call of `GetToken` can loop forever; `Run` keeps the
 * three outcomes apart.
 */
module StompParsing {
  import opened Wrappers
  import Bimaps
  import StompFrames
  import opened StompLexer

  /** The exceptions the parser raises. */
  datatype ParseError =
    | MissingCommand                                          // "expected stomp command token"
    | UnexpectedToken(expected: TokenType, actual: TokenType)  // `match` on the wrong kind
    | NoTokenName(kind: TokenType)                            // `value()` of an empty optional

  /** What a parser call does: it returns, it throws, or it never returns. */
  datatype Run<+T> = Done(value: T) | Threw(error: ParseError) | Hangs
  {
    predicate IsFailure()
    {
      !Done?
    }

    function PropagateFailure<U>(): Run<U>
      requires IsFailure()
    {
      if Threw? then Threw(error) else Hangs
    }

    function Extract(): T
      requires Done?
    {
      value
    }
  }

  /** The parser state: the lexer's input and cursor, and the current and next tokens. */
  datatype Parser = Parser(input: string, cursor: Cursor, current: Token, next: Token)

  /** The token both members are initialised with. */
  const NoToken: Token := Token(UndefinedToken, StompFrames.NoValue)

  /**
   * The parser has read exactly the first `k` tokens of its input: its cursor is where the
   * lexer stops after `k` calls, `next` is token `k - 1` and `current` is token `k - 2`.
   */
  predicate Synced(p: Parser, k: nat)
  {
    && HaltsFor(p.input, Start, k)
    && var (ts, c) := Lex(p.input, Start, k);
    && p.cursor == c
    && p.next == (if k >= 1 then ts[k - 1] else NoToken)
    && p.current == (if k >= 2 then ts[k - 2] else NoToken)
  }

  /** A parser whose lexer reads `lexerInput`, before any token is read. */
  function Create(lexerInput: string): (p: Parser)
    ensures p.input == lexerInput && Synced(p, 0)
  {
    Parser(lexerInput, Start, NoToken, NoToken)
  }

  /** `nextToken`: the next token becomes current and the lexer supplies a new next token. */
  function NextToken(p: Parser): (r: Run<Parser>)
    ensures !r.Threw?
    ensures r.Done? <==> Halts(p.input, p.cursor)
    ensures r.Done? ==> r.value.input == p.input && r.value.current == p.next
    ensures r.Done? ==> LexerKind(r.value.next.kind)
  {
    if Halts(p.input, p.cursor) then
      var (t, c) := Step(p.input, p.cursor);
      Done(Parser(p.input, c, p.next, t))
    else Hangs
  }

  /** Reading one more token keeps the parser in step with the token stream. */
  lemma NextTokenReadsStream(p: Parser, k: nat)
    requires Synced(p, k)
    ensures NextToken(p).Done? <==> HaltsFor(p.input, Start, k + 1)
    ensures NextToken(p).Done? ==> Synced(NextToken(p).value, k + 1)
  {
    if Halts(p.input, p.cursor) {
      HaltsForSnoc(p.input, Start, k);
      LexSnoc(p.input, Start, k);
    } else if HaltsFor(p.input, Start, k + 1) {
      LexSnoc(p.input, Start, k);
    }
  }

  /** `match`: throws unless the current token has kind `kind`, then moves on by one token. */
  function Match(p: Parser, kind: TokenType): (r: Run<Parser>)
    ensures r.Threw? <==> p.current.kind != kind
    ensures r.Threw? ==> r.error == UnexpectedToken(kind, p.current.kind)
    ensures r.Done? <==> p.current.kind == kind && Halts(p.input, p.cursor)
    ensures r.Done? ==> r.value.input == p.input && r.value.current == p.next
  {
    if p.current.kind != kind then Threw(UnexpectedToken(kind, p.current.kind))
    else NextToken(p)
  }

  /**
   * `parseStompCommand`: throws unless the current token is a command, consumes it, and
   * returns the value-initialised command `kUndefined`, not the one it read.
   */
  function ParseCommand(p: Parser): (r: Run<(StompFrames.StompCommand, Parser)>)
    ensures r.Threw? <==> p.current.kind != StompCommand
    ensures r.Threw? ==> r.error == MissingCommand
    ensures r.Done? ==> r.value.0 == StompFrames.Undefined && r.value.1.current == p.next
    ensures r.Done? ==> r.value.1.input == p.input
  {
    if p.current.kind == StompCommand then
      var q :- Match(p, StompCommand);
      Done((StompFrames.Undefined, q))
    else Threw(MissingCommand)
  }

  /**
   * `parseStompHeader`: matches a header key and a header value, then names the header after
   * the KIND of the token that follows the value, and takes that token's value as its value.
   * Every token the lexer hands out has a name, so the `value()` call never throws.
   */
  function ParseHeader(p: Parser): (r: Run<(StompFrames.StompHeader, Parser)>)
    ensures r.Threw? <==>
      p.current.kind != StompHeaderKey || (Halts(p.input, p.cursor) && p.next.kind != StompHeaderValue)
    ensures r.Threw? ==> r.error.UnexpectedToken?
    ensures r.Done? ==> r.value.1.input == p.input
    ensures r.Done? ==>
      && Bimaps.ToString(TokenTypeNames(), r.value.1.current.kind) == Some(r.value.0.header)
      && r.value.0.value == r.value.1.current.value
  {
    var p1 :- Match(p, StompHeaderKey);
    var p2 :- Match(p1, StompHeaderValue);
    TokenTypeVocabulary();
    match Bimaps.ToString(TokenTypeNames(), p2.current.kind)
    case None => Threw(NoTokenName(p2.current.kind))
    case Some(name) => Done((StompFrames.StompHeader(name, p2.current.value), p2))
  }

  /** `parseStompHeaders`: parses one header and returns an empty header list. */
  function ParseHeaders(p: Parser): (r: Run<(seq<StompFrames.StompHeader>, Parser)>)
    ensures r.Threw? <==> ParseHeader(p).Threw?
    ensures r.Done? <==> ParseHeader(p).Done?
    ensures r.Done? ==> r.value.0 == [] && r.value.1 == ParseHeader(p).value.1
  {
    var hp :- ParseHeader(p);
    Done(([], hp.1))
  }

  /**
   * `Parse`: primes the two tokens, parses the command and the headers, and returns a
   * default-constructed frame.
   */
  function Parse(lexerInput: string): (r: Run<StompFrames.StompFrame>)
    ensures r.Done? ==> r.value == StompFrames.DefaultFrame()
    ensures r.Threw? ==> r.error.MissingCommand? || r.error.UnexpectedToken?
  {
    var p0 := Create(lexerInput);
    var p1 :- NextToken(p0);
    var p2 :- NextToken(p1);
    var cp :- ParseCommand(p2);
    var hp :- ParseHeaders(cp.1);
    Done(StompFrames.DefaultFrame())
  }

  /** The kinds `Parse` demands of the first three tokens. */
  const Expected: seq<TokenType> := [StompCommand, StompHeaderKey, StompHeaderValue]

  /** The exception `Parse` raises when token `i` has kind `actual`. */
  function Mismatch(i: nat, actual: TokenType): ParseError
    requires i < |Expected|
  {
    if i == 0 then MissingCommand else UnexpectedToken(Expected[i], actual)
  }

  /**
   * `Parse` described on the token stream: token `i` is checked once `i + 2` tokens have been
   * read; the first token of the wrong kind throws; after all three match, two more tokens
   * are read and the default frame is returned. A token that is never returned hangs.
   */
  function ParseByTokens(input: string, i: nat): Run<StompFrames.StompFrame>
    requires i <= |Expected|
    decreases |Expected| - i
  {
    if i == |Expected| then
      if HaltsFor(input, Start, 5) then Done(StompFrames.DefaultFrame()) else Hangs
    else if !HaltsFor(input, Start, i + 2) then Hangs
    else
      var t := Lex(input, Start, i + 2).0[i];
      if t.kind != Expected[i] then Threw(Mismatch(i, t.kind))
      else ParseByTokens(input, i + 1)
  }

  /** The frame `Parse` returns once a stage returns, or that stage's exception or hang. */
  function Finish<T>(r: Run<T>): Run<StompFrames.StompFrame>
  {
    if r.Done? then Done(StompFrames.DefaultFrame()) else r.PropagateFailure()
  }

  /** `match` on a parser that has read `k >= 2` tokens checks token `k - 2` and reads one more. */
  lemma MatchReadsStream(p: Parser, k: nat, kind: TokenType)
    requires k >= 2 && Synced(p, k)
    ensures Match(p, kind).Hangs? <==> p.current.kind == kind && !HaltsFor(p.input, Start, k + 1)
    ensures Match(p, kind).Done? ==> Synced(Match(p, kind).value, k + 1)
  {
    NextTokenReadsStream(p, k);
  }

  /** From the header on, `Parse` agrees with `ParseByTokens`. */
  lemma HeaderStageAgrees(p: Parser)
    requires Synced(p, 3)
    ensures Finish(ParseHeaders(p)) == ParseByTokens(p.input, 1)
  {
    MatchReadsStream(p, 3, StompHeaderKey);
    var m := Match(p, StompHeaderKey);
    if m.Done? {
      MatchReadsStream(m.value, 4, StompHeaderValue);
    }
  }

  /** From the command check on, `Parse` agrees with `ParseByTokens`. */
  lemma CommandStageAgrees(p: Parser)
    requires Synced(p, 2)
    ensures var r := ParseCommand(p);
      (if r.Done? then Finish(ParseHeaders(r.value.1)) else r.PropagateFailure()) == ParseByTokens(p.input, 0)
  {
    MatchReadsStream(p, 2, StompCommand);
    var r := ParseCommand(p);
    if r.Done? {
      HeaderStageAgrees(r.value.1);
    }
  }

  /** `Parse` is exactly its token-stream description. */
  lemma ParseIsTokenCheck(input: string)
    ensures Parse(input) == ParseByTokens(input, 0)
  {
    var p0 := Create(input);
    NextTokenReadsStream(p0, 0);
    if NextToken(p0).Done? {
      var p1 := NextToken(p0).value;
      NextTokenReadsStream(p1, 1);
      if NextToken(p1).Done? {
        CommandStageAgrees(NextToken(p1).value);
      }
    }
  }
}

/** What `StompParser` accepts, on concrete frames and in general. */
module StompParserProperties {
  import opened Wrappers
  import StompFrames
  import opened StompLexer
  import opened StompLexerProperties
  import opened StompParsing

  /**
   * `Parse` returns iff the first five calls of `GetToken` return and the first three tokens
   * are a command, a header key and a header value, in that order.
   */
  lemma ParseSucceedsExactly(input: string)
    ensures Parse(input).Done? <==>
      HaltsFor(input, Start, 5) && forall i :: 0 <= i < 3 ==> Lex(input, Start, 5).0[i].kind == Expected[i]
  {
    ParseIsTokenCheck(input);
    TokenCheckSucceeds(input, 0);
  }

  /** `ParseByTokens` from token `i` returns iff five tokens are read and tokens `i..3` match. */
  lemma {:induction false} TokenCheckSucceeds(input: string, i: nat)
    requires i <= 3
    ensures ParseByTokens(input, i).Done? <==>
      HaltsFor(input, Start, 5) && forall j :: i <= j < 3 ==> Lex(input, Start, 5).0[j].kind == Expected[j]
    decreases 3 - i
  {
    if i < 3 {
      TokenCheckSucceeds(input, i + 1);
      if HaltsFor(input, Start, 5) {
        LexPrefix(input, Start, i + 2, 5);
        assert Lex(input, Start, i + 2).0[i] == Lex(input, Start, 5).0[i];
      }
    }
  }

  /**
   * `parseStompHeader` names the header after the kind of the token that FOLLOWS the header
   * value, and takes that token's value, instead of the key and the value it matched.
   */
  lemma HeaderNamedAfterFollowingToken(p: Parser)
    requires Synced(p, 3) && ParseHeader(p).Done?
    ensures HaltsFor(p.input, Start, 5)
    ensures var t := Lex(p.input, Start, 5).0[3];
      Bimaps.ToString(TokenTypeNames(), t.kind) == Some(ParseHeader(p).value.0.header)
      && ParseHeader(p).value.0.value == t.value
  {
    HeaderMatchesTwice(p);
    var p1 := Match(p, StompHeaderKey).value;
    assert Synced(p1, 4) by {
      MatchReadsStream(p, 3, StompHeaderKey);
    }
    var p2 := Match(p1, StompHeaderValue).value;
    assert Synced(p2, 5) by {
      MatchReadsStream(p1, 4, StompHeaderValue);
    }
  }

  /** A returning `parseStompHeader` has matched a key and then a value, and stops there. */
  lemma HeaderMatchesTwice(p: Parser)
    requires ParseHeader(p).Done?
    ensures Match(p, StompHeaderKey).Done?
    ensures Match(Match(p, StompHeaderKey).value, StompHeaderValue).Done?
    ensures ParseHeader(p).value.1 == Match(Match(p, StompHeaderKey).value, StompHeaderValue).value
  {
  }

  /** A frame whose first calls of `GetToken` return the tokens of `OneHeaderFrame` parses. */
  lemma OneHeaderFrameParses(v: string, b: string)
    requires |v| >= 1 && (forall k :: 1 <= k < |v| ==> v[k] != '\n') && '\0' !in b
    ensures Parse(OneHeaderFrame(v, b)) == Done(StompFrames.DefaultFrame())
  {
    OneHeaderFrameTokens(v, b);
    ParseSucceedsExactly(OneHeaderFrame(v, b));
  }

  /** A frame without headers is rejected: a body token comes where the header key should. */
  lemma NoHeaderFrameRejected(b: string)
    requires '\0' !in b
    ensures Parse(NoHeaderFrame(b)) == Threw(UnexpectedToken(StompHeaderKey, StompBody))
  {
    NoHeaderFrameTokens(b);
    ParseIsTokenCheck(NoHeaderFrame(b));
    LexPrefix(NoHeaderFrame(b), Start, 2, 3);
  }

  /** A frame that ends right after its command word never finishes parsing. */
  lemma BareCommandHangs()
    ensures Parse("STOMP") == Hangs
  {
    BareCommandNeverReturns();
  }

  /**
   * Every call of `GetToken` on the empty text returns an Undefined token, so parsing the
   * empty text throws "expected stomp command token".
   */
  lemma EmptyTextThrows()
    ensures Parse("") == Threw(MissingCommand)
  {
    assert HaltsFor("", Start, 2);
  }

  /**
   * The constructor as written: `m_frameText` is initialised first and moves the argument
   * away, and the lexer is then built from the moved-from argument. The standard leaves a
   * moved-from string valid but unspecified; libstdc++ and libc++ leave it empty.
   */
  function LexerInputAsWritten(frameText: string): string
  {
    ""
  }

  /** `StompParser(frame).Parse()` as written. */
  function ParseTextAsWritten(frameText: string): Run<StompFrames.StompFrame>
  {
    Parse(LexerInputAsWritten(frameText))
  }

  /** `StompParser(frame).Parse()` with the lexer built from the frame text, as intended. */
  function ParseText(frameText: string): Run<StompFrames.StompFrame>
  {
    Parse(frameText)
  }

  /** As written, every frame text is rejected: the lexer never sees it. */
  lemma AsWrittenRejectsEveryFrame(frameText: string)
    ensures ParseTextAsWritten(frameText) == Threw(MissingCommand)
  {
    EmptyTextThrows();
  }

  /**
   * The frame of the parser test: as written it throws, while the intended parser returns
   * the default frame, which is what the test expects by not expecting an exception.
   */
  lemma ExampleFrameParses()
    ensures ParseText(ExampleFrame()) == Done(StompFrames.DefaultFrame())
    ensures ParseTextAsWritten(ExampleFrame()) == Threw(MissingCommand)
  {
    ExampleFrameShape();
    OneHeaderFrameParses("applicationjson", "login:vagag\npasscode:vagagord\n");
    AsWrittenRejectsEveryFrame(ExampleFrame());
  }
}
