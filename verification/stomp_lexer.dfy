/**
 * `StompTokenizer` (include/NetworkMonitor/Stomp/StompParser.h): a character cursor over one
 * frame string that hands out one token per `GetToken` call.
 *
 * The tokenizer is modelled as it is written, not as STOMP 1.2 describes frames: header values
 * and bodies lose one character, `:` and `\n` are never recognised at the last position, no
 * EOF/EOL/NUL token is ever produced, and some inputs make `GetToken` loop forever. Those
 * inputs are represented by the `Diverge` outcome of `Scan`; `Step`, the pure step function
 * `(frame, cursor) -> (token, cursor')`, requires that the call halts.
 */
module StompLexer {
  import opened Wrappers
  import Bimaps
  import StompFrames

  /** `TokenType`, with the `kSizeOfEnum` sentinel after the real values. */
  datatype TokenType =
    | UndefinedToken
    | EOF | EOL | Null
    | StompCommand | StompHeaderKey | StompHeaderValue | StompBody
    | SizeOfEnum

  /** The pairs `TokenTypeToStringBimap` is constructed from, in order. */
  const TokenTypePairs: seq<(TokenType, string)> :=
    [ (UndefinedToken, "UndefinedToken"), (EOF, "EOFToken"), (EOL, "EOLToken"), (Null, "NullToken"),
      (StompCommand, "StompCommandToken"), (StompHeaderKey, "StompHeaderKey"),
      (StompHeaderValue, "StompHeaderValue"), (StompBody, "StompBody"),
      (SizeOfEnum, "UndefinedToken") ]

  /** `TokenTypeToStringBimap`. */
  function TokenTypeNames(): Bimaps.Bimap<TokenType, string>
  {
    Bimaps.Build(TokenTypePairs)
  }

  /**
   * The eight real pairs clash with no earlier pair, so a one-to-one bimap that stores every
   * such pair names each real kind, and each name maps back to its kind.
   */
  lemma RealPairsNamed(b: Bimaps.Bimap<TokenType, string>)
    requires Bimaps.Valid(b) && Bimaps.StoresFresh(b, TokenTypePairs)
    ensures Bimaps.ToString(b, UndefinedToken) == Some("UndefinedToken")
    ensures Bimaps.ToString(b, EOF) == Some("EOFToken")
    ensures Bimaps.ToString(b, EOL) == Some("EOLToken")
    ensures Bimaps.ToString(b, Null) == Some("NullToken")
    ensures Bimaps.ToString(b, StompCommand) == Some("StompCommandToken")
    ensures Bimaps.ToString(b, StompHeaderKey) == Some("StompHeaderKey")
    ensures Bimaps.ToString(b, StompHeaderValue) == Some("StompHeaderValue")
    ensures Bimaps.ToString(b, StompBody) == Some("StompBody")
    ensures Bimaps.ToEnum(b, "UndefinedToken") == Some(UndefinedToken)
    ensures Bimaps.ToEnum(b, "EOFToken") == Some(EOF)
    ensures Bimaps.ToEnum(b, "EOLToken") == Some(EOL)
    ensures Bimaps.ToEnum(b, "NullToken") == Some(Null)
    ensures Bimaps.ToEnum(b, "StompCommandToken") == Some(StompCommand)
    ensures Bimaps.ToEnum(b, "StompHeaderKey") == Some(StompHeaderKey)
    ensures Bimaps.ToEnum(b, "StompHeaderValue") == Some(StompHeaderValue)
    ensures Bimaps.ToEnum(b, "StompBody") == Some(StompBody)
  {
    FreshPairsStored(b);
    var m := TokenTypePairs;
    assert Bimaps.Stored(b, m[0]) && Bimaps.Stored(b, m[1]) && Bimaps.Stored(b, m[2]) && Bimaps.Stored(b, m[3]);
    assert Bimaps.Stored(b, m[4]) && Bimaps.Stored(b, m[5]) && Bimaps.Stored(b, m[6]) && Bimaps.Stored(b, m[7]);
  }

  /** None of the eight real pairs clashes with an earlier pair, so each of them is stored. */
  lemma FreshPairsStored(b: Bimaps.Bimap<TokenType, string>)
    requires Bimaps.StoresFresh(b, TokenTypePairs)
    ensures forall i :: 0 <= i < 8 ==> Bimaps.Stored(b, TokenTypePairs[i])
  {
    FreshLowPairs();
    FreshHighPairs();
  }

  /** The pairs of the undefined kind and the three framing kinds are fresh. */
  lemma FreshLowPairs()
    ensures forall i :: 0 <= i < 4 ==> Bimaps.FreshAt(TokenTypePairs, i)
  {
    var m := TokenTypePairs;
    assert Bimaps.FreshAt(m, 0) && Bimaps.FreshAt(m, 1) && Bimaps.FreshAt(m, 2) && Bimaps.FreshAt(m, 3);
  }

  /** The pairs of the four STOMP kinds are fresh. */
  lemma FreshHighPairs()
    ensures forall i :: 4 <= i < 8 ==> Bimaps.FreshAt(TokenTypePairs, i)
  {
    var m := TokenTypePairs;
    assert Bimaps.FreshAt(m, 4) && Bimaps.FreshAt(m, 5) && Bimaps.FreshAt(m, 6) && Bimaps.FreshAt(m, 7);
  }

  /**
   * The names the token bimap holds: every real kind has its own name, each name maps back
   * to its kind, and the sentinel, whose name "UndefinedToken" is already taken by the first
   * pair, has none.
   */
  lemma TokenTypeVocabulary()
    ensures Bimaps.ToString(TokenTypeNames(), UndefinedToken) == Some("UndefinedToken")
    ensures Bimaps.ToString(TokenTypeNames(), EOF) == Some("EOFToken")
    ensures Bimaps.ToString(TokenTypeNames(), EOL) == Some("EOLToken")
    ensures Bimaps.ToString(TokenTypeNames(), Null) == Some("NullToken")
    ensures Bimaps.ToString(TokenTypeNames(), StompCommand) == Some("StompCommandToken")
    ensures Bimaps.ToString(TokenTypeNames(), StompHeaderKey) == Some("StompHeaderKey")
    ensures Bimaps.ToString(TokenTypeNames(), StompHeaderValue) == Some("StompHeaderValue")
    ensures Bimaps.ToString(TokenTypeNames(), StompBody) == Some("StompBody")
    ensures Bimaps.ToEnum(TokenTypeNames(), "UndefinedToken") == Some(UndefinedToken)
    ensures Bimaps.ToEnum(TokenTypeNames(), "EOFToken") == Some(EOF)
    ensures Bimaps.ToEnum(TokenTypeNames(), "EOLToken") == Some(EOL)
    ensures Bimaps.ToEnum(TokenTypeNames(), "NullToken") == Some(Null)
    ensures Bimaps.ToEnum(TokenTypeNames(), "StompCommandToken") == Some(StompCommand)
    ensures Bimaps.ToEnum(TokenTypeNames(), "StompHeaderKey") == Some(StompHeaderKey)
    ensures Bimaps.ToEnum(TokenTypeNames(), "StompHeaderValue") == Some(StompHeaderValue)
    ensures Bimaps.ToEnum(TokenTypeNames(), "StompBody") == Some(StompBody)
    ensures Bimaps.ToString(TokenTypeNames(), SizeOfEnum) == None
  {
    RealPairsNamed(TokenTypeNames());
    SentinelHasNoName(TokenTypeNames());
  }

  /** The sentinel's pair reuses the name "UndefinedToken", so the sentinel gets no name. */
  lemma SentinelHasNoName(b: Bimaps.Bimap<TokenType, string>)
    requires Bimaps.Valid(b) && Bimaps.SourcedFrom(b, TokenTypePairs) && Bimaps.StoresFresh(b, TokenTypePairs)
    ensures Bimaps.ToString(b, SizeOfEnum) == None
  {
    var m := TokenTypePairs;
    assert Bimaps.Stored(b, m[0]) by { FreshPairsStored(b); }
    assert m[8].1 == m[0].1 && m[8].0 != m[0].0;
    assert forall k :: 0 <= k < 8 ==> m[k].0 != SizeOfEnum;
    Bimaps.DroppedPairUnnamed(b, m, 8, 0);
  }

  datatype Token = Token(kind: TokenType, value: StompFrames.TokenValue)

  /** The kinds `GetToken` can hand out. */
  predicate LexerKind(k: TokenType)
  {
    k in {UndefinedToken, StompCommand, StompHeaderKey, StompHeaderValue, StompBody}
  }

  /**
   * `m_currentPos`: `Start` is `std::string::npos`, the position before the first `nextChar`.
   * Past the end of the frame the position keeps growing by one per `nextChar`.
   */
  datatype Cursor = Start | At(pos: nat)

  /** The position `nextChar` moves the cursor to. */
  function Next(c: Cursor): nat
  {
    match c
    case Start => 0
    case At(p) => p + 1
  }

  /** The string `nextChar` and `peek` return once they run off the frame. */
  const EofMarker: string := "EOF"

  /** `m_currentChar`: empty before the first `nextChar`, `EofMarker` past the end. */
  function CurrentChar(frame: string, c: Cursor): (s: string)
    ensures c.At? ==> |s| > 0
  {
    match c
    case Start => ""
    case At(p) => if p >= |frame| then EofMarker else [frame[p]]
  }

  /** `peek`: the character after the cursor, or `EofMarker` when there is none. */
  function Peek(frame: string, c: Cursor): (s: string)
    ensures |s| > 0
  {
    match c
    case Start => EofMarker
    case At(p) => if p + 1 >= |frame| then EofMarker else [frame[p + 1]]
  }

  /** `isCurrentChar`: false at the last position of the frame, whatever is stored there. */
  predicate IsCurrentChar(frame: string, c: Cursor, symbol: char)
  {
    var current := CurrentChar(frame, c);
    if |current| == 0 || |current| >= 2 || c.Start? || c.pos + 1 >= |frame| then false
    else current[0] == symbol
  }

  /** `std::isalpha` in the "C" locale. */
  predicate IsAlpha(ch: char)
  {
    'A' <= ch <= 'Z' || 'a' <= ch <= 'z'
  }

  /** `isHeaderKey`: the only header key the lexer knows. */
  predicate IsHeaderKey(key: string)
  {
    key == "content-type"
  }

  /** The condition that ends the letter-run loop with the cursor at `q`. */
  predicate RunStops(frame: string, q: nat)
  {
    var peek := Peek(frame, At(q))[0];
    peek == ':' || peek == '\n' ||
    (!IsAlpha(CurrentChar(frame, At(q))[0]) && !IsCurrentChar(frame, At(q), '-'))
  }

  /** The condition that ends the header-value loop with the cursor at `q`. */
  predicate PeeksNewline(frame: string, q: nat)
  {
    Peek(frame, At(q))[0] == '\n'
  }

  /** The condition that ends the body loop once `nextChar` has moved the cursor to `q`. */
  predicate AtNul(frame: string, q: nat)
  {
    CurrentChar(frame, At(q))[0] == '\0'
  }

  /** Where the letter-run loop started at `q` stops, or None when it never does. */
  function RunEnd(frame: string, q: nat): (r: Option<nat>)
    decreases |frame| - q
    ensures r.Some? ==> q <= r.value < |frame| && RunStops(frame, r.value)
    ensures r.Some? ==> forall k :: q <= k < r.value ==> !RunStops(frame, k)
    ensures r.None? ==> forall k :: q <= k ==> !RunStops(frame, k)
  {
    if q >= |frame| then None
    else if RunStops(frame, q) then Some(q)
    else RunEnd(frame, q + 1)
  }

  /** Where the header-value loop started at `q` stops, or None when it never does. */
  function ValueEnd(frame: string, q: nat): (r: Option<nat>)
    decreases |frame| - q
    ensures r.Some? ==> q <= r.value && r.value + 1 < |frame| && frame[r.value + 1] == '\n'
    ensures r.Some? ==> forall k :: q <= k < r.value ==> !PeeksNewline(frame, k)
    ensures r.None? ==> forall k :: q <= k ==> !PeeksNewline(frame, k)
  {
    if q + 1 >= |frame| then None
    else if PeeksNewline(frame, q) then Some(q)
    else ValueEnd(frame, q + 1)
  }

  /** Where the body loop, whose first `nextChar` lands on `q`, stops, or None when it never does. */
  function BodyEnd(frame: string, q: nat): (r: Option<nat>)
    decreases |frame| - q
    ensures r.Some? ==> q <= r.value < |frame| && frame[r.value] == '\0'
    ensures r.Some? ==> forall k :: q <= k < r.value ==> frame[k] != '\0'
    ensures r.None? ==> forall k :: q <= k ==> !AtNul(frame, k)
  {
    if q >= |frame| then None
    else if AtNul(frame, q) then Some(q)
    else BodyEnd(frame, q + 1)
  }

  /** What one `GetToken` call does: hand out a token and leave the cursor, or loop forever. */
  datatype Outcome = Emit(token: Token, cursor: Cursor) | Diverge

  function Max(a: nat, b: nat): nat
  {
    if a < b then b else a
  }

  /** A header-value token as `ReadValue` hands it out, with the cursor left at `q`. */
  ghost predicate ValueShape(frame: string, q: nat, v: string)
  {
    && |v| < q && q + 1 < |frame| && frame[q + 1] == '\n'
    && frame[q - |v| - 1] == ':' && v == frame[q - |v|..q]
  }

  /** A body token as `ReadBody` hands it out, with the cursor left on the NUL at `z`. */
  ghost predicate BodyShape(frame: string, z: nat, b: string)
  {
    && 0 < |b| < z && z < |frame| && frame[z] == '\0' && b[0] == '\n'
    && b == frame[z - |b| - 1..z - 1] && '\0' !in b
  }

  /** The header-value branch: the `:` at `p` is followed by the value up to a later newline. */
  function ReadValue(frame: string, p: nat): (r: Outcome)
    requires p + 1 < |frame| && frame[p] == ':'
    ensures r.Emit? ==> r.token.kind == StompHeaderValue && r.token.value.Text? && r.cursor.At?
    ensures r.Emit? ==> p < r.cursor.pos && ValueShape(frame, r.cursor.pos, r.token.value.text)
  {
    match ValueEnd(frame, p + 1)
    case None => Diverge
    case Some(e) => Emit(Token(StompHeaderValue, StompFrames.Text(frame[p + 1..e])), At(e))
  }

  /** The body branch: the blank line at `p` starts a body that runs up to a later NUL. */
  function ReadBody(frame: string, p: nat): (r: Outcome)
    requires p + 1 < |frame| && frame[p] == '\n' && frame[p + 1] == '\n'
    ensures r.Emit? ==> r.token.kind == StompBody && r.token.value.Text? && r.cursor.At?
    ensures r.Emit? ==> p < r.cursor.pos && BodyShape(frame, r.cursor.pos, r.token.value.text)
  {
    match BodyEnd(frame, p + 1)
    case None => Diverge
    case Some(z) =>
      assert forall k :: p <= k < z - 1 ==> frame[p..z - 1][k - p] == frame[k];
      Emit(Token(StompBody, StompFrames.Text(frame[p..z - 1])), At(z))
  }

  /** How a letter run ends: a command or header-key token, a dropped run, or no end at all. */
  datatype RunOutcome = RunToken(token: Token, cursor: Cursor) | Dropped(resume: nat) | RunForever

  /**
   * The letter-run branch: the run from `p` up to and including the character where the loop
   * stops is a command iff it is in the command vocabulary, else a header key iff it is
   * "content-type", else it is dropped and scanning resumes after it.
   */
  function ReadRun(frame: string, p: nat): (r: RunOutcome)
    requires p < |frame|
    ensures r.RunToken? ==> r.token.kind in {StompCommand, StompHeaderKey} && r.token.value.Text?
    ensures r.RunToken? ==> r.cursor.At? && p <= r.cursor.pos < |frame|
    ensures r.RunToken? && r.token.kind == StompCommand ==> StompFrames.IsStompCommand(r.token.value.text)
    ensures r.RunToken? && r.token.kind == StompHeaderKey ==> r.token.value.text == "content-type"
    ensures r.Dropped? ==> p < r.resume
  {
    match RunEnd(frame, p)
    case None => RunForever
    case Some(e) =>
      var identifier := frame[p..e + 1];
      if StompFrames.IsStompCommand(identifier) then
        RunToken(Token(StompCommand, StompFrames.Text(identifier)), At(e))
      else if IsHeaderKey(identifier) then
        RunToken(Token(StompHeaderKey, StompFrames.Text(identifier)), At(e))
      else Dropped(e + 1)
  }

  /**
   * The outer loop of `GetToken` from the moment `nextChar` has put the cursor at `p`.
   * Past the end of the frame the result is an Undefined token with no value.
   */
  function Scan(frame: string, p: nat): (r: Outcome)
    decreases |frame| - p
    ensures r.Emit? ==> LexerKind(r.token.kind) && r.cursor.At? && p <= r.cursor.pos
    ensures r.Emit? ==> (r.token.kind == UndefinedToken <==> r.token.value == StompFrames.NoValue)
    ensures r.Emit? && r.token.kind == UndefinedToken ==> r.cursor.pos == Max(p, |frame|)
    ensures r.Emit? && r.token.kind != UndefinedToken ==> r.token.value.Text? && r.cursor.pos < |frame|
    ensures r.Emit? && r.token.kind == StompCommand ==> StompFrames.IsStompCommand(r.token.value.text)
    ensures r.Emit? && r.token.kind == StompHeaderKey ==> r.token.value.text == "content-type"
    ensures r.Emit? && r.token.kind == StompHeaderValue ==> ValueShape(frame, r.cursor.pos, r.token.value.text)
    ensures r.Emit? && r.token.kind == StompBody ==> BodyShape(frame, r.cursor.pos, r.token.value.text)
  {
    if p >= |frame| then Emit(Token(UndefinedToken, StompFrames.NoValue), At(p))
    else if IsCurrentChar(frame, At(p), ':') then ReadValue(frame, p)
    else if IsAlpha(CurrentChar(frame, At(p))[0]) then
      match ReadRun(frame, p)
      case RunForever => Diverge
      case RunToken(token, cursor) => Emit(token, cursor)
      case Dropped(resume) => Scan(frame, resume)
    else if IsCurrentChar(frame, At(p), '\n') && Peek(frame, At(p))[0] == '\n' then ReadBody(frame, p)
    else Scan(frame, p + 1)
  }

  /** The next `GetToken` call from cursor `c` returns. */
  predicate Halts(frame: string, c: Cursor)
  {
    Scan(frame, Next(c)).Emit?
  }

  /** The pure step function: the token the next `GetToken` returns and the cursor it leaves. */
  function Step(frame: string, c: Cursor): (r: (Token, Cursor))
    requires Halts(frame, c)
    ensures LexerKind(r.0.kind) && r.1.At? && Next(c) <= r.1.pos
  {
    var out := Scan(frame, Next(c));
    (out.token, out.cursor)
  }

  /** The first `n` calls of `GetToken` from cursor `c` all return. */
  predicate HaltsFor(frame: string, c: Cursor, n: nat)
    decreases n
  {
    n == 0 || (Halts(frame, c) && HaltsFor(frame, Step(frame, c).1, n - 1))
  }

  /** The tokens the first `n` calls of `GetToken` return, and the cursor they leave. */
  function Lex(frame: string, c: Cursor, n: nat): (r: (seq<Token>, Cursor))
    requires HaltsFor(frame, c, n)
    decreases n
    ensures |r.0| == n
  {
    if n == 0 then ([], c)
    else
      var (t, c1) := Step(frame, c);
      var rest := Lex(frame, c1, n - 1);
      ([t] + rest.0, rest.1)
  }

  /** Lexing `n + 1` tokens is one step followed by lexing `n` tokens from where it left off. */
  lemma LexCons(frame: string, c: Cursor, n: nat)
    requires Halts(frame, c) && HaltsFor(frame, Step(frame, c).1, n)
    ensures HaltsFor(frame, c, n + 1)
    ensures Lex(frame, c, n + 1) ==
      ([Step(frame, c).0] + Lex(frame, Step(frame, c).1, n).0, Lex(frame, Step(frame, c).1, n).1)
  {
  }

  /** If the first `n` calls return and the next one does too, the first `n + 1` calls return. */
  lemma {:induction false} HaltsForSnoc(frame: string, c: Cursor, n: nat)
    requires HaltsFor(frame, c, n) && Halts(frame, Lex(frame, c, n).1)
    ensures HaltsFor(frame, c, n + 1)
    decreases n
  {
    if n > 0 {
      HaltsForSnoc(frame, Step(frame, c).1, n - 1);
    }
  }

  /** The first `n` tokens do not depend on how many more are read after them. */
  lemma {:induction false} LexPrefix(frame: string, c: Cursor, n: nat, m: nat)
    requires n <= m && HaltsFor(frame, c, m)
    ensures HaltsFor(frame, c, n) && Lex(frame, c, n).0 == Lex(frame, c, m).0[..n]
    decreases n
  {
    if n > 0 {
      var c1 := Step(frame, c).1;
      LexPrefix(frame, c1, n - 1, m - 1);
      assert Lex(frame, c, m).0 == [Step(frame, c).0] + Lex(frame, c1, m - 1).0;
    }
  }

  /** One more call of `GetToken` appends exactly one token to the stream. */
  lemma {:induction false} LexSnoc(frame: string, c: Cursor, n: nat)
    requires HaltsFor(frame, c, n + 1)
    ensures HaltsFor(frame, c, n) && Halts(frame, Lex(frame, c, n).1)
    ensures var (ts, last) := Lex(frame, c, n);
      Lex(frame, c, n + 1) == (ts + [Step(frame, last).0], Step(frame, last).1)
    decreases n
  {
    var (t, c1) := Step(frame, c);
    if n > 0 {
      LexSnoc(frame, c1, n - 1);
      var (ts1, last) := Lex(frame, c1, n - 1);
      var x := Step(frame, last).0;
      assert [t] + (ts1 + [x]) == ([t] + ts1) + [x];
    } else {
      LexOne(frame, c);
    }
  }

  /** The base case of LexSnoc: one step from `c` is exactly `Step`. */
  lemma LexOne(frame: string, c: Cursor)
    requires HaltsFor(frame, c, 1)
    ensures HaltsFor(frame, c, 0) && Halts(frame, Lex(frame, c, 0).1)
    ensures var (ts, last) := Lex(frame, c, 0);
      Lex(frame, c, 1) == (ts + [Step(frame, last).0], Step(frame, last).1)
  {
    var (t, c1) := Step(frame, c);
    assert Lex(frame, c, 1) == ([t] + [], c1);
    assert [] + [t] == [t] + [];
  }

  /** The header-value loop of `GetToken`: `peek` until the next character is a newline. */
  method ReadValueLoop(frame: string, p: nat) returns (token: Token, pos: nat)
    requires p + 1 < |frame| && frame[p] == ':' && ReadValue(frame, p).Emit?
    ensures ReadValue(frame, p) == Emit(token, At(pos))
  {
    pos := p + 1;
    var start := pos;
    var end := start;
    ghost var stop := ValueEnd(frame, start).value;
    while Peek(frame, At(pos))[0] != '\n'
      invariant start <= pos <= stop && end == pos
      decreases stop - pos
    {
      pos := pos + 1;
      end := end + 1;
    }
    assert PeeksNewline(frame, pos);
    token := Token(StompHeaderValue, StompFrames.Text(frame[start..end]));
  }

  /** The letter-run loop of `GetToken`, followed by the command and header-key tests. */
  method ReadRunLoop(frame: string, p: nat) returns (found: bool, token: Token, pos: nat)
    requires p < |frame| && !ReadRun(frame, p).RunForever?
    ensures found ==> ReadRun(frame, p) == RunToken(token, At(pos))
    ensures !found ==> ReadRun(frame, p) == Dropped(pos + 1)
  {
    pos := p;
    var start := pos;
    var end := start;
    ghost var stop := RunEnd(frame, start).value;
    while true
      invariant start <= pos <= stop && end == pos
      decreases stop - pos
    {
      var peek := Peek(frame, At(pos))[0];
      if peek == ':' || peek == '\n' ||
         (!IsAlpha(CurrentChar(frame, At(pos))[0]) && !IsCurrentChar(frame, At(pos), '-')) {
        break;
      }
      pos := pos + 1;
      end := end + 1;
    }
    assert RunStops(frame, pos);
    assert pos == stop;
    var identifier := frame[start..end + 1];
    token := Token(UndefinedToken, StompFrames.NoValue);
    found := false;
    if StompFrames.IsStompCommand(identifier) {
      token := Token(StompCommand, StompFrames.Text(identifier));
      found := true;
    } else if IsHeaderKey(identifier) {
      token := Token(StompHeaderKey, StompFrames.Text(identifier));
      found := true;
    }
  }

  /** The body loop of `GetToken`: `nextChar` until the current character is NUL. */
  method ReadBodyLoop(frame: string, p: nat) returns (token: Token, pos: nat)
    requires p + 1 < |frame| && frame[p] == '\n' && frame[p + 1] == '\n' && ReadBody(frame, p).Emit?
    ensures ReadBody(frame, p) == Emit(token, At(pos))
  {
    pos := p;
    var start := pos;
    var end := start;
    ghost var stop := BodyEnd(frame, p + 1).value;
    pos := pos + 1;
    while CurrentChar(frame, At(pos))[0] != '\0'
      invariant start + 1 <= pos <= stop && end == pos - 1
      decreases stop - pos
    {
      end := end + 1;
      pos := pos + 1;
    }
    token := Token(StompBody, StompFrames.Text(frame[start..end]));
  }

  /**
   * One pass of the body of the outer loop with the cursor at `pos`: either a branch hands out
   * a token, or the loop goes on from `resume` (`nextChar` then moves it to `resume + 1`).
   */
  method LoopBody(frame: string, pos: nat) returns (done: bool, token: Token, resume: nat)
    requires pos < |frame| && Scan(frame, pos).Emit?
    ensures done ==> Scan(frame, pos) == Emit(token, At(resume))
    ensures !done ==> pos <= resume && Scan(frame, pos) == Scan(frame, resume + 1)
  {
    done, token, resume := false, Token(UndefinedToken, StompFrames.NoValue), pos;
    if IsCurrentChar(frame, At(pos), ':') {
      token, resume := ReadValueLoop(frame, pos);
      done := true;
    } else if IsAlpha(CurrentChar(frame, At(pos))[0]) {
      assert !ReadRun(frame, pos).RunForever?;
      done, token, resume := ReadRunLoop(frame, pos);
    } else if IsCurrentChar(frame, At(pos), '\n') && Peek(frame, At(pos))[0] == '\n' {
      token, resume := ReadBodyLoop(frame, pos);
      done := true;
    }
  }

  /** `StompTokenizer::GetToken`: the outer `while (nextChar() != m_eof)` loop. */
  method GetToken(frame: string, c: Cursor) returns (token: Token, cursor: Cursor)
    requires Halts(frame, c)
    ensures (token, cursor) == Step(frame, c)
  {
    var pos := Next(c);
    while pos < |frame|
      invariant Next(c) <= pos
      invariant Scan(frame, pos) == Scan(frame, Next(c))
      decreases |frame| - pos
    {
      var done, t, resume := LoopBody(frame, pos);
      if done {
        token, cursor := t, At(resume);
        return;
      }
      pos := resume + 1;
    }
    token := Token(UndefinedToken, StompFrames.NoValue);
    cursor := At(pos);
  }
}

/**
 * What the STOMP tokenizer does on given frame shapes: the command and header-key tests, the
 * characters header values and bodies lose, the inputs it never returns on, the Undefined
 * token it keeps returning past the end, and the token streams of concrete frames.
 */
module StompLexerProperties {
  import opened Wrappers
  import StompFrames
  import opened StompLexer

  /**
   * The cursor helpers in terms of the frame's characters: the current character or "EOF",
   * the next character or "EOF", and a character test that fails at the last position.
   */
  lemma CharsAt(frame: string, p: nat)
    ensures p < |frame| ==> CurrentChar(frame, At(p)) == [frame[p]]
    ensures p >= |frame| ==> CurrentChar(frame, At(p)) == "EOF"
    ensures p + 1 < |frame| ==> Peek(frame, At(p)) == [frame[p + 1]]
    ensures p + 1 >= |frame| ==> Peek(frame, At(p)) == "EOF"
    ensures forall ch :: IsCurrentChar(frame, At(p), ch) <==> p + 1 < |frame| && frame[p] == ch
  {
  }

  /** At a `:` that is not the last character, `GetToken` reads a header value. */
  lemma ScanAtColon(frame: string, p: nat)
    requires p + 1 < |frame| && frame[p] == ':'
    ensures Scan(frame, p) == ReadValue(frame, p)
  {
  }

  /** At a letter, `GetToken` reads a letter run. */
  lemma ScanAtLetter(frame: string, p: nat)
    requires p < |frame| && IsAlpha(frame[p])
    ensures Scan(frame, p) ==
      match ReadRun(frame, p)
      case RunForever => Diverge
      case RunToken(token, cursor) => Emit(token, cursor)
      case Dropped(resume) => Scan(frame, resume)
  {
  }

  /** At a blank line (`\n\n`), `GetToken` reads the body. */
  lemma ScanAtBlankLine(frame: string, p: nat)
    requires p + 1 < |frame| && frame[p] == '\n' && frame[p + 1] == '\n'
    ensures Scan(frame, p) == ReadBody(frame, p)
  {
    CharsAt(frame, p);
    assert !IsCurrentChar(frame, At(p), ':') && !IsAlpha(CurrentChar(frame, At(p))[0]);
    assert IsCurrentChar(frame, At(p), '\n') && Peek(frame, At(p))[0] == '\n';
  }

  /** A character that starts no branch is stepped over. */
  lemma ScanSkips(frame: string, p: nat)
    requires p < |frame| && !IsAlpha(frame[p])
    requires !(p + 1 < |frame| && frame[p] == ':')
    requires !(p + 1 < |frame| && frame[p] == '\n' && frame[p + 1] == '\n')
    ensures Scan(frame, p) == Scan(frame, p + 1)
  {
    CharsAt(frame, p);
    assert !IsCurrentChar(frame, At(p), ':') && !IsAlpha(CurrentChar(frame, At(p))[0]);
    assert !(IsCurrentChar(frame, At(p), '\n') && Peek(frame, At(p))[0] == '\n');
  }

  /** The break condition of the letter-run loop, in terms of the characters around `q`. */
  lemma RunStopsChars(frame: string, q: nat)
    requires q < |frame|
    ensures RunStops(frame, q) <==>
      (q + 1 < |frame| && (frame[q + 1] == ':' || frame[q + 1] == '\n')) ||
      (!IsAlpha(frame[q]) && !(q + 1 < |frame| && frame[q] == '-'))
  {
  }

  /**
   * A `:` followed by `v` and a newline yields the header value `v` without its last
   * character; the cursor stops on that dropped character.
   */
  lemma HeaderValueDropsLastChar(frame: string, p: nat, v: string)
    requires p + |v| + 1 < |frame| && |v| >= 1
    requires frame[p] == ':' && frame[p + 1..p + 1 + |v|] == v && frame[p + 1 + |v|] == '\n'
    requires forall k :: 1 <= k < |v| ==> v[k] != '\n'
    ensures Scan(frame, p) == Emit(Token(StompHeaderValue, StompFrames.Text(v[..|v| - 1])), At(p + |v|))
  {
    assert ValueEnd(frame, p + 1) == Some(p + |v|) by {
      forall k | p + 1 <= k < p + |v|
        ensures !PeeksNewline(frame, k)
      {
        assert frame[k + 1] == v[k + 1 - (p + 1)];
      }
      assert PeeksNewline(frame, p + |v|);
    }
    assert frame[p + 1..p + |v|] == v[..|v| - 1] by {
      assert frame[p + 1..p + |v|] == frame[p + 1..p + 1 + |v|][..|v| - 1];
    }
    ScanAtColon(frame, p);
  }

  /**
   * A blank line (`\n\n`) followed by `b` and a NUL yields a body holding the two newlines
   * and `b` without its last character; the cursor stops on the NUL.
   */
  lemma BodyDropsLastChar(frame: string, p: nat, b: string)
    requires p + |b| + 2 < |frame|
    requires frame[p] == '\n' && frame[p + 1] == '\n'
    requires frame[p + 2..p + 2 + |b|] == b && frame[p + 2 + |b|] == '\0' && '\0' !in b
    ensures Scan(frame, p) == Emit(Token(StompBody, StompFrames.Text(("\n\n" + b)[..|b| + 1])), At(p + 2 + |b|))
  {
    var z := p + 2 + |b|;
    assert ReadBody(frame, p) == Emit(Token(StompBody, StompFrames.Text(frame[p..z - 1])), At(z)) by {
      BodyEndAfter(frame, p, b);
    }
    assert frame[p..z - 1] == ("\n\n" + b)[..|b| + 1] by {
      BodyText(frame, p, b);
    }
    ScanAtBlankLine(frame, p);
  }

  /** The text a body token holds: the blank line and `b` without its last character. */
  lemma BodyText(frame: string, p: nat, b: string)
    requires p + |b| + 2 < |frame|
    requires frame[p] == '\n' && frame[p + 1] == '\n' && frame[p + 2..p + 2 + |b|] == b
    ensures frame[p..p + 1 + |b|] == ("\n\n" + b)[..|b| + 1]
  {
    var t := ("\n\n" + b)[..|b| + 1];
    forall k | 0 <= k < |b| + 1
      ensures frame[p + k] == t[k]
    {
      if k >= 2 {
        assert frame[p + k] == b[k - 2];
      }
    }
  }

  /** The body loop started on a blank line followed by `b` and a NUL stops on that NUL. */
  lemma BodyEndAfter(frame: string, p: nat, b: string)
    requires p + |b| + 2 < |frame|
    requires frame[p + 1] == '\n'
    requires frame[p + 2..p + 2 + |b|] == b && frame[p + 2 + |b|] == '\0' && '\0' !in b
    ensures BodyEnd(frame, p + 1) == Some(p + 2 + |b|)
  {
    forall k | p + 1 <= k < p + 2 + |b|
      ensures frame[k] != '\0'
    {
      if k >= p + 2 {
        assert frame[k] == b[k - (p + 2)];
      }
    }
    assert AtNul(frame, p + 2 + |b|);
  }

  /** `w` is a run of letters and dashes that starts with a letter. */
  predicate WordChars(w: string)
  {
    |w| > 0 && IsAlpha(w[0]) && forall k :: 0 <= k < |w| ==> IsAlpha(w[k]) || w[k] == '-'
  }

  /**
   * A word of letters and dashes that ends right before a `:` or a newline is a command iff
   * it is in the command vocabulary, else a header key iff it is "content-type"; any other
   * word is dropped and scanning continues after it.
   */
  lemma WordBeforeSeparator(frame: string, p: nat, w: string)
    requires WordChars(w) && p + |w| < |frame| && frame[p..p + |w|] == w
    requires frame[p + |w|] == ':' || frame[p + |w|] == '\n'
    ensures Scan(frame, p) ==
      if StompFrames.IsStompCommand(w) then Emit(Token(StompCommand, StompFrames.Text(w)), At(p + |w| - 1))
      else if w == "content-type" then Emit(Token(StompHeaderKey, StompFrames.Text(w)), At(p + |w| - 1))
      else Scan(frame, p + |w|)
  {
    ReadRunOfWord(frame, p, w);
    assert frame[p] == w[0];
    ScanAtLetter(frame, p);
  }

  /** The run read over such a word is the word itself. */
  lemma ReadRunOfWord(frame: string, p: nat, w: string)
    requires WordChars(w) && p + |w| < |frame| && frame[p..p + |w|] == w
    requires frame[p + |w|] == ':' || frame[p + |w|] == '\n'
    ensures ReadRun(frame, p) ==
      if StompFrames.IsStompCommand(w) then RunToken(Token(StompCommand, StompFrames.Text(w)), At(p + |w| - 1))
      else if w == "content-type" then RunToken(Token(StompHeaderKey, StompFrames.Text(w)), At(p + |w| - 1))
      else Dropped(p + |w|)
  {
    RunEndBeforeSeparator(frame, p, w);
    var e := p + |w| - 1;
    assert frame[p..e + 1] == w;
  }

  /** The letter-run loop over such a word stops on its last letter. */
  lemma RunEndBeforeSeparator(frame: string, p: nat, w: string)
    requires WordChars(w) && p + |w| < |frame| && frame[p..p + |w|] == w
    requires frame[p + |w|] == ':' || frame[p + |w|] == '\n'
    ensures RunEnd(frame, p) == Some(p + |w| - 1)
  {
    forall k | p <= k < p + |w| - 1
      ensures !RunStops(frame, k)
    {
      assert frame[k] == w[k - p] && frame[k + 1] == w[k + 1 - p];
    }
    assert RunStops(frame, p + |w| - 1);
  }

  /**
   * A word of letters followed by a character that is not a letter, a dash, `:` or a newline
   * (a space or `\r`, say) takes that character into the run, so it is never a command or a
   * header key: the whole run is dropped.
   */
  lemma RunTakesStopChar(frame: string, p: nat, w: string)
    requires |w| > 0 && (forall k :: 0 <= k < |w| ==> IsAlpha(w[k]))
    requires p + |w| < |frame| && frame[p..p + |w|] == w
    requires !IsAlpha(frame[p + |w|]) && frame[p + |w|] !in {'-', ':', '\n'}
    ensures Scan(frame, p) == Scan(frame, p + |w| + 1)
  {
    StoppedWordDropped(frame, p, w);
    assert frame[p] == w[0];
    ScanAtLetter(frame, p);
  }

  /** The run read over such a word and its stop character is dropped. */
  lemma StoppedWordDropped(frame: string, p: nat, w: string)
    requires |w| > 0 && (forall k :: 0 <= k < |w| ==> IsAlpha(w[k]))
    requires p + |w| < |frame| && frame[p..p + |w|] == w
    requires !IsAlpha(frame[p + |w|]) && frame[p + |w|] !in {'-', ':', '\n'}
    ensures ReadRun(frame, p) == Dropped(p + |w| + 1)
  {
    var e := p + |w|;
    var identifier := frame[p..e + 1];
    assert RunEnd(frame, p) == Some(e) by {
      RunEndAtStopChar(frame, p, w);
    }
    assert !StompFrames.IsStompCommand(identifier) && !IsHeaderKey(identifier) by {
      assert identifier[|identifier| - 1] == frame[e];
      assert identifier != "STOMP" && identifier != "Undefined" && identifier != "content-type";
      StompFrames.CommandVocabulary(identifier);
    }
    RunDropped(frame, p, e);
  }

  /** A run that is neither a command nor the header key is dropped. */
  lemma RunDropped(frame: string, p: nat, e: nat)
    requires p < |frame| && RunEnd(frame, p) == Some(e)
    requires !StompFrames.IsStompCommand(frame[p..e + 1]) && !IsHeaderKey(frame[p..e + 1])
    ensures ReadRun(frame, p) == Dropped(e + 1)
  {
  }

  /** The letter-run loop over such a word stops on the character after it. */
  lemma RunEndAtStopChar(frame: string, p: nat, w: string)
    requires |w| > 0 && (forall k :: 0 <= k < |w| ==> IsAlpha(w[k]))
    requires p + |w| < |frame| && frame[p..p + |w|] == w
    requires !IsAlpha(frame[p + |w|]) && frame[p + |w|] !in {'-', ':', '\n'}
    ensures RunEnd(frame, p) == Some(p + |w|)
  {
    forall k | p <= k < p + |w|
      ensures !RunStops(frame, k)
    {
      assert frame[k] == w[k - p];
      if k + 1 < p + |w| {
        assert frame[k + 1] == w[k + 1 - p];
      }
    }
    assert RunStops(frame, p + |w|);
  }

  /** A `:` (not last) with no newline after the character that follows it. */
  predicate UnterminatedValueAt(frame: string, q: nat)
  {
    q + 1 < |frame| && frame[q] == ':' && forall k :: q + 2 <= k < |frame| ==> frame[k] != '\n'
  }

  /** A blank line with no NUL after it. */
  predicate UnterminatedBodyAt(frame: string, q: nat)
  {
    q + 1 < |frame| && frame[q] == '\n' && frame[q + 1] == '\n' &&
    forall k :: q + 1 < k < |frame| ==> frame[k] != '\0'
  }

  /** From `q` to the end of the frame only letters and dashes, ending in a letter. */
  predicate RunReachesEndAt(frame: string, q: nat)
  {
    q < |frame| && IsAlpha(frame[q]) && IsAlpha(frame[|frame| - 1]) &&
    forall k :: q <= k < |frame| ==> IsAlpha(frame[k]) || frame[k] == '-'
  }

  predicate StuckAt(frame: string, q: nat)
  {
    UnterminatedValueAt(frame, q) || UnterminatedBodyAt(frame, q) || RunReachesEndAt(frame, q)
  }

  /** Reaching any of the three shapes, `GetToken` loops forever. */
  lemma DivergesWhenStuck(frame: string, p: nat)
    requires StuckAt(frame, p)
    ensures Scan(frame, p) == Diverge
  {
    if UnterminatedValueAt(frame, p) {
      DivergesOnUnterminatedValue(frame, p);
    } else if UnterminatedBodyAt(frame, p) {
      DivergesOnUnterminatedBody(frame, p);
    } else {
      DivergesOnRunToEnd(frame, p);
    }
  }

  lemma DivergesOnUnterminatedValue(frame: string, p: nat)
    requires UnterminatedValueAt(frame, p)
    ensures Scan(frame, p) == Diverge
  {
    ScanAtColon(frame, p);
  }

  lemma DivergesOnUnterminatedBody(frame: string, p: nat)
    requires UnterminatedBodyAt(frame, p)
    ensures Scan(frame, p) == Diverge
  {
    ScanAtBlankLine(frame, p);
  }

  lemma DivergesOnRunToEnd(frame: string, p: nat)
    requires RunReachesEndAt(frame, p)
    ensures Scan(frame, p) == Diverge
  {
    ScanAtLetter(frame, p);
  }

  /** Whenever `GetToken` loops forever, one of the three shapes occurs at or after the cursor. */
  lemma {:induction false} DivergenceHasCause(frame: string, p: nat)
    requires Scan(frame, p) == Diverge
    ensures exists q :: p <= q && StuckAt(frame, q)
    decreases |frame| - p
  {
    if IsCurrentChar(frame, At(p), ':') {
      assert ValueEnd(frame, p + 1).None?;
      forall k | p + 2 <= k < |frame|
        ensures frame[k] != '\n'
      {
        assert !PeeksNewline(frame, k - 1);
      }
      assert StuckAt(frame, p);
    } else if IsAlpha(CurrentChar(frame, At(p))[0]) {
      match ReadRun(frame, p)
      case RunForever =>
        forall k | p <= k < |frame|
          ensures IsAlpha(frame[k]) || frame[k] == '-'
        {
          assert !RunStops(frame, k);
        }
        assert !RunStops(frame, |frame| - 1);
        assert StuckAt(frame, p);
      case Dropped(resume) =>
        DivergenceHasCause(frame, resume);
    } else if IsCurrentChar(frame, At(p), '\n') && Peek(frame, At(p))[0] == '\n' {
      assert BodyEnd(frame, p + 1).None?;
      forall k | p + 1 < k < |frame|
        ensures frame[k] != '\0'
      {
        assert !AtNul(frame, k);
      }
      assert StuckAt(frame, p);
    } else {
      DivergenceHasCause(frame, p + 1);
    }
  }

  /** A frame that is nothing but a command word never yields a token at all. */
  lemma BareCommandNeverReturns()
    ensures !Halts("STOMP", Start)
  {
    assert RunReachesEndAt("STOMP", 0);
    DivergesWhenStuck("STOMP", 0);
  }

  /**
   * Once `GetToken` has returned an Undefined token it halts again and returns an Undefined
   * token with no value, for every later call.
   */
  lemma {:induction false} UndefinedIsSticky(frame: string, c: Cursor, n: nat)
    requires Halts(frame, c) && Step(frame, c).0.kind == UndefinedToken
    ensures HaltsFor(frame, Step(frame, c).1, n)
    ensures forall i :: 0 <= i < n ==> Lex(frame, Step(frame, c).1, n).0[i] == Token(UndefinedToken, StompFrames.NoValue)
    decreases n
  {
    var c1 := Step(frame, c).1;
    assert Scan(frame, Next(c1)) == Emit(Token(UndefinedToken, StompFrames.NoValue), At(Next(c1)));
    if n > 0 {
      UndefinedIsSticky(frame, c1, n - 1);
    }
  }

  /** A frame with the STOMP command, one content-type header with value `v`, and body `b`. */
  function OneHeaderFrame(v: string, b: string): string
  {
    "STOMP\n" + "content-type:" + v + "\n\n" + b + "\0"
  }

  /** The command word at the start of a frame that begins with "STOMP\n". */
  lemma LeadingCommandStep(f: string)
    requires |f| > 6 && f[0..5] == "STOMP" && f[5] == '\n'
    ensures Halts(f, Start) && Step(f, Start) == (Token(StompCommand, StompFrames.Text("STOMP")), At(4))
  {
    StompFrames.CommandVocabulary("STOMP");
    assert WordChars("STOMP");
    WordBeforeSeparator(f, 0, "STOMP");
  }

  /** "content-type" is a word of letters and dashes outside the command vocabulary. */
  lemma ContentTypeWord()
    ensures WordChars("content-type") && !StompFrames.IsStompCommand("content-type")
  {
    StompFrames.CommandVocabulary("content-type");
  }

  /** The header key of a frame that goes on with "\ncontent-type:" after the command. */
  lemma ContentTypeStep(f: string)
    requires |f| > 19 && f[5] == '\n' && f[6..18] == "content-type" && f[18] == ':'
    ensures Halts(f, At(4)) && Step(f, At(4)) == (Token(StompHeaderKey, StompFrames.Text("content-type")), At(17))
  {
    assert f[6] == f[6..18][0];
    ScanSkips(f, 5);
    ContentTypeWord();
    WordBeforeSeparator(f, 6, "content-type");
    assert Scan(f, 5) == Emit(Token(StompHeaderKey, StompFrames.Text("content-type")), At(17));
  }

  /** The header value `v`, which starts after the `:` at 18 and ends before a newline. */
  lemma ValueStep(f: string, v: string)
    requires |v| >= 1 && (forall k :: 1 <= k < |v| ==> v[k] != '\n')
    requires 20 + |v| <= |f| && f[18] == ':' && f[19..19 + |v|] == v && f[19 + |v|] == '\n'
    ensures Halts(f, At(17))
    ensures Step(f, At(17)) == (Token(StompHeaderValue, StompFrames.Text(v[..|v| - 1])), At(18 + |v|))
  {
    HeaderValueDropsLastChar(f, 18, v);
  }

  /** The body that starts at the blank line at `p` and runs to the NUL after `b`. */
  lemma BodyStep(f: string, p: nat, b: string)
    requires p >= 1 && p + |b| + 2 < |f| && '\0' !in b
    requires f[p] == '\n' && f[p + 1] == '\n' && f[p + 2..p + 2 + |b|] == b && f[p + 2 + |b|] == '\0'
    ensures Halts(f, At(p - 1))
    ensures Step(f, At(p - 1)) == (Token(StompBody, StompFrames.Text(("\n\n" + b)[..|b| + 1])), At(p + 2 + |b|))
  {
    BodyDropsLastChar(f, p, b);
  }

  /** Past the end of the frame every call returns an Undefined token. */
  lemma EndStep(f: string, c: Cursor)
    requires Next(c) >= |f|
    ensures Halts(f, c) && HaltsFor(f, c, 1)
    ensures Lex(f, c, 1).0 == [Token(UndefinedToken, StompFrames.NoValue)]
  {
    LexCons(f, c, 0);
  }

  /**
   * The tokens of a frame with one content-type header: the command, the header key, the
   * header value without its last character, one body holding the blank line and `b` without
   * its last character, and then Undefined.
   */
  lemma OneHeaderFrameTokens(v: string, b: string)
    requires |v| >= 1 && (forall k :: 1 <= k < |v| ==> v[k] != '\n') && '\0' !in b
    ensures HaltsFor(OneHeaderFrame(v, b), Start, 5)
    ensures Lex(OneHeaderFrame(v, b), Start, 5).0 ==
      [ Token(StompCommand, StompFrames.Text("STOMP")),
        Token(StompHeaderKey, StompFrames.Text("content-type")),
        Token(StompHeaderValue, StompFrames.Text(v[..|v| - 1])),
        Token(StompBody, StompFrames.Text(("\n\n" + b)[..|b| + 1])),
        Token(UndefinedToken, StompFrames.NoValue) ]
  {
    var f := OneHeaderFrame(v, b);
    var cmd := Token(StompCommand, StompFrames.Text("STOMP"));
    var key := Token(StompHeaderKey, StompFrames.Text("content-type"));
    var rest :=
      [ Token(StompHeaderValue, StompFrames.Text(v[..|v| - 1])),
        Token(StompBody, StompFrames.Text(("\n\n" + b)[..|b| + 1])),
        Token(UndefinedToken, StompFrames.NoValue) ];
    assert HaltsFor(f, At(17), 3) && Lex(f, At(17), 3).0 == rest by {
      OneHeaderFrameLayout(v, b);
      ValueBodyTokens(f, v, b);
    }
    assert Halts(f, At(4)) && Step(f, At(4)) == (key, At(17)) by {
      OneHeaderFrameLayout(v, b);
      ContentTypeStep(f);
    }
    assert Halts(f, Start) && Step(f, Start) == (cmd, At(4)) by {
      OneHeaderFrameLayout(v, b);
      LeadingCommandStep(f);
    }
    TwoStepsThenLex(f, Start, At(4), At(17), 3);
  }

  /** Where the pieces of a one-header frame sit. */
  lemma OneHeaderFrameLayout(v: string, b: string)
    ensures var f := OneHeaderFrame(v, b);
      && |f| == 22 + |v| + |b|
      && f[0..5] == "STOMP" && f[5] == '\n' && f[6..18] == "content-type" && f[18] == ':'
      && f[19..19 + |v|] == v && f[19 + |v|] == '\n' && f[20 + |v|] == '\n'
      && f[21 + |v|..21 + |v| + |b|] == b && f[21 + |v| + |b|] == '\0'
  {
    var f := OneHeaderFrame(v, b);
    assert f[..19] == "STOMP\ncontent-type:";
    assert f[0..5] == f[..19][0..5];
    assert f[6..18] == f[..19][6..18];
  }

  /** Two halting steps in front of a known stream of `n` tokens. */
  lemma TwoStepsThenLex(f: string, c0: Cursor, c1: Cursor, c2: Cursor, n: nat)
    requires Halts(f, c0) && Step(f, c0).1 == c1
    requires Halts(f, c1) && Step(f, c1).1 == c2
    requires HaltsFor(f, c2, n)
    ensures HaltsFor(f, c0, n + 2)
    ensures Lex(f, c0, n + 2).0 == [Step(f, c0).0, Step(f, c1).0] + Lex(f, c2, n).0
  {
    LexCons(f, c1, n);
    LexCons(f, c0, n + 1);
  }

  /** From the header key on, a one-header frame yields the value, the body and Undefined. */
  lemma ValueBodyTokens(f: string, v: string, b: string)
    requires |v| >= 1 && (forall k :: 1 <= k < |v| ==> v[k] != '\n') && '\0' !in b
    requires |f| == 22 + |v| + |b| && f[18] == ':'
    requires f[19..19 + |v|] == v && f[19 + |v|] == '\n' && f[20 + |v|] == '\n'
    requires f[21 + |v|..21 + |v| + |b|] == b && f[21 + |v| + |b|] == '\0'
    ensures HaltsFor(f, At(17), 3)
    ensures Lex(f, At(17), 3).0 ==
      [ Token(StompHeaderValue, StompFrames.Text(v[..|v| - 1])),
        Token(StompBody, StompFrames.Text(("\n\n" + b)[..|b| + 1])),
        Token(UndefinedToken, StompFrames.NoValue) ]
  {
    var n := |v|;
    var value := Token(StompHeaderValue, StompFrames.Text(v[..|v| - 1]));
    var body := Token(StompBody, StompFrames.Text(("\n\n" + b)[..|b| + 1]));
    ValueStep(f, v);
    BodyStep(f, 19 + n, b);
    TwoStepsThenEnd(f, At(17), At(18 + n), At(21 + n + |b|), value, body);
  }

  /** Two returning calls that leave the cursor on the frame's last character, then Undefined. */
  lemma TwoStepsThenEnd(f: string, c0: Cursor, c1: Cursor, c2: Cursor, t0: Token, t1: Token)
    requires Halts(f, c0) && Step(f, c0) == (t0, c1)
    requires Halts(f, c1) && Step(f, c1) == (t1, c2)
    requires Next(c2) >= |f|
    ensures HaltsFor(f, c0, 3)
    ensures Lex(f, c0, 3).0 == [t0, t1, Token(UndefinedToken, StompFrames.NoValue)]
  {
    EndStep(f, c2);
    TwoStepsThenLex(f, c0, c1, c2, 1);
  }

  /** A frame with the STOMP command, no headers and body `b`. */
  function NoHeaderFrame(b: string): string
  {
    "STOMP\n\n" + b + "\0"
  }

  /**
   * A frame with no headers: the command, one body holding the blank line and `b` without its
   * last character, then Undefined. No header key or header value token appears.
   */
  lemma NoHeaderFrameTokens(b: string)
    requires '\0' !in b
    ensures HaltsFor(NoHeaderFrame(b), Start, 3)
    ensures Lex(NoHeaderFrame(b), Start, 3).0 ==
      [ Token(StompCommand, StompFrames.Text("STOMP")),
        Token(StompBody, StompFrames.Text(("\n\n" + b)[..|b| + 1])),
        Token(UndefinedToken, StompFrames.NoValue) ]
  {
    var f := NoHeaderFrame(b);
    var z := 7 + |b|;
    assert |f| == z + 1;
    assert f[..7] == "STOMP\n\n";
    assert f[0..5] == f[..7][0..5] && f[5] == '\n' && f[6] == '\n';
    assert f[7..z] == b && f[z] == '\0';
    LeadingCommandStep(f);
    BodyStep(f, 5, b);
    EndStep(f, At(z));
    LexCons(f, At(4), 1);
    LexCons(f, Start, 2);
  }

  /** The frame of the tokenizer and parser tests. */
  function ExampleFrame(): string
  {
    "STOMP\n" + "content-type:applicationjson\n\n" + "login:vagag\n" + "passcode:vagagord\n" + "\0"
  }

  /** The test frame is a one-header frame with value "applicationjson". */
  lemma ExampleFrameShape()
    ensures ExampleFrame() == OneHeaderFrame("applicationjson", "login:vagag\npasscode:vagagord\n")
  {
    var h := "content-type:" + "applicationjson" + "\n\n";
    assert h == "content-type:applicationjson\n\n";
    assert "login:vagag\npasscode:vagagord\n" == "login:vagag\n" + "passcode:vagagord\n";
    assert OneHeaderFrame("applicationjson", "login:vagag\npasscode:vagagord\n")
        == "STOMP\n" + h + "login:vagag\npasscode:vagagord\n" + "\0";
  }

  /**
   * The tokens the tokenizer test reads from its frame: a command, a header key, a header
   * value and a body, in that order, then Undefined. The value and the body each lose their
   * last character.
   */
  lemma ExampleFrameTokens()
    ensures HaltsFor(ExampleFrame(), Start, 5)
    ensures Lex(ExampleFrame(), Start, 5).0 ==
      [ Token(StompCommand, StompFrames.Text("STOMP")),
        Token(StompHeaderKey, StompFrames.Text("content-type")),
        Token(StompHeaderValue, StompFrames.Text("applicationjso")),
        Token(StompBody, StompFrames.Text("\n\nlogin:vagag\npasscode:vagagord")),
        Token(UndefinedToken, StompFrames.NoValue) ]
  {
    ExampleFrameShape();
    OneHeaderFrameTokens("applicationjson", "login:vagag\npasscode:vagagord\n");
    ExampleTokenTexts();
  }

  /** The header value and the body text of the test frame, each without its last character. */
  lemma ExampleTokenTexts()
    ensures "applicationjson"[..14] == "applicationjso"
    ensures ("\n\n" + "login:vagag\npasscode:vagagord\n")[..31] == "\n\nlogin:vagag\npasscode:vagagord"
  {
  }
}
