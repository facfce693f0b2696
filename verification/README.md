# ltns core in Dafny: the STOMP tokenizer and parser, and the transport-network store

This project models two parts of the network-monitor repository lnikon/ltns.

- **The STOMP front end** (`include/NetworkMonitor/Stomp/`):
  - the enum/string bimap `EnumToStringBimap`, with its two instances for STOMP commands and
    token types;
  - the character-level tokenizer `StompTokenizer`;
  - the two-token look-ahead parser `StompParser`.
- **The transport-network store** (`include/Structures/TransportNetwork/TransportNetwork.h`,
  `src/TransportNetwork.cpp`): stations with passenger counts and the routes serving them,
  lines whose stops must all be known stations, and directed travel times between stations.

The tokenizer is modelled as written, including its quirks:
- a header value and a body each lose their last character;
- `:` and `\n` are never recognised at the last position of a frame;
- no EOF, EOL or NUL token is ever produced;
- some frames make `GetToken` loop forever.

`Scan` is the tokenizer's outer loop from a position. It returns either the token with the
cursor left behind, or `Diverge`. `Step` is the pure one-call step function, and `Lex` gives
the first `n` tokens. The method `GetToken` follows the C++ loops statement by statement and
is proved to compute `Step`.

The parser is modelled on the text its lexer reads. `Parse` returns `Done`, `Threw(error)` or
`Hangs`. It is proved equal to `ParseByTokens`, an independent description over the token
stream: check that the first three token kinds are command, header key and header value, then
read two more tokens.

The store is a value: each operation returns its `bool`, or its exception as a `Failure`,
together with the new network. Every operation keeps `TransportNetwork.Valid`.

Modules:
- `Wrappers` (`Option`, `Result`);
- `Bimaps`;
- `StompFrames`;
- `StompLexer` and `StompLexerProperties`;
- `StompParsing` and `StompParserProperties`;
- `TransportNetwork` and `TransportNetworkProperties`.

## Model

| member | source | states |
|---|---|---|
| Bimaps.Insert | include/NetworkMonitor/Stomp/StompFrame.h:29-32 | A pair is inserted only when neither its enum nor its name is present. Nothing stored is overwritten, and the two views stay mutually inverse. |
| Bimaps.Build | include/NetworkMonitor/Stomp/StompFrame.h:26-33 | Ordered construction. Every stored pair comes from the list. Every pair that clashes with no earlier pair is stored. Every pair has its enum or its name taken. |
| Bimaps.BuildKeepsFirst | include/NetworkMonitor/Stomp/StompFrame.h:26-33 | First wins: every pair of the list is stored, or an earlier pair sharing its enum or its name is stored. A later pair never displaces an earlier one. |
| Bimaps.LookupsInverse | include/NetworkMonitor/Stomp/StompFrame.h:45-61 | `ToEnum(s) == e` exactly when `ToString(e) == s`. |
| Bimaps.DroppedPairUnnamed | include/NetworkMonitor/Stomp/StompFrame.h:29-32 | The same for any one-to-one bimap whose pairs come from the list and which stores the pair that owns the name. |
| Bimaps.DroppedPairHasNoName | include/NetworkMonitor/Stomp/StompFrame.h:29-32 | Suppose a pair's name was already taken and its enum occurs in no other pair. Then that enum has no name after construction. |
| StompFrames.CommandNamesBuilt | include/NetworkMonitor/Stomp/StompFrame.h:74-84 | The command bimap's constructor yields exactly Undefined↔"Undefined" and STOMP↔"STOMP". |
| StompFrames.CommandVocabulary | include/NetworkMonitor/Stomp/StompParser.h:222-225 | `isStompCommand` holds exactly for "Undefined" and "STOMP". The sentinel has no name. |
| StompLexer.TokenTypeVocabulary | include/NetworkMonitor/Stomp/StompParser.h:40-57 | All eight real token kinds, EOF, EOL and Null included, have their own name, and each name maps back to its kind. `kSizeOfEnum`'s pair is dropped, so the sentinel has no name. These include the facts tests/stomp-parser.cpp:16-38 checks. |
| StompLexer.RealPairsNamed | include/NetworkMonitor/Stomp/StompParser.h:46-53 | Any one-to-one bimap that stores every non-clashing pair of the token-type list gives these eight names in both directions. |
| StompLexer.SentinelHasNoName | include/NetworkMonitor/Stomp/StompParser.h:54 | Any one-to-one bimap built from the token-type list leaves `kSizeOfEnum` without a name, because "UndefinedToken" is already taken. |
| StompLexer.RunEnd | include/NetworkMonitor/Stomp/StompParser.h:132-141 | The letter-run loop stops at the first position where its break condition holds, or never stops. |
| StompLexer.ValueEnd | include/NetworkMonitor/Stomp/StompParser.h:115-118 | The header-value loop stops at the first position whose next character is a newline, or never stops. |
| StompLexer.BodyEnd | include/NetworkMonitor/Stomp/StompParser.h:164-166 | The body loop stops on the first NUL, or never stops. |
| StompLexer.ReadValue | include/NetworkMonitor/Stomp/StompParser.h:108-127 | A header-value token holds the text between the `:` and the character before a newline. The cursor is left on that character. |
| StompLexer.ReadBody | include/NetworkMonitor/Stomp/StompParser.h:161-175 | A body token starts with the blank line and stops one character before a NUL. It holds no NUL, and the cursor is left on the NUL. |
| StompLexer.ReadRun | include/NetworkMonitor/Stomp/StompParser.h:128-160 | A run ends as a command token (the name is in the command vocabulary), as the header key "content-type", as a dropped run that scanning resumes after, or never. |
| StompLexer.Scan | include/NetworkMonitor/Stomp/StompParser.h:107-185 | Only Undefined, command, header-key, header-value and body tokens come out. The Undefined token alone has no value, and leaves the cursor at max(p, size). Command and key tokens are in the vocabulary. Value and body tokens have the shapes above. |
| StompLexer.Step | include/NetworkMonitor/Stomp/StompParser.h:103-186 | One returning `GetToken` call gives a token of one of the kinds the lexer produces. It leaves the cursor at or past the position its first `nextChar` moves to. |
| StompLexer.HaltsForSnoc | include/NetworkMonitor/Stomp/StompParser.h:103-186 | If `n` calls return and the next one returns too, then `n + 1` calls return. |
| StompLexer.LexPrefix | include/NetworkMonitor/Stomp/StompParser.h:103-186 | The first `n` tokens are a prefix of the first `m` tokens, for `n <= m`. |
| StompLexer.ReadValueLoop | include/NetworkMonitor/Stomp/StompParser.h:110-126 | The imperative header-value loop computes `ReadValue`. |
| StompLexer.ReadRunLoop | include/NetworkMonitor/Stomp/StompParser.h:130-159 | The imperative run loop and the command and key tests compute `ReadRun`. |
| StompLexer.ReadBodyLoop | include/NetworkMonitor/Stomp/StompParser.h:162-174 | The imperative body loop computes `ReadBody`. |
| StompLexer.LoopBody | include/NetworkMonitor/Stomp/StompParser.h:108-175 | One pass of the outer loop either hands out `Scan`'s token, or continues with the same `Scan` result from the next position. |
| StompLexer.GetToken | include/NetworkMonitor/Stomp/StompParser.h:103-186 | The method returns exactly `Step(frame, c)`. |
| StompLexerProperties.CharsAt | include/NetworkMonitor/Stomp/StompParser.h:193-241 | `nextChar` gives the character at the cursor, or "EOF" past the end. `peek` gives the next character, or "EOF". `isCurrentChar(ch)` holds iff the cursor is not on the last character and the character there is `ch`. |
| StompLexerProperties.ScanAtColon | include/NetworkMonitor/Stomp/StompParser.h:108-127 | At a `:` that is not last, the header-value branch is taken. |
| StompLexerProperties.ScanAtLetter | include/NetworkMonitor/Stomp/StompParser.h:128-160 | At a letter, the run branch is taken, and a dropped run resumes scanning after it. |
| StompLexerProperties.ScanAtBlankLine | include/NetworkMonitor/Stomp/StompParser.h:161-175 | At `\n\n`, the body branch is taken. |
| StompLexerProperties.ScanSkips | include/NetworkMonitor/Stomp/StompParser.h:107-176 | A character that starts no branch is stepped over. |
| StompLexerProperties.RunStopsChars | include/NetworkMonitor/Stomp/StompParser.h:133-137 | The run's break condition in terms of characters: a `:` or newline after the cursor, or a character that is neither a letter nor a dash. A dash in last position does not count as a dash. |
| StompLexerProperties.HeaderValueDropsLastChar | include/NetworkMonitor/Stomp/StompParser.h:113-121 | `:v\n` yields the value `v` without its last character. |
| StompLexerProperties.BodyDropsLastChar | include/NetworkMonitor/Stomp/StompParser.h:162-169 | `\n\n b NUL` yields `"\n\n" + b` without its last character, with the cursor on the NUL. |
| StompLexerProperties.WordBeforeSeparator | include/NetworkMonitor/Stomp/StompParser.h:128-230 | A word that ends just before `:` or a newline is a command iff `isStompCommand` accepts it, else a key iff `isHeaderKey` accepts it, which it does for exactly "content-type". Any other word is skipped, not emitted. |
| StompLexerProperties.RunTakesStopChar | include/NetworkMonitor/Stomp/StompParser.h:133-159 | A word followed by a character such as a space or `\r` swallows that character. It is then never a command or key, and is skipped. |
| StompLexerProperties.DivergesWhenStuck | include/NetworkMonitor/Stomp/StompParser.h:107-175 | `GetToken` loops forever in three cases: a value without a later newline, a body without a later NUL, or a letter run that reaches the end. |
| StompLexerProperties.DivergenceHasCause | include/NetworkMonitor/Stomp/StompParser.h:107-175 | Conversely, every endless loop has one of those three shapes at or after the cursor. |
| StompLexerProperties.BareCommandNeverReturns | include/NetworkMonitor/Stomp/StompParser.h:132-141 | On the text "STOMP", the first `GetToken` call never returns, because `peek` yields "EOF" and 'E' is a letter. |
| StompLexerProperties.UndefinedIsSticky | include/NetworkMonitor/Stomp/StompParser.h:176-185 | After an Undefined token, every later call returns again, and returns Undefined with no value. |
| StompLexerProperties.OneHeaderFrameTokens | include/NetworkMonitor/Stomp/StompParser.h:103-186 | For `STOMP\ncontent-type:v\n\nb NUL`, the tokens are: the command, the key, `v` minus its last character, the body minus its last character, then Undefined. |
| StompLexerProperties.NoHeaderFrameTokens | include/NetworkMonitor/Stomp/StompParser.h:103-186 | A frame without headers yields the command, the body, then Undefined. |
| StompLexerProperties.ExampleFrameTokens | tests/stomp-parser.cpp:40-57 | The test frame's tokens are a command, a header key, a header value and a body, in that order. The values are "STOMP", "content-type", "applicationjso" and the body without its last newline. |
| StompParsing.Create | include/NetworkMonitor/Stomp/StompParser.h:365-369 | A fresh parser has read no tokens. Both its tokens are Undefined. |
| StompParsing.NextToken | include/NetworkMonitor/Stomp/StompParser.h:353-357 | The next token becomes current. The call returns iff the lexer call returns, and never throws. |
| StompParsing.NextTokenReadsStream | include/NetworkMonitor/Stomp/StompParser.h:353-357 | A parser that has read `k` tokens reads exactly token `k` next. |
| StompParsing.Match | include/NetworkMonitor/Stomp/StompParser.h:342-351 | `match` throws exactly when the current kind differs, with expected and actual kinds. Otherwise it moves on by one token. |
| StompParsing.MatchReadsStream | include/NetworkMonitor/Stomp/StompParser.h:342-357 | `match` after `k` tokens checks token `k - 2` and reads token `k`. |
| StompParsing.ParseCommand | include/NetworkMonitor/Stomp/StompParser.h:282-293 | Throws "expected stomp command token" exactly when the current token is not a command. Otherwise it consumes the token and returns `kUndefined`. |
| StompParsing.ParseHeader | include/NetworkMonitor/Stomp/StompParser.h:301-311 | Throws exactly when the key or the value token is missing. The header is named after the kind of the token that follows the value, and takes that token's value. |
| StompParsing.ParseHeaders | include/NetworkMonitor/Stomp/StompParser.h:295-299 | Parses one header, then returns an empty list. |
| StompParsing.Parse | include/NetworkMonitor/Stomp/StompParser.h:261-279 | A returning parse gives the default frame, the default-initialised `StompFrame` of include/NetworkMonitor/Stomp/StompFrame.h:98-102: command `kSTOMP`, no headers, empty body. An exception is either the missing command or an unexpected token. |
| StompParsing.ParseIsTokenCheck | include/NetworkMonitor/Stomp/StompParser.h:261-311 | `Parse` equals its token-stream description `ParseByTokens`, on every input. |
| StompParserProperties.ParseSucceedsExactly | include/NetworkMonitor/Stomp/StompParser.h:261-311 | `Parse` returns iff five `GetToken` calls return and the first three kinds are command, header key and header value. |
| StompParserProperties.HeaderNamedAfterFollowingToken | include/NetworkMonitor/Stomp/StompParser.h:304-308 | The parsed header's name is the name of token 3's kind, and its value is token 3's value. Token 3 is the token after the header value. |
| StompParserProperties.OneHeaderFrameParses | include/NetworkMonitor/Stomp/StompParser.h:261-311 | A one-header frame parses to the default frame. |
| StompParserProperties.NoHeaderFrameRejected | include/NetworkMonitor/Stomp/StompParser.h:301-305 | A frame without headers throws: a body token is found where the header key is expected. |
| StompParserProperties.BareCommandHangs | include/NetworkMonitor/Stomp/StompParser.h:266-268 | Parsing "STOMP" never returns. |
| StompParserProperties.EmptyTextThrows | include/NetworkMonitor/Stomp/StompParser.h:282-290 | Parsing the empty text throws "expected stomp command token". |
| StompParserProperties.AsWrittenRejectsEveryFrame | include/NetworkMonitor/Stomp/StompParser.h:255-257 | As written, every frame text is rejected with "expected stomp command token". |
| StompParserProperties.ExampleFrameParses | tests/stomp-parser.cpp:59-69 | The test frame parses to the default frame when the lexer reads it. As written, it throws. |
| TransportNetwork.RecordStationEvent | src/TransportNetwork.cpp:32-50 | `In` adds one. `Out` removes one iff the count is positive. Any other type is refused. A refused event changes nothing, and identity and routes are never touched. |
| TransportNetwork.AddRoute | src/TransportNetwork.cpp:57-75 | Appends iff no equal route is listed. Returns true iff it appended. Keeps order and prefix, and never creates a duplicate. |
| TransportNetwork.AddStation | src/TransportNetwork.cpp:87-98 | Stores the station iff its id is free, and returns whether it did. Nothing else changes, and `Valid` is kept. |
| TransportNetwork.GetStation | src/TransportNetwork.cpp:100-107 | Finds a station iff its id is stored, and the station found carries that id. |
| TransportNetwork.FirstUnknownIn | src/TransportNetwork.cpp:120-126 | The first stop of one route that is not a known station, if any. |
| TransportNetwork.FirstUnknownStop | src/TransportNetwork.cpp:119-127 | The first unknown stop in route-then-stop order. None iff every stop is known. |
| TransportNetwork.AttachStops | src/TransportNetwork.cpp:131-134 | Every stop gains the route. Stations are kept, lists are only extended, and no duplicates appear. |
| TransportNetwork.AttachRoutes | src/TransportNetwork.cpp:130-135 | Every stop of every route lists that route. Each station gains only routes that stop there. |
| TransportNetwork.AddLine | src/TransportNetwork.cpp:109-143 | Throws for an empty route list. Otherwise it throws iff some stop is unknown, naming an unknown stop whose earlier stops are all known. Otherwise every stop is served, and the line is stored iff its id was free; the result says which. Travel times are untouched and `Valid` is kept. Only the stops the source passes to `GetStation` must be non-empty. |
| TransportNetwork.AddLineKeepsValid | src/TransportNetwork.cpp:130-142 | Attaching routes only extends stations, so lines stored earlier stay served. |
| TransportNetwork.GetLine | src/TransportNetwork.cpp:145-152 | Finds a line iff its id is stored, and the line found carries that id. |
| TransportNetwork.RecordPassengerEvent | src/TransportNetwork.cpp:154-168 | An event is accepted iff its station is known and it is `In`, or `Out` with a positive count. A known station becomes what its own `RecordPassengerEvent` makes of it. A refused event changes nothing, other stations never change, and `Valid` is kept. |
| TransportNetwork.SetTravelTime | src/TransportNetwork.cpp:196-214 | Succeeds iff the stations differ and the ordered pair has no time yet. On success, it stores exactly that pair. |
| TransportNetworkProperties.InThenOutRestores | src/TransportNetwork.cpp:32-50 | In then Out gives back the original station. |
| TransportNetworkProperties.OutThenInRestores | src/TransportNetwork.cpp:32-50 | Out then In, on a non-empty station, gives back the original station. |
| TransportNetworkProperties.EventsKeepStationIdentity | src/TransportNetwork.cpp:231-234 | Station equality (id and name) survives passenger events and route additions. |
| TransportNetworkProperties.CountAfterEvent | src/TransportNetwork.cpp:154-181 | The reported count changes by +1 or -1 for an accepted In or Out, and otherwise not at all. Other stations' counts never change. |
| TransportNetworkProperties.SentinelEventRejected | tests/transport-network.cpp:358-386 | An event of the sentinel type is refused and changes nothing. |
| TransportNetworkProperties.UnknownStationIsInert | src/TransportNetwork.cpp:154-194 | An unknown station refuses every event and changes nothing. `GetPassengerCount` reports 0 for it, and `GetRoutesServingStation` reports no routes. This is the behaviour tests/transport-network.cpp:325-356 checks. |
| TransportNetworkProperties.AddStationThenGet | tests/transport-network.cpp:14-21 | After `AddStation`, the id holds the new station if it was free, and the old one otherwise. |
| TransportNetworkProperties.DuplicateStationKeepsFirst | tests/transport-network.cpp:23-36 | A second station with the same id is refused. The stored one equals the first and not the second. |
| TransportNetworkProperties.PassengerCountScenario | tests/transport-network.cpp:242-278 | Three Ins give 3 while the neighbour stays at 0. Two Outs then leave 1. |
| TransportNetworkProperties.AddLineThenQuery | src/TransportNetwork.cpp:109-152 | After a successful `AddLine`, each stop's routes include each route that stops there. `GetLine` returns the new line, or the one stored before it. |
| TransportNetworkProperties.FreshStationServedByOneRoute | src/TransportNetwork.cpp:109-194 | A route-less station on a one-route line is then served by exactly that route: `GetRoutesServingStation` reports just the route `AddLine` attached. This is the scenario of tests/transport-network.cpp:38-74. |
| TransportNetworkProperties.SetThenGetTravelTime | src/TransportNetwork.cpp:196-229 | After `SetTravelTime`, only the set ordered pair reads the new time, and only on success. Every other pair reads as before. |
| TransportNetworkProperties.FirstTravelTimeKept | src/TransportNetwork.cpp:208-213 | Setting the same pair twice fails the second time and keeps the first time. |
| TransportNetworkProperties.TravelTimeIsDirectional | include/Structures/TransportNetwork/TransportNetwork.h:103-111 | A time set for (a, b) is not seen for (b, a). |

## Left out

- The WebSocket client, the file downloader and `main` are not part of this model: they are I/O on the network and the file system.
- Console logging (`std::cout`) in the parser is not modelled: it has no effect on results.
- `ReadASCIIConstant` and `ReadEOL` are left out. They have no body in the source, so calling either is undefined behaviour.
- `parseStompBodyStart`, `parseStompBody`, `parseStompBodyEnd`, `newLine` and `checkPeek` are left out. `Parse` never calls them.
- The `ASCII_*`, `EOL` and `OCTET` constants are left out. All of them are `'\0'` and nothing reads them.
- The lexer reads `std::string` bytes as Dafny `char`s. `std::isalpha` is the "C" locale test for ASCII letters.
- `StompLexer.Step`: it requires that the call returns. A call that never returns is the `Diverge`/`Hangs` outcome, not a value.
- `TransportNetwork.RecordStationEvent`: the passenger count is an unbounded `nat`, not a 64-bit `std::size_t`. The wrap-around at 2^64 `In` events is not modelled.
- Shared ownership is not modelled. Stations, lines and routes are values, so a station's route list holds copies of the line's routes. `Line::operator==` compares route pointers, and here routes compare as values.
- `m_passengerEvents` is declared but never used, so it is left out.
- `TransportNetwork.SetTravelTime`: the stored `TravelTime` has empty line and route ids, as the source leaves them.
- `TransportNetwork.AddLine`: when it throws, the model returns no network. The caller keeps the old one, which matches the source: it throws before changing anything.
- The source's `assert`s on non-empty ids become `requires` clauses.
- There is no frame serializer in the source, so there is no encode/decode round trip to state.

## Findings

| source | as written | input that shows it | evidently intended | confidence | as-written member | corrected member |
|---|---|---|---|---|---|---|
| include/NetworkMonitor/Stomp/StompParser.h:255-257 | `m_frameText` is declared before `m_lexer`, so it is initialised first, and it moves the argument away. `m_lexer(frame)` is then built from the moved-from string, which libstdc++ and libc++ leave empty. | The frame of tests/stomp-parser.cpp:61-65 throws "expected stomp command token". | The lexer reads the frame text, and the test frame parses. | not executed | StompParserProperties.AsWrittenRejectsEveryFrame | StompParserProperties.ExampleFrameParses |
