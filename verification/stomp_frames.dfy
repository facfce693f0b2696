/**
 * The STOMP value types of include/NetworkMonitor/Stomp/StompFrame.h: token values,
 * the command vocabulary with its enum/string bimap, headers, bodies and frames.
 */
module StompFrames {
  import opened Wrappers
  import Bimaps

  /** `TokenValue`: a variant holding exactly one of nothing, a string or a size. */
  datatype TokenValue = NoValue | Text(text: string) | Size(size: nat)

  /** `StompCommand`, with the `kSizeOfEnum` sentinel after the real values. */
  datatype StompCommand = Undefined | STOMP | SizeOfEnum

  /** The pairs `StompCommmandToStringBimap` is constructed from, in order. */
  const CommandPairs: seq<(StompCommand, string)> := [(Undefined, "Undefined"), (STOMP, "STOMP")]

  /** `StompCommmandToStringBimap`, written out as the bimap its constructor builds. */
  function CommandNames(): Bimaps.Bimap<StompCommand, string>
  {
    Bimaps.Bimap(map[Undefined := "Undefined", STOMP := "STOMP"], map["Undefined" := Undefined, "STOMP" := STOMP])
  }

  /** Building the bimap from `CommandPairs` gives exactly `CommandNames()`. */
  lemma CommandNamesBuilt()
    ensures Bimaps.Build(CommandPairs) == CommandNames()
  {
    var r := Bimaps.Build(CommandPairs);
    assert Bimaps.FreshAt(CommandPairs, 0);
    assert Bimaps.FreshAt(CommandPairs, 1);
    forall e | e in r.left
      ensures e == Undefined || e == STOMP
    {
      var i :| 0 <= i < |CommandPairs| && CommandPairs[i] == (e, r.left[e]);
    }
    assert r.left.Keys == {Undefined, STOMP};
    assert r.right.Keys == {"Undefined", "STOMP"};
  }

  /**
   * The lexer's `isStompCommand`: the run is a name the command bimap knows. The vocabulary
   * is exactly "Undefined" and "STOMP", compared case-sensitively.
   */
  predicate IsStompCommand(s: string)
  {
    Bimaps.ToEnum(CommandNames(), s) != None
  }

  lemma CommandVocabulary(s: string)
    ensures IsStompCommand(s) <==> s == "Undefined" || s == "STOMP"
    ensures Bimaps.ToEnum(CommandNames(), "STOMP") == Some(STOMP)
    ensures Bimaps.ToEnum(CommandNames(), "Undefined") == Some(Undefined)
    ensures Bimaps.ToString(CommandNames(), SizeOfEnum) == None
  {
  }

  type HeaderKey = string
  type HeaderValue = TokenValue

  datatype StompHeader = StompHeader(header: HeaderKey, value: HeaderValue)

  datatype StompBody = StompBody(body: string)

  datatype StompFrame = StompFrame(command: StompCommand, headers: seq<StompHeader>, body: StompBody)

  /** A value-initialised `StompFrame{}`: command `kSTOMP`, no headers, empty body. */
  function DefaultFrame(): StompFrame
  {
    StompFrame(STOMP, [], StompBody(""))
  }
}
