/** The assistant's POST handler (routes/chatbot.js): input validation, the
    two database reads, context aggregation, the choice between the rule
    engine and the generative reply, and the failure path.

    The generative service and the database are outside the model: their
    results enter as the `Generation` and `Lookup` values the handler
    consumes. */
module Arbiter {

  import opened Optional
  import opened Records
  import Text
  import opened EnergyContext
  import RuleEngine

  /** What the generative step produced: no credential configured (no call
      is made), the first candidate's generated text (empty when the payload
      has none), or a failure anywhere in the handler after validation. */
  datatype Generation = NoToken | Generated(text: string) | Failed

  /** What the two database reads produced: a failure of either read, no such
      user, or the user and that user's appliances. */
  datatype Lookup = LookupFailed | UserMissing | Found(user: User, appliances: seq<Appliance>)

  datatype Status = Ok | BadRequest | NotFound

  datatype Response = Response(status: Status, reply: string)

  const Marker := "Provide a helpful response:"
  const MinReplyLength := 10
  const Notice := "\n\n(Note: AI service temporarily unavailable. Using basic responses.)"
  const MissingInputReply := "Please provide both message and userId."
  const UserNotFoundReply := "User not found."

  const Preamble := "You are an energy efficiency assistant for EcoWatt app. Help users understand their energy consumption, provide tips to save energy, and explain their environmental impact. Be friendly, concise, and helpful.\n\nUser's energy data:\n"

  // ---------------------------------------------------------------------------
  // The prompt and the post-processing of the generated text
  // ---------------------------------------------------------------------------

  /** The prompt up to its closing marker. */
  function PromptHead(context: string, message: string): string
  {
    Preamble + context + "\n\nUser question: " + message + "\n\n"
  }

  /** The prompt sent to the generative service; it ends with the marker. */
  function Prompt(context: string, message: string): (p: string)
    ensures |p| >= |Marker| && p[|p| - |Marker|..] == Marker
  {
    PromptHead(context, message) + Marker
  }

  /** The reply candidate: the text after the first marker, up to the next
      one, trimmed; text without the marker is taken as it is. */
  function Candidate(generated: string): (c: string)
    ensures !Text.Contains(generated, Marker) ==> c == generated
    ensures Text.Contains(generated, Marker) ==> |c| < |generated|
  {
    if Text.Contains(generated, Marker) then
      var pieces := Text.Split(generated, Marker);
      PiecesAfterMarker(generated);
      Text.Trim(pieces[1])
    else generated
  }

  /** The piece after the first marker is shorter than the text. */
  lemma PiecesAfterMarker(generated: string)
    requires Text.Contains(generated, Marker)
    ensures var pieces := Text.Split(generated, Marker);
            |pieces| >= 2 && |pieces[1]| < |generated|
  {
    var p := Text.Find(generated, Marker, 0).value;
    Text.SplitAtFirst(generated, Marker, p);
    var rest := generated[p + |Marker|..];
    Text.JoinSplit(rest, Marker);
    var pieces := Text.Split(rest, Marker);
    if |pieces| > 1 {
      Text.JoinCons(pieces[0], pieces[1..], Marker);
      assert [pieces[0]] + pieces[1..] == pieces;
    }
  }

  /** With the first marker at `p`, the candidate is the trimmed text between
      it and the next marker, or the end of the text when there is none. */
  lemma CandidateIsSegment(generated: string, p: nat)
    requires Text.Find(generated, Marker, 0) == Some(p)
    ensures var rest := generated[p + |Marker|..];
            var next := Text.Find(rest, Marker, 0);
            Candidate(generated) == Text.Trim(if next.Some? then rest[..next.value] else rest)
  {
    Text.SplitAtFirst(generated, Marker, p);
    var rest := generated[p + |Marker|..];
    var next := Text.Find(rest, Marker, 0);
    if next.Some? {
      Text.SplitAtFirst(rest, Marker, next.value);
    } else {
      Text.SplitWithoutSeparator(rest, Marker);
    }
  }

  /** A candidate cut out at the marker never contains the marker. */
  lemma CandidateHasNoMarker(generated: string)
    requires Text.Contains(generated, Marker)
    ensures !Text.Contains(Candidate(generated), Marker)
  {
    var p := Text.Find(generated, Marker, 0).value;
    Text.SplitAtFirst(generated, Marker, p);
    var rest := generated[p + |Marker|..];
    var segment := Text.Split(rest, Marker)[0];
    assert Text.Split(generated, Marker)[1] == segment;
    Text.TrimKeepsAbsence(segment, Marker);
  }

  /** The marker has no proper border: its last character, ':', occurs nowhere
      else in it. */
  lemma MarkerHasNoBorder()
    ensures Text.NoProperBorder(Marker)
  {
    assert forall k :: 0 <= k < |Marker| - 1 ==> Marker[k] != ':';
    forall L | 0 < L < |Marker|
      ensures !Text.HasBorder(Marker, L)
    {
      assert Marker[L..][|Marker| - 1 - L] == ':';
      assert Marker[..|Marker| - L][|Marker| - 1 - L] == Marker[|Marker| - 1 - L];
    }
  }

  /** A service that echoes the prompt before its continuation yields the
      trimmed continuation as the candidate, as long as neither the user's
      data and question nor the continuation contain the marker. */
  lemma EchoedPromptYieldsContinuation(context: string, message: string, continuation: string)
    requires !Text.Contains(PromptHead(context, message), Marker)
    requires !Text.Contains(continuation, Marker)
    ensures Candidate(Prompt(context, message) + continuation) == Text.Trim(continuation)
  {
    var head := PromptHead(context, message);
    var s := head + Marker + continuation;
    assert Prompt(context, message) + continuation == s;
    MarkerHasNoBorder();
    Text.FirstAtSeparator(head, Marker, continuation);
    Text.SplitCons(head, Marker, continuation);
    Text.SplitWithoutSeparator(continuation, Marker);
  }

  // ---------------------------------------------------------------------------
  // The handler
  // ---------------------------------------------------------------------------

  /** The handler's `try` block either sends a response or throws. */
  datatype Attempt = Replied(response: Response) | Threw

  /** The `try` block: validation, the reads, then the reply choice. */
  function TryBlock(message: Option<string>, userId: Option<string>, lookup: Lookup, gen: Generation): (a: Attempt)
    ensures a.Threw? <==> Provided(message) && Provided(userId)
                          && (lookup.LookupFailed? || (lookup.Found? && gen.Failed?))
    ensures a.Replied? ==> |a.response.reply| > 0
  {
    if !Provided(message) || !Provided(userId) then Replied(Response(BadRequest, MissingInputReply))
    else
      var m := message.value;
      match lookup
      case LookupFailed => Threw
      case UserMissing => Replied(Response(NotFound, UserNotFoundReply))
      case Found(user, apps) =>
        var bundle := Aggregate(user, apps);
        match gen
        case NoToken => Replied(Response(Ok, RuleEngine.Respond(m, bundle)))
        case Failed => Threw
        case Generated(text) =>
          var c := Candidate(text);
          if Text.Utf16Length(c) < MinReplyLength then Replied(Response(Ok, RuleEngine.Respond(m, bundle)))
          else
            assert |c| > 0;
            Replied(Response(Ok, c))
  }

  /** The failure reply: the rule engine on the all-zero bundle, then the notice. */
  function Degraded(message: string): (r: Response)
    ensures r.status == Ok && |r.reply| > |Notice|
    ensures r.reply[|r.reply| - |Notice|..] == Notice
  {
    Response(Ok, RuleEngine.Respond(message, ZeroBundle) + Notice)
  }

  /** The handler as intended: the `catch` block answers with the degraded
      reply. (The source's `catch` block names `message`, which is declared
      inside the `try` block and so is out of scope there; see
      `AnswerAsWritten`.) Every request gets a non-empty reply. */
  function Answer(message: Option<string>, userId: Option<string>, lookup: Lookup, gen: Generation): (r: Response)
    ensures |r.reply| > 0
    ensures r.status == Ok <==> Provided(message) && Provided(userId) && !lookup.UserMissing?
    ensures Provided(message) && Provided(userId) && lookup.UserMissing? ==> r == Response(NotFound, UserNotFoundReply)
  {
    match TryBlock(message, userId, lookup, gen)
    case Replied(response) => response
    case Threw => Degraded(message.value)
  }

  /** The handler as written: the `catch` block's reference to `message`
      raises a ReferenceError of its own, so the degraded reply is never sent
      and the handler's promise is rejected instead (`None`). What the client
      then receives is up to the Express version and is not modelled. */
  function AnswerAsWritten(message: Option<string>, userId: Option<string>, lookup: Lookup, gen: Generation): (r: Option<Response>)
    ensures r.None? <==> Provided(message) && Provided(userId)
                         && (lookup.LookupFailed? || (lookup.Found? && gen.Failed?))
    ensures r.Some? ==> |r.value.reply| > 0 && (r.value.status == Ok <==> Provided(message) && Provided(userId) && lookup.Found?)
  {
    match TryBlock(message, userId, lookup, gen)
    case Replied(response) => Some(response)
    case Threw => None
  }

  // ---------------------------------------------------------------------------
  // Properties
  // ---------------------------------------------------------------------------

  /** As written, a failure after validation leaves the handler without a
      response of its own: the degraded reply is never sent. */
  lemma AsWrittenFailureIsUnanswered(message: string, userId: string, lookup: Lookup)
    requires |message| > 0 && |userId| > 0
    requires lookup.LookupFailed? || lookup.Found?
    ensures AnswerAsWritten(Some(message), Some(userId), lookup, Failed) == None
    ensures Answer(Some(message), Some(userId), lookup, Failed) == Degraded(message)
  {
  }

  /** Outside the failure path the corrected handler answers as the source does. */
  lemma AnswerAgreesWhereSourceReplies(message: Option<string>, userId: Option<string>, lookup: Lookup, gen: Generation)
    requires AnswerAsWritten(message, userId, lookup, gen).Some?
    ensures AnswerAsWritten(message, userId, lookup, gen) == Some(Answer(message, userId, lookup, gen))
  {
  }

  /** A missing or empty message or user id is rejected before anything else. */
  lemma MissingInputRejected(message: Option<string>, userId: Option<string>, lookup: Lookup, gen: Generation)
    requires !Provided(message) || !Provided(userId)
    ensures Answer(message, userId, lookup, gen) == Response(BadRequest, MissingInputReply)
  {
  }

  /** A valid request for an unknown user gets the 404 reply, from the
      handler as written and as intended alike. */
  lemma UnknownUserIsNotFound(message: string, userId: string, gen: Generation)
    requires |message| > 0 && |userId| > 0
    ensures AnswerAsWritten(Some(message), Some(userId), UserMissing, gen) == Some(Response(NotFound, UserNotFoundReply))
    ensures Answer(Some(message), Some(userId), UserMissing, gen) == Response(NotFound, UserNotFoundReply)
  {
  }

  /** Without a credential the reply is exactly the rule engine's on the real data. */
  lemma NoTokenUsesRuleEngine(message: string, userId: string, user: User, apps: seq<Appliance>)
    requires |message| > 0 && |userId| > 0
    ensures Answer(Some(message), Some(userId), Found(user, apps), NoToken)
            == Response(Ok, RuleEngine.Respond(message, Aggregate(user, apps)))
  {
  }

  /** A candidate shorter than ten UTF-16 code units falls back silently to
      the rule engine on the real data; a longer one is the reply verbatim. */
  lemma GeneratedReplyChoice(message: string, userId: string, user: User, apps: seq<Appliance>, text: string)
    requires |message| > 0 && |userId| > 0
    ensures var r := Answer(Some(message), Some(userId), Found(user, apps), Generated(text));
            var c := Candidate(text);
            && r.status == Ok
            && (Text.Utf16Length(c) < MinReplyLength ==> r.reply == RuleEngine.Respond(message, Aggregate(user, apps)))
            && (Text.Utf16Length(c) >= MinReplyLength ==> r.reply == c)
  {
    var c := Candidate(text);
    var b := Aggregate(user, apps);
    assert TryBlock(Some(message), Some(userId), Found(user, apps), Generated(text))
           == if Text.Utf16Length(c) < MinReplyLength then Replied(Response(Ok, RuleEngine.Respond(message, b)))
              else Replied(Response(Ok, c));
  }

  /** A service reply that echoes the prompt is reduced to its trimmed
      continuation, which is accepted when long enough. */
  lemma EchoedReplyAccepted(message: string, userId: string, user: User, apps: seq<Appliance>, continuation: string)
    requires |message| > 0 && |userId| > 0
    requires !Text.Contains(PromptHead(UserContext(user, apps), message), Marker)
    requires !Text.Contains(continuation, Marker)
    requires Text.Utf16Length(Text.Trim(continuation)) >= MinReplyLength
    ensures Answer(Some(message), Some(userId), Found(user, apps),
                   Generated(Prompt(UserContext(user, apps), message) + continuation)).reply
            == Text.Trim(continuation)
  {
    var text := Prompt(UserContext(user, apps), message) + continuation;
    EchoedPromptYieldsContinuation(UserContext(user, apps), message, continuation);
    GeneratedReplyChoice(message, userId, user, apps, text);
  }

  /** On failure the reply ignores the user's data entirely: it is the same
      for every lookup that got past validation, and for every user. */
  lemma FailureIgnoresUserData(message: string, userId: string, lookup1: Lookup, lookup2: Lookup)
    requires |message| > 0 && |userId| > 0
    requires !lookup1.UserMissing? && !lookup2.UserMissing?
    ensures Answer(Some(message), Some(userId), lookup1, Failed) == Answer(Some(message), Some(userId), lookup2, Failed)
    ensures Answer(Some(message), Some(userId), lookup1, Failed).reply == RuleEngine.Respond(message, ZeroBundle) + Notice
  {
  }

  /** A database failure takes the same path as a failed generative call,
      whatever the generative step would have produced. */
  lemma LookupFailureIsDegraded(message: string, userId: string, gen: Generation)
    requires |message| > 0 && |userId| > 0
    ensures Answer(Some(message), Some(userId), LookupFailed, gen) == Degraded(message)
  {
  }

  /** For a user with no figures and no appliances, the failure reply is the
      no-credential reply with the notice appended. */
  lemma FailureMatchesEmptyUser(message: string, userId: string, user: User)
    requires |message| > 0 && |userId| > 0
    requires user.energyPoints.None? || user.energyPoints == Some(0)
    requires user.energySaved.None? || user.energySaved == Some(0)
    requires user.coalSaved.None? || user.coalSaved == Some(0)
    requires user.co2Reduced.None? || user.co2Reduced == Some(0)
    ensures Answer(Some(message), Some(userId), Found(user, []), Failed).reply
            == Answer(Some(message), Some(userId), Found(user, []), NoToken).reply + Notice
  {
    assert Aggregate(user, []) == ZeroBundle;
  }
}
