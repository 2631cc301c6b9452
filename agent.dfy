/** The transcript fetcher and the content generator of social_media_agent.py. The
    two external services are replaced by the answers they give: the transcript
    provider's fragment list (or its error) and the generation service's candidate
    texts (or its error). */
module Agent {
  import opened Wrappers
  import Text

  /** A generated post for one platform. */
  datatype Post = Post(platform: string, content: string)

  /** One caption fragment as the transcript provider returns it; only its text is
      used, timestamps are dropped. */
  datatype Fragment = Fragment(text: string)

  /** What the transcript provider answers for one identifier. */
  datatype Listing = Fragments(fragments: seq<Fragment>) | ProviderError(message: string)

  /** A raised exception: the class callers can tell apart, and `str(e)`. */
  datatype Failure = ValueError(message: string) | Exception(message: string)

  /** One call of `get_transcript`: whether the provider was asked, and the outcome. */
  datatype Fetch = Fetch(providerCalled: bool, result: Result<string, Failure>)

  const EmptyIdMessage: string := "Video ID cannot be empty"
  const NoTranscriptMessage: string := "No transcript found for the video"

  /** The text put in front of every error raised inside the fetch. */
  function WrapPrefix(videoId: string): string {
    "Error fetching transcript for video " + videoId + ": "
  }

  /** The `text` field of each fragment, in provider order. */
  function Texts(fragments: seq<Fragment>): (texts: seq<string>)
    ensures |texts| == |fragments|
    ensures forall i :: 0 <= i < |fragments| ==> texts[i] == fragments[i].text
  {
    seq(|fragments|, i requires 0 <= i < |fragments| => fragments[i].text)
  }

  /** The message of the exception raised inside the `try` of `get_transcript`. */
  function Cause(listing: Listing): string {
    if listing.ProviderError? then listing.message else NoTranscriptMessage
  }

  /** `get_transcript(video_id)`, given what the provider answers for `video_id`.
      An empty identifier is refused before the provider is asked, and that error
      is not re-wrapped; an empty fragment list is an error; every error raised
      once the provider is asked is re-wrapped with the identifier. */
  function GetTranscript(videoId: string, listing: Listing): (f: Fetch)
    ensures f.providerCalled <==> videoId != ""
    ensures videoId == "" ==> f.result == Err(ValueError(EmptyIdMessage))
    ensures f.result.Ok? <==> videoId != "" && listing.Fragments? && |listing.fragments| > 0
    ensures f.result.Ok? ==> f.result.value == Text.Join(Texts(listing.fragments))
    ensures videoId != "" && f.result.Err? ==>
              f.result.error.Exception?
              && |WrapPrefix(videoId)| <= |f.result.error.message|
              && f.result.error.message[..|WrapPrefix(videoId)|] == WrapPrefix(videoId)
              && f.result.error.message[|WrapPrefix(videoId)|..] == Cause(listing)
  {
    if videoId == "" then Fetch(false, Err(ValueError(EmptyIdMessage)))
    else match listing
      case ProviderError(message) =>
        Fetch(true, Err(Exception(WrapPrefix(videoId) + message)))
      case Fragments(fragments) =>
        if |fragments| == 0 then Fetch(true, Err(Exception(WrapPrefix(videoId) + NoTranscriptMessage)))
        else Fetch(true, Ok(Text.Join(Texts(fragments))))
  }

  /** A fetched transcript is the fragment texts in provider order with one space
      between neighbours: its length is theirs plus one per gap, and when no text
      holds a space, splitting it on spaces gives the texts back. */
  lemma TranscriptShape(videoId: string, listing: Listing)
    requires GetTranscript(videoId, listing).result.Ok?
    ensures var texts := Texts(listing.fragments);
            var t := GetTranscript(videoId, listing).result.value;
            |t| == Text.TotalLength(texts) + |texts| - 1
            && (Text.NoSpaces(texts) ==> Text.Split(t) == texts)
  {
    var texts := Texts(listing.fragments);
    if Text.NoSpaces(texts) {
      Text.SplitJoin(texts);
    }
  }

  /** Whatever the texts hold, spaces included, the transcript carries the text
      of fragment `k` verbatim at its offset: after the texts of the earlier
      fragments and one space for each of them; a single space follows every text
      but the last. */
  lemma TranscriptPieces(videoId: string, listing: Listing, k: nat)
    requires GetTranscript(videoId, listing).result.Ok? && k < |listing.fragments|
    ensures var texts := Texts(listing.fragments);
            var t := GetTranscript(videoId, listing).result.value;
            var at := Text.TotalLength(texts[..k]) + k;
            Text.OccursAt(t, listing.fragments[k].text, at)
            && (k + 1 < |texts| ==> at + |texts[k]| < |t| && t[at + |texts[k]|] == ' ')
  {
    Text.JoinPlaces(Texts(listing.fragments), k);
  }

  /** Two fragments "Hello" and "world" give the transcript "Hello world". */
  lemma TranscriptHelloWorld(videoId: string)
    requires videoId != ""
    ensures GetTranscript(videoId, Fragments([Fragment("Hello"), Fragment("world")])).result == Ok("Hello world")
  {
    var texts := Texts([Fragment("Hello"), Fragment("world")]);
    assert texts == ["Hello", "world"];
    assert texts[1..] == ["world"];
    assert Text.Join(texts) == "Hello" + " " + "world" == "Hello world";
  }

  /** A single fragment with empty text is fetched successfully as the empty
      transcript, the case the application's own emptiness test catches. */
  lemma TranscriptMayBeEmpty(videoId: string)
    requires videoId != ""
    ensures GetTranscript(videoId, Fragments([Fragment("")])).result == Ok("")
  {
    assert Texts([Fragment("")]) == [""];
  }

  /** The model selection and output bound of every generation request. */
  const ModelName: string := "gpt-4o-mini"
  const MaxTokens: nat := 1000

  /** The fixed system instruction. */
  const SystemPrompt: string := "You are a social media expert. Generate engaging content for social media platforms based on the given video transcript."

  /** The fixed pieces of the user message, around the transcript and the platform. */
  const TranscriptLabel: string := "Video transcript: "
  const PlatformLabel: string := "\nSocial media platform: "
  const Instruction: string := "\n\nPlease generate a post that is engaging, informative, and appropriate for the platform."

  datatype Message = Message(role: string, content: string)

  /** One request to the generation service. */
  datatype ChatRequest = ChatRequest(model: string, messages: seq<Message>, maxTokens: nat)

  function UserPrompt(transcript: string, platform: string): string {
    TranscriptLabel + transcript + PlatformLabel + platform + Instruction
  }

  /** The request `generate_social_media_content(transcript, platform)` sends:
      the fixed model and bound, the system instruction, then one user message.
      Where the transcript and the platform stand in that message is `PromptShape`. */
  function PromptFor(transcript: string, platform: string): (req: ChatRequest)
    ensures req.model == ModelName && req.maxTokens == MaxTokens
    ensures |req.messages| == 2 && req.messages[0] == Message("system", SystemPrompt)
    ensures req.messages[1].role == "user"
  {
    ChatRequest(ModelName, [Message("system", SystemPrompt), Message("user", UserPrompt(transcript, platform))], MaxTokens)
  }

  /** The user message of every request carries the transcript and the platform
      name verbatim at fixed places between the fixed labels. */
  lemma PromptShape(transcript: string, platform: string)
    ensures var content := PromptFor(transcript, platform).messages[1].content;
            |content| == |TranscriptLabel| + |transcript| + |PlatformLabel| + |platform| + |Instruction|
            && content[..|TranscriptLabel|] == TranscriptLabel
            && Text.OccursAt(content, transcript, |TranscriptLabel|)
            && Text.OccursAt(content, PlatformLabel, |TranscriptLabel| + |transcript|)
            && Text.OccursAt(content, platform, |TranscriptLabel| + |transcript| + |PlatformLabel|)
            && content[|content| - |Instruction|..] == Instruction
  {
  }

  /** For one transcript, distinct platforms give distinct requests. */
  lemma PromptDistinguishesPlatforms(transcript: string, p1: string, p2: string)
    requires p1 != p2
    ensures PromptFor(transcript, p1) != PromptFor(transcript, p2)
  {
    var c1 := PromptFor(transcript, p1).messages[1].content;
    var c2 := PromptFor(transcript, p2).messages[1].content;
    var at := |TranscriptLabel| + |transcript| + |PlatformLabel|;
    PromptShape(transcript, p1);
    PromptShape(transcript, p2);
    if |p1| == |p2| {
      assert c1[at..at + |p1|] == p1 && c2[at..at + |p2|] == p2;
    } else {
      assert |c1| != |c2|;
    }
  }

  /** The transcript is embedded without any quoting, so a transcript that itself
      holds the platform label makes two different (transcript, platform) pairs
      produce the very same request. */
  lemma PromptNotInjective(a: string, b: string, c: string)
    ensures PromptFor(a + PlatformLabel + b, c) == PromptFor(a, b + PlatformLabel + c)
    ensures a + PlatformLabel + b != a
  {
    UserPromptRegroup(a, b, c);
    assert |a + PlatformLabel + b| > |a| by { assert PlatformLabel[0] == '\n'; }
  }

  lemma UserPromptRegroup(a: string, b: string, c: string)
    ensures UserPrompt(a + PlatformLabel + b, c) == UserPrompt(a, b + PlatformLabel + c)
  {
    Regroup(TranscriptLabel, a, PlatformLabel, b, c, Instruction);
  }

  /** Moving a middle piece from one argument of the template to the other. */
  lemma Regroup(x: string, a: string, y: string, b: string, c: string, z: string)
    ensures x + (a + y + b) + y + c + z == x + a + y + (b + y + c) + z
  {
  }

  /** What the generation service answers for one request: the candidates' texts,
      or a raised error with its message. */
  datatype Reply = Choices(candidates: seq<string>) | Raised(message: string)

  /** `str(e)` of the IndexError raised by `choices[0]` on an empty list. */
  const NoChoiceMessage: string := "list index out of range"

  /** The end of `generate_social_media_content`: the first candidate verbatim,
      without post-processing; a provider error surfaces with its own message. */
  function GenerateContent(reply: Reply): (r: Result<string, string>)
    ensures r.Ok? <==> reply.Choices? && |reply.candidates| > 0
    ensures r.Ok? ==> r.value == reply.candidates[0]
    ensures reply.Raised? ==> r == Err(reply.message)
    ensures reply.Choices? && r.Err? ==> r.error == NoChoiceMessage
  {
    match reply
    case Raised(message) => Err(message)
    case Choices(candidates) =>
      if |candidates| == 0 then Err(NoChoiceMessage) else Ok(candidates[0])
  }
}
