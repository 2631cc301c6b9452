/** What app.py does once the "Generate Content" button is pressed: the two input
    guards, identifier normalisation, one transcript fetch, and the per-platform
    generation loop that stores each success, reports any other failure inline and
    stops at the first failure that signals an exhausted quota. The transcript
    provider and the generation service are given as the answers they return. */
module ContentApp {
  import opened Wrappers
  import Text
  import VideoId
  import Agent

  /** The text that marks an exhausted generation quota. */
  const QuotaMarker: string := "insufficient_quota"

  /** `"insufficient_quota" in error_msg.lower()`; `QuotaErrorIff` states what it
      accepts. */
  function IsQuotaError(message: string): bool {
    Text.Contains(Text.ToLower(message), QuotaMarker)
  }

  /** The stretch of `message` that begins at `i` reads `insufficient_quota` once
      lower-cased. */
  predicate MarkerAt(message: string, i: nat) {
    i + |QuotaMarker| <= |message| && Text.ToLower(message[i..i + |QuotaMarker|]) == QuotaMarker
  }

  /** An error counts as quota exhaustion exactly when some stretch of its message
      reads `insufficient_quota` once lower-cased, in whatever case it was written. */
  lemma QuotaErrorIff(message: string)
    ensures IsQuotaError(message) <==> exists i: nat :: MarkerAt(message, i)
  {
    if IsQuotaError(message) {
      var i: nat :| Text.OccursAt(Text.ToLower(message), QuotaMarker, i);
      Text.ToLowerSlice(message, i, i + |QuotaMarker|);
      assert MarkerAt(message, i);
    }
    forall i: nat | MarkerAt(message, i)
      ensures Text.OccursAt(Text.ToLower(message), QuotaMarker, i)
    {
      Text.ToLowerSlice(message, i, i + |QuotaMarker|);
    }
  }

  /** A message that signals quota exhaustion still does inside any longer message. */
  lemma QuotaErrorInside(pre: string, message: string, post: string)
    requires IsQuotaError(message)
    ensures IsQuotaError(pre + message + post)
  {
    var i: nat :| Text.OccursAt(Text.ToLower(message), QuotaMarker, i);
    Text.ToLowerConcat(pre, message);
    Text.ToLowerConcat(pre + message, post);
    Text.OccursInside(Text.ToLower(pre), Text.ToLower(message), Text.ToLower(post), QuotaMarker, i);
  }

  /** The quota test of the outer handler is applied to transcript errors too, and
      those quote the video identifier: a fetch failure for an identifier that
      itself holds the marker reads as quota exhaustion, whatever the cause. */
  lemma TranscriptErrorReadsAsQuota(videoId: string, listing: Agent.Listing)
    requires videoId != "" && Agent.GetTranscript(videoId, listing).result.Err?
    requires IsQuotaError(videoId)
    ensures IsQuotaError(Agent.GetTranscript(videoId, listing).result.error.message)
  {
    var message := Agent.GetTranscript(videoId, listing).result.error.message;
    var prefix := Agent.WrapPrefix(videoId);
    assert message == prefix + message[|prefix|..];
    QuotaErrorInside("Error fetching transcript for video ", videoId, ": " + Agent.Cause(listing));
    assert message == "Error fetching transcript for video " + videoId + (": " + Agent.Cause(listing));
  }

  /** The generation for one platform failed with an exhausted quota. */
  predicate IsQuotaFailure(reply: Agent.Reply) {
    var outcome := Agent.GenerateContent(reply);
    outcome.Err? && IsQuotaError(outcome.error)
  }

  /** The index of the first quota failure at or after `from`, or |replies|. */
  function FirstQuotaFailure(replies: seq<Agent.Reply>, from: nat): (n: nat)
    requires from <= |replies|
    decreases |replies| - from
    ensures from <= n <= |replies|
    ensures forall k :: from <= k < n ==> !IsQuotaFailure(replies[k])
    ensures n < |replies| ==> IsQuotaFailure(replies[n])
  {
    if from == |replies| || IsQuotaFailure(replies[from]) then from
    else FirstQuotaFailure(replies, from + 1)
  }

  /** No generation before platform `i` exhausted the quota. */
  predicate NoQuotaBefore(replies: seq<Agent.Reply>, i: nat)
    requires i <= |replies|
  {
    forall k :: 0 <= k < i ==> !IsQuotaFailure(replies[k])
  }

  /** Some platform's generation exhausted the quota. */
  predicate QuotaHit(replies: seq<Agent.Reply>) {
    FirstQuotaFailure(replies, 0) < |replies|
  }

  /** How many platforms the loop gets to: every one up to and including the
      first quota failure. A platform is attempted exactly when no earlier one
      exhausted the quota, so other failures never stop the loop; after a quota stop
      the last platform attempted is the one that hit it. */
  function Attempted(replies: seq<Agent.Reply>): (n: nat)
    ensures n <= |replies|
    ensures forall j :: 0 <= j < |replies| ==> (j < n <==> NoQuotaBefore(replies, j))
    ensures QuotaHit(replies) <==> 0 < n && IsQuotaFailure(replies[n - 1])
    ensures !QuotaHit(replies) ==> n == |replies|
  {
    var first := FirstQuotaFailure(replies, 0);
    assert forall j :: first < j < |replies| ==> !NoQuotaBefore(replies, j);
    if first < |replies| then first + 1 else first
  }

  /** The inline message for a platform whose generation failed for a reason other
      than the quota. */
  function ErrorLine(platform: string, message: string): string {
    "Error generating content for " + platform + ": " + message
  }

  /** The posts generated for the first `n` platforms, in order: at most one per
      platform attempted, each under one of those platforms. */
  function Successes(platforms: seq<string>, replies: seq<Agent.Reply>, n: nat): (posts: seq<Agent.Post>)
    requires n <= |platforms| && n <= |replies|
    ensures |posts| <= n
  {
    if n == 0 then []
    else
      var before := Successes(platforms, replies, n - 1);
      var outcome := Agent.GenerateContent(replies[n - 1]);
      if outcome.Ok? then before + [Agent.Post(platforms[n - 1], outcome.value)] else before
  }

  /** The generation for one platform failed for a reason other than the quota. */
  predicate IsOtherFailure(reply: Agent.Reply) {
    var outcome := Agent.GenerateContent(reply);
    outcome.Err? && !IsQuotaError(outcome.error)
  }

  /** The inline error messages for the first `n` platforms, in order: at most one
      per platform attempted. */
  function InlineErrors(platforms: seq<string>, replies: seq<Agent.Reply>, n: nat): (errors: seq<string>)
    requires n <= |platforms| && n <= |replies|
    ensures |errors| <= n
  {
    if n == 0 then []
    else
      var before := InlineErrors(platforms, replies, n - 1);
      if IsOtherFailure(replies[n - 1])
      then before + [ErrorLine(platforms[n - 1], Agent.GenerateContent(replies[n - 1]).error)]
      else before
  }

  /** The posts are exactly the successful generations among the first `n`
      platforms, each under its own platform with its generated content. */
  lemma {:induction false} SuccessesExactly(platforms: seq<string>, replies: seq<Agent.Reply>, n: nat, post: Agent.Post)
    requires n <= |platforms| && n <= |replies|
    ensures post in Successes(platforms, replies, n) <==>
              exists i :: 0 <= i < n && Agent.GenerateContent(replies[i]).Ok?
                && post == Agent.Post(platforms[i], Agent.GenerateContent(replies[i]).value)
  {
    if n > 0 {
      SuccessesExactly(platforms, replies, n - 1, post);
    }
  }

  /** The dictionary that results from storing the posts one after another; a
      later post for the same platform replaces an earlier one, so the last post
      stored is always found under its platform. */
  function Stored(posts: seq<Agent.Post>): (stored: map<string, string>)
    ensures |posts| > 0 ==>
              posts[|posts| - 1].platform in stored
              && stored[posts[|posts| - 1].platform] == posts[|posts| - 1].content
  {
    if |posts| == 0 then map[]
    else
      var last := posts[|posts| - 1];
      Stored(posts[..|posts| - 1])[last.platform := last.content]
  }

  /** The keys of the dictionary are the platforms of the posts stored. */
  lemma {:induction false} StoredKeysOf(posts: seq<Agent.Post>)
    ensures Stored(posts).Keys == set k | 0 <= k < |posts| :: posts[k].platform
  {
    if |posts| > 0 {
      var init := posts[..|posts| - 1];
      StoredKeysOf(init);
      assert (set k | 0 <= k < |posts| :: posts[k].platform)
             == (set k | 0 <= k < |init| :: init[k].platform) + {posts[|posts| - 1].platform};
    }
  }

  /** One more platform whose generation succeeded: its post is stored, no error
      is added. */
  lemma StepSuccess(platforms: seq<string>, replies: seq<Agent.Reply>, n: nat)
    requires n < |platforms| && n < |replies| && Agent.GenerateContent(replies[n]).Ok?
    ensures Stored(Successes(platforms, replies, n + 1))
            == Stored(Successes(platforms, replies, n))[platforms[n] := Agent.GenerateContent(replies[n]).value]
    ensures InlineErrors(platforms, replies, n + 1) == InlineErrors(platforms, replies, n)
  {
    var before := Successes(platforms, replies, n);
    var post := Agent.Post(platforms[n], Agent.GenerateContent(replies[n]).value);
    assert Successes(platforms, replies, n + 1) == before + [post];
    assert (before + [post])[..|before|] == before;
  }

  /** One more platform whose generation failed: nothing is stored, and an inline
      error is added unless the failure was the quota. */
  lemma StepFailure(platforms: seq<string>, replies: seq<Agent.Reply>, n: nat)
    requires n < |platforms| && n < |replies| && Agent.GenerateContent(replies[n]).Err?
    ensures Successes(platforms, replies, n + 1) == Successes(platforms, replies, n)
    ensures var message := Agent.GenerateContent(replies[n]).error;
            InlineErrors(platforms, replies, n + 1) ==
              if IsQuotaError(message) then InlineErrors(platforms, replies, n)
              else InlineErrors(platforms, replies, n) + [ErrorLine(platforms[n], message)]
  {
  }

  /** Storing the posts of one more platform. */
  lemma StoredStep(platforms: seq<string>, replies: seq<Agent.Reply>, n: nat)
    requires 0 < n <= |platforms| && n <= |replies|
    ensures var outcome := Agent.GenerateContent(replies[n - 1]);
            var before := Stored(Successes(platforms, replies, n - 1));
            Stored(Successes(platforms, replies, n)) ==
              if outcome.Ok? then before[platforms[n - 1] := outcome.value] else before
  {
    if Agent.GenerateContent(replies[n - 1]).Ok? {
      StepSuccess(platforms, replies, n - 1);
    } else {
      StepFailure(platforms, replies, n - 1);
    }
  }

  /** The generation requests for the first `n` platforms, one per platform, in
      selection order. */
  function Requests(transcript: string, platforms: seq<string>, n: nat): (requests: seq<Agent.ChatRequest>)
    requires n <= |platforms|
    ensures |requests| == n
  {
    if n == 0 then [] else Requests(transcript, platforms, n - 1) + [Agent.PromptFor(transcript, platforms[n - 1])]
  }

  /** The `i`-th request is the prompt for the `i`-th platform, for the same
      transcript. */
  lemma {:induction false} RequestsEach(transcript: string, platforms: seq<string>, n: nat, i: nat)
    requires i < n <= |platforms|
    ensures Requests(transcript, platforms, n)[i] == Agent.PromptFor(transcript, platforms[i])
  {
    if i < n - 1 {
      RequestsEach(transcript, platforms, n - 1, i);
    }
  }

  /** The loop goes past a platform whose generation did not exhaust the quota. */
  lemma PassesNonQuota(replies: seq<Agent.Reply>, i: nat)
    requires i < |replies| && i <= FirstQuotaFailure(replies, 0) && !IsQuotaFailure(replies[i])
    ensures i + 1 <= FirstQuotaFailure(replies, 0)
  {
  }

  /** The loop stops at a platform whose generation exhausted the quota. */
  lemma StopsAt(replies: seq<Agent.Reply>, i: nat)
    requires i < |replies| && i <= FirstQuotaFailure(replies, 0) && IsQuotaFailure(replies[i])
    ensures QuotaHit(replies) && Attempted(replies) == i + 1
  {
  }

  /** The loop that runs out of platforms attempted them all. */
  lemma RunsToEnd(replies: seq<Agent.Reply>)
    requires |replies| <= FirstQuotaFailure(replies, 0)
    ensures !QuotaHit(replies) && Attempted(replies) == |replies|
  {
  }

  /** The loop of app.py over the selected platforms, given the generation
      service's reply for each. Platforms are attempted in order, each with one
      request; a success is stored under its platform; a quota failure ends the
      loop; any other failure is reported inline and the loop goes on. */
  method GenerateForPlatforms(transcript: string, platforms: seq<string>, replies: seq<Agent.Reply>)
    returns (generated: map<string, string>, requests: seq<Agent.ChatRequest>, errors: seq<string>, quotaExceeded: bool)
    requires |replies| == |platforms|
    ensures requests == Requests(transcript, platforms, Attempted(replies))
    ensures quotaExceeded <==> QuotaHit(replies)
    ensures generated == Stored(Successes(platforms, replies, |requests|))
    ensures errors == InlineErrors(platforms, replies, |requests|)
  {
    generated, requests, errors, quotaExceeded := map[], [], [], false;
    var i := 0;
    while i < |platforms|
      invariant 0 <= i <= |platforms|
      invariant i <= FirstQuotaFailure(replies, 0)
      invariant requests == Requests(transcript, platforms, i)
      invariant generated == Stored(Successes(platforms, replies, i))
      invariant errors == InlineErrors(platforms, replies, i)
      invariant !quotaExceeded
    {
      var platform := platforms[i];
      requests := requests + [Agent.PromptFor(transcript, platform)];
      var outcome := Agent.GenerateContent(replies[i]);
      if outcome.Ok? {
        StepSuccess(platforms, replies, i);
        PassesNonQuota(replies, i);
        generated := generated[platform := outcome.value];
      } else if IsQuotaError(outcome.error) {
        StepFailure(platforms, replies, i);
        StopsAt(replies, i);
        quotaExceeded := true;
        break;
      } else {
        StepFailure(platforms, replies, i);
        PassesNonQuota(replies, i);
        errors := errors + [ErrorLine(platform, outcome.error)];
      }
      i := i + 1;
    }
    if !quotaExceeded {
      RunsToEnd(replies);
    }
  }

  /** Platform `i` is `p`, and its generation succeeded. */
  predicate SucceededAs(platforms: seq<string>, replies: seq<Agent.Reply>, i: nat, p: string)
    requires i < |platforms| && i < |replies|
  {
    platforms[i] == p && Agent.GenerateContent(replies[i]).Ok?
  }

  /** Every platform in the dictionary succeeded among the first `n`. */
  lemma {:induction false} StoredKeysSound(platforms: seq<string>, replies: seq<Agent.Reply>, n: nat, p: string)
    requires n <= |platforms| && n <= |replies|
    requires p in Stored(Successes(platforms, replies, n))
    ensures exists i :: 0 <= i < n && SucceededAs(platforms, replies, i, p)
  {
    var m := n - 1;
    StoredStep(platforms, replies, n);
    if p in Stored(Successes(platforms, replies, m)) {
      StoredKeysSound(platforms, replies, m, p);
      var i :| 0 <= i < m && SucceededAs(platforms, replies, i, p);
      assert 0 <= i < n && SucceededAs(platforms, replies, i, p);
    } else {
      assert SucceededAs(platforms, replies, m, p);
    }
  }

  /** Every platform that succeeded among the first `n` is in the dictionary. */
  lemma {:induction false} StoredKeysComplete(platforms: seq<string>, replies: seq<Agent.Reply>, n: nat, i: nat, p: string)
    requires i < n <= |platforms| && n <= |replies|
    requires SucceededAs(platforms, replies, i, p)
    ensures p in Stored(Successes(platforms, replies, n))
  {
    StoredStep(platforms, replies, n);
    if i < n - 1 {
      StoredKeysComplete(platforms, replies, n - 1, i, p);
    }
  }

  /** The stored dictionary holds a platform exactly when its generation succeeded
      among the first `n` platforms. */
  lemma StoredKeys(platforms: seq<string>, replies: seq<Agent.Reply>, n: nat, p: string)
    requires n <= |platforms| && n <= |replies|
    ensures p in Stored(Successes(platforms, replies, n)) <==>
              exists i :: 0 <= i < n && SucceededAs(platforms, replies, i, p)
  {
    if p in Stored(Successes(platforms, replies, n)) {
      StoredKeysSound(platforms, replies, n, p);
    }
    if exists i :: 0 <= i < n && SucceededAs(platforms, replies, i, p) {
      var i :| 0 <= i < n && SucceededAs(platforms, replies, i, p);
      StoredKeysComplete(platforms, replies, n, i, p);
    }
  }

  /** A platform maps to the content of its last successful generation among the
      first `n` platforms. */
  lemma {:induction false} StoredValue(platforms: seq<string>, replies: seq<Agent.Reply>, n: nat, i: nat)
    requires i < n <= |platforms| && n <= |replies|
    requires Agent.GenerateContent(replies[i]).Ok?
    requires forall j :: i < j < n && platforms[j] == platforms[i] ==> Agent.GenerateContent(replies[j]).Err?
    ensures platforms[i] in Stored(Successes(platforms, replies, n))
    ensures Stored(Successes(platforms, replies, n))[platforms[i]] == Agent.GenerateContent(replies[i]).value
  {
    StoredStep(platforms, replies, n);
    if i < n - 1 {
      StoredValue(platforms, replies, n - 1, i);
    }
  }

  /** After the loop the dictionary holds exactly the platforms whose generation
      succeeded with no quota failure before them. */
  lemma GeneratedExactly(platforms: seq<string>, replies: seq<Agent.Reply>, p: string)
    requires |replies| == |platforms|
    ensures p in Stored(Successes(platforms, replies, Attempted(replies))) <==>
              exists i :: 0 <= i < |platforms| && platforms[i] == p && Agent.GenerateContent(replies[i]).Ok?
                && NoQuotaBefore(replies, i)
  {
    var n := Attempted(replies);
    StoredKeys(platforms, replies, n, p);
    if exists i :: 0 <= i < n && SucceededAs(platforms, replies, i, p) {
      var i :| 0 <= i < n && SucceededAs(platforms, replies, i, p);
      assert NoQuotaBefore(replies, i);
    }
    if exists i :: 0 <= i < |platforms| && platforms[i] == p && Agent.GenerateContent(replies[i]).Ok?
                   && NoQuotaBefore(replies, i) {
      var i :| 0 <= i < |platforms| && platforms[i] == p && Agent.GenerateContent(replies[i]).Ok?
               && NoQuotaBefore(replies, i);
      assert SucceededAs(platforms, replies, i, p);
    }
  }

  /** One more platform adds its inline error exactly when it failed for a reason
      other than the quota. */
  lemma InlineStep(platforms: seq<string>, replies: seq<Agent.Reply>, n: nat)
    requires n < |platforms| && n < |replies|
    ensures InlineErrors(platforms, replies, n + 1) ==
              if IsOtherFailure(replies[n])
              then InlineErrors(platforms, replies, n) + [ErrorLine(platforms[n], Agent.GenerateContent(replies[n]).error)]
              else InlineErrors(platforms, replies, n)
  {
  }

  /** Platform `i` failed for a reason other than the quota, and `e` is its inline
      error. */
  predicate ReportedAt(platforms: seq<string>, replies: seq<Agent.Reply>, i: nat, e: string)
    requires i < |platforms| && i < |replies|
  {
    IsOtherFailure(replies[i]) && e == ErrorLine(platforms[i], Agent.GenerateContent(replies[i]).error)
  }

  /** Every inline error among the first `n` platforms is reported for one of them. */
  lemma {:induction false} InlineErrorsSound(platforms: seq<string>, replies: seq<Agent.Reply>, n: nat, e: string)
    requires n <= |platforms| && n <= |replies|
    requires e in InlineErrors(platforms, replies, n)
    ensures exists i :: 0 <= i < n && ReportedAt(platforms, replies, i, e)
  {
    var m := n - 1;
    InlineStep(platforms, replies, m);
    if e in InlineErrors(platforms, replies, m) {
      InlineErrorsSound(platforms, replies, m, e);
      var i :| 0 <= i < m && ReportedAt(platforms, replies, i, e);
      assert 0 <= i < n && ReportedAt(platforms, replies, i, e);
    } else {
      assert ReportedAt(platforms, replies, m, e);
    }
  }

  /** Every platform among the first `n` that failed for a reason other than the
      quota has its inline error. */
  lemma {:induction false} InlineErrorsComplete(platforms: seq<string>, replies: seq<Agent.Reply>, n: nat, i: nat, e: string)
    requires i < n <= |platforms| && n <= |replies|
    requires ReportedAt(platforms, replies, i, e)
    ensures e in InlineErrors(platforms, replies, n)
  {
    InlineStep(platforms, replies, n - 1);
    if i < n - 1 {
      InlineErrorsComplete(platforms, replies, n - 1, i, e);
    }
  }

  /** The inline errors name exactly the platforms among the first `n` whose
      generation failed for a reason other than the quota, each with its message. */
  lemma InlineErrorsExactly(platforms: seq<string>, replies: seq<Agent.Reply>, n: nat, e: string)
    requires n <= |platforms| && n <= |replies|
    ensures e in InlineErrors(platforms, replies, n) <==>
              exists i :: 0 <= i < n && ReportedAt(platforms, replies, i, e)
  {
    if e in InlineErrors(platforms, replies, n) {
      InlineErrorsSound(platforms, replies, n, e);
    }
    if exists i :: 0 <= i < n && ReportedAt(platforms, replies, i, e) {
      var i :| 0 <= i < n && ReportedAt(platforms, replies, i, e);
      InlineErrorsComplete(platforms, replies, n, i, e);
    }
  }

  /** The platforms among the first `n` whose generation failed for a reason other
      than the quota. */
  function OtherFailures(replies: seq<Agent.Reply>, n: nat): set<nat>
    requires n <= |replies|
  {
    set i: nat | i < n && IsOtherFailure(replies[i])
  }

  /** One more platform adds itself to the other failures exactly when it is one. */
  lemma OtherFailuresStep(replies: seq<Agent.Reply>, n: nat)
    requires 0 < n <= |replies|
    ensures n - 1 !in OtherFailures(replies, n - 1)
    ensures OtherFailures(replies, n) ==
              if IsOtherFailure(replies[n - 1]) then OtherFailures(replies, n - 1) + {n - 1}
              else OtherFailures(replies, n - 1)
  {
  }

  /** One more platform keeps the inline errors and the other failures equally
      many. */
  lemma CountStep(platforms: seq<string>, replies: seq<Agent.Reply>, n: nat)
    requires 0 < n <= |platforms| && n <= |replies|
    requires |InlineErrors(platforms, replies, n - 1)| == |OtherFailures(replies, n - 1)|
    ensures |InlineErrors(platforms, replies, n)| == |OtherFailures(replies, n)|
  {
    InlineStep(platforms, replies, n - 1);
    OtherFailuresStep(replies, n);
    var failures := OtherFailures(replies, n - 1);
    if IsOtherFailure(replies[n - 1]) {
      assert |OtherFailures(replies, n)| == |failures + {n - 1}| == |failures| + 1;
    }
  }

  /** There is one inline error per platform that failed for a reason other than
      the quota: a quota failure adds none, and neither does a success. */
  lemma {:induction false} InlineErrorsCount(platforms: seq<string>, replies: seq<Agent.Reply>, n: nat)
    requires n <= |platforms| && n <= |replies|
    ensures |InlineErrors(platforms, replies, n)| == |OtherFailures(replies, n)|
  {
    if n == 0 {
      assert OtherFailures(replies, 0) == {};
    } else {
      InlineErrorsCount(platforms, replies, n - 1);
      CountStep(platforms, replies, n);
    }
  }

  /** Two platforms, both generated successfully: two requests in selection order
      and both posts stored. */
  lemma TwoPlatformScenario(transcript: string)
    ensures var platforms := ["LinkedIn", "Twitter"];
            var replies := [Agent.Choices(["POST-LinkedIn"]), Agent.Choices(["POST-Twitter"])];
            Attempted(replies) == 2
            && !QuotaHit(replies)
            && Stored(Successes(platforms, replies, 2)) == map["LinkedIn" := "POST-LinkedIn", "Twitter" := "POST-Twitter"]
            && InlineErrors(platforms, replies, 2) == []
  {
    var platforms := ["LinkedIn", "Twitter"];
    var replies := [Agent.Choices(["POST-LinkedIn"]), Agent.Choices(["POST-Twitter"])];
    assert FirstQuotaFailure(replies, 0) == 2;
    StoredStep(platforms, replies, 1);
    StoredStep(platforms, replies, 2);
  }

  /** The example URL in the input field's placeholder,
      `https://youtube.com/watch?v=dQw4w9WgXcQ`. */
  const PlaceholderId: string := "dQw4w9WgXcQ"
  const PlaceholderUrl: string := "https://" + VideoId.WatchPrefix + PlaceholderId

  /** The placeholder URL normalises to its identifier. */
  lemma ExtractPlaceholderExample()
    ensures VideoId.ExtractVideoId(PlaceholderUrl) == PlaceholderId
  {
    var id := PlaceholderId;
    assert VideoId.IsIdentifier(id) by {
      forall k | 0 <= k < VideoId.IdLength ensures VideoId.IsIdChar(id[k]) {
      }
    }
    VideoId.ExtractWatchUrl("https://", id, "");
    assert "https://" + VideoId.WatchPrefix + id + "" == PlaceholderUrl;
  }

  const MissingVideoMessage: string := "Please enter a YouTube video URL or ID"
  const MissingPlatformsMessage: string := "Please select at least one platform"
  const EmptyTranscriptMessage: string := "Could not fetch transcript. Please check the video URL/ID."
  const GeneralErrorPrefix: string := "An error occurred: "

  /** The message shown above the results, if any. */
  datatype Notice = NoNotice | ErrorNotice(message: string) | QuotaNotice

  /** What one press of the button produces: the identifiers the transcript
      provider was asked for, the generation requests in order, the stored posts,
      the inline error messages, and the notice. */
  datatype Screen = Screen(
    transcriptRequests: seq<string>,
    generationRequests: seq<Agent.ChatRequest>,
    generated: map<string, string>,
    inlineErrors: seq<string>,
    notice: Notice)

  /** The notice of the outer handler for an error raised while fetching: the
      quota notice exactly for a quota message, otherwise the general error that
      quotes the message after its prefix. */
  function FailureNotice(message: string): (notice: Notice)
    ensures notice.QuotaNotice? <==> IsQuotaError(message)
    ensures !notice.QuotaNotice? ==>
              notice.ErrorNotice?
              && |GeneralErrorPrefix| <= |notice.message|
              && notice.message[..|GeneralErrorPrefix|] == GeneralErrorPrefix
              && notice.message[|GeneralErrorPrefix|..] == message
  {
    if IsQuotaError(message) then QuotaNotice else ErrorNotice(GeneralErrorPrefix + message)
  }

  /** One press of "Generate Content", given what the transcript provider and the
      generation service answer. An empty input or an empty selection is refused
      with no call at all; otherwise the normalised identifier is fetched once; a
      failed or empty transcript ends the request with no generation call;
      otherwise the platform loop runs. */
  method HandleGenerate(videoInput: string, platforms: seq<string>, listing: Agent.Listing, replies: seq<Agent.Reply>)
    returns (screen: Screen)
    requires |replies| == |platforms|
    ensures videoInput == "" ==> screen == Screen([], [], map[], [], ErrorNotice(MissingVideoMessage))
    ensures videoInput != "" && platforms == [] ==>
              screen == Screen([], [], map[], [], ErrorNotice(MissingPlatformsMessage))
    ensures videoInput != "" && platforms != [] ==>
              var id := VideoId.ExtractVideoId(videoInput);
              var fetched := Agent.GetTranscript(id, listing).result;
              screen.transcriptRequests == [id]
              && (fetched.Err? ==> screen == Screen([id], [], map[], [], FailureNotice(fetched.error.message)))
              && (fetched == Ok("") ==> screen == Screen([id], [], map[], [], ErrorNotice(EmptyTranscriptMessage)))
              && (fetched.Ok? && fetched.value != "" ==>
                    var n := Attempted(replies);
                    |screen.generationRequests| == n
                    && (forall i :: 0 <= i < n ==> screen.generationRequests[i] == Agent.PromptFor(fetched.value, platforms[i]))
                    && screen.generated == Stored(Successes(platforms, replies, n))
                    && screen.inlineErrors == InlineErrors(platforms, replies, n)
                    && screen.notice == (if QuotaHit(replies) then QuotaNotice else NoNotice))
  {
    if videoInput == "" {
      return Screen([], [], map[], [], ErrorNotice(MissingVideoMessage));
    }
    if platforms == [] {
      return Screen([], [], map[], [], ErrorNotice(MissingPlatformsMessage));
    }
    var id := VideoId.ExtractVideoId(videoInput);
    var fetch := Agent.GetTranscript(id, listing);
    var asked := if fetch.providerCalled then [id] else [];
    match fetch.result
    case Err(failure) =>
      screen := Screen(asked, [], map[], [], FailureNotice(failure.message));
    case Ok(transcript) =>
      if transcript == "" {
        screen := Screen(asked, [], map[], [], ErrorNotice(EmptyTranscriptMessage));
      } else {
        var generated, requests, errors, quotaExceeded := GenerateForPlatforms(transcript, platforms, replies);
        forall i | 0 <= i < |requests|
          ensures requests[i] == Agent.PromptFor(transcript, platforms[i])
        {
          RequestsEach(transcript, platforms, |requests|, i);
        }
        var notice := if quotaExceeded then QuotaNotice else NoNotice;
        screen := Screen(asked, requests, generated, errors, notice);
      }
  }
}
