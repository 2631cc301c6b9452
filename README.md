# Social media content generator: a verified model of its core

The application takes a YouTube video URL or identifier and a selection of social
media platforms. It fetches the video's transcript and asks a language model for one
post per platform. This project models the deterministic logic around those two
network calls and proves properties of it:

- **Video-identifier normalisation** (`VideoId`, from `extract_video_id`). A raw
  eleven-character identifier is kept. Otherwise three URL patterns are tried in
  order (`youtube.com/watch?v=` or `youtu.be/`, then `youtube.com/embed/`, then
  `youtube.com/v/`). Each is a leftmost search, and the first hit yields the eleven
  identifier characters after the literal. If nothing matches, the input comes back
  unchanged. The regular expressions are written out as predicates, and the
  alternation is tried in order at each position.
- **Transcript fetching and the generation request** (`Agent`, from
  `social_media_agent.py`). The transcript provider's answer is an input: a fragment
  list or an error. An empty identifier is refused before the provider is asked, and
  that error is not re-wrapped. An empty fragment list is an error. Fragment texts
  are joined with single spaces. Every error raised after the provider is asked is
  re-wrapped with the identifier. The generation request is the fixed two-message
  prompt. The generation service's answer is an input too: a list of candidate texts
  or an error.
- **The button handler and the per-platform loop** (`ContentApp`, from `app.py`).
  It has the two input guards and the empty-transcript guard. Platforms are
  generated in selection order. Each success is stored under its platform. A failure
  whose lower-cased message contains `insufficient_quota` ends the loop. Any other
  failure is reported inline, and the loop goes on. The outer handler applies the
  same quota test to every other error, including transcript errors.
- **String helpers** (`Text`): lower-casing, substring search, and Python's
  `" ".join`, with `split(" ")` as the reference inverse used to state round trips.

Two behaviours of the code as written are modelled as such:

- Python's `$` also matches just before one final newline, so an identifier followed
  by `"\n"` passes the raw-identifier test and is returned with its newline
  (`VideoId.RawIdKeepsNewline`).
- Transcript errors quote the video identifier and go through the outer quota test,
  so a fetch failure for an input that contains `insufficient_quota` shows the quota
  notice rather than the fetch error (`ContentApp.TranscriptErrorReadsAsQuota`).

## Model

| member | source | states |
|---|---|---|
| Text.ToLower | app.py:134 | `str.lower`: same length, and each character lower-cased (ASCII) |
| Text.ContainsFrom | app.py:134 | the scan from `from` finds `sub` exactly when some position at or after `from` holds it |
| Text.Contains | app.py:134 | `sub in s` holds exactly when `sub` occurs at some position of `s` |
| Text.Join | social_media_agent.py:76 | `" ".join`: for at least one part, the parts' total length plus one space per gap between neighbours |
| Text.JoinPlaces | social_media_agent.py:76 | part `k` stands verbatim in the join after the earlier parts and one space each, and a single space follows every part but the last |
| Text.JoinPlacedIff | social_media_agent.py:76 | the join is the one string of its length in which every part stands at its offset with a single space after each part but the last |
| Text.JoinSplit | social_media_agent.py:76 | every string is the join of its split on single spaces |
| Text.SplitJoin | social_media_agent.py:76 | splitting a join gives the parts back when none holds a space |
| VideoId.IsRawId | app.py:48 | `re.match(r'^[\w-]{11}$')`: eleven identifier characters and nothing else, or those followed by exactly one final newline |
| VideoId.FirstAlt | app.py:53 | the alternation `watch?v=` or short link, tried in order at one position: the first alternative that matches, none before it, or none at all |
| VideoId.Leftmost | app.py:59 | the leftmost position where the pattern matches, with no match before it, or no match anywhere |
| VideoId.Search | app.py:59-61 | `re.search` plus `group(1)`: nothing exactly when no position matches; otherwise an eleven-character identifier |
| VideoId.SearchCapture | app.py:59-61 | what is found is captured at the leftmost match, after the first alternative that matches there |
| VideoId.FirstPattern | app.py:58-61 | the first pattern, in list order, that is found somewhere in the input |
| VideoId.ExtractVideoId | app.py:45-63 | the result is the input or an eleven-character identifier; it is empty only for empty input; an identifier comes back unchanged |
| VideoId.RawIdKeepsNewline | app.py:48-49 | an identifier plus a final newline passes the raw test and comes back with the newline |
| VideoId.PatternLiterals | app.py:52-56 | every literal of every pattern is non-empty and begins with `y` |
| VideoId.ExtractKeepsInput | app.py:47-63 | the input comes back unchanged exactly when it is a raw identifier or no pattern matches anywhere in it |
| VideoId.ExtractPriority | app.py:58-61 | the first pattern found decides the result, whatever later patterns would find |
| VideoId.ExtractFirstFound | app.py:52-61 | with earlier patterns absent, the leftmost match of a pattern determines the result: its capture |
| VideoId.ExtractCapturedAfterPrefix | app.py:52-61 | anything extracted is eleven identifier characters of the input right after one of the four URL literals |
| VideoId.ExtractIdempotent | app.py:45-63 | normalising twice is normalising once |
| VideoId.ExtractWatchUrl | app.py:53 | `host + youtube.com/watch?v= + id + tail` gives `id` for any tail; the capture is not anchored at its end |
| VideoId.ExtractShortUrl | app.py:53 | `host + youtu.be/ + id + tail` gives `id` for any tail |
| VideoId.ExtractEmbedUrl | app.py:54 | `host + youtube.com/embed/ + id + tail` gives `id` when the tail holds no further domain |
| VideoId.ExtractLegacyUrl | app.py:55 | `host + youtube.com/v/ + id + tail` gives `id` when the tail holds no further domain |
| VideoId.ExtractWatchNeedsVFirst | app.py:53 | `watch?v=` must follow `youtube.com/` directly: a watch URL whose first parameter is not `v` comes back unchanged |
| Agent.Texts | social_media_agent.py:76 | the `text` of each fragment, in provider order |
| Agent.GetTranscript | social_media_agent.py:53-80 | the provider is asked exactly when the identifier is non-empty; an empty identifier gives the unwrapped `ValueError`; success exactly for a non-empty fragment list, and then the transcript is the fragment texts joined with single spaces in provider order; every other error is an `Exception` whose message is the wrapping prefix with the identifier, followed by the cause |
| Agent.TranscriptShape | social_media_agent.py:76 | a transcript's length is the texts' total plus one per gap, and splitting it gives the texts back when none holds a space |
| Agent.TranscriptPieces | social_media_agent.py:76 | whatever the texts hold, fragment `k`'s text stands verbatim in the transcript right after the earlier texts and one space each, and a single space follows it unless it is the last |
| Agent.TranscriptHelloWorld | social_media_agent.py:76 | fragments `Hello` and `world` give `Hello world` |
| Agent.TranscriptMayBeEmpty | social_media_agent.py:73-77 | one fragment with empty text is a successful, empty transcript |
| Agent.PromptFor | social_media_agent.py:43-50 | the request names `gpt-4o-mini` with bound 1000 and holds two messages: the fixed system message, then a user message, whose content `Agent.PromptShape` states |
| Agent.PromptShape | social_media_agent.py:47 | the user message is the transcript label, the transcript verbatim, the platform label, the platform verbatim and the closing instruction, in that order and nothing else |
| Agent.PromptDistinguishesPlatforms | social_media_agent.py:47 | for one transcript, distinct platforms give distinct requests |
| Agent.PromptNotInjective | social_media_agent.py:47 | a transcript that holds the platform label gives the same request as a different transcript and platform |
| Agent.GenerateContent | social_media_agent.py:51 | content exactly when the reply has a candidate, and then it is the first one verbatim; a provider error keeps its message; no candidate is an index error |
| ContentApp.IsQuotaError | app.py:134 | `"insufficient_quota" in error_msg.lower()`; it carries no contract of its own, and `ContentApp.QuotaErrorIff` states what it accepts |
| ContentApp.QuotaErrorIff | app.py:134 | an error is a quota error exactly when some stretch of its message reads `insufficient_quota` once lower-cased |
| ContentApp.QuotaErrorInside | app.py:163 | a quota message stays one inside any longer message |
| ContentApp.TranscriptErrorReadsAsQuota | app.py:161-171 | a transcript failure for an identifier holding the marker is classified as quota exhaustion |
| ContentApp.FirstQuotaFailure | app.py:132-141 | the first quota failure at or after a position: no quota failure before it, and it is one unless it is the end |
| ContentApp.Attempted | app.py:116-141 | a platform is attempted exactly when no earlier platform hit the quota, so other failures never stop the loop; a quota failure is hit exactly when the last platform attempted is one; without one every platform is attempted |
| ContentApp.Successes | app.py:119-122 | at most one post per platform attempted; `ContentApp.SuccessesExactly` states which |
| ContentApp.SuccessesExactly | app.py:119-122 | the posts are exactly the successful generations among the attempted platforms, each under its own platform with its content |
| ContentApp.Stored | app.py:113-122 | the last post stored is found under its platform with its content, so a later post for a platform replaces an earlier one; `ContentApp.StoredKeysOf` states the keys |
| ContentApp.StoredKeysOf | app.py:122 | the dictionary's keys are the platforms of the posts stored |
| ContentApp.InlineErrors | app.py:142-144 | at most one inline error per platform attempted; `ContentApp.InlineErrorsExactly` and `ContentApp.InlineErrorsCount` state which and how many |
| ContentApp.InlineErrorsExactly | app.py:132-144 | an inline error is reported exactly for each attempted platform that failed for a reason other than the quota, as `Error generating content for <platform>: <message>` |
| ContentApp.InlineErrorsCount | app.py:132-144 | there are as many inline errors as attempted platforms that failed for a reason other than the quota: successes and the quota failure add none |
| ContentApp.Requests | app.py:116-121 | one generation request per platform attempted |
| ContentApp.RequestsEach | app.py:116-121 | the `i`-th request is the prompt for the `i`-th platform, for the same transcript |
| ContentApp.StepSuccess | app.py:121-122 | a success stores its content under its platform and adds no error |
| ContentApp.StepFailure | app.py:132-144 | a failure stores nothing, and adds an inline error unless it is the quota |
| ContentApp.PassesNonQuota | app.py:142-144 | a platform without a quota failure does not stop the loop |
| ContentApp.StopsAt | app.py:134-141 | the loop stops right after the first quota failure |
| ContentApp.RunsToEnd | app.py:116 | without a quota failure every platform is attempted |
| ContentApp.GenerateForPlatforms | app.py:116-148 | the requests are those for the attempted platforms; the quota flag is set exactly when some generation exhausted the quota; the dictionary and the inline errors are those of the attempted platforms |
| ContentApp.StoredKeys | app.py:122 | the dictionary holds a platform exactly when its generation succeeded |
| ContentApp.StoredValue | app.py:122 | a platform maps to the content of its last success |
| ContentApp.GeneratedExactly | app.py:116-144 | after the loop the dictionary holds exactly the platforms that succeeded with no quota failure before them |
| ContentApp.TwoPlatformScenario | app.py:116-122 | LinkedIn and Twitter both succeeding give both posts, two requests, and no error |
| ContentApp.ExtractPlaceholderExample | app.py:78 | the placeholder's example URL normalises to `dQw4w9WgXcQ` |
| ContentApp.FailureNotice | app.py:161-171 | the quota notice exactly when the message signals quota exhaustion; otherwise the general error, which is `An error occurred: ` followed by the message verbatim |
| ContentApp.HandleGenerate | app.py:90-171 | an empty input or an empty selection is refused with no call at all; otherwise the normalised identifier is fetched once; a failed fetch gives the quota notice or the general error with no generation; an empty transcript gives its error with no generation; otherwise the loop's requests, dictionary, inline errors and notice |

## Left out

- Streamlit presentation is not modelled: page setup, CSS, markdown and HTML rendering, spinner, status texts, success banners and the copy buttons. The model keeps only what the handler decides: the calls made, the dictionary, the inline errors and the notice.
- The progress bar value `(i + 1) / len(platforms)` is not modelled. It is floating point and only cosmetic.
- The transcript provider and the generation service are not called. Their answers are inputs: `Agent.Listing` and one `Agent.Reply` per platform.
- Loading the API key from the environment and creating the client are not modelled. They are process I/O done at import time.
- The `asyncio` demo `main` and every `print` are not modelled. The demo adds no logic beyond the calls modelled here.
- `Post` is a plain record (`Agent.Post`); the handler's dictionary is modelled through it and `ContentApp.Stored`.
- ContentApp.Stored: a `map` keeps no insertion order; the order of `generated_content.items()` only orders the copy buttons.
- VideoId.IsIdChar: `\w` is Unicode-aware in Python; the model accepts only ASCII letters, digits, `_` and `-`.
- Text.ToLower: `str.lower` lower-cases all of Unicode; the model lower-cases only `A`-`Z`.
- Agent.GetTranscript: a provider fragment always carries a text; a fragment without one (a `KeyError` in the source, re-wrapped like any other error) is not represented.
- Agent.PromptFor: its own contract fixes the model, the bound and the two roles but leaves the user message's content to `Agent.PromptShape`, because stating the content on the function makes every caller's proof carry it.
- Agent.GenerateContent: the candidate's content is always a string; a missing content (`None`) is not represented.
