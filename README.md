# Image chat: answer assembly and button dispatch

`manju.py` is a one-page Streamlit chat app: the user may upload an image and
type a question (lowercased on entry), and on pressing the button the script
either sends image and question to Gemini in one request, or sends the
question on a chat session and reads the streamed reply, or, for the question
`やめる` ("quit") without an image, sends nothing and only prints a farewell to
the console. The
reply text is assembled from the response's fragments, the stray tokens
`role - user` and `role - model` are removed, the ends are stripped, and the
result is rendered as Markdown. Errors inside the image branch are shown with
`st.error`; errors anywhere else under the button reach the outer handler and
are shown with `st.write`.

This project models that logic as pure Dafny functions with lemmas about them:

- `PyStr.dfy` — the Python `str` operations the cleanup uses: `isspace`,
  `strip`, and `replace` (left-to-right, non-overlapping, every occurrence,
  including Python's behaviour for an empty pattern), with `Matches`, the
  positions a `replace` pass consumes.
- `Reply.dfy` — fragments and responses with a `text` attribute that may be
  absent, `None` or a string; the join of lines 64 and 86, the response text
  of lines 63-66, and the cleanup of lines 69 and 89.
- `Manju.dfy` — the branch taken for (image present, lowercased question), the
  request each press sends to the model service, and the outcome on the page.

The image library, the model client and the page are not modelled: what they
return or raise is the `Env` value a press receives, and what the page shows
is the `Outcome` it returns. Python's `str.lower` is a function parameter of
`Script`, left uninterpreted.

The stop question is `やめる`. The cleanup does not guarantee that the tokens
are absent from the shown answer: `CleanupCanLeaveUserToken` shows an input
that still contains `role - user` after cleanup.

## Model

| member | source | states |
|---|---|---|
| PyStr.IsSpace | manju.py:69 | the whitespace test `strip()` uses: Python's `isspace` set of characters; it has no contract of its own, and `SkipSpace`, `BackSpace` and `Strip` state what it is used for |
| PyStr.SkipSpace | manju.py:69 | the left scan of `strip()` stops at the first character that is not whitespace, or at the end, and passes only whitespace |
| PyStr.BackSpace | manju.py:69 | the right scan of `strip()` stops after the last character that is not whitespace, never going below the left scan's stop, and passes only whitespace |
| PyStr.Strip | manju.py:69 | `strip()` gives a slice `s[i:j]` of the input with no whitespace at either end, where everything before `i` and from `j` on is whitespace |
| PyStr.StripUnique | manju.py:69 | any whitespace-only trimming of the ends that leaves a stripped string is exactly `strip()`'s result |
| PyStr.StripFixesStripped | manju.py:69 | a string with no whitespace at either end is unchanged by `strip()` |
| PyStr.StripIdempotent | manju.py:69 | stripping twice is stripping once |
| PyStr.MatchesWellFormed | manju.py:69 | every match `replace` consumes is an occurrence of the pattern; matches are increasing and do not overlap; an empty pattern matches at each of the `len(s)+1` positions `0..len(s)`, in order |
| PyStr.MatchesCoverOccurrences | manju.py:69 | every occurrence of a non-empty pattern starts inside a consumed match: the left-to-right pass skips none |
| PyStr.NoMatchesIffAbsent | manju.py:69 | `replace` consumes nothing exactly when the pattern does not occur |
| PyStr.ReplaceAllLength | manju.py:69 | the result's length is the input's plus, per consumed match, the replacement's length minus the pattern's |
| PyStr.RemoveAllShrinks | manju.py:69 | removing a non-empty literal never lengthens the string |
| PyStr.ReplaceFrom | manju.py:69 | the left-to-right scan of `replace` from an index; it has no contract of its own, and `ReplaceFromNextMatch`, `ReplaceFromWithoutMatch` and `MatchesWellFormed` state its meaning |
| PyStr.ReplaceAll | manju.py:69 | `str.replace` with no count: the scan from index 0; it has no contract of its own, and `MatchesWellFormed`, `MatchesCoverOccurrences`, `ReplaceFromNextMatch`, `ReplaceFromWithoutMatch`, `ReplaceAllLength` and `ReplaceAllAbsent` state its meaning |
| PyStr.ReplaceFromWithoutMatch | manju.py:69 | where the pass of a non-empty pattern consumes no further match, `replace` copies the rest of the string unchanged |
| PyStr.ReplaceFromNextMatch | manju.py:69 | when the pass of a non-empty pattern consumes a next match `m`, it is an occurrence at or after the current index; `replace` copies the text before it, emits the replacement in its place, and continues after it, with the remaining matches being the ones consumed from there |
| PyStr.ReplaceAllAbsent | manju.py:69 | when the pattern does not occur, `replace` returns the input unchanged |
| PyStr.RemoveAllCanRecreate | manju.py:69 | on `role - urole - userser` the pass consumes one match at index 8 and returns `role - user`, which again contains the token |
| Reply.Texts | manju.py:64 | the comprehension of lines 64 and 86 that keeps the `text` of each fragment that has one: never more items than fragments; `JoinTextsIsConcat` states what the join of them is |
| Reply.JoinTexts | manju.py:86 | the join of the fragments' texts, as on lines 64 and 86; it has no contract of its own, and `JoinTextsIsConcat`, `JoinTextsAppend`, `JoinTextsPrefix` and `JoinTextsTextless` state its meaning |
| Reply.Join | manju.py:64 | `"".join` succeeds exactly when no item is `None`, and otherwise fails with `TypeError` |
| Reply.JoinTextsIsConcat | manju.py:64 | joining the fragments' texts fails exactly when some fragment's `text` is `None`; otherwise it is the in-order concatenation of each fragment's text, fragments without `text` contributing nothing |
| Reply.JoinTextsAppend | manju.py:86 | joining a stream split in two is the join of the first half followed by the join of the second, and succeeds exactly when both do |
| Reply.JoinTextsPrefix | manju.py:86 | the reply joined from a prefix of the stream is a prefix of the reply joined from all of it |
| Reply.JoinTextsTextless | manju.py:86 | an empty stream, or one whose fragments all lack `text`, gives `""` |
| Reply.ResponseText | manju.py:63-66 | a response with a string `text` gives that text whether or not it is iterable; a `None` text is passed on as `None`; an iterable response without `text` fails with `TypeError` exactly when a fragment's `text` is `None`, and otherwise gives the in-order concatenation of its fragments' texts; a non-iterable response without `text` gives `""` |
| Reply.Cleanup | manju.py:69 | the cleaned answer has no whitespace at either end and is never longer than the input |
| Reply.CleanupWithoutTokens | manju.py:69 | text containing neither token is only stripped |
| Reply.CleanupIdentity | manju.py:69 | text containing neither token and already stripped is left unchanged |
| Reply.CleanupCanLeaveUserToken | manju.py:69 | `role - urole - userser` cleans to `role - user`: the token can survive cleanup |
| Reply.CleanupNotIdempotent | manju.py:69 | on that input, cleaning the cleaned answer again changes it |
| Manju.RouteOf | manju.py:47-96 | the image branch runs exactly when an image and a non-empty question are present; stop exactly for no image and the question `やめる`; chat otherwise, in particular for every empty question and for an image without a question |
| Manju.PressMultimodal | manju.py:48-76 | the image branch never reaches the outer handler: it ends with an answer or an `st.error`; it sends nothing exactly when the image cannot be opened; it answers exactly when the image opens, `generate_content` returns, and the response text is a string |
| Manju.PressChat | manju.py:83-92 | the chat branch sends exactly one streamed request with the question, and ends with an answer or an error for the outer handler |
| Manju.Press | manju.py:42-100 | a press sends at most one request, carrying the question; every shown answer is stripped; the farewell happens exactly on the stop route, and then nothing is sent; a press never ends idle: it ends in an answer, an image error, the console farewell, or an outer error |
| Manju.Script | manju.py:24-42 | the outcome is idle exactly when the button is not pressed, and then nothing is sent; at most one request is sent, carrying the lowercased question; the farewell happens exactly when the button is pressed without an image and the lowercased question is `やめる` |
| Manju.StopIsSilent | manju.py:94-96 | on the stop route no request is sent and nothing is rendered |
| Manju.MultimodalFailureContained | manju.py:74-76 | a failure opening the image or of `generate_content` ends as the image branch's error, with no answer |
| Manju.MultimodalScriptErrorsContained | manju.py:64-76 | in the image branch, a `None` fragment text (the join's `TypeError`) and a `None` response text (`.replace`'s `AttributeError`) are shown as the image branch's error; the branch answers exactly when the response text is a string, and otherwise shows that error |
| Manju.MultimodalAnswerIsCleanedText | manju.py:53-72 | with the image opened and a response whose text is the string `t`, the image branch sends exactly one `generate_content` request with `gemini-2.5-flash`, the question and temperature 0.1, and shows the cleanup of `t` |
| Manju.ChatFailurePropagates | manju.py:98-100 | a failing chat stream is shown by the outer handler, after the request was sent |
| Manju.BranchesCleanAlike | manju.py:69 | the same assembled text gives the same shown answer from either branch, never longer than the text |
| Manju.ChatAnswerIsJoinedStream | manju.py:86-92 | a streamed chat answer is the cleanup of the in-order concatenation of the fragments' texts |
| Manju.ChatNoneFragmentFails | manju.py:86 | a chat fragment whose `text` is `None` makes the join fail, shown by the outer handler |

## Left out

- Streamlit widgets and rendering (`st.title`, `st.file_uploader`, `st.text_area`, `st.button`, `st.markdown`, `st.error`, `st.write`) and the console `print`: user interface and I/O; their effect is the `Outcome` value.
- The Gemini client, `client.chats.create`, `generate_content`, `send_message_stream` and their network traffic: a library that is not part of this model; their results are the `Env` fields, and only the request sent (model name, question, temperature) is recorded.
- `Image.open` decoding and `st.secrets` key retrieval (lines 30-36, 50): foreign calls; an image that cannot be opened is `Env.imageError`. The model assumes lines 30-36 (`st.secrets`, creating the client and the chat session) succeed; a failure there ends the run before line 42, outside both handlers, and `Script` has no input for it.
- `str.lower` (line 24): Unicode case mapping is not modelled; `Script` takes it as a parameter. The stop question has no case, so the dispatch lemmas do not depend on it.
- The error message text of `st.error`/`st.write` (the formatted exception): the outcome records which failure was shown, not its rendering.
- A failure raised by `st.markdown` itself is not modelled.
- Persona creation, region cropping, name extraction, transcript reset and session-state invalidation are not part of this model: `manju.py` has none of them.
