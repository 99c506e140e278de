# Chat formatter and conversation store, in Dafny

A model of the two small cores of a Gemini chat web application:

- the **assistant-text formatter** of the chat page (`static/script.js`): `escapeHtml`, and
  `formatMessage`, which rewrites a reply into HTML in three ordered passes: fenced code blocks
  become `<pre><code>` + the escaped, trimmed body + `</code></pre>`; inline spans
  `` `x` `` become `<code>x</code>` (not escaped); every remaining newline becomes `<br>`;
- the **conversation-history store** of the backend (`api/index.py`): the process-wide table
  `conversations` from session id to the list of turns, updated in place by the `chat` and
  `clear_history` endpoints, and the `health` report.

Files:

- `wrappers.dfy` — `Option`.
- `text.dfy` — module `Text`: trimming with a whitespace predicate and the two whitespace sets
  (JavaScript `String.prototype.trim`, Python `str.strip`).
- `seqs.dfy` — module `Seqs`: small facts of sequence algebra used by the proofs.
- `format.dfy` — module `Format`: pure functions for `escapeHtml` and the three passes, each
  regular expression written as a left-to-right scanner (a global `replace` tries a match at each
  position; when there is none it copies one character and moves on; after a match it resumes
  after it), and lemmas about them.
- `history.dfy` — module `History`: the request, reply and response values, the specification
  functions of one chat turn and of clearing, and the class `ChatServer` whose field
  `conversations: map<string, seq<Entry>>` the methods `Chat` and `ClearHistory` update in place.

The language-model call is a parameter `ask: (seq<Entry>, string) -> Reply`: given the history
as it stood before the new turn and the stripped message, it either answers with a text or
raises with an error text. The API key is a constructor argument.

The three passes run one after the other over the whole string, and the model keeps that
order. The newline pass therefore also reaches the output of the fence pass: newlines left in a
trimmed block body become `<br>` inside the `<pre><code>` element (`Format.FormatFencedBlock`).
Likewise the inline pass runs over the output of the fence pass, so a pair of backticks that
survives inside a block body is rewritten to a `<code>` span as well.

## Model

| member | source | states |
|---|---|---|
| Format.EscapeHtml | static/script.js:146-150 | the output is at least as long as the input, exactly as long when no character needs an entity (and then equal to the input), and contains no `<`, `>` or U+00A0 |
| Format.EscapedAmpersandsStartEntities | static/script.js:146-150 | every `&` in the output of escapeHtml starts `&amp;`, `&nbsp;`, `&lt;` or `&gt;` |
| Format.UnescapeEscapeChar | static/script.js:146-150 | reading the four entities back turns the escaped form of one character into that character, whatever follows |
| Format.UnescapeEscapeHtml | static/script.js:146-150 | unescaping the four entities in the output of escapeHtml gives back its input (round trip) |
| Format.EscapeHtmlKeepsNewlinesAndBackticks | static/script.js:146-150 | escapeHtml leaves newlines and backticks alone: each occurs in the output exactly as often as in the input |
| Format.WordRun | static/script.js:132 | the greedy `(\w+)?` of the fence: the longest prefix of word characters |
| Format.FindTriple | static/script.js:132 | the first three backticks at or after a position, or none after it |
| Format.FenceAt | static/script.js:132 | a fence match splits the text into three backticks, a word-character tag, a newline, a body, three backticks and the rest; the body is closed by the first following triple and contains none itself |
| Format.FenceAtComplete | static/script.js:132 | every text of that shape whose body the first triple closes is matched with exactly that tag, body and rest |
| Format.FenceNeedsNewline | static/script.js:132 | three backticks and a word-character tag not followed by a newline open no block |
| Format.CodeBlock | static/script.js:133 | the replacement of a fence is `<pre><code>` + an inner text + `</code></pre>`; the tag is not used, the inner text holds no `<`, and reading its entities back gives the trimmed body |
| Format.Fences | static/script.js:132-134 | text without three backticks in a row is left unchanged by the fence pass |
| Format.FencesBlock | static/script.js:132-134 | a matched fence becomes `<pre><code>` + escapeHtml(trim(body)) + `</code></pre>`, the tag dropped, followed by the fence pass of the rest |
| Format.FencesCopiesHead | static/script.js:132-134 | a first character other than a backtick opens no fence and is copied, and the scan goes on after it |
| Format.FencesSkipsPlain | static/script.js:132-134 | backtick-free text in front is copied unchanged by the fence pass, and the rest is scanned as on its own |
| Format.FindBacktick | static/script.js:137 | the first backtick at or after a position, or none after it |
| Format.SpanAt | static/script.js:137 | an inline match splits the text into a backtick, non-empty backtick-free content, a backtick and the rest |
| Format.Inline | static/script.js:137 | the inline pass: text without a backtick is returned unchanged |
| Format.InlineSpan | static/script.js:137 | a span with non-empty, backtick-free content becomes `<code>` + content + `</code>`, the content copied verbatim |
| Format.InlineSkipsPlain | static/script.js:137 | backtick-free text in front is copied unchanged by the inline pass |
| Format.EmptySpanNotMatched | static/script.js:137 | a backtick directly followed by another opens no span: it is copied and the scan goes on at the second backtick |
| Format.EmptySpanLeftAlone | static/script.js:137 | the text made of two backticks alone is returned unchanged |
| Format.Newlines | static/script.js:140 | the output holds no newline, is 3 characters longer per newline of the input, and equals the input when it has none |
| Format.NewlinesAppend | static/script.js:140 | the newline pass distributes over concatenation |
| Format.FormatMessage | static/script.js:130-143 | for any input, the formatted text contains no newline |
| Format.FormatPlainText | static/script.js:130-143 | text with no backtick and no newline is returned unchanged |
| Format.FormatTwoLines | static/script.js:140 | two plain lines are joined by `<br>` |
| Format.FormatLineBreakExample | static/script.js:140 | `"line1\nline2"` formats to `"line1<br>line2"` |
| Format.FormatFencedBlock | static/script.js:130-143 | a lone fence with a backtick-free body formats to `<pre><code>` + the escaped, trimmed body with its newlines turned into `<br>` + `</code></pre>` |
| Format.FormatTextThenBlock | static/script.js:130-143 | backtick-free text followed by a lone fence with a backtick-free body formats to the text with its newlines as `<br>`, then the block as it would format on its own |
| Format.FormatOneLineBlock | static/script.js:132-134 | an untagged block of one line of plain code and a trailing newline formats to that code inside `<pre><code>`, the newline trimmed away |
| Format.FormatCodeBlockExample | static/script.js:132-134 | ``"```\nconst x = 1;\n```"`` formats to `"<pre><code>const x = 1;</code></pre>"`, with no `<br>` inside the code element |
| Format.InlineAroundSpan | static/script.js:137 | the inline pass on plain text, one span and plain text rewrites only the span |
| Format.FormatInlineSpan | static/script.js:130-143 | a span between plain text formats to `<code>` + content + `</code>`, nothing else changed |
| Format.FormatInlineExample | static/script.js:137 | ``"Use `foo()` please"`` formats to `"Use <code>foo()</code> please"` |
| Format.FormatInlineNotEscaped | static/script.js:137 | markup inside an inline span is copied through unescaped |
| Text.Trim | static/script.js:133 | the result is the slice of the input after its leading whitespace, everything cut from either end is whitespace, and the result neither starts nor ends with whitespace |
| Text.TrimKeepsCharacters | static/script.js:133 | trimming introduces no character the input lacks |
| Text.IsJsSpace | static/script.js:133 | the code points `trim` removes: the ECMAScript WhiteSpace and LineTerminator characters |
| Text.IsPySpace | api/index.py:38 | the code points `strip()` removes: those for which `str.isspace()` holds |
| Text.SpaceSetsDiffer | api/index.py:38 | the two sets differ exactly in U+FEFF, removed only by `trim`, and U+001C..U+001F and U+0085, removed only by `strip` |
| History.SessionOf | api/index.py:39 | the session is the one the request names, `'default'` when it names none |
| History.UserMessage | api/index.py:38 | the slice of the message after its leading Python whitespace, with only whitespace cut from either end and none left at either end; `''` when absent |
| History.AfterTurn | api/index.py:52-66 | a turn appends the user entry, then the model entry only when the model answered; the earlier history stays in front |
| History.AfterTurnWellFormed | api/index.py:52-66 | a turn with a stripped, non-empty message keeps a history well formed (one part per entry, each model entry right after a user entry) |
| History.TurnTouchesOnlyItsSession | api/index.py:48-66 | a turn adds at most its own session key, leaves every other session's history unchanged and grows its own by two entries on an answer, one on a failure |
| History.TurnKeepsWellFormed | api/index.py:48-66 | storing a turn keeps every history of the table well formed |
| History.Cleared | api/index.py:82-83 | clearing empties an existing session, creates no key and changes no other session |
| History.ClearedIdempotent | api/index.py:82-83 | clearing twice is the same as clearing once |
| History.ChatServer.constructor | api/index.py:28 | the table starts empty |
| History.ChatServer.Health | api/index.py:91-92 | status 200, `'healthy'`, and `api_configured` exactly when a non-empty key is set |
| History.ChatServer.Chat | api/index.py:35-74 | a blank message gets 400 `'Message is required'` before the key is checked, a missing key 500 `'API key not configured'`, neither touching the table; otherwise the session's history becomes AfterTurn of it, the model is asked with the history before this turn, and the reply is 200 with the text and session id, or 500 with the error text |
| History.ChatServer.ClearHistory | api/index.py:77-88 | the table becomes Cleared of the requested session and the reply is 200 `'History cleared'` |

## Left out

- The page's DOM work (adding messages, the typing indicator, the text-area resizing, key and
  click listeners) and the welcome markup: user-interface manipulation with no logic to prove.
- `sendMessage`, `clearChat` and the start-up health fetch: network I/O, promises, `confirm` and
  `alert`, and the one-boolean busy latch around them.
- The random `SESSION_ID` of the page: it depends on the clock and a random source.
- Flask routing, `request.json`, `jsonify`, `render_template`, environment loading and start-up.
  A body that is not JSON and a `message` that is present but not a string end in the handler's
  generic exception path; the model's request values hold only an absent field or a string, so
  these paths are not modelled.
- Session ids that are not strings: in the source a `session_id` that is present but `null`, or
  a number or any other hashable JSON value, is a session key of its own (`None` is a valid
  dictionary key), so `chat` stores the turn under it and echoes it back, and `clear_history`
  accepts it. The model's session ids are strings only.
- The Gemini SDK: represented only by the `ask` parameter.
- History.ChatServer.Chat: treats the model call as a deterministic function of the history and
  the message, and folds a failure of `response.text` into the same raised-error outcome as a
  failed `send_message`.
- Concurrent requests on the shared table: the model handles one request at a time.
- Regular expressions in general: only the three fixed patterns are written out. Characters
  are Unicode code points, not UTF-16 code units, and the whitespace sets of `trim` and `strip`
  are written out for the current Unicode version rather than taken from a runtime.
