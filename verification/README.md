# Reply protocol and conversation logic of puck-project-update-terminal

This project is a Dafny model of the logic at the centre of the VS Code extension.
Three pieces are modelled.

- **`SemanticPrompt` (src/prompt.ts).** This is the emoji reply protocol, spread over these modules:
  - `Markers`: the table of five glyphs and the reply grammar `(Delimiters Title)+`;
  - `Commands`: the line extractor `_parseCommands`;
  - `Dispatch`: the per-glyph handlers and `onProcessMessages` with its completion rule;
  - `Messages`: the word-count token estimate;
  - `Exchange`: the `execute`/`callLLM` loop, with its 8192 ceiling, its 2048 per-call cap and a retry counter shared by all calls.
- **The two `parseFromDelimiters` splitters.**
  - `CodeUpdateAgent.ParseFromDelimiters` scans for substrings. It is a loop with the invariant `ScanState`.
  - `ParsedPrompt.ParseFromDelimiters` scans character by character. Its invariant is `CharScan`.
  - `Splitters` proves that the two find the same delimiters and keep the same text when every delimiter is one character long.
- **Conversation assembly and counting.**
  - `CodeUpdateAgent.Prompt` and `CodeUpdateAgent.Request` give the prompt that `CodeUpdateAgent.request` hands to a fresh `SemanticPrompt`.
  - `Counting.CountConversationTokens` is `countConversationTokens`.
  - The `ParsedPrompt` module models the `Agent` of src/parsed-prompt.ts: `reset`, the reply split in `request`, and the token count.

The model uses these stand-ins for the world outside:
- **Backend.** It is an oracle: `Exchange` reads a finite sequence of answers, either a reply text or an error. `ParsedPrompt` reads the response's message list.
- **Project files.** They are a `map<string, string>` keyed by relative path. A set of `unwritable` paths stands for writes that raise.
- **File tree.** It is a sequence of (key, contents) entries, in the order `Object.keys` would list them.

Strings are sequences of Unicode code points, so each glyph is one character. `Scenarios` follows three replies through `callLLM`, for any file name and note without newlines or leading or trailing white space, and any code line that opens no command. They are an update then an announcement, which completes the exchange; the same reply when the write fails; and a file request, which ends by calling again.

## Model

| member | source | states |
|---|---|---|
| Markers.FindFirstChar | src/prompt.ts:199 | the glyph lookup succeeds exactly when the line's first character is one of the five glyphs, and it returns that glyph's marker |
| Markers.Accepts | src/prompt.ts:89-98 | no contract of its own; see Markers.AcceptsIff |
| Markers.AcceptsIff | src/prompt.ts:89-98 | the grammar `(Delimiters Title)+` accepts a reply exactly when the reply begins with a glyph; a title absorbs everything up to the next glyph |
| Markers.RejectRefused | src/prompt.ts:100-155 | ⛔ is not in the table, so a reply of only ⛔ is refused, with or without the appended newline |
| Commands.ParseLines | src/prompt.ts:194-210 | extraction fails exactly when there is a first line and it opens no command; on success every line lands in exactly one command and in order: an opening line gives its trimmed remainder, any other line is kept verbatim, and the commands' markers are the opening lines' glyphs |
| Commands.AbsorbShape | src/prompt.ts:198-207 | one `forEach` step adds the line's image to the payloads and adds a new command only for an opening line |
| Commands.ParseCommands | src/prompt.ts:194-210 | no contract of its own; see Commands.ParseCommandsDefined and Commands.ParseLines |
| Commands.ParseCommandsDefined | src/prompt.ts:194-210 | splitting at newlines and extracting succeeds exactly when the text begins with a glyph, and then gives at least one command |
| Commands.AcceptedReplyParses | src/prompt.ts:254-258 | a reply the grammar accepts never reaches the `cmds[-1]` failure |
| Commands.CommandCount | src/prompt.ts:198-207 | the number of commands is the number of lines that begin with a glyph |
| Dispatch.HandlerMessages | src/prompt.ts:100-155 | 📄 and 📤 push two messages, 📢 one, 🌳 and 📬 none; the first is always the assistant's echo and any second is a user turn |
| Dispatch.Handle | src/prompt.ts:100-155 | the log grows by exactly the handler's messages, in order: for 📄 the echo of path and code, then the acknowledgement; for 📢 the echo; for 📤 the echo, then a user turn with the file's current contents, or `''` when it is absent. 📄 and 📢 add their record. 📄 writes the file, and it faults exactly when the write raises; the messages and record stay and the file is left unwritten. 🌳 and 📬 change nothing, and no handler touches `completed` |
| Dispatch.UpdateThenRequest | src/prompt.ts:103-146 | a file written by 📄 and then requested by 📤 comes back in the answering user turn with exactly the written contents |
| Dispatch.RunHandlers | src/prompt.ts:289-299 | the loop faults exactly when some 📄 names a path whose write raises, and the fault names such a path |
| Dispatch.RunHandlersFault | src/prompt.ts:289-299 | a fault stops the loop at the first 📄 whose write raises: the fault names that path; the log and the result keep everything the handlers up to and including it pushed, in command order; the files hold the earlier updates' writes, in order, but not the failing one; and `completed` is `!hasRequest` once an earlier handler finished, otherwise unchanged |
| Dispatch.OnProcessMessagesFault | src/prompt.ts:288-300 | a faulting `onProcessMessages` leaves the state where the loop stopped, at the first 📄 whose write raises: the pushes up to and including it kept, the earlier writes applied and the failing one not, and `completed` set from whether the reply requests a file once any earlier handler finished |
| Dispatch.OnProcessMessages | src/prompt.ts:288-300 | it faults exactly when some update's write raises. Otherwise the log grows by every handler's messages and the result by every record, both in command order, and a non-empty reply is complete exactly when no command is a 📤 |
| Dispatch.RunHandlersCompletion | src/prompt.ts:288-299 | an empty command list leaves the state as it was; otherwise the last handler sets `completed` to the whole reply's verdict |
| Dispatch.MessagesOf | src/prompt.ts:288-299 | a reply's handlers push as many messages in all as their glyphs' counts add up to |
| Dispatch.RunHandlersMessages | src/prompt.ts:288-299 | the log grows by the handlers' messages one after the other, in command order; each 📤 answers with the files as the updates before it left them, and what was logged before stays |
| Dispatch.RunHandlersLog | src/prompt.ts:288-299 | the induction over the loop: after a run without fault, the log is the old log followed by each command's handler messages in command order |
| Dispatch.RunHandlersRecords | src/prompt.ts:288-299 | the result grows by the reply's records in command order |
| Dispatch.LastWriteWins | src/prompt.ts:103-118 | updates apply in textual order: the last update of a path decides its contents, and a path no update names keeps its contents or stays absent |
| Messages.Tokens | src/prompt.ts:216-225 | the estimate is at least the number of messages |
| Messages.WordCountIsSpacesPlusOne | src/prompt.ts:221-222 | one message weighs the number of spaces in its content plus one |
| Messages.TokensAppend | src/prompt.ts:216-225 | appending a message raises the estimate by its spaces plus one, so the estimate strictly grows |
| Messages.TokensConcat | src/prompt.ts:216-225 | the estimate of two conversations end to end is the sum of their estimates |
| Exchange.MaxTokens | src/prompt.ts:236-237 | `max_tokens` is at most 2048 and at most what is left under 8192, and it is one of the two |
| Exchange.CallLlm | src/prompt.ts:227-287 | over the ceiling, an `{error}` value is returned and nothing is sent; every request sent stays within budget; the first request carries the current conversation; a throw happens only once the shared counter reaches 3; a returned result leaves the state cleared |
| Exchange.Respond | src/prompt.ts:254-284 | one answered call ends `execute` only by returning the accumulated result with the state cleared, or by re-raising once the shared counter is 3; any other way out calls again with a counter no lower than before and at most 3 |
| Exchange.Execute | src/prompt.ts:227-287 | the shared counter starts at 0 and never passes 3, and a throw happens only at 3; over the ceiling, nothing is sent and the too-long `{error}` value is returned; every request sent stays within budget |
| Exchange.BackendErrorReturns | src/prompt.ts:249-253 | when `sendQuery` fails, its error is returned as `{error}` after that one request, with no retry and the state as it was |
| Exchange.InvalidReplyRecalls | src/prompt.ts:268-274 | a reply that does not begin with a glyph runs no handler, adds exactly the corrective system message and calls again |
| Exchange.RejectReplyRecalls | src/prompt.ts:268-274 | a reply of only ⛔ is handled as a refused reply |
| Exchange.FaultRetries | src/prompt.ts:276-283 | a fault while processing is retried with the counter raised by one while it is below 3, and re-raised once it is 3 |
| Exchange.OneRoundTrip | src/prompt.ts:257-264 | a reply without 📤 whose handlers succeed completes in that round trip: it returns the result so far plus the reply's records and clears the state |
| Exchange.RespondAsWritten | src/prompt.ts:160-165 | with the handlers inside the `async` action, an answered call never throws and never raises the counter: it either returns or calls again with the same counter |
| Exchange.FaultSwallowed | src/prompt.ts:254-284 | on a fault while processing, the code as written goes on as though processing had finished, while the intended handling retries below 3 and re-raises at 3 |
| Exchange.FileRequestContinues | src/prompt.ts:265-267 | a reply with a 📤 whose handlers succeed calls again with the conversation the handlers left |
| Scenarios.UpdateAndAnnounce | src/prompt.ts:227-287 | the reply `📄 f`, one code line, `📢 note` makes one request, returns the two records, writes the code to `f` and clears the state |
| Scenarios.UpdateUnwritable | src/prompt.ts:160-165 | the reply `📄 f`, one code line, `📢 note`, where the write of `f` raises and the counter is 3: as written, the call is made again with the echo, the acknowledgement and a record of a write that never happened; the intended handling raises the write fault |
| Scenarios.RequestOnly | src/prompt.ts:135-146 | the reply `📤 f` appends the echo and the file's contents (or nothing, for an absent file) and calls again with them |
| Counting.FileEntryWords | src/code-update-agent.ts:46-50 | a file-tree entry weighs the spaces in its name and contents plus two |
| Counting.TreeTokens | src/code-update-agent.ts:46-50 | the file-tree term is at least two per entry |
| Counting.CountConversationTokens | src/code-update-agent.ts:40-52 | the count is at least one per message plus two per file |
| CodeUpdateAgent.FindPrefix | src/code-update-agent.ts:117-118 | `find` returns a delimiter of the list that the text starts with, and finds one whenever one exists |
| CodeUpdateAgent.FindPrefixFirst | src/code-update-agent.ts:117-118 | `find` returns exactly the first delimiter in list order that the text starts with, so of two overlapping delimiters the earlier one in the list wins |
| CodeUpdateAgent.FindPrefixNone | src/code-update-agent.ts:117-118 | `find` comes back empty exactly when the text starts with none of the delimiters |
| CodeUpdateAgent.Matched | src/code-update-agent.ts:111-120 | what the `if (matchedDelimiter)` test admits is a non-empty delimiter of the list that the text starts with |
| CodeUpdateAgent.MatchedNonEmpty | src/code-update-agent.ts:111-120 | when no delimiter is empty, the truthiness test changes nothing |
| CodeUpdateAgent.FreeStretch | src/code-update-agent.ts:116-126 | text the scan passes over without a match holds no delimiter occurrence |
| CodeUpdateAgent.ScanStep | src/code-update-agent.ts:116-126 | one loop turn keeps the scan invariant, and the index strictly increases, even for an empty delimiter |
| CodeUpdateAgent.ParseFromDelimiters | src/code-update-agent.ts:107-132 | each in-loop record is labelled with the delimiter matched, in scan order; its value is the text since the previous match; labels and values join back to the input; the values together are the input with the matched occurrences removed; a trailing record exists only for non-empty leftover text and carries the last delimiter or `''`; with non-empty delimiters no value holds an occurrence; empty input gives `[]`; an input with no match gives one `''` record |
| CodeUpdateAgent.EmptyFirstDelimiter | src/code-update-agent.ts:111-120 | when the first delimiter is `''`, `find` always returns it, it is falsy, and so nothing ever matches |
| CodeUpdateAgent.EntryMessages | src/code-update-agent.ts:96-101 | one user message `📄 file\ncontent\n` per file-tree entry, in key order |
| CodeUpdateAgent.EntryMessagesTokens | src/code-update-agent.ts:96-101 | the file messages `request` adds weigh exactly the file-tree term of `countConversationTokens` |
| CodeUpdateAgent.Prompt | src/code-update-agent.ts:88-101 | a task that is all whitespace gives nothing; otherwise the messages are `📬 ask`, `🌳` with the names joined by newlines, then one per entry, all from the user, 2 plus the number of entries in all |
| CodeUpdateAgent.PromptTokens | src/code-update-agent.ts:94-101 | the prompt's estimate equals `countConversationTokens` of its two leading messages and the file tree |
| CodeUpdateAgent.Request | src/code-update-agent.ts:88-105 | a blank task sends nothing; otherwise the first call carries exactly the prompt with `max_tokens` from its estimate; if the estimate is over 8192, the too-long error is returned and nothing is sent |
| CodeUpdateAgent.RequestBudget | src/code-update-agent.ts:104 | every call a request makes keeps prompt plus `max_tokens` within 8192 |
| ParsedPrompt.DelimitersIn | src/parsed-prompt.ts:39-40 | only one-character members of the list ever match |
| ParsedPrompt.KeptAndDelimiters | src/parsed-prompt.ts:39-46 | every character is either a delimiter or kept, and kept text holds no delimiter character |
| ParsedPrompt.ParseFromDelimiters | src/parsed-prompt.ts:35-51 | the records join back to the text; the values are the text without its delimiter characters; the labels are the delimiter characters in order, followed by one `''` exactly when non-empty text trails the last one; no value holds a delimiter character |
| ParsedPrompt.NewAgent | src/parsed-prompt.ts:10-21 | a new agent's conversation is the system message alone, with `maxTokens` 2048 |
| ParsedPrompt.Reset | src/parsed-prompt.ts:23-33 | `reset` as written leaves the conversation with only the system message and `maxTokens` 2048, but it leaves the agent's own list as it was |
| ParsedPrompt.ResetIntended | src/parsed-prompt.ts:23-33 | the corrected reset brings back the system message alone, with the conversation still sharing the agent's list |
| ParsedPrompt.ResetIdempotent | src/parsed-prompt.ts:23-33 | resetting twice is the same as resetting once, and a reset erases any request made before it |
| ParsedPrompt.AssistantContents | src/parsed-prompt.ts:75-79 | the filter keeps exactly the assistant messages' contents |
| ParsedPrompt.AssistantContentsConcat | src/parsed-prompt.ts:75-79 | the filter keeps order and repeats: two parts of a log give their contents one after the other, and one message gives its content exactly when it is the assistant's |
| ParsedPrompt.SplitReply | src/parsed-prompt.ts:81-86 | the label never holds a space; when the content has a space, label + " " + value is the content; otherwise the label is the whole content and the value is empty |
| ParsedPrompt.Request | src/parsed-prompt.ts:69-98 | the task is pushed onto the agent's list; only assistant messages after the post-push length are split, each at its first space; the returned maps are always empty |
| ParsedPrompt.RequestSendsAsk | src/parsed-prompt.ts:69-73 | while the conversation shares the agent's list, the task is sent after everything before it |
| ParsedPrompt.ResetDropsAsk | src/parsed-prompt.ts:70-73 | after `reset` as written, the conversation sent is the system message alone, and the task never reaches the backend |
| ParsedPrompt.ResetThenRequest | src/parsed-prompt.ts:23-33 | after the corrected reset, the conversation sent is the system message and then the task |
| ParsedPrompt.CountTokens | src/parsed-prompt.ts:55-67 | the count is at least one per message sent plus two per file-tree entry; see ParsedPrompt.RequestCount for how a request moves it |
| ParsedPrompt.RequestCount | src/parsed-prompt.ts:55-67 | a request raises the count by the task's spaces plus one while the lists are shared, and leaves it unchanged after `reset` as written |
| Splitters.FindPrefixSingle | src/code-update-agent.ts:117-118 | with one-character delimiters, `find` at a position returns that position's character exactly when the character is in the list |
| Splitters.SameMatches | src/code-update-agent.ts:116-126 | with one-character delimiters, the substring scan matches the same delimiters in the same order as the character scan, and strips the same characters |

## Where the code and its documentation differ

The model follows the code in each case below, except the last, where it keeps both readings.

- **No system message.** `CodeUpdateAgent.request` adds none: the instruction prompt that `SemanticPrompt` builds in its constructor is never sent (src/code-update-agent.ts:93-95).
- **The 📤 answer.** It is `📤 f`, a newline, then the contents (src/prompt.ts:144). It is not the bare contents.
- **The FileUpdate echo.** The template's `\m` is just `m`. The 📢 and 📤 echoes end with a stray `}`.
- **Things the code does not do.**
  - There is no ⛔ entry in the table.
  - A file name is not parsed into line ranges: `📄 a.ts 3 7` names the file `a.ts 3 7`.
  - Code fences are not stripped.
- **Termination of the substring scan.** It does not depend on delimiters being non-empty. `''` is falsy, so an empty delimiter can never match, and the loop always advances by at least one.
- **Handler exceptions.** The retry comment at src/prompt.ts:276-284 expects an exception raised while processing a reply to reach the `catch` of `callLLM`. The extraction and the handlers run inside the `async` `_iterator` action (src/prompt.ts:160-165), so such an exception only rejects that action's promise, and the `catch` never sees it. `Exchange.RespondAsWritten` is the code as written. `Exchange.Respond`, which `Exchange.CallLlm` uses, is the intended handling. See Findings.

## Left out

- src/extension.ts: terminal UI, history, spinner and colouring, with no protocol logic.
- `sendQuery`: the backend is an oracle.
  - `Exchange` reads a finite sequence of answers. When it runs out, the outcome is `AwaitingReply`. This stands in for the unbounded re-calls on invalid output.
  - `Exchange` takes `sendQuery` to leave `this.messages` as it was.
  - `ParsedPrompt` takes the response messages as given. It does not model what `sendQuery` does to the conversation it is handed.
- The Ohm library. The grammar is a hand-written recogniser. It does not include Ohm's implicit whitespace skipping or the `_iter`/`toJSON` plumbing.
- Markers.AcceptsIff: holds for the hand-written recogniser only. Ohm skips white space before the tokens of a syntactic rule, so it also accepts a reply with white space before its first glyph, such as `"\n📄 f\nx"`.
- Commands.AcceptedReplyParses: holds for the hand-written recogniser only. A reply Ohm accepts after leading white space has a first line that opens no command, so `_parseCommands` fails on `cmds[-1]`.
- Exchange.InvalidReplyRecalls: holds for the hand-written recogniser only. For a reply with white space before its first glyph, Ohm takes the accepted branch, so no corrective message is added; the `cmds[-1]` failure is lost in the `async` action, and `callLLM` calls again with the state unchanged.
- Filesystem I/O:
  - `getProjectFileTree` (recursion and extension filter);
  - `setProjectFiles`, `resetProjectFiles`, `_configure` and `reset` of `CodeUpdateAgent`;
  - `readFileSync`, `writeFileSync`, `existsSync` and `statSync`;
  - `path.join` and `path.relative`.

  Files are a map. The file tree and the list of names are inputs.
- Dispatch.Handle: a 📤 never faults. `readFileSync` (src/prompt.ts:141) can raise after `existsSync` succeeds, for instance on a directory; only write faults are modelled, through `unwritable`.
- Floating-point settings (`temperature`, `topP`) and the instruction prompt text (src/prompt.ts:7-80): neither affects any modelled behaviour.
- UTF-16: JavaScript strings are UTF-16 code units, and the model works on code points. They differ only in `matchedDelimiter[0]` (src/code-update-agent.ts:113). Its value is always overwritten before it is used.
- The array-to-string join at src/parsed-prompt.ts:38: the text parameter is a string here.
- The order of `Object.keys` is taken as given by the order of the file-tree entries.
- CodeUpdateAgent.ParseFromDelimiters: that no value holds a delimiter occurrence is stated only for non-empty delimiters. An empty delimiter occurs everywhere, as JavaScript's `startsWith('')` shows.

## Findings

| source | as written | input that shows it | evidently intended | confidence | as-written member | corrected member |
|---|---|---|---|---|---|---|
| src/parsed-prompt.ts:23-33 | `reset` gives `conversation` a fresh list `[message[0]]`, but `request` keeps pushing the task onto `this.message`, which the conversation no longer shares | a new agent with system message `s`, then `reset()`, then `request("fix it")`: the conversation sent is `[s]`, without the task | after a reset, the conversation sent is the system message followed by the task | not executed | ParsedPrompt.ResetDropsAsk | ParsedPrompt.ResetThenRequest |
| src/prompt.ts:160-165 | the extraction and the handlers run inside an `async` semantic action, so an exception there rejects a promise nobody awaits; the `catch` at src/prompt.ts:276-284 never runs, the counter never moves, and `execute` never throws | the reply `📄 f`, one code line, `📢 note`, where the write of `f` raises, once the counter is already 3: `callLLM` calls again, and the echo, the acknowledgement and a record of a write that never happened stay | a fault while processing is retried while the counter is below 3 and re-raised at 3, as the comment at src/prompt.ts:277 says | not executed | Exchange.RespondAsWritten | Exchange.Respond |
