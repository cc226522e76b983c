# Figma webhook relay — Dafny model

The relay receives Figma webhook events over HTTP. It turns each event into the text of a Discord notification and posts that text to a Discord webhook. This project models the relay's logic and proves properties of it:

- **Word substitution** (`substitution.dfy`, module `Substitution`). The configured rules `{word, replacement}` are compiled into one global alternation pattern `(w1)|(w2)|…`. Every match in a text is rewritten to the replacement of the first rule whose word equals it.
  - The pattern is modelled as a string, with a parser that reads it back.
  - The rewrite is modelled as a left-to-right scan. A match found at a position is consumed whole, and the scan resumes after it, so matches never overlap.
  - At each position, the first listed word that is a prefix of the rest of the text wins.
- **Comment lookups** (`comment_lookup.dfy`, module `CommentLookup`). These are the two searches for the first comment with a given id: one returns its node id, the other its message.
  - The HTTP GET is an input of type `Fetch`: either a thrown error, or a status with the parsed comment list.
- **Comment handler** (`comment_handler.dfy`, module `CommentHandler`). It takes a comment event, the two lookup results and whether the webhook post succeeds. It produces the response and the outbound calls made.
  - It is an imperative method. The message is built step by step, and the `forEach` over a list body is a loop.
  - It is proved against the message function `CommentMessage`, which has lemmas of its own.
- **Version handler** (`version_handler.dfy`, module `VersionHandler`). This is a class whose `processedEvents` set grows with every event id received and suppresses duplicates.
  - The pure step function `VersionStep` and its fold over a run of requests carry the run-level lemmas.
- **Shared values** (`relay.dfy`, module `Relay`): responses, outbound calls (`Effect`), the outcome of one request, and the project file name `🌧️ ON°C`.

Modelling choices:

- A request's outcome records the response it sent and the outbound calls it made, in order. This makes "no lookup after a 400" and "no post after a 404" statements about the outcome.
- A handler that throws before answering has the response `None`. A reply whose parent comment cannot be read does this: `replaceText(null)` throws. The handler then sends no response and posts nothing.
- For the fragment fields `text` and `mention`, a missing field and the empty string are the same value here (`""`), since JavaScript treats both as falsy.
- `parent_id` is a string whose empty value marks a new thread. For a string, `parent_id == ""` (new thread versus reply) and `if (parent_id)` (add the quote) always agree. An absent `parent_id` is not the empty string in JavaScript (`undefined == ""` is false) and is listed under "Left out".
- The node-id check `!node_id` rejects both a missing and an empty node id.

The handler posts a plain `content` string (app.js:111) and reads the comment's time from `created_at` (app.js:74).

## Model

| member | source | states |
|---|---|---|
| Substitution.CreatePattern | app.js:20-23 | No rules give the empty pattern; otherwise the pattern opens with a group and closes with one |
| Substitution.PatternRoundTrip | app.js:20-23 | For literal rule words, the compiled alternation pattern reads back as exactly the rule words in configured order: the alternation is unambiguous and keeps rule order |
| Substitution.FirstMatch | app.js:21-27 | The alternative the pattern takes at a position is a rule whose word starts the text there |
| Substitution.FirstMatchSpec | app.js:21-27 | At a position, the pattern matches iff some rule word is a prefix of the rest of the text, and the alternative taken is the earliest-listed such word |
| Substitution.Substitute | app.js:27-30 | The callback changes a match only into the replacement of a rule whose word equals the match |
| Substitution.SubstituteSpec | app.js:27-30 | The callback returns the replacement of the first rule whose word equals the match, and the match itself when no word equals it |
| Substitution.ReplaceText | app.js:26-31 | With no rules configured, every text comes back unchanged |
| Substitution.MatchReplacement | app.js:27-30 | A match of rule k's word is replaced by the replacement of the earliest rule carrying that same word, which may be a rule before k |
| Substitution.ReplaceMatchedHead | app.js:26-31 | Where the pattern takes rule k at the start (k's word is a prefix and no earlier-listed word is), the output begins with the substitution of k's word and the scan resumes right after the whole match (matches do not overlap) |
| Substitution.ReplaceUnmatchedHead | app.js:26-31 | Where no word matches at the start, the first character is copied and the scan moves on by one |
| Substitution.ReplaceSkipsUnmatched | app.js:26-31 | Every character before the leftmost match is copied unchanged |
| Substitution.ReplaceWithoutOccurrence | app.js:26-31 | A text containing no rule word comes back unchanged |
| Substitution.SingleOccurrence | app.js:26-31 | A text with exactly one match position, where the pattern takes rule k, gets k's word there substituted and every other character kept |
| Substitution.ReplaceConcat | app.js:26-31 | When no match starting in `a` reaches into `b`, rewriting `a + b` is rewriting `a` then `b` |
| Substitution.IdentityRulesKeepText | app.js:26-31 | Rules that map every word to itself leave every text unchanged |
| CommentLookup.FindById | app.js:45 | `find` by id yields the position of the first comment with that id, and nothing exactly when no comment has it |
| CommentLookup.GetNodeIdFromComment | app.js:34-51 | The node id of the first comment with the id; nothing on a thrown fetch, on status 403 or 404, when no comment has the id, or when that comment has no node id |
| CommentLookup.GetParentComment | app.js:54-71 | The message of the first comment with the id; nothing on a thrown fetch, on status 403 or 404, or when no comment has the id |
| CommentLookup.FindIgnoresOthers | app.js:45 | Comments with other ids before the target, and any comments after it, do not change what `find` returns |
| CommentLookup.LookupsReadSameRecord | app.js:34-71 | Given the same listing and id, the node id is found only where the parent message is found, and both come from the same first record |
| CommentHandler.Header | app.js:80-83 | The header opens with a title naming the file |
| CommentHandler.AppendFragment | app.js:91-97 | One `forEach` step appends the item's substituted text and a newline, else `Mentioned user: {mention}` and a newline, else nothing |
| CommentHandler.AppendFragments | app.js:90-97 | The loop appends the lines of all list items in order |
| CommentHandler.AppendBody | app.js:90-100 | A list body appends every item's line; a single body appends only its substituted text line, when it has text |
| CommentHandler.AppendLink | app.js:107 | The closing template literal appends the title line and the deep link on its own line |
| CommentHandler.HandleFileComment | app.js:73-117 | 400 `Unknown file name` with no outbound call for a foreign file; a reply whose parent cannot be read throws after one GET (no response, no post); 404 `{success:false, "Node ID not found"}` without a post when the anchor's node id is missing or empty; otherwise exactly the GETs made, then one post of the composed message, with 200 when it succeeds and 500 when it fails. A response is sent, and a post made, exactly in the stated cases |
| CommentHandler.CommentMessage | app.js:80-107 | The composed message opens with the header |
| CommentHandler.FragmentsTextAppend | app.js:90-97 | The text of a list body is the concatenation of the texts of its parts |
| CommentHandler.SilentFragmentsAddNothing | app.js:91-97 | Items with neither text nor mention add nothing |
| CommentHandler.MentionOnlyInLists | app.js:90-100 | A mention-only item adds `Mentioned user: {mention}` in a list and nothing as a single body |
| CommentHandler.TextHidesMention | app.js:92-99 | An item with text contributes only its substituted text line, in a list and as a single body |
| CommentHandler.HeaderRevealsThreadKind | app.js:80-83 | Two events alike in name, time and author get the same header iff both are new threads or both are replies |
| CommentHandler.MessageOpening | app.js:80-88 | The message opens with the header; for a reply, the header is followed at once by the substituted parent message in a quote |
| CommentHandler.ReplyResolvesParentNode | app.js:102 | A reply's node lookup uses the parent's id, so the link resolves to the parent's node, not the reply's |
| CommentHandler.MessageEndsWithDeepLink | app.js:102-107 | The message ends with `https://www.figma.com/design/{file_key}?node-id={node_id}#{anchor}` and a newline, where the anchor is the comment id for a new thread and the parent id for a reply |
| VersionHandler.VersionMessage | app.js:133 | The version message's title names the file |
| VersionHandler.VersionStep | app.js:121-140 | One request records its id, rejected or not; it always answers, with 200 exactly for a seen id or a successful post; it posts the version message, and only that, exactly for a new id on the project file |
| VersionHandler.VersionRelay.constructor | app.js:119 | The set of seen event ids starts empty |
| VersionHandler.VersionRelay.HandleVersionUpdate | app.js:121-140 | A seen id answers 200 `Duplicate event ignored` with no post and no change; a new id is added before the file-name check, so a foreign file still records it and answers 400; the project file posts the version message once, answering 200 or 500 by the post's result |
| VersionHandler.RunRecordsEveryId | app.js:124-127 | After a run of requests, the seen set is the initial set plus every id received, rejected or not |
| VersionHandler.PostedAtMostOncePerId | app.js:124-127 | In a run, a request posts only if its id was not seen before the run nor carried by an earlier request |
| VersionHandler.FreshProjectEventPosts | app.js:124-140 | In a run, a request for the project file whose id is new to the run posts the version message and reports the post's result |
| VersionHandler.DescriptionVerbatim | app.js:133 | The version message ends with the description, unsubstituted, on its own line |

## Left out

- Express setup, JSON middleware and routing (app.js:1-3, 17, 143-147): framework plumbing. Each handler is a method called with the parsed body's fields.
- Environment variables and `JSON.parse(REPLACE_WORDS)` (app.js:6-13): the rule list is a parameter, and the API token and webhook URL do not affect the logic.
- The axios GETs of the comment list and the POST to the webhook: network I/O. Their results are inputs (`Fetch`, `postSucceeds`). A `find` over a response without a `comments` list (a TypeError caught as null) is not modelled: a fetched response always carries a list.
- `console.error` logging: a side effect only.
- What the client sees when the handler's promise rejects (`replaceText(null)` at app.js:87, inside the async handler) depends on the Express and Node versions: an error response from Express's error handler, or the process ending, which also empties `processedEvents`. The model records only that the handler sends no response and posts nothing.
- Asynchrony and concurrency: each request is one sequential call. Concurrent requests sharing `processedEvents` are not modelled.
- The general regular-expression engine: rule words must be non-empty and free of metacharacters (`ValidRules`). The source does not escape them, so other words would change the pattern's meaning.
- JavaScript strings are UTF-16 code units; here a string is a sequence of Unicode characters. Lengths differ for characters outside the Basic Multilingual Plane, but no property here depends on them.
- A `parent_id` that is absent, as opposed to empty, is not modelled. It would give a reply header without a quote, and a lookup of the anchor `undefined`.
- `event_type` and avatar fields are read by neither handler's logic.
- Fields missing from a version event would print as `undefined` in the message. The model takes every field as a string.
