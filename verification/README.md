# Feedback tracker server — a Dafny model

The feedback tracker's server keeps an ordered collection of feedback entries
(`id`, `name`, `email`, `message`, `votes`) in one JSON file. Every request
that passes validation reads the whole file, and every request that changes
something writes the whole collection back. A create with a falsy field and a
vote with a bad direction are rejected before the file is read. There are four routes:

- `GET /feedback` lists the collection.
- `POST /feedback` creates an entry.
- `PUT /feedback/:id/vote` moves an entry's vote count up or down by one.
- `DELETE /feedback/:id` deletes entries.

This project models that collection logic:

- `feedback.dfy`, module `Feedback`: the entry datatype, the request guards
  (JavaScript falsiness of the create fields, the two accepted vote
  directions), and the two library calls the handlers rely on:
  `findIndex` as `FindIndex` and `filter` as `WithoutId`. It also holds the
  in-place vote update as `Voted` and the lemmas about all of these.
- `server.dfy`, module `Server`: the data file as a `Document` (missing,
  unreadable, or holding entries), `readFeedback` as `ReadFeedback`, and a
  class `FeedbackStore` whose one field is that document. The constructor
  `Startup` is the start-up initialisation. The methods `WriteFeedback`,
  `List`, `Create`, `Vote` and `Delete` are the write helper and the four
  route handlers. `ClientSession` walks a client through
  create, list, vote up, vote down, an invalid vote, delete and a second
  delete, using only the handlers' contracts.

Responses are a status code with a decoded body (`EntryList`, `OneEntry`,
`Error` with the source's exact message, or `NoContent`). The identifier that
the source takes from the clock (`Date.now().toString()`) is a parameter of
`Create`. A request field that is absent is `None`. The create guard `!x`
treats `None` and `""` as falsy.

Four behaviours of `server.js` worth stating:

- Delete removes every entry with the identifier, because it uses `filter`
  (server.js:94).
- Vote changes only the first entry with the identifier, because it uses
  `findIndex` (server.js:77).
- Identifiers are never checked for uniqueness (server.js:55). The model states
  uniqueness as a predicate, `UniqueIds`. It proves that vote and delete
  preserve it. It proves that create preserves it exactly when the new
  identifier is not already in use.
- A create on an unreadable data file sees the empty collection, so it
  replaces the file with a one-entry collection (server.js:53-63). A vote or
  a delete on an unreadable file answers 404 and does not write.

## Model

| member | source | states |
|---|---|---|
| Feedback.IsFalsy | Sagar_Assignment/backend/server.js:49 | a field is falsy exactly when it is absent (`None`) or the empty string `""`; every other string is truthy |
| Feedback.MissingField | Sagar_Assignment/backend/server.js:49 | a create request passes the guard exactly when name, email and message are all present and non-empty |
| Feedback.ValidDirection | Sagar_Assignment/backend/server.js:72 | a direction is accepted exactly when it is present and equal to "up" or to "down"; anything else, absent included, is rejected |
| Feedback.Delta | Sagar_Assignment/backend/server.js:83 | "up" adds exactly one vote and "down" removes exactly one |
| Feedback.FindIndex | Sagar_Assignment/backend/server.js:77 | -1 exactly when no entry has the identifier; otherwise an in-range position holding the identifier, with no match before it (the first match) |
| Feedback.WithoutId | Sagar_Assignment/backend/server.js:93-96 | the result holds exactly the entries of the input whose identifier differs; its length equals the input's exactly when no entry matched, and then it is the input unchanged |
| Feedback.Voted | Sagar_Assignment/backend/server.js:83 | only the `votes` field of entry k changes, by delta with no floor; length, order, every other entry and every other field are unchanged |
| Feedback.WithoutIdAppend | Sagar_Assignment/backend/server.js:94 | filtering distributes over concatenation, so the surviving entries keep their relative order |
| Feedback.WithoutIdTwice | Sagar_Assignment/backend/server.js:94-98 | after a delete no entry has the identifier, so a second delete finds nothing (404) and changes nothing |
| Feedback.WithoutIdKeepsIdsUnique | Sagar_Assignment/backend/server.js:94 | deleting keeps identifiers unique |
| Feedback.UniqueDeleteRemovesOne | Sagar_Assignment/backend/server.js:77-94 | with unique identifiers, delete removes exactly the entry that vote would find and keeps the rest in order: the result is the collection with that one position cut out |
| Feedback.VotedKeepsIndex | Sagar_Assignment/backend/server.js:77-83 | a vote changes no identifier, so every later lookup finds the same position |
| Feedback.VoteUpThenDownRestores | Sagar_Assignment/backend/server.js:77-83 | an "up" vote then a "down" vote on the same identifier hit the same entry and restore the original collection |
| Feedback.VoteFirstDeleteAll | Sagar_Assignment/backend/server.js:77-94 | when an identifier repeats, a vote leaves every later match untouched, while delete removes both the first and the later matches |
| Feedback.AppendKeepsIdsUnique | Sagar_Assignment/backend/server.js:55-62 | appending keeps identifiers unique if and only if the new identifier is not already in use |
| Feedback.VotedKeepsIdsUnique | Sagar_Assignment/backend/server.js:83 | voting keeps identifiers unique |
| Server.ReadFeedback | Sagar_Assignment/backend/server.js:21-29 | a readable file yields its collection unchanged, so what was written is what is read back; a missing or unreadable file yields the empty collection and no error |
| Server.FeedbackStore.Startup | Sagar_Assignment/backend/server.js:16-18 | a missing data file becomes one holding the empty collection; an existing file is kept as it is |
| Server.FeedbackStore.WriteFeedback | Sagar_Assignment/backend/server.js:32-38 | the file afterwards holds exactly the given collection |
| Server.FeedbackStore.List | Sagar_Assignment/backend/server.js:41-44 | status 200 with the stored collection verbatim; nothing is modified, so repeated lists agree |
| Server.FeedbackStore.Create | Sagar_Assignment/backend/server.js:46-66 | a falsy name, email or message gives 400 with the file untouched, checked before any read; otherwise the collection becomes the old one plus one new last entry with the given fields, the given identifier and 0 votes, returned with 201; identifiers stay unique when the new one is unused |
| Server.FeedbackStore.Vote | Sagar_Assignment/backend/server.js:68-87 | a direction other than exactly "up"/"down" gives 400 with the file untouched, before the lookup; an unknown identifier gives 404 with the file untouched; otherwise the first matching entry gains +1/-1 votes, nothing else changes, and that updated entry is returned with 200; identifiers stay unique |
| Server.FeedbackStore.Delete | Sagar_Assignment/backend/server.js:89-102 | 404 with the file untouched exactly when no entry has the identifier; otherwise 204 with no body and the collection becomes the old one without every matching entry, in order; identifiers stay unique |

## Left out

- Express set-up, CORS, the JSON body parser and `app.listen` (server.js:1-13, 104-106). This is framework plumbing. Requests and responses are already decoded values here.
- The file system and the JSON codec (server.js:16-38). The file is the `Document` value, and a read or parse failure is the `Unreadable` case. Serialisation is not modelled, so `ReadFeedback` of a written collection returning that collection is the whole of the round-trip.
- Write failures (server.js:35-37). A failed `writeFileSync` is only logged, and the client still gets its success response. The model's responses never depend on the write, but what the file holds after a failed write depends on the file system, so `WriteFeedback` always succeeds here.
- Server.FeedbackStore.Startup: a failing start-up write (server.js:17) is not modelled. That `writeFileSync` is outside any `try`, so its failure stops the process; the model's start-up always succeeds.
- The clock (server.js:55). The new identifier is a parameter of `Create`, and nothing assumes it is fresh.
- Concurrency. Overlapping requests can lose an update, because each one reads and writes the file separately. The model runs one handler at a time.
- JSON values that are not strings. A truthy non-string name, email or message (a number, an object) passes the source's guard and is stored as it is. The model's fields are strings or absent.
- A data file that parses to something other than an array of well-formed entries. An entry may lack fields, or its `votes` may not be a number, in which case `+=` would concatenate. The model's `Stored` document always holds entries.
- Feedback.Voted: `votes` is an unbounded integer. JavaScript numbers are doubles, which lose precision beyond 2^53 votes.
- The React client (`Sagar_Assignment/frontend/src/App.js`). It only issues the four requests and mirrors their responses in its own list.
