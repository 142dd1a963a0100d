/** The feedback server: the data file it reads and rewrites on requests,
    and its four route handlers. HTTP routing, the JSON codec and the file
    system are not modelled; a handler's input is its decoded request and its
    output a status code with a decoded body. */
module Server {
  import opened Feedback

  /** The data file as a handler finds it when it reads it. */
  datatype Document =
    | Missing                      // no file on disk
    | Unreadable                   // reading the file or parsing its JSON throws
    | Stored(entries: seq<Entry>)  // a JSON array of entries

  /** The JSON body of a response. */
  datatype Body =
    | EntryList(list: seq<Entry>)
    | OneEntry(entry: Entry)
    | Error(error: string)
    | NoContent

  datatype Response = Response(status: int, body: Body)

  const OK := 200
  const CREATED := 201
  const NO_CONTENT := 204
  const BAD_REQUEST := 400
  const NOT_FOUND := 404

  const REQUIRED_MESSAGE := "Name, email, and message are required"
  const INVALID_DIRECTION_MESSAGE := "Invalid vote direction"
  const NOT_FOUND_MESSAGE := "Feedback not found"

  /** `readFeedback`: the stored collection, or the empty collection when the
      file cannot be read or parsed. The failure is logged, never reported. */
  function ReadFeedback(d: Document): (s: seq<Entry>)
    ensures d.Stored? ==> s == d.entries
    ensures !d.Stored? ==> s == []
  {
    match d
    case Stored(entries) => entries
    case _ => []
  }

  /** The server process. Its only state is the data file; every handler
      whose request passes validation reads the whole collection from it, and
      writes the whole collection back when it changes something. */
  class FeedbackStore {
    var document: Document

    /** Startup: when there is no data file, one holding `[]` is created;
        an existing file is left as it is, even an unreadable one. */
    constructor Startup(existing: Document)
      ensures document == if existing.Missing? then Stored([]) else existing
      ensures ReadFeedback(document) == ReadFeedback(existing)
    {
      if existing.Missing? {
        document := Stored([]);
      } else {
        document := existing;
      }
    }

    /** `writeFeedback`: the file is overwritten with the whole collection. */
    method WriteFeedback(feedback: seq<Entry>)
      modifies this
      ensures document == Stored(feedback)
      ensures ReadFeedback(document) == feedback
    {
      document := Stored(feedback);
    }

    /** GET /feedback: the stored collection, verbatim, with status 200. The
        handler changes nothing, so two lists in a row agree. */
    method List() returns (resp: Response)
      ensures resp.status == OK
      ensures resp.body == EntryList(ReadFeedback(document))
    {
      var feedback := ReadFeedback(document);
      resp := Response(OK, EntryList(feedback));
    }

    /** POST /feedback: rejects a falsy field before touching the file;
        otherwise appends a new entry with no votes and returns it. */
    method Create(name: Field, email: Field, message: Field, newId: string) returns (resp: Response)
      modifies this
      ensures MissingField(name, email, message) ==>
                resp == Response(BAD_REQUEST, Error(REQUIRED_MESSAGE)) && document == old(document)
      ensures !MissingField(name, email, message) ==>
                var e := Entry(newId, name.value, email.value, message.value, 0);
                resp == Response(CREATED, OneEntry(e)) &&
                document == Stored(old(ReadFeedback(document)) + [e])
      ensures old(UniqueIds(ReadFeedback(document))) && !old(HasId(ReadFeedback(document), newId)) ==>
                UniqueIds(ReadFeedback(document))
    {
      if MissingField(name, email, message) {
        resp := Response(BAD_REQUEST, Error(REQUIRED_MESSAGE));
        return;
      }
      var feedback := ReadFeedback(document);
      var newFeedback := Entry(newId, name.value, email.value, message.value, 0);
      if UniqueIds(feedback) {
        AppendKeepsIdsUnique(feedback, newFeedback);
      }
      feedback := feedback + [newFeedback];
      WriteFeedback(feedback);
      resp := Response(CREATED, OneEntry(newFeedback));
    }

    /** PUT /feedback/:id/vote: the direction is checked first, then the
        identifier; the first entry with that identifier gains or loses one
        vote, is written back with the rest, and is returned. */
    method Vote(id: string, direction: Option<string>) returns (resp: Response)
      modifies this
      ensures !ValidDirection(direction) ==>
                resp == Response(BAD_REQUEST, Error(INVALID_DIRECTION_MESSAGE)) && document == old(document)
      ensures ValidDirection(direction) && !HasId(old(ReadFeedback(document)), id) ==>
                resp == Response(NOT_FOUND, Error(NOT_FOUND_MESSAGE)) && document == old(document)
      ensures ValidDirection(direction) && HasId(old(ReadFeedback(document)), id) ==>
                var k := FindIndex(old(ReadFeedback(document)), id);
                var updated := Voted(old(ReadFeedback(document)), k, Delta(direction));
                document == Stored(updated) && resp == Response(OK, OneEntry(updated[k]))
      ensures old(UniqueIds(ReadFeedback(document))) ==> UniqueIds(ReadFeedback(document))
    {
      if direction != Some("up") && direction != Some("down") {
        resp := Response(BAD_REQUEST, Error(INVALID_DIRECTION_MESSAGE));
        return;
      }
      var feedback := ReadFeedback(document);
      var index := FindIndex(feedback, id);
      if index == -1 {
        resp := Response(NOT_FOUND, Error(NOT_FOUND_MESSAGE));
        return;
      }
      var delta := if direction == Some("up") then 1 else -1;
      if UniqueIds(feedback) {
        VotedKeepsIdsUnique(feedback, index, delta);
      }
      feedback := feedback[index := feedback[index].(votes := feedback[index].votes + delta)];
      WriteFeedback(feedback);
      resp := Response(OK, OneEntry(feedback[index]));
    }

    /** DELETE /feedback/:id: removes every entry with the identifier; when
        none was removed the file is left alone and the answer is 404. */
    method Delete(id: string) returns (resp: Response)
      modifies this
      ensures !HasId(old(ReadFeedback(document)), id) ==>
                resp == Response(NOT_FOUND, Error(NOT_FOUND_MESSAGE)) && document == old(document)
      ensures HasId(old(ReadFeedback(document)), id) ==>
                resp == Response(NO_CONTENT, NoContent) &&
                document == Stored(WithoutId(old(ReadFeedback(document)), id))
      ensures old(UniqueIds(ReadFeedback(document))) ==> UniqueIds(ReadFeedback(document))
    {
      var feedback := ReadFeedback(document);
      var initialLength := |feedback|;
      if UniqueIds(feedback) {
        WithoutIdKeepsIdsUnique(feedback, id);
      }
      feedback := WithoutId(feedback, id);
      if |feedback| == initialLength {
        resp := Response(NOT_FOUND, Error(NOT_FOUND_MESSAGE));
        return;
      }
      WriteFeedback(feedback);
      resp := Response(NO_CONTENT, NoContent);
    }
  }

  /** A client's session against a fresh server, using only the handlers'
      contracts: create on an empty store, list, vote up and down, an invalid
      direction, delete, and a second delete of the same identifier. */
  method ClientSession(name: string, email: string, message: string, id: string)
    requires name != "" && email != "" && message != ""
  {
    var server := new FeedbackStore.Startup(Missing);
    var r := server.Create(Some(name), Some(email), Some(message), id);
    var e := Entry(id, name, email, message, 0);
    assert r == Response(CREATED, OneEntry(e));
    r := server.List();
    assert r.body == EntryList([e]);
    assert [e][0].id == id;
    r := server.Vote(id, Some("up"));
    assert r == Response(OK, OneEntry(e.(votes := 1)));
    r := server.Vote(id, Some("down"));
    assert r == Response(OK, OneEntry(e));
    r := server.Vote(id, Some("sideways"));
    assert r.status == BAD_REQUEST;
    r := server.List();
    assert r.body == EntryList([e]);
    r := server.Delete(id);
    assert r.status == NO_CONTENT;
    assert server.document == Stored([]);
    r := server.List();
    assert r.body == EntryList([]);
    r := server.Delete(id);
    assert r.status == NOT_FOUND;
  }
}
