/**
 * The `/notes` routes over an in-memory `notes` table.
 *
 * The router reads and writes only `title` and `content`; a note's
 * `folder_id` column is carried so that the model can state that no route
 * here ever changes it. A note created here starts with no folder.
 */
module NotesRouter {

  import opened Common
  import opened Json
  import opened Text
  import opened Tables
  import opened Http
  import opened Rows

  /** A stored note: the columns the routes can observe. */
  datatype NoteRow = NoteRow(title: Value, content: Value, folderId: Option<int>)

  /** The note shape the list, update and create routes send back:
      `id`, `title`, `content`. */
  datatype NoteItem = NoteItem(id: int, title: Value, content: Value)

  type Notes = Table<NoteRow>

  /** The fields `PUT /notes/:id` may copy from the body. */
  const Updateable: set<string> := {"title", "content"}

  /** GET /notes: the notes whose title contains the search term (all of
      them without one), as `{id, title, content}`, by ascending id. */
  method ListNotes(notes: Notes, searchTerm: Option<string>) returns (res: Response<seq<NoteItem>>)
    ensures res.Ok?
    ensures forall i, j :: 0 <= i < j < |res.body| ==> res.body[i].id < res.body[j].id
    ensures forall i :: 0 <= i < |res.body| ==>
      && res.body[i].id in notes
      && Matches(notes[res.body[i].id].title, searchTerm)
      && res.body[i] == NoteItem(res.body[i].id, notes[res.body[i].id].title, notes[res.body[i].id].content)
    ensures forall id :: id in notes && Matches(notes[id].title, searchTerm) ==>
      exists i :: 0 <= i < |res.body| && res.body[i].id == id
  {
    var ids := SortedIds(set id | id in notes && Matches(notes[id].title, searchTerm));
    assert forall i :: 0 <= i < |ids| ==> ids[i] in ids;
    var items := seq(|ids|, i requires 0 <= i < |ids| => NoteItem(ids[i], notes[ids[i]].title, notes[ids[i]].content));
    forall id | id in notes && Matches(notes[id].title, searchTerm)
      ensures exists i :: 0 <= i < |items| && items[i].id == id
    {
      assert id in ids;
      var i :| 0 <= i < |ids| && ids[i] == id;
      assert items[i].id == id;
    }
    res := Ok(items);
  }

  /** PUT /notes/:id: copies `title` and `content`, when present, from the
      body; a falsy `title` is a 400 that changes nothing; a missing id is
      an empty 200 that changes nothing. */
  function PutNote(notes: Notes, id: int, body: Body): (reply: Reply<Option<NoteItem>, Notes>)
    ensures !Truthy(Get(body, "title")) ==> reply == Reply(BadRequest(MissingTitle), notes)
    ensures Truthy(Get(body, "title")) && id !in notes ==> reply == Reply(Ok(None), notes)
    ensures Truthy(Get(body, "title")) && id in notes ==>
      && reply.state.Keys == notes.Keys
      && (forall other :: other in notes && other != id ==> reply.state[other] == notes[other])
      && reply.state[id].title == body["title"]
      && reply.state[id].content == (if "content" in body then body["content"] else notes[id].content)
      && reply.state[id].folderId == notes[id].folderId
      && reply.response == Ok(Some(NoteItem(id, reply.state[id].title, reply.state[id].content)))
  {
    var update := Pick(body, Updateable);
    if !Truthy(Get(update, "title")) then Reply(BadRequest(MissingTitle), notes)
    else if id !in notes then Reply(Ok(None), notes)
    else
      var row := notes[id];
      var updated := row.(title := update["title"],
                          content := if "content" in update then update["content"] else row.content);
      Reply(Ok(Some(NoteItem(id, updated.title, updated.content))), notes[id := updated])
  }

  /** POST /notes: inserts exactly `{title, content}` under a new id and
      answers 201 with it; a falsy `title` is a 400 that inserts nothing.
      The engine picks the id; here it is any id not yet in the table. */
  function PostNote(notes: Notes, body: Body, newId: int): (reply: Reply<NoteItem, Notes>)
    requires newId !in notes
    ensures !Truthy(Get(body, "title")) ==> reply == Reply(BadRequest(MissingTitle), notes)
    ensures Truthy(Get(body, "title")) ==>
      && reply.state.Keys == notes.Keys + {newId}
      && (forall id :: id in notes ==> reply.state[id] == notes[id])
      && reply.state[newId] == NoteRow(body["title"], Get(body, "content"), None)
      && reply.response == Created(NoteItem(newId, body["title"], Get(body, "content")))
  {
    var title, content := Get(body, "title"), Get(body, "content");
    if !Truthy(title) then Reply(BadRequest(MissingTitle), notes)
    else Reply(Created(NoteItem(newId, title, content)), notes[newId := NoteRow(title, content, None)])
  }

  // ---------------------------------------------------------------------
  // How the routes relate to each other
  // ---------------------------------------------------------------------

  /** Keys other than `title` and `content` never affect an update. */
  lemma PutNoteIgnoresOtherKeys(notes: Notes, id: int, b1: Body, b2: Body)
    requires forall k :: k in Updateable ==> (k in b1 <==> k in b2)
    requires forall k :: k in Updateable && k in b1 ==> b1[k] == b2[k]
    ensures PutNote(notes, id, b1) == PutNote(notes, id, b2)
  {
  }

  /** A note just created reads back as inserted. */
  lemma PostThenGet(notes: Notes, body: Body, newId: int)
    requires newId !in notes && Truthy(Get(body, "title"))
    ensures GetById(PostNote(notes, body, newId).state, newId)
         == Ok(Some(Entry(newId, NoteRow(body["title"], Get(body, "content"), None))))
  {
  }

  /** Deleting a note just created restores the table. */
  lemma PostThenDelete(notes: Notes, body: Body, newId: int)
    requires newId !in notes
    ensures DeleteById(PostNote(notes, body, newId).state, newId).state == notes
  {
  }

  /** An accepted update reads back: the row keeps its folder and takes
      the body's title, and its content when the body carries one. */
  lemma PutNoteThenGet(notes: Notes, id: int, body: Body)
    requires id in notes && Truthy(Get(body, "title"))
    ensures GetById(PutNote(notes, id, body).state, id).body
         == Some(Entry(id, NoteRow(body["title"],
                                   if "content" in body then body["content"] else notes[id].content,
                                   notes[id].folderId)))
  {
  }

  /** Sending the same update twice leaves the table as sending it once. */
  lemma PutNoteIdempotent(notes: Notes, id: int, body: Body)
    ensures PutNote(PutNote(notes, id, body).state, id, body).state == PutNote(notes, id, body).state
  {
  }

  /** The body rejected in the integration tests, `{foo: "bar"}`, gets the
      400 on both POST and PUT. */
  lemma MissingTitleRejected(notes: Notes, id: int, newId: int)
    requires newId !in notes
    ensures PostNote(notes, map["foo" := Str("bar")], newId).response == BadRequest("Missing `title` in request body")
    ensures PutNote(notes, id, map["foo" := Str("bar")]).response == BadRequest("Missing `title` in request body")
  {
  }
}
