/** The `/tags` routes over an in-memory `tags` table. */
module TagsRouter {

  import opened Common
  import opened Json
  import opened Text
  import opened Tables
  import opened Http
  import opened Rows

  /** A stored tag: its `name` column. */
  datatype TagRow = TagRow(name: Value)

  type Tags = Table<TagRow>

  /** The fields `PUT /tags/:id` may copy from the body. */
  const Updateable: set<string> := {"name"}

  /** GET /tags: the tags whose name contains the search term (all of them
      without one). The query has no ORDER BY, so the result is the
      matching part of the table, in no promised order. */
  function ListTags(tags: Tags, searchTerm: Option<string>): (res: Response<Tags>)
    ensures res.Ok?
    ensures forall id :: id in res.body <==> id in tags && Matches(tags[id].name, searchTerm)
    ensures forall id :: id in res.body ==> res.body[id] == tags[id]
  {
    Ok(map id | id in tags && Matches(tags[id].name, searchTerm) :: tags[id])
  }

  /** POST /tags: a falsy `name` is a 400 that inserts nothing; otherwise
      `{name}` alone is inserted under a new id and answered with 201.
      The engine picks the id; here it is any id not yet in the table. */
  function PostTag(tags: Tags, body: Body, newId: int): (reply: Reply<Entry<TagRow>, Tags>)
    requires newId !in tags
    ensures !Truthy(Get(body, "name")) ==> reply == Reply(BadRequest(MissingName), tags)
    ensures Truthy(Get(body, "name")) ==>
      && reply.state.Keys == tags.Keys + {newId}
      && (forall id :: id in tags ==> reply.state[id] == tags[id])
      && reply.state[newId] == TagRow(body["name"])
      && reply.response == Created(Entry(newId, TagRow(body["name"])))
  {
    var name := Get(body, "name");
    if !Truthy(name) then Reply(BadRequest(MissingName), tags)
    else Reply(Created(Entry(newId, TagRow(name))), tags[newId := TagRow(name)])
  }

  /** PUT /tags/:id: copies only `name` from the body; a falsy `name` is a
      400 that changes nothing; a missing id is an empty 200 that changes
      nothing. */
  function PutTag(tags: Tags, id: int, body: Body): (reply: Reply<Option<Entry<TagRow>>, Tags>)
    ensures !Truthy(Get(body, "name")) ==> reply == Reply(BadRequest(MissingName), tags)
    ensures Truthy(Get(body, "name")) && id !in tags ==> reply == Reply(Ok(None), tags)
    ensures Truthy(Get(body, "name")) && id in tags ==>
      && reply.state.Keys == tags.Keys
      && (forall other :: other in tags && other != id ==> reply.state[other] == tags[other])
      && reply.state[id] == TagRow(body["name"])
      && reply.response == Ok(Some(Entry(id, TagRow(body["name"]))))
  {
    var update := Pick(body, Updateable);
    if !Truthy(Get(update, "name")) then Reply(BadRequest(MissingName), tags)
    else if id !in tags then Reply(Ok(None), tags)
    else
      var updated := tags[id].(name := update["name"]);
      Reply(Ok(Some(Entry(id, updated))), tags[id := updated])
  }

  // ---------------------------------------------------------------------
  // How the routes relate to each other
  // ---------------------------------------------------------------------

  /** Without a search term the list is the whole table. */
  lemma ListTagsUnfiltered(tags: Tags)
    ensures ListTags(tags, None).body == tags
    ensures ListTags(tags, Some("")).body == tags
  {
  }

  /** A non-empty search term keeps exactly the tags whose name has the
      term at some position. */
  lemma ListTagsFindsSubstrings(tags: Tags, term: string, id: int)
    requires id in tags && term != ""
    ensures id in ListTags(tags, Some(term)).body <==>
      && tags[id].name.Str?
      && exists k :: 0 <= k <= |tags[id].name.s| && term <= tags[id].name.s[k..]
  {
    if tags[id].name.Str? {
      ContainsAt(tags[id].name.s, term);
    }
  }

  /** After a tag is created, the list gains that tag exactly when its name
      matches the search term, and is otherwise unchanged. */
  lemma ListTagsAfterPost(tags: Tags, body: Body, newId: int, searchTerm: Option<string>)
    requires newId !in tags && Truthy(Get(body, "name"))
    ensures ListTags(PostTag(tags, body, newId).state, searchTerm).body
         == if Matches(body["name"], searchTerm)
            then ListTags(tags, searchTerm).body[newId := TagRow(body["name"])]
            else ListTags(tags, searchTerm).body
  {
  }

  /** Keys other than `name` never affect an update. */
  lemma PutTagIgnoresOtherKeys(tags: Tags, id: int, b1: Body, b2: Body)
    requires ("name" in b1 <==> "name" in b2)
    requires "name" in b1 ==> b1["name"] == b2["name"]
    ensures PutTag(tags, id, b1) == PutTag(tags, id, b2)
  {
  }

  /** A tag just created reads back, and deleting it restores the table. */
  lemma PostThenGetThenDelete(tags: Tags, body: Body, newId: int)
    requires newId !in tags && Truthy(Get(body, "name"))
    ensures GetById(PostTag(tags, body, newId).state, newId) == Ok(Some(Entry(newId, TagRow(body["name"]))))
    ensures DeleteById(PostTag(tags, body, newId).state, newId).state == tags
  {
  }

  /** An accepted update reads back with the body's `name`. */
  lemma PutTagThenGet(tags: Tags, id: int, body: Body)
    requires id in tags && Truthy(Get(body, "name"))
    ensures GetById(PutTag(tags, id, body).state, id) == Ok(Some(Entry(id, TagRow(body["name"]))))
  {
  }

  /** Sending the same update twice leaves the table as sending it once. */
  lemma PutTagIdempotent(tags: Tags, id: int, body: Body)
    ensures PutTag(PutTag(tags, id, body).state, id, body).state == PutTag(tags, id, body).state
  {
  }
}
