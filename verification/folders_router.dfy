/** The `/folders` routes over an in-memory `folders` table. */
module FoldersRouter {

  import opened Common
  import opened Json
  import opened Tables
  import opened Http
  import opened Rows

  /** A stored folder: its `name` column. */
  datatype FolderRow = FolderRow(name: Value)

  type Folders = Table<FolderRow>

  /** The fields `PUT /folders/:id` may copy from the body. */
  const Updateable: set<string> := {"name"}

  /** GET /folders: every folder, `{id, name}`, by ascending id. The route
      takes no search term. */
  method ListFolders(folders: Folders) returns (res: Response<seq<Entry<FolderRow>>>)
    ensures res.Ok?
    ensures forall i, j :: 0 <= i < j < |res.body| ==> res.body[i].id < res.body[j].id
    ensures forall i :: 0 <= i < |res.body| ==>
      res.body[i].id in folders && res.body[i].row == folders[res.body[i].id]
    ensures forall id :: id in folders ==> exists i :: 0 <= i < |res.body| && res.body[i].id == id
    ensures |res.body| == |folders|
  {
    var ids := SortedIds(folders.Keys);
    assert forall i :: 0 <= i < |ids| ==> ids[i] in ids;
    var items := seq(|ids|, i requires 0 <= i < |ids| => Entry(ids[i], folders[ids[i]]));
    forall id | id in folders
      ensures exists i :: 0 <= i < |items| && items[i].id == id
    {
      assert id in ids;
      var i :| 0 <= i < |ids| && ids[i] == id;
      assert items[i].id == id;
    }
    res := Ok(items);
  }

  /** PUT /folders/:id: copies only `name` from the body; a falsy `name` is
      a 400 that changes nothing; a missing id is an empty 200 that changes
      nothing. */
  function PutFolder(folders: Folders, id: int, body: Body): (reply: Reply<Option<Entry<FolderRow>>, Folders>)
    ensures !Truthy(Get(body, "name")) ==> reply == Reply(BadRequest(MissingName), folders)
    ensures Truthy(Get(body, "name")) && id !in folders ==> reply == Reply(Ok(None), folders)
    ensures Truthy(Get(body, "name")) && id in folders ==>
      && reply.state.Keys == folders.Keys
      && (forall other :: other in folders && other != id ==> reply.state[other] == folders[other])
      && reply.state[id] == FolderRow(body["name"])
      && reply.response == Ok(Some(Entry(id, FolderRow(body["name"]))))
  {
    var update := Pick(body, Updateable);
    if !Truthy(Get(update, "name")) then Reply(BadRequest(MissingName), folders)
    else if id !in folders then Reply(Ok(None), folders)
    else
      var updated := folders[id].(name := update["name"]);
      Reply(Ok(Some(Entry(id, updated))), folders[id := updated])
  }

  /** POST /folders: builds `{name}` from the body; a falsy `name` is a 400
      that inserts nothing; otherwise the folder is inserted under a new id
      and answered with 201. The engine picks the id; here it is any id not
      yet in the table. */
  function PostFolder(folders: Folders, body: Body, newId: int): (reply: Reply<Entry<FolderRow>, Folders>)
    requires newId !in folders
    ensures !Truthy(Get(body, "name")) ==> reply == Reply(BadRequest(MissingName), folders)
    ensures Truthy(Get(body, "name")) ==>
      && reply.state.Keys == folders.Keys + {newId}
      && (forall id :: id in folders ==> reply.state[id] == folders[id])
      && reply.state[newId] == FolderRow(body["name"])
      && reply.response == Created(Entry(newId, FolderRow(body["name"])))
  {
    var newItem := FolderRow(Get(body, "name"));
    if !Truthy(newItem.name) then Reply(BadRequest(MissingName), folders)
    else Reply(Created(Entry(newId, newItem)), folders[newId := newItem])
  }

  // ---------------------------------------------------------------------
  // How the routes relate to each other
  // ---------------------------------------------------------------------

  /** Keys other than `name` never affect an update. */
  lemma PutFolderIgnoresOtherKeys(folders: Folders, id: int, b1: Body, b2: Body)
    requires ("name" in b1 <==> "name" in b2)
    requires "name" in b1 ==> b1["name"] == b2["name"]
    ensures PutFolder(folders, id, b1) == PutFolder(folders, id, b2)
  {
  }

  /** A folder just created reads back, and deleting it restores the table. */
  lemma PostThenGetThenDelete(folders: Folders, body: Body, newId: int)
    requires newId !in folders && Truthy(Get(body, "name"))
    ensures GetById(PostFolder(folders, body, newId).state, newId) == Ok(Some(Entry(newId, FolderRow(body["name"]))))
    ensures DeleteById(PostFolder(folders, body, newId).state, newId).state == folders
  {
  }

  /** An accepted update reads back with the body's `name`. */
  lemma PutFolderThenGet(folders: Folders, id: int, body: Body)
    requires id in folders && Truthy(Get(body, "name"))
    ensures GetById(PutFolder(folders, id, body).state, id) == Ok(Some(Entry(id, FolderRow(body["name"]))))
  {
  }

  /** Sending the same update twice leaves the table as sending it once. */
  lemma PutFolderIdempotent(folders: Folders, id: int, body: Body)
    ensures PutFolder(PutFolder(folders, id, body).state, id, body).state == PutFolder(folders, id, body).state
  {
  }
}
