# Noteful: note hydration and the CRUD routes, in Dafny

This project models the core of a small note-taking backend. The backend
keeps notes, folders and tags in three relational tables. It exposes them
over HTTP through three Express routers. A utility, the note hydrator,
turns a flat note-by-tag join into nested notes.

- **Hydrator** (`hydrate.dfy`, module `Hydration`). `hydrateNotes(input)`
  takes a sequence of joined rows. Each row holds a note's id and
  note-level fields, plus at most one `tag_id`/`tagName`. The hydrator
  returns one aggregate per distinct note id, in order of first
  appearance. The note-level fields come from that id's first row. The
  `tags` list starts empty and gets `{id: tag_id, name: tagName}` for
  every row where both are truthy, in row order, with no de-duplication.
  The note-level fields are a type parameter, because the hydrator copies
  them and never looks inside. The per-row `tag_id`/`tagName` keys are
  deleted from the aggregate. The model states this by construction: a
  `Note` has no such fields. `Hydrate` is the loop written as a left fold.
  `HydrateNotes` is the same loop with its `lookup` table (note id to
  aggregate position).
- **Routers** (`notes_router.dfy`, `tags_router.dfy`,
  `folders_router.dfy`). Each table is a `map<int, Row>` keyed by primary
  key. Each route is a function (or a method, where `ORDER BY id` needs a
  sort). A route returns a `Response`: `Ok` (200), `Created` (201),
  `BadRequest(message)` (400) or `NoContent` (204). Writes return the
  `Reply` pair of response and new table. A request body is a map from
  keys to JSON values, and validation uses JavaScript truthiness
  (`Json.Truthy`): an array or object is truthy even when empty. PUT copies only the whitelisted keys that are present
  in the body (`Json.Pick`).
- **Shared pieces** (`common.dfy`). `Common.Option`, the JSON values,
  substring search for `LIKE '%term%'`, `ORDER BY id` as an insertion
  sort over the table's keys, the search filter `Text.Matches` shared by
  the notes and tags lists, and the HTTP outcomes. Module `Rows` holds
  `GET /:id` and `DELETE /:id`, which the three routers implement
  identically, once.

The model follows the code wherever the code does something other than
what a reader of a notes API might expect:
- A missing id on GET or PUT is an empty 200 (`res.json(undefined)`), not
  a 404: `Ok(None)`.
- The folder list takes no search term. The tag list has no `ORDER BY`,
  so it is modelled as the matching part of the table, in no order.
- The notes routes never hydrate and never filter by folder or tag. They
  never read `folder_id` or `tags` from a body. POST leaves `folder_id`
  NULL, and PUT leaves it as it was.
- A note's tags are not guaranteed free of duplicate ids: the hydrator
  does not de-duplicate (`RepeatedTagRowAppendsTwice`).
- Hydration is not idempotent. Feeding the hydrator its own output wipes
  every tag list: an aggregate has no `tag_id`/`tagName`, so its first
  row resets `tags` to `[]` and nothing adds a tag back
  (`RehydrateWipesTags`, `RehydratedTagsEmpty`, `RehydrateLosesTag`).
  The round trip that does hold is with the join: hydrating the join of
  well-formed aggregates gives them back (`HydrateJoin`).
- `POST /notes` answers 201 with `{title, id, content, created}` and
  sets no `Location` header (routes/notes.router.js:95-101). The
  integration test for it (test/server.test.js:356-357) expects a
  `folder_id` key and a `location` header. `NotesRouter.PostNote` follows
  the router.

## Model

| member | source | states |
|---|---|---|
| Hydration.HydrateCorrect | utils/hydrateNotes.js:3-22 | For every input, the output has unique ids, the id set equals the input's id set, and aggregates are ordered by first occurrence. Each aggregate's fields are those of its id's first row. Its tags are the tags of all that id's tagged rows, in row order. |
| Hydration.HydrateNotes | utils/hydrateNotes.js:3-22 | The loop with its `lookup` table from id to aggregate position computes the same result as the fold, so it meets the same characterisation. |
| Hydration.HydrateCount | utils/hydrateNotes.js:5-10 | The number of aggregates equals the number of distinct note ids in the input. |
| Hydration.FirstOccurrenceOrder | utils/hydrateNotes.js:5-10 | Rows with ids 5, 5, 3, 3, 5 give aggregates 5 then 3 (first-occurrence order, not sorted). |
| Hydration.LaterRowOnlyAddsTags | utils/hydrateNotes.js:6-17 | A row whose id was already seen leaves the number, ids, order and fields of all aggregates unchanged. Only that id's tags change, growing by the row's own tag if it has one. |
| Hydration.UntaggedNoteHasNoTags | utils/hydrateNotes.js:7-9 | A note none of whose rows carries a truthy tag id and name ends with `tags == []`. |
| Hydration.RepeatedTagRowAppendsTwice | utils/hydrateNotes.js:12-17 | The same (note, tag) row given twice yields that tag twice: no de-duplication. |
| Hydration.TwoNotesExample | utils/hydrateNotes.js:12-17 | Two tagged rows for note 1 and one untagged row for note 2 give note 1 with both tags in order and note 2 with none. |
| Hydration.HydrateEmpty | utils/hydrateNotes.js:4-5 | Empty input gives empty output. |
| Hydration.HydrateJoin | utils/hydrateNotes.js:3-22 | Hydrating the left join of aggregates with distinct ids and truthy tag fields returns exactly those aggregates (one row per tag, or one NULL-tag row for an untagged note). |
| Hydration.RehydrateWipesTags | utils/hydrateNotes.js:6-12 | Hydrating already-hydrated aggregates with distinct ids gives them back with every `tags` list emptied. |
| Hydration.RehydratedTagsEmpty | utils/hydrateNotes.js:8-12 | Whatever the aggregates fed back in, every re-hydrated aggregate has `tags == []`. |
| Hydration.RehydrateLosesTag | utils/hydrateNotes.js:8-12 | `{id: 1, tags: [{id: 10, name: "x"}]}` fed back in comes out with no tags, so it is not returned unchanged. |
| Hydration.FirstIndex | utils/hydrateNotes.js:6 | Finds the first row carrying a given id: that row has the id and no earlier row does. |
| Hydration.IndexOf | utils/hydrateNotes.js:6-7 | The `lookup` probe returns a position holding the id, or reports that no aggregate has it. |
| Json.Pick | routes/notes.router.js:54-61 | The update object has exactly the whitelisted keys present in the body, with the body's values. |
| Json.PickIgnoresOtherKeys | routes/folders.router.js:41-48 | Bodies that agree on the whitelisted keys give the same update object. |
| Text.ContainsAt | routes/notes.router.js:21-25 | The substring test holds exactly when the term is a prefix of some suffix of the text. |
| Tables.SortedIds | routes/notes.router.js:26 | `ORDER BY id`: every key exactly once, strictly ascending. |
| Tables.Insert | routes/folders.router.js:13 | Inserting into an ascending key list keeps it ascending, adds exactly the new key, and grows the list by one. |
| Rows.GetById | routes/notes.router.js:34-47 | 200 with the row of that id when present, an empty 200 otherwise, and never any other row. `GET /tags/:id` (routes/tags.router.js:28-41) and `GET /folders/:id` (routes/folders.router.js:21-34) are the same route. |
| Rows.DeleteById | routes/notes.router.js:108-121 | Always 204. The row with that id is gone, if it existed, and every other row is unchanged. `DELETE /tags/:id` (routes/tags.router.js:102-115) and `DELETE /folders/:id` (routes/folders.router.js:96-109) are the same route. |
| Rows.DeleteThenGet | test/server.test.js:639-651 | After a delete, that id reads back as empty. |
| Rows.DeleteIdempotent | routes/tags.router.js:102-115 | Deleting the same id twice is the same as deleting it once. |
| Rows.InsertThenDelete | routes/folders.router.js:96-109 | Deleting a row just inserted under a fresh id restores the table exactly. |
| NotesRouter.ListNotes | routes/notes.router.js:16-31 | 200 with exactly the notes whose title contains `searchTerm` (all notes when it is absent or empty), each as `{id, title, content}` of its row, in strictly ascending id order. |
| NotesRouter.PutNote | routes/notes.router.js:50-81 | A falsy `title` gives 400 "Missing `title` in request body" and leaves the table unchanged. A missing id gives an empty 200 and no change. Otherwise only that row changes: its title becomes the body's, its content the body's only if present, and its folder stays. |
| NotesRouter.PutNoteThenGet | routes/notes.router.js:54-76 | An accepted update reads back with the body's title, the body's content if it sent one and the old content otherwise, and the old folder. |
| NotesRouter.PutNoteIdempotent | routes/notes.router.js:50-81 | Sending the same update twice leaves the table as sending it once, whatever the body. |
| NotesRouter.PutNoteIgnoresOtherKeys | routes/notes.router.js:54-61 | Keys other than `title` and `content` never affect the update's outcome. |
| NotesRouter.MissingTitleRejected | test/server.test.js:368-389 | The body `{foo: "bar"}` is refused with the missing-title 400 by both POST and PUT. |
| NotesRouter.PostNote | routes/notes.router.js:84-105 | A falsy `title` gives 400 and inserts nothing. Otherwise exactly `{title, content}` (folder NULL) is inserted under the new id, every other row is untouched, and the answer is 201 with that note. |
| NotesRouter.PostThenGet | routes/notes.router.js:95-101 | A note just created reads back by its id as inserted. |
| NotesRouter.PostThenDelete | routes/notes.router.js:108-121 | Deleting a note just created restores the table exactly. |
| TagsRouter.ListTags | routes/tags.router.js:9-25 | 200 with exactly the tags whose name contains `searchTerm` (all tags when it is absent or empty), each with its own row. |
| TagsRouter.ListTagsFindsSubstrings | routes/tags.router.js:16-20 | A non-empty term keeps a tag exactly when its name is a string with the term at some position. |
| TagsRouter.ListTagsAfterPost | routes/tags.router.js:9-25 | After a tag is created, the list gains exactly that tag when its name matches the term, and is otherwise the list before. |
| TagsRouter.ListTagsUnfiltered | routes/tags.router.js:16-20 | An absent or empty search term returns the whole table. |
| TagsRouter.PostTag | routes/tags.router.js:44-65 | A falsy `name` gives 400 "Missing `name` in request body" and inserts nothing. Otherwise only `{name}` is inserted under the new id, other rows are untouched, and the answer is 201 with `{id, name}`. |
| TagsRouter.PutTag | routes/tags.router.js:68-99 | A falsy `name` gives 400 and no change. A missing id gives an empty 200 and no change. Otherwise only that tag's name changes, to the body's `name`. |
| TagsRouter.PutTagThenGet | routes/tags.router.js:88-94 | An accepted update reads back with the body's `name`. |
| TagsRouter.PutTagIdempotent | routes/tags.router.js:68-99 | Sending the same update twice leaves the table as sending it once, whatever the body. |
| TagsRouter.PutTagIgnoresOtherKeys | routes/tags.router.js:72-79 | Keys other than `name` never affect the update's outcome. |
| TagsRouter.PostThenGetThenDelete | routes/tags.router.js:54-62 | A tag just created reads back by its id, and deleting it restores the table. |
| FoldersRouter.ListFolders | routes/folders.router.js:10-18 | 200 with every folder exactly once, each with its row, in strictly ascending id order, with no filtering. |
| FoldersRouter.PutFolder | routes/folders.router.js:37-68 | A falsy `name` gives 400 "Missing `name` in request body" and no change. A missing id gives an empty 200 and no change. Otherwise only that folder's name changes, to the body's `name`. |
| FoldersRouter.PutFolderThenGet | routes/folders.router.js:57-63 | An accepted update reads back with the body's `name`. |
| FoldersRouter.PutFolderIdempotent | routes/folders.router.js:37-68 | Sending the same update twice leaves the table as sending it once, whatever the body. |
| FoldersRouter.PutFolderIgnoresOtherKeys | routes/folders.router.js:44-48 | Keys other than `name` never affect the update's outcome. |
| FoldersRouter.PostFolder | routes/folders.router.js:71-93 | A falsy `name` gives 400 and inserts nothing. Otherwise `{name}` is inserted under the new id, other rows are untouched, and the answer is 201 with `{id, name}`. |
| FoldersRouter.PostThenGetThenDelete | routes/folders.router.js:82-88 | A folder just created reads back by its id, and deleting it restores the table. |

## Left out

- The SQL engine and its failures. An engine error (a 500 passed to
  `next(err)`) is not modelled, and neither is a non-numeric `:id` that
  the engine would reject. Path ids are integers here.
- Id generation. POST takes the new id as a parameter, required not to
  be in the table, because the engine's serial sequence picks it.
- The engine-assigned `created` column that notes return. It is a
  clock value.
- `res.location(...)` headers, JSON serialisation and the Express
  wiring. Also the tag list's `result.id` read on an array, which only
  builds a header.
- SQL `LIKE` wildcards (`%`, `_`) inside the search term, and collation
  or case rules. The search is plain substring containment.
- Column type coercion. A non-string JSON value stored in a text column
  is kept as the JSON value, so the substring search matches string
  values only.
- Fractional JSON numbers. `Json.Num` carries an integer, so the
  truthiness of `NaN` or `0.5` is not modelled.
- Column defaults. An absent `content` on `POST /notes` is passed to the
  engine as `undefined`, which inserts the column's default. The model
  stores `Null`, and it stores `None` for `folder_id`, so it assumes both
  defaults are NULL. The schema is not part of this model.
- The hydrator's in-place mutation and aliasing of the input row objects,
  and the string coercion of its `lookup` keys. Ids are integers and
  aggregates are fresh values. Rows without a note id are outside the
  model.
- Folder and tag association on notes (`folder_id` filters, the
  `notes_tags` join table). The notes router shown does not implement
  them.
- `knexfile.js` (connection settings), `db/seedData.js` (runs `psql`),
  `scratch/queries.js` (commented-out code) and `test/server.test.js`
  (HTTP integration tests, cited here only for the behaviour they pin down).
