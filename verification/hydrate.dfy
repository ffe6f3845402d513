/**
 * The note hydrator: a flat stream of note-by-tag join rows becomes one note
 * aggregate per distinct note id, in order of first appearance, each carrying
 * the tags of that note's rows.
 *
 * The note-level columns (title, content, folder, ...) are a type parameter
 * `F`: the hydrator copies them from a note's first row and never looks
 * inside. An aggregate has no `tag_id`/`tagName` field at all, which is how
 * this model states that those per-row keys are stripped.
 */
module Hydration {

  import opened Common

  /** A tag as embedded in a note aggregate: `{id, name}`. */
  datatype Tag = Tag(id: int, name: string)

  /** One joined row: the note's id and fields, plus at most one tag's
      `tag_id` and `tagName` (NULL when the note has no tag in this row). */
  datatype Row<F> = Row(id: int, fields: F, tagId: Option<int>, tagName: Option<string>)

  /** A hydrated note: its id, the fields of its first row, and its tags. */
  datatype Note<F> = Note(id: int, fields: F, tags: seq<Tag>)

  /** `note.tag_id && note.tagName`: both present and JavaScript-truthy, so a
      tag id of 0 or an empty tag name also counts as no tag. */
  predicate HasTag<F>(r: Row<F>)
  {
    r.tagId.Some? && r.tagId.value != 0 && r.tagName.Some? && r.tagName.value != ""
  }

  /** The tags one row contributes: its own tag, or none. */
  function TagOf<F>(r: Row<F>): seq<Tag>
  {
    if HasTag(r) then [Tag(r.tagId.value, r.tagName.value)] else []
  }

  /** The note ids occurring in a row stream. */
  function IdSet<F>(rows: seq<Row<F>>): set<int>
  {
    set i | 0 <= i < |rows| :: rows[i].id
  }

  /** The ids of a sequence of aggregates. */
  function NoteIds<F>(notes: seq<Note<F>>): set<int>
  {
    set i | 0 <= i < |notes| :: notes[i].id
  }

  ghost predicate UniqueIds<F>(notes: seq<Note<F>>)
  {
    forall i, j :: 0 <= i < j < |notes| ==> notes[i].id != notes[j].id
  }

  /** The position of the first row with the given id. */
  function FirstIndex<F>(rows: seq<Row<F>>, id: int): (k: nat)
    requires id in IdSet(rows)
    ensures k < |rows| && rows[k].id == id
    ensures forall j :: 0 <= j < k ==> rows[j].id != id
  {
    if rows[0].id == id then 0
    else
      assert id in IdSet(rows[1..]) by {
        var i :| 0 <= i < |rows| && rows[i].id == id;
        assert rows[1..][i - 1].id == id;
      }
      1 + FirstIndex(rows[1..], id)
  }

  /** The rows of note `id` that carry a tag, in input order. */
  function Qualifying<F>(rows: seq<Row<F>>, id: int): (q: seq<Row<F>>)
    ensures forall k :: 0 <= k < |q| ==> q[k].id == id && HasTag(q[k])
  {
    if |rows| == 0 then []
    else (if rows[0].id == id && HasTag(rows[0]) then [rows[0]] else []) + Qualifying(rows[1..], id)
  }

  /** The tag list note `id` should end with: one entry per qualifying row,
      in row order, with no de-duplication. */
  function TagsOf<F>(rows: seq<Row<F>>, id: int): seq<Tag>
  {
    var q := Qualifying(rows, id);
    seq(|q|, k requires 0 <= k < |q| => Tag(q[k].tagId.value, q[k].tagName.value))
  }

  /** One aggregate per distinct id of the input, and no other. */
  ghost predicate OnePerId<F>(rows: seq<Row<F>>, out: seq<Note<F>>)
  {
    && UniqueIds(out)
    && (forall i :: 0 <= i < |out| ==> out[i].id in IdSet(rows))
    && NoteIds(out) == IdSet(rows)
  }

  /** Aggregates appear in the order their ids first occur in the input. */
  ghost predicate FirstOccurrenceOrdered<F>(rows: seq<Row<F>>, out: seq<Note<F>>)
    requires OnePerId(rows, out)
  {
    forall i, j :: 0 <= i < j < |out| ==> FirstIndex(rows, out[i].id) < FirstIndex(rows, out[j].id)
  }

  /** Each aggregate carries the note fields of its id's first row. */
  ghost predicate FirstRowFields<F>(rows: seq<Row<F>>, out: seq<Note<F>>)
    requires OnePerId(rows, out)
  {
    forall i :: 0 <= i < |out| ==> out[i].fields == rows[FirstIndex(rows, out[i].id)].fields
  }

  /** Each aggregate carries the tags of all its id's rows. */
  ghost predicate AllRowTags<F>(rows: seq<Row<F>>, out: seq<Note<F>>)
  {
    forall i :: 0 <= i < |out| ==> out[i].tags == TagsOf(rows, out[i].id)
  }

  /** What it means for `out` to be the hydration of `rows`. */
  ghost predicate Hydrated<F>(rows: seq<Row<F>>, out: seq<Note<F>>)
  {
    && OnePerId(rows, out)
    && FirstOccurrenceOrdered(rows, out)
    && FirstRowFields(rows, out)
    && AllRowTags(rows, out)
  }

  /** The position of the aggregate for `id`: the `lookup` object. */
  function IndexOf<F>(notes: seq<Note<F>>, id: int): (k: Option<nat>)
    ensures k.Some? ==> k.value < |notes| && notes[k.value].id == id
    ensures k.None? ==> forall i :: 0 <= i < |notes| ==> notes[i].id != id
  {
    if |notes| == 0 then None
    else if notes[0].id == id then Some(0)
    else match IndexOf(notes[1..], id)
      case None => None
      case Some(k) => Some(k + 1)
  }

  /** One iteration of the loop: open an aggregate for an unseen id, then
      append the row's tag, if any, to that id's aggregate. */
  function Step<F>(acc: seq<Note<F>>, r: Row<F>): seq<Note<F>>
  {
    match IndexOf(acc, r.id)
    case None => acc + [Note(r.id, r.fields, TagOf(r))]
    case Some(k) => acc[k := acc[k].(tags := acc[k].tags + TagOf(r))]
  }

  /** Runs the loop over `rows`, starting from the aggregates `acc`. */
  function HydrateFrom<F>(acc: seq<Note<F>>, rows: seq<Row<F>>): seq<Note<F>>
    decreases |rows|
  {
    if |rows| == 0 then acc
    else Step(HydrateFrom(acc, rows[..|rows| - 1]), rows[|rows| - 1])
  }

  /** `hydrateNotes(input)`. */
  function Hydrate<F>(rows: seq<Row<F>>): seq<Note<F>>
  {
    HydrateFrom([], rows)
  }

  // ---------------------------------------------------------------------
  // Facts about the reference definitions under appending one row
  // ---------------------------------------------------------------------

  lemma IdSetAppend<F>(p: seq<Row<F>>, r: Row<F>)
    ensures IdSet(p + [r]) == IdSet(p) + {r.id}
  {
    var q := p + [r];
    forall x | x in IdSet(q)
      ensures x in IdSet(p) + {r.id}
    {
      var i :| 0 <= i < |q| && q[i].id == x;
      if i < |p| {
        assert p[i].id == x;
      }
    }
    forall x | x in IdSet(p)
      ensures x in IdSet(q)
    {
      var i :| 0 <= i < |p| && p[i].id == x;
      assert q[i].id == x;
    }
    assert q[|p|].id == r.id;
  }

  lemma NoteIdsSnoc<F>(p: seq<Note<F>>, n: Note<F>)
    ensures NoteIds(p + [n]) == NoteIds(p) + {n.id}
  {
    var notes := p + [n];
    forall x | x in NoteIds(notes)
      ensures x in NoteIds(p) + {n.id}
    {
      var i :| 0 <= i < |notes| && notes[i].id == x;
      if i < |p| {
        assert p[i].id == x;
      }
    }
    forall x | x in NoteIds(p)
      ensures x in NoteIds(notes)
    {
      var i :| 0 <= i < |p| && p[i].id == x;
      assert notes[i].id == x;
    }
    assert notes[|p|].id == n.id;
  }

  lemma NoteIdsPointwise<F>(a: seq<Note<F>>, b: seq<Note<F>>)
    requires |a| == |b|
    requires forall i :: 0 <= i < |a| ==> a[i].id == b[i].id
    ensures NoteIds(a) == NoteIds(b)
  {
  }

  lemma FirstIndexAppend<F>(p: seq<Row<F>>, r: Row<F>, x: int)
    requires x in IdSet(p)
    ensures x in IdSet(p + [r]) && FirstIndex(p + [r], x) == FirstIndex(p, x)
  {
    IdSetAppend(p, r);
    var q := p + [r];
    var a := FirstIndex(q, x);
    var b := FirstIndex(p, x);
    assert q[b].id == x;
  }

  lemma FirstIndexNew<F>(p: seq<Row<F>>, r: Row<F>)
    requires r.id !in IdSet(p)
    ensures r.id in IdSet(p + [r]) && FirstIndex(p + [r], r.id) == |p|
  {
    IdSetAppend(p, r);
    var q := p + [r];
    var a := FirstIndex(q, r.id);
    assert q[|p|].id == r.id;
  }

  lemma {:induction false} QualifyingAppend<F>(p: seq<Row<F>>, r: Row<F>, id: int)
    ensures Qualifying(p + [r], id) == Qualifying(p, id) + (if r.id == id && HasTag(r) then [r] else [])
  {
    if |p| == 0 {
      assert (p + [r])[1..] == [];
    } else {
      assert (p + [r])[1..] == p[1..] + [r];
      QualifyingAppend(p[1..], r, id);
    }
  }

  lemma {:induction false} QualifyingUntagged<F>(rows: seq<Row<F>>, id: int)
    requires forall j :: 0 <= j < |rows| && rows[j].id == id ==> !HasTag(rows[j])
    ensures Qualifying(rows, id) == []
  {
    if |rows| > 0 {
      assert forall j :: 0 <= j < |rows[1..]| ==> rows[1..][j] == rows[j + 1];
      QualifyingUntagged(rows[1..], id);
    }
  }

  lemma TagsOfAppend<F>(p: seq<Row<F>>, r: Row<F>, id: int)
    ensures TagsOf(p + [r], id) == TagsOf(p, id) + (if r.id == id then TagOf(r) else [])
  {
    QualifyingAppend(p, r, id);
  }

  lemma TagsOfAbsent<F>(rows: seq<Row<F>>, id: int)
    requires id !in IdSet(rows)
    ensures TagsOf(rows, id) == []
  {
    QualifyingUntagged(rows, id);
  }

  // ---------------------------------------------------------------------
  // Correctness of the hydrator
  // ---------------------------------------------------------------------

  /** The aggregate for an id already seen is the one `IndexOf` finds. */
  lemma IndexOfSeen<F>(acc: seq<Note<F>>, k: nat, id: int)
    requires UniqueIds(acc) && k < |acc| && acc[k].id == id
    ensures IndexOf(acc, id) == Some(k)
  {
  }

  lemma IndexOfUnseen<F>(acc: seq<Note<F>>, id: int)
    requires id !in NoteIds(acc)
    ensures IndexOf(acc, id) == None
  {
  }

  /** The aggregate update a row for an already-seen note performs. */
  function AddTags<F>(acc: seq<Note<F>>, k: nat, r: Row<F>): (out: seq<Note<F>>)
    requires k < |acc|
    ensures |out| == |acc|
    ensures forall i :: 0 <= i < |out| ==> out[i].id == acc[i].id && out[i].fields == acc[i].fields
    ensures forall i :: 0 <= i < |out| ==> out[i].tags == acc[i].tags + (if i == k then TagOf(r) else [])
  {
    acc[k := acc[k].(tags := acc[k].tags + TagOf(r))]
  }

  lemma SeenIds<F>(p: seq<Row<F>>, r: Row<F>, acc: seq<Note<F>>, k: nat)
    requires OnePerId(p, acc) && k < |acc| && acc[k].id == r.id
    ensures OnePerId(p + [r], AddTags(acc, k, r))
  {
    var out := AddTags(acc, k, r);
    IdSetAppend(p, r);
    NoteIdsPointwise(out, acc);
  }

  lemma SeenOrderAndFields<F>(p: seq<Row<F>>, r: Row<F>, acc: seq<Note<F>>, k: nat)
    requires OnePerId(p, acc) && k < |acc| && acc[k].id == r.id
    requires FirstOccurrenceOrdered(p, acc) && FirstRowFields(p, acc)
    ensures OnePerId(p + [r], AddTags(acc, k, r))
    ensures FirstOccurrenceOrdered(p + [r], AddTags(acc, k, r))
    ensures FirstRowFields(p + [r], AddTags(acc, k, r))
  {
    SeenIds(p, r, acc, k);
    var out := AddTags(acc, k, r);
    forall i | 0 <= i < |out|
      ensures FirstIndex(p + [r], out[i].id) == FirstIndex(p, acc[i].id)
    {
      FirstIndexAppend(p, r, acc[i].id);
    }
  }

  lemma SeenTags<F>(p: seq<Row<F>>, r: Row<F>, acc: seq<Note<F>>, k: nat)
    requires AllRowTags(p, acc) && k < |acc| && acc[k].id == r.id
    requires UniqueIds(acc)
    ensures AllRowTags(p + [r], AddTags(acc, k, r))
  {
    var out := AddTags(acc, k, r);
    forall i | 0 <= i < |out|
      ensures out[i].tags == TagsOf(p + [r], out[i].id)
    {
      TagsOfAppend(p, r, out[i].id);
    }
  }

  /** A row for a note already seen: the aggregates keep their ids, order
      and fields, and only that note's tags grow. */
  lemma StepSeen<F>(p: seq<Row<F>>, r: Row<F>, acc: seq<Note<F>>)
    requires Hydrated(p, acc)
    requires r.id in IdSet(p)
    ensures Hydrated(p + [r], Step(acc, r))
  {
    var k :| 0 <= k < |acc| && acc[k].id == r.id;
    IndexOfSeen(acc, k, r.id);
    assert Step(acc, r) == AddTags(acc, k, r);
    SeenOrderAndFields(p, r, acc, k);
    SeenTags(p, r, acc, k);
  }

  lemma UnseenIds<F>(p: seq<Row<F>>, r: Row<F>, acc: seq<Note<F>>)
    requires OnePerId(p, acc) && r.id !in IdSet(p)
    ensures OnePerId(p + [r], acc + [Note(r.id, r.fields, TagOf(r))])
  {
    var out := acc + [Note(r.id, r.fields, TagOf(r))];
    IdSetAppend(p, r);
    NoteIdsSnoc(acc, Note(r.id, r.fields, TagOf(r)));
  }

  lemma UnseenOrderAndFields<F>(p: seq<Row<F>>, r: Row<F>, acc: seq<Note<F>>)
    requires OnePerId(p, acc) && r.id !in IdSet(p)
    requires FirstOccurrenceOrdered(p, acc) && FirstRowFields(p, acc)
    ensures OnePerId(p + [r], acc + [Note(r.id, r.fields, TagOf(r))])
    ensures FirstOccurrenceOrdered(p + [r], acc + [Note(r.id, r.fields, TagOf(r))])
    ensures FirstRowFields(p + [r], acc + [Note(r.id, r.fields, TagOf(r))])
  {
    UnseenIds(p, r, acc);
    var out := acc + [Note(r.id, r.fields, TagOf(r))];
    FirstIndexNew(p, r);
    forall i | 0 <= i < |acc|
      ensures FirstIndex(p + [r], out[i].id) == FirstIndex(p, acc[i].id) < |p|
    {
      FirstIndexAppend(p, r, acc[i].id);
    }
  }

  lemma UnseenTags<F>(p: seq<Row<F>>, r: Row<F>, acc: seq<Note<F>>)
    requires AllRowTags(p, acc) && OnePerId(p, acc) && r.id !in IdSet(p)
    ensures AllRowTags(p + [r], acc + [Note(r.id, r.fields, TagOf(r))])
  {
    var out := acc + [Note(r.id, r.fields, TagOf(r))];
    TagsOfAbsent(p, r.id);
    forall i | 0 <= i < |out|
      ensures out[i].tags == TagsOf(p + [r], out[i].id)
    {
      TagsOfAppend(p, r, out[i].id);
      if i == |acc| {
        assert TagsOf(p + [r], r.id) == [] + TagOf(r);
      }
    }
  }

  /** A row for an unseen note appends a fresh aggregate holding the row's
      fields and tag. */
  lemma StepUnseen<F>(p: seq<Row<F>>, r: Row<F>, acc: seq<Note<F>>)
    requires Hydrated(p, acc)
    requires r.id !in IdSet(p)
    ensures Hydrated(p + [r], Step(acc, r))
  {
    assert r.id !in NoteIds(acc);
    IndexOfUnseen(acc, r.id);
    assert Step(acc, r) == acc + [Note(r.id, r.fields, TagOf(r))];
    UnseenOrderAndFields(p, r, acc);
    UnseenTags(p, r, acc);
  }

  /** One loop iteration turns the hydration of `p` into that of `p + [r]`. */
  lemma StepHydrates<F>(p: seq<Row<F>>, r: Row<F>, acc: seq<Note<F>>)
    requires Hydrated(p, acc)
    ensures Hydrated(p + [r], Step(acc, r))
  {
    if r.id in IdSet(p) {
      StepSeen(p, r, acc);
    } else {
      StepUnseen(p, r, acc);
    }
  }

  /** The hydrator meets its description: exactly one aggregate per distinct
      id, in first-occurrence order, with first-row fields and all the
      qualifying tags in row order. */
  lemma {:induction false} HydrateCorrect<F>(rows: seq<Row<F>>)
    ensures Hydrated(rows, Hydrate(rows))
    decreases |rows|
  {
    if |rows| == 0 {
      assert NoteIds(Hydrate(rows)) == {};
    } else {
      var p := rows[..|rows| - 1];
      var r := rows[|rows| - 1];
      assert rows == p + [r];
      HydrateCorrect(p);
      StepHydrates(p, r, Hydrate(p));
    }
  }

  lemma {:induction false} UniqueIdsCount<F>(notes: seq<Note<F>>)
    requires UniqueIds(notes)
    ensures |NoteIds(notes)| == |notes|
    decreases |notes|
  {
    if |notes| > 0 {
      var p := notes[..|notes| - 1];
      var n := notes[|notes| - 1];
      assert notes == p + [n];
      assert UniqueIds(p) by {
        forall i, j | 0 <= i < j < |p| ensures p[i].id != p[j].id {
          assert notes[i].id != notes[j].id;
        }
      }
      UniqueIdsCount(p);
      NoteIdsSnoc(p, n);
      assert n.id !in NoteIds(p) by {
        forall i | 0 <= i < |p| ensures p[i].id != n.id {
          assert notes[i].id != notes[|p|].id;
        }
      }
    }
  }

  lemma HydrateUniqueIds<F>(rows: seq<Row<F>>)
    ensures UniqueIds(Hydrate(rows))
  {
    HydrateCorrect(rows);
  }

  /** The output has exactly as many aggregates as the input has distinct ids. */
  lemma HydrateCount<F>(rows: seq<Row<F>>)
    ensures |Hydrate(rows)| == |IdSet(rows)|
  {
    HydrateCorrect(rows);
    UniqueIdsCount(Hydrate(rows));
  }

  /** A note none of whose rows carries a tag ends with `tags == []`. */
  lemma UntaggedNoteHasNoTags<F>(rows: seq<Row<F>>, i: nat)
    requires i < |Hydrate(rows)|
    requires forall j :: 0 <= j < |rows| && rows[j].id == Hydrate(rows)[i].id ==> !HasTag(rows[j])
    ensures Hydrate(rows)[i].tags == []
  {
    HydrateCorrect(rows);
    QualifyingUntagged(rows, Hydrate(rows)[i].id);
  }

  /** A row for an id already seen changes nothing but that note's tags,
      which grow by the row's own tag, if any. */
  lemma LaterRowOnlyAddsTags<F>(p: seq<Row<F>>, r: Row<F>)
    requires r.id in IdSet(p)
    ensures |Hydrate(p + [r])| == |Hydrate(p)|
    ensures forall i :: 0 <= i < |Hydrate(p)| ==>
      && Hydrate(p + [r])[i].id == Hydrate(p)[i].id
      && Hydrate(p + [r])[i].fields == Hydrate(p)[i].fields
      && Hydrate(p + [r])[i].tags == Hydrate(p)[i].tags + (if Hydrate(p)[i].id == r.id then TagOf(r) else [])
  {
    var acc := Hydrate(p);
    assert (p + [r])[..|p|] == p;
    assert Hydrate(p + [r]) == Step(acc, r);
    HydrateCorrect(p);
    var k :| 0 <= k < |acc| && acc[k].id == r.id;
    IndexOfSeen(acc, k, r.id);
  }

  /** The hydrator of the empty stream is empty. */
  lemma HydrateEmpty<F>()
    ensures Hydrate<F>([]) == []
  {
  }

  // ---------------------------------------------------------------------
  // Round trip with the join that produces the rows
  // ---------------------------------------------------------------------

  /** The rows a left join of notes with their tags yields for one note: one
      row per tag, or a single row with NULL tag columns. */
  function JoinRows<F>(n: Note<F>): seq<Row<F>>
  {
    if |n.tags| == 0 then [Row(n.id, n.fields, None, None)]
    else seq(|n.tags|, k requires 0 <= k < |n.tags| => Row(n.id, n.fields, Some(n.tags[k].id), Some(n.tags[k].name)))
  }

  /** The join of a sequence of notes, note after note. */
  function Join<F>(notes: seq<Note<F>>): seq<Row<F>>
  {
    if |notes| == 0 then [] else Join(notes[..|notes| - 1]) + JoinRows(notes[|notes| - 1])
  }

  /** Aggregates the join can reproduce: distinct ids and truthy tag fields. */
  ghost predicate Joinable<F>(notes: seq<Note<F>>)
  {
    && UniqueIds(notes)
    && forall i, k :: 0 <= i < |notes| && 0 <= k < |notes[i].tags| ==>
         notes[i].tags[k].id != 0 && notes[i].tags[k].name != ""
  }

  lemma {:induction false} HydrateFromAppend<F>(acc: seq<Note<F>>, a: seq<Row<F>>, b: seq<Row<F>>)
    ensures HydrateFrom(acc, a + b) == HydrateFrom(HydrateFrom(acc, a), b)
    decreases |b|
  {
    if |b| == 0 {
      assert a + b == a;
    } else {
      var b' := b[..|b| - 1];
      assert (a + b)[..|a + b| - 1] == a + b';
      assert (a + b)[|a + b| - 1] == b[|b| - 1];
      HydrateFromAppend(acc, a, b');
    }
  }

  /** Feeding the first `m` join rows of a tagged note `n` after `acc`. */
  lemma {:induction false} HydrateJoinRowsPrefix<F>(acc: seq<Note<F>>, n: Note<F>, m: nat)
    requires n.id !in NoteIds(acc)
    requires 1 <= m <= |n.tags|
    requires forall k :: 0 <= k < |n.tags| ==> n.tags[k].id != 0 && n.tags[k].name != ""
    ensures HydrateFrom(acc, JoinRows(n)[..m]) == acc + [Note(n.id, n.fields, n.tags[..m])]
    decreases m
  {
    var rows := JoinRows(n);
    if m == 1 {
      assert rows[..1][..0] == [];
      IndexOfUnseen(acc, n.id);
      assert TagOf(rows[0]) == [n.tags[0]];
      assert n.tags[..1] == [n.tags[0]];
    } else {
      HydrateJoinRowsPrefix(acc, n, m - 1);
      assert rows[..m][..m - 1] == rows[..m - 1];
      var before := acc + [Note(n.id, n.fields, n.tags[..m - 1])];
      IndexOfUnseen(acc, n.id);
      assert IndexOf(before, n.id) == Some(|acc|) by {
        assert before[|acc|].id == n.id;
      }
      assert TagOf(rows[m - 1]) == [n.tags[m - 1]];
      assert n.tags[..m - 1] + [n.tags[m - 1]] == n.tags[..m];
    }
  }

  lemma HydrateJoinRows<F>(acc: seq<Note<F>>, n: Note<F>)
    requires n.id !in NoteIds(acc)
    requires forall k :: 0 <= k < |n.tags| ==> n.tags[k].id != 0 && n.tags[k].name != ""
    ensures HydrateFrom(acc, JoinRows(n)) == acc + [n]
  {
    if |n.tags| == 0 {
      var rows := JoinRows(n);
      assert rows[..0] == [];
      IndexOfUnseen(acc, n.id);
    } else {
      HydrateJoinRowsPrefix(acc, n, |n.tags|);
      assert JoinRows(n)[..|n.tags|] == JoinRows(n);
      assert n.tags[..|n.tags|] == n.tags;
    }
  }

  /** Hydrating the join of well-formed aggregates gives them back: the
      hydrator inverts the join. */
  lemma {:induction false} HydrateJoin<F>(notes: seq<Note<F>>)
    requires Joinable(notes)
    ensures Hydrate(Join(notes)) == notes
    decreases |notes|
  {
    if |notes| > 0 {
      var p := notes[..|notes| - 1];
      var n := notes[|notes| - 1];
      assert Joinable(p) by {
        forall i, j | 0 <= i < j < |p| ensures p[i].id != p[j].id {
          assert notes[i].id != notes[j].id;
        }
      }
      HydrateJoin(p);
      assert Join(notes) == Join(p) + JoinRows(n);
      HydrateFromAppend([], Join(p), JoinRows(n));
      assert forall k :: 0 <= k < |n.tags| ==> n.tags[k].id != 0 && n.tags[k].name != "" by {
        assert n == notes[|notes| - 1];
      }
      assert n.id !in NoteIds(p) by {
        forall i | 0 <= i < |p| ensures p[i].id != n.id {
          assert notes[i].id != notes[|p|].id;
        }
      }
      HydrateJoinRows(p, n);
      assert p + [n] == notes;
    }
  }

  // ---------------------------------------------------------------------
  // Feeding the hydrator its own output
  // ---------------------------------------------------------------------

  /** Aggregates read back as rows: an aggregate has `tags` but no
      `tag_id`/`tagName`, so each one is a row without a tag. */
  function AsRows<F>(notes: seq<Note<F>>): seq<Row<F>>
  {
    seq(|notes|, i requires 0 <= i < |notes| => Row(notes[i].id, notes[i].fields, None, None))
  }

  /** The same aggregates with every tag list emptied. */
  function WithoutTags<F>(notes: seq<Note<F>>): seq<Note<F>>
  {
    seq(|notes|, i requires 0 <= i < |notes| => notes[i].(tags := []))
  }

  lemma {:induction false} JoinWithoutTags<F>(notes: seq<Note<F>>)
    ensures Join(WithoutTags(notes)) == AsRows(notes)
    decreases |notes|
  {
    if |notes| > 0 {
      var p := notes[..|notes| - 1];
      var n := notes[|notes| - 1];
      JoinWithoutTags(p);
      assert WithoutTags(notes)[..|notes| - 1] == WithoutTags(p);
      assert AsRows(notes) == AsRows(p) + [Row(n.id, n.fields, None, None)];
    }
  }

  /** Hydrating already-hydrated aggregates is not a no-op: a first row
      resets `tags` to `[]`, and no row carries a tag to add back, so every
      aggregate comes back with its tags wiped. */
  lemma RehydrateWipesTags<F>(notes: seq<Note<F>>)
    requires UniqueIds(notes)
    ensures Hydrate(AsRows(notes)) == WithoutTags(notes)
  {
    var bare := WithoutTags(notes);
    assert Joinable(bare);
    JoinWithoutTags(notes);
    HydrateJoin(bare);
  }

  /** Whatever the aggregates, ids repeated or not, re-hydrating them
      leaves no tags at all. */
  lemma RehydratedTagsEmpty<F>(notes: seq<Note<F>>, i: nat)
    requires i < |Hydrate(AsRows(notes))|
    ensures Hydrate(AsRows(notes))[i].tags == []
  {
    UntaggedNoteHasNoTags(AsRows(notes), i);
  }

  /** A note with one tag, hydrated a second time, loses the tag. */
  lemma RehydrateLosesTag()
    ensures Hydrate(AsRows([Note(1, "A", [Tag(10, "x")])])) == [Note(1, "A", [])]
    ensures Hydrate(AsRows([Note(1, "A", [Tag(10, "x")])])) != [Note(1, "A", [Tag(10, "x")])]
  {
  }

  // ---------------------------------------------------------------------
  // Worked examples
  // ---------------------------------------------------------------------

  lemma HydrateSnoc<F>(p: seq<Row<F>>, r: Row<F>)
    ensures Hydrate(p + [r]) == Step(Hydrate(p), r)
  {
    assert (p + [r])[..|p|] == p;
  }

  /** Rows with ids 5, 5, 3, 3, 5 hydrate to notes 5 and 3, in that order. */
  lemma FirstOccurrenceOrder()
    ensures var out := Hydrate([Row(5, "a", None, None), Row(5, "a", None, None), Row(3, "b", None, None),
                                Row(3, "b", None, None), Row(5, "a", None, None)]);
            |out| == 2 && out[0].id == 5 && out[1].id == 3
  {
    var five, three := Row(5, "a", None, None), Row(3, "b", None, None);
    var n5, n3 := Note(5, "a", []), Note(3, "b", []);
    HydrateSnoc([], five);
    assert [] + [five] == [five];
    assert Hydrate([five]) == [n5];
    HydrateSnoc([five], five);
    assert [five] + [five] == [five, five];
    assert IndexOf([n5], 5) == Some(0);
    assert TagOf(five) == [];
    assert Step([n5], five) == [n5][0 := n5.(tags := n5.tags + [])];
    assert n5.tags + [] == n5.tags;
    assert n5.(tags := n5.tags) == n5;
    assert [n5][0 := n5] == [n5];
    assert Hydrate([five, five]) == [n5];
    HydrateSnoc([five, five], three);
    assert [five, five] + [three] == [five, five, three];
    assert IndexOf([n5], 3) == None;
    assert Hydrate([five, five, three]) == [n5, n3];
    HydrateSnoc([five, five, three], three);
    assert [five, five, three] + [three] == [five, five, three, three];
    assert IndexOf([n5, n3], 3) == Some(1);
    assert Hydrate([five, five, three, three]) == [n5, n3];
    HydrateSnoc([five, five, three, three], five);
    assert IndexOf([n5, n3], 5) == Some(0);
    assert [five, five, three, three] + [five] == [five, five, three, three, five];
    assert Hydrate([five, five, three, three, five]) == [n5, n3];
  }

  /** Two rows pairing note 1 with tags 10 and 11, and one untagged row for
      note 2, hydrate to note 1 with both tags and note 2 with none. */
  lemma TwoNotesExample()
    ensures Hydrate([Row(1, "A", Some(10), Some("x")), Row(1, "A", Some(11), Some("y")), Row(2, "B", None, None)])
         == [Note(1, "A", [Tag(10, "x"), Tag(11, "y")]), Note(2, "B", [])]
  {
    var a, b, c := Row(1, "A", Some(10), Some("x")), Row(1, "A", Some(11), Some("y")), Row(2, "B", None, None);
    HydrateSnoc([], a);
    assert [] + [a] == [a];
    assert Hydrate([a]) == [Note(1, "A", [Tag(10, "x")])];
    HydrateSnoc([a], b);
    assert [a] + [b] == [a, b];
    assert IndexOf([Note(1, "A", [Tag(10, "x")])], 1) == Some(0);
    assert TagOf(b) == [Tag(11, "y")];
    assert [Tag(10, "x")] + [Tag(11, "y")] == [Tag(10, "x"), Tag(11, "y")];
    assert Hydrate([a, b]) == [Note(1, "A", [Tag(10, "x"), Tag(11, "y")])];
    HydrateSnoc([a, b], c);
    assert IndexOf([Note(1, "A", [Tag(10, "x"), Tag(11, "y")])], 2) == None;
    assert [a, b] + [c] == [a, b, c];
  }

  /** The same (note, tag) pair appearing twice yields the tag twice. */
  lemma RepeatedTagRowAppendsTwice()
    ensures Hydrate([Row(7, "n", Some(4), Some("t")), Row(7, "n", Some(4), Some("t"))])
         == [Note(7, "n", [Tag(4, "t"), Tag(4, "t")])]
  {
    var r := Row(7, "n", Some(4), Some("t"));
    HydrateSnoc([], r);
    assert [] + [r] == [r];
    assert Hydrate([r]) == [Note(7, "n", [Tag(4, "t")])];
    HydrateSnoc([r], r);
    assert [r] + [r] == [r, r];
    assert IndexOf([Note(7, "n", [Tag(4, "t")])], 7) == Some(0);
    assert TagOf(r) == [Tag(4, "t")];
    assert [Tag(4, "t")] + [Tag(4, "t")] == [Tag(4, "t"), Tag(4, "t")];
    assert Hydrate([r, r]) == [Note(7, "n", [Tag(4, "t")] + [Tag(4, "t")])];
  }

  // ---------------------------------------------------------------------
  // The loop as written, with its lookup table
  // ---------------------------------------------------------------------

  /** `hydrateNotes(input)` as a loop over the rows with a lookup table
      from note id to the position of its aggregate. */
  method HydrateNotes<F>(input: seq<Row<F>>) returns (hydrated: seq<Note<F>>)
    ensures hydrated == Hydrate(input)
    ensures Hydrated(input, hydrated)
  {
    hydrated := [];
    var lookup: map<int, nat> := map[];
    for n := 0 to |input|
      invariant hydrated == Hydrate(input[..n])
      invariant lookup.Keys == NoteIds(hydrated)
      invariant forall id :: id in lookup ==> lookup[id] < |hydrated| && hydrated[lookup[id]].id == id
    {
      var note := input[n];
      ghost var before := hydrated;
      assert input[..n + 1] == input[..n] + [note];
      HydrateSnoc(input[..n], note);
      HydrateUniqueIds(input[..n]);
      ghost var unseen := note.id !in lookup;
      if note.id !in lookup {
        lookup := lookup[note.id := |hydrated|];
        hydrated := hydrated + [Note(note.id, note.fields, [])];
      }
      var k := lookup[note.id];
      hydrated := hydrated[k := hydrated[k].(tags := hydrated[k].tags + TagOf(note))];
      if unseen {
        NewAggregate(before, note, hydrated);
      } else {
        SeenAggregate(before, note, k, hydrated);
      }
      StepKeepsPositions(before, note);
    }
    assert input[..|input|] == input;
    HydrateCorrect(input);
  }

  lemma NewAggregate<F>(before: seq<Note<F>>, r: Row<F>, after: seq<Note<F>>)
    requires r.id !in NoteIds(before)
    requires after == (before + [Note(r.id, r.fields, [])])[|before| := Note(r.id, r.fields, [] + TagOf(r))]
    ensures after == Step(before, r)
  {
    IndexOfUnseen(before, r.id);
    assert [] + TagOf(r) == TagOf(r);
  }

  lemma SeenAggregate<F>(before: seq<Note<F>>, r: Row<F>, k: nat, after: seq<Note<F>>)
    requires UniqueIds(before) && k < |before| && before[k].id == r.id
    requires after == before[k := before[k].(tags := before[k].tags + TagOf(r))]
    ensures after == Step(before, r)
  {
    IndexOfSeen(before, k, r.id);
  }

  /** A loop iteration keeps every aggregate at its position, and the ids
      present grow by the row's id. */
  lemma StepKeepsPositions<F>(acc: seq<Note<F>>, r: Row<F>)
    ensures |acc| <= |Step(acc, r)|
    ensures forall i :: 0 <= i < |acc| ==> Step(acc, r)[i].id == acc[i].id
    ensures NoteIds(Step(acc, r)) == NoteIds(acc) + {r.id}
  {
    match IndexOf(acc, r.id)
    case None =>
      NoteIdsSnoc(acc, Note(r.id, r.fields, TagOf(r)));
    case Some(k) =>
      assert r.id in NoteIds(acc) by {
        assert acc[k].id == r.id;
      }
      NoteIdsPointwise(Step(acc, r), acc);
  }
}
