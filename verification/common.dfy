/** Values that may be missing: a SQL NULL column, an absent query parameter. */
module Common {

  datatype Option<+T> = None | Some(value: T)
}

/**
 * The JSON values a request body carries, and the JavaScript rules the
 * routers apply to them: truthiness (`if (!x)`) and key whitelisting
 * (`if (field in req.body) updateObj[field] = req.body[field]`).
 */
module Json {

  /** A JSON value. Fractional numbers are not modelled; see the README. */
  datatype Value =
    | Null
    | Bool(b: bool)
    | Num(n: int)
    | Str(s: string)
    | Arr(elems: seq<Value>)
    | Obj(members: map<string, Value>)

  /** A parsed request body: its keys and their values. */
  type Body = map<string, Value>

  /** JavaScript truthiness: null, false, 0 and "" are falsy; every array
      and every object, even an empty one, is truthy. */
  predicate Truthy(v: Value)
  {
    match v
    case Null => false
    case Bool(b) => b
    case Num(n) => n != 0
    case Str(s) => s != ""
    case Arr(_) => true
    case Obj(_) => true
  }

  /** Reading `body.key`: an absent key gives `undefined`. The reads made
      through `Get` treat it like `null`; a column that is left out of an
      insert is taken to default to NULL (see the README). */
  function Get(body: Body, key: string): Value
  {
    if key in body then body[key] else Null
  }

  /** The update object built from the updateable fields: a key is copied
      only when it is present in the body and whitelisted. */
  function Pick(body: Body, fields: set<string>): (picked: Body)
    ensures picked.Keys == body.Keys * fields
    ensures forall k :: k in picked ==> picked[k] == body[k]
  {
    map k | k in body && k in fields :: body[k]
  }

  /** Two bodies that agree on the whitelisted keys give the same update
      object, whatever else they carry. */
  lemma PickIgnoresOtherKeys(b1: Body, b2: Body, fields: set<string>)
    requires forall k :: k in fields ==> (k in b1 <==> k in b2)
    requires forall k :: k in fields && k in b1 ==> b1[k] == b2[k]
    ensures Pick(b1, fields) == Pick(b2, fields)
  {
  }
}

/** Substring search, the `LIKE '%term%'` predicate of the list routes. */
module Text {

  import opened Common
  import opened Json

  /** `term` occurs somewhere in `text`. */
  predicate Contains(text: string, term: string)
    decreases |text|
  {
    term <= text || (|text| > 0 && Contains(text[1..], term))
  }

  /** `Contains` agrees with the positional definition of a substring. */
  lemma {:induction false} ContainsAt(text: string, term: string)
    ensures Contains(text, term) <==> exists k :: 0 <= k <= |text| && term <= text[k..]
    decreases |text|
  {
    if term <= text {
      assert text[0..] == text;
    } else if |text| == 0 {
      forall k | 0 <= k <= |text|
        ensures !(term <= text[k..])
      {
        assert text[k..] == text;
      }
    } else {
      ContainsAt(text[1..], term);
      if Contains(text, term) {
        var k :| 0 <= k <= |text| - 1 && term <= text[1..][k..];
        assert text[1..][k..] == text[k + 1..];
      } else {
        forall k | 0 <= k <= |text|
          ensures !(term <= text[k..])
        {
          if k > 0 {
            assert text[1..][k - 1..] == text[k..];
          } else {
            assert text[k..] == text;
          }
        }
      }
    }
  }

  /** The search filter of the list routes: `WHERE column LIKE '%term%'`,
      added only when `searchTerm` is truthy. A column that holds no string
      never matches a non-empty term. */
  predicate Matches(column: Value, searchTerm: Option<string>)
  {
    match searchTerm
    case None => true
    case Some(term) => term == "" || (column.Str? && Contains(column.s, term))
  }
}

/** Tables keyed by integer primary key, and `ORDER BY id`. */
module Tables {

  /** A table: primary key to row. */
  type Table<R> = map<int, R>

  /** A row together with its primary key, as `SELECT *` returns it. */
  datatype Entry<R> = Entry(id: int, row: R)

  predicate Increasing(s: seq<int>)
  {
    forall i, j :: 0 <= i < j < |s| ==> s[i] < s[j]
  }

  /** Inserts `x` into an increasing sequence, keeping it increasing. */
  function Insert(s: seq<int>, x: int): (r: seq<int>)
    requires Increasing(s) && x !in s
    ensures Increasing(r)
    ensures forall y :: y in r <==> y in s || y == x
    ensures |r| == |s| + 1
  {
    if |s| == 0 then [x]
    else if x < s[0] then [x] + s
    else
      var tail := Insert(s[1..], x);
      assert forall j :: 0 <= j < |tail| ==> s[0] < tail[j] by {
        forall j | 0 <= j < |tail| ensures s[0] < tail[j] {
          assert tail[j] in tail;
          if tail[j] in s[1..] {
            var i :| 0 <= i < |s[1..]| && s[1..][i] == tail[j];
            assert s[i + 1] == tail[j];
          } else {
            assert s[0] != x;
          }
        }
      }
      [s[0]] + tail
  }

  /** The keys of a table in ascending order: what `ORDER BY id` yields. */
  method SortedIds(keys: set<int>) returns (ids: seq<int>)
    ensures Increasing(ids)
    ensures forall k :: k in ids <==> k in keys
    ensures |ids| == |keys|
  {
    ids := [];
    var rest := keys;
    while exists y :: y in rest
      invariant Increasing(ids)
      invariant forall k :: k in keys <==> k in ids || k in rest
      invariant forall k :: k in ids ==> k !in rest
      invariant |ids| + |rest| == |keys|
      decreases |rest|
    {
      var x :| x in rest;
      ids := Insert(ids, x);
      rest := rest - {x};
    }
  }
}

/** The HTTP outcomes the routes produce. */
module Http {

  /** 200 with a JSON body, 201 with a JSON body, 400 with `{message}`,
      or 204 with no body. */
  datatype Response<+T> = Ok(body: T) | Created(body: T) | BadRequest(message: string) | NoContent

  /** A response together with the table as the route leaves it. */
  datatype Reply<+T, +S> = Reply(response: Response<T>, state: S)

  const MissingTitle: string := "Missing `title` in request body"
  const MissingName: string := "Missing `name` in request body"
}

/**
 * The two routes every router shares verbatim: reading one row by its
 * primary key, and deleting one.
 */
module Rows {

  import opened Common
  import opened Tables
  import opened Http

  /** GET /<table>/:id: the row with that id, or an empty 200 when there is
      none (the route sends `undefined`, not a 404). */
  function GetById<R>(table: Table<R>, id: int): (res: Response<Option<Entry<R>>>)
    ensures res.Ok?
    ensures res.body.Some? <==> id in table
    ensures res.body.Some? ==> res.body.value.id == id && res.body.value.row == table[id]
  {
    if id in table then Ok(Some(Entry(id, table[id]))) else Ok(None)
  }

  /** DELETE /<table>/:id: removes the row with that id, if any, and always
      answers 204, whether or not a row was removed. */
  function DeleteById<R>(table: Table<R>, id: int): (reply: Reply<(), Table<R>>)
    ensures reply.response == NoContent
    ensures reply.state.Keys == table.Keys - {id}
    ensures forall other :: other in reply.state ==> reply.state[other] == table[other]
  {
    Reply(NoContent, map other | other in table && other != id :: table[other])
  }

  /** A deleted row no longer reads back. */
  lemma DeleteThenGet<R>(table: Table<R>, id: int)
    ensures GetById(DeleteById(table, id).state, id) == Ok(None)
  {
  }

  /** Deleting twice is deleting once. */
  lemma DeleteIdempotent<R>(table: Table<R>, id: int)
    ensures DeleteById(DeleteById(table, id).state, id) == DeleteById(table, id)
  {
    var once := DeleteById(table, id).state;
    var twice := DeleteById(once, id).state;
    assert twice.Keys == once.Keys;
    assert forall k :: k in twice ==> twice[k] == once[k];
    assert twice == once;
  }

  /** Deleting a row just inserted under a fresh id restores the table. */
  lemma InsertThenDelete<R>(table: Table<R>, id: int, row: R)
    requires id !in table
    ensures DeleteById(table[id := row], id).state == table
  {
  }
}
