/**
 The table of guard states (client/prompts/runtime_guard.py): one row per session, turn and
 workspace, at most 128 rows kept after every event, the ones updated last.

 A row's identity is opaque. Which of several rows with the same update time are deleted is
 left open, as SQLite leaves it; the results about which rows survive are for a clock that
 gives every handled event a later time.
 */
module GuardTable {
  import opened JsonValue
  import opened Guard
  import opened GuardRuns

  type Id = string

  const ROWS := 128

  datatype Row = Row(updated: real, state: State)

  type Rows = map<Id, Row>

  /** Some outcome of deleting all but the most recently updated rows. */
  ghost predicate Trimmed(rows: Rows, kept: Rows) {
    kept.Keys <= rows.Keys && (forall id | id in kept :: kept[id] == rows[id])
    && (|rows| <= ROWS ==> kept == rows) && (|rows| > ROWS ==> |kept| == ROWS)
    && forall a, b | a in kept && b in rows && b !in kept :: rows[b].updated <= rows[a].updated
  }

  function StateOf(rows: Rows, id: Id): State {
    if id in rows then rows[id].state else FRESH
  }

  /** One handled event: a transition that raises changes nothing. */
  ghost predicate Handles(rows: Rows, id: Id, e: Event, now: real, r: Outcome<Reply>, next: Rows) {
    match Step(StateOf(rows, id), e)
    case Raise => r == Raise && next == rows
    case Ok((t, reply)) => r == Ok(reply) && Trimmed(rows[id := Row(now, t)], next)
  }

  lemma {:induction false} OldestExists(rows: Rows, ids: set<Id>)
    requires ids != {} && ids <= rows.Keys
    ensures exists oldest :: oldest in ids && forall id | id in ids :: rows[oldest].updated <= rows[id].updated
    decreases ids
  {
    var x :| x in ids;
    var rest := ids - {x};
    if rest == {} {
      assert ids == {x};
    } else {
      OldestExists(rows, rest);
      var y :| y in rest && forall id | id in rest :: rows[y].updated <= rows[id].updated;
      if rows[x].updated <= rows[y].updated {
        assert forall id | id in ids :: id == x || id in rest;
        assert x in ids && forall id | id in ids :: rows[x].updated <= rows[id].updated;
      } else {
        assert forall id | id in ids :: id == x || id in rest;
        assert y in ids && forall id | id in ids :: rows[y].updated <= rows[id].updated;
      }
    }
  }

  class GuardStore {
    var rows: Rows

    constructor ()
      ensures rows == map[]
    {
      rows := map[];
    }

    method Handle(id: Id, e: Event, now: real) returns (r: Outcome<Reply>)
      modifies this
      ensures Handles(old(rows), id, e, now, r, rows)
    {
      var guard := new GuardState.Load(StateOf(rows, id));
      r := guard.Transition(e);
      if r.Ok? {
        rows := rows[id := Row(now, guard.Value())];
        ghost var all := rows;
        while |rows| > ROWS
          invariant rows.Keys <= all.Keys && forall x | x in rows :: rows[x] == all[x]
          invariant |all| <= ROWS ==> rows == all
          invariant |all| > ROWS ==> |rows| >= ROWS
          invariant forall a, b | a in rows && b in all && b !in rows :: all[b].updated <= all[a].updated
          decreases |rows|
        {
          OldestExists(rows, rows.Keys);
          var oldest :| oldest in rows && forall x | x in rows :: rows[oldest].updated <= rows[x].updated;
          ghost var before := rows;
          rows := rows - {oldest};
          assert rows.Keys == before.Keys - {oldest};
          assert |rows.Keys| == |before.Keys| - 1;
        }
      }
    }
  }

  // ---------------------------------------------------------------- runs of the table

  datatype Visit = Visit(id: Id, e: Event, now: real)

  /** A run: the visits, and the table before the first and after each of them. */
  ghost predicate Run(vs: seq<Visit>, tables: seq<Rows>) {
    |tables| == |vs| + 1 && tables[0] == map[]
    && forall i | 0 <= i < |vs| :: Visited(tables[i], vs[i], tables[i + 1])
  }

  ghost predicate Visited(rows: Rows, v: Visit, next: Rows) {
    exists r :: Handles(rows, v.id, v.e, v.now, r, next)
  }

  /** The clock gives every visit a later time. */
  predicate Increasing(vs: seq<Visit>) {
    forall i, j | 0 <= i < j < |vs| :: vs[i].now < vs[j].now
  }

  /** The visit's transition did not raise. */
  predicate Took(rows: Rows, v: Visit) {
    Step(StateOf(rows, v.id), v.e).Ok?
  }

  /** A visit changes no other row that survives it, and a raising one changes nothing at all. */
  lemma OtherRowsKept(rows: Rows, v: Visit, next: Rows)
    requires Visited(rows, v, next)
    ensures !Took(rows, v) ==> next == rows
    ensures forall id | id in next && id != v.id :: id in rows && next[id] == rows[id]
  {
  }

  /** The events of a row since it was created. */
  ghost function Log(vs: seq<Visit>, tables: seq<Rows>, n: nat, id: Id): seq<Event>
    requires Run(vs, tables) && n <= |vs|
  {
    if n == 0 then []
    else if vs[n - 1].id != id || !Took(tables[n - 1], vs[n - 1]) then Log(vs, tables, n - 1, id)
    else (if id in tables[n - 1] then Log(vs, tables, n - 1, id) else []) + [vs[n - 1].e]
  }

  /** Every row holds the state its own events lead to, so all results about runs of a guard apply to it. */
  lemma {:induction false} RowIsRun(vs: seq<Visit>, tables: seq<Rows>, n: nat, id: Id)
    requires Run(vs, tables) && n <= |vs| && id in tables[n]
    ensures tables[n][id].state == After(Log(vs, tables, n, id))
  {
    if n > 0 {
      var v := vs[n - 1];
      assert Visited(tables[n - 1], v, tables[n]);
      if id in tables[n - 1] {
        RowIsRun(vs, tables, n - 1, id);
      }
      if v.id == id && Took(tables[n - 1], v) {
        var log := Log(vs, tables, n, id);
        assert log[..|log| - 1] == if id in tables[n - 1] then Log(vs, tables, n - 1, id) else [];
      } else {
        OtherRowsKept(tables[n - 1], v, tables[n]);
      }
    }
  }

  // ---------------------------------------------------------------- which rows survive

  function Without(l: seq<Id>, id: Id): seq<Id> {
    if l == [] then [] else if l[0] == id then Without(l[1..], id) else [l[0]] + Without(l[1..], id)
  }

  /** All ids handled so far, the most recently handled first. */
  ghost function Recent(vs: seq<Visit>, tables: seq<Rows>, n: nat): seq<Id>
    requires Run(vs, tables) && n <= |vs|
  {
    if n == 0 then []
    else
      var before := Recent(vs, tables, n - 1);
      if Took(tables[n - 1], vs[n - 1]) then [vs[n - 1].id] + Without(before, vs[n - 1].id) else before
  }

  function First<T>(l: seq<T>, n: nat): seq<T> {
    if |l| <= n then l else l[..n]
  }

  /** The rows are listed from the latest update to the earliest. */
  ghost predicate Descending(rows: Rows, l: seq<Id>) {
    l == [] ||
    (l[0] in rows && (forall x | x in l[1..] :: x in rows && rows[x].updated < rows[l[0]].updated)
     && Descending(rows, l[1..]))
  }

  ghost predicate Ordered(rows: Rows, l: seq<Id>) {
    (forall id :: id in rows <==> id in l) && Descending(rows, l)
  }

  lemma Elements(l: seq<Id>)
    requires l != []
    ensures forall x :: x in l <==> x == l[0] || x in l[1..]
  {
    assert l == [l[0]] + l[1..];
  }

  lemma {:induction false} WithoutSpec(rows: Rows, l: seq<Id>, id: Id)
    requires Descending(rows, l)
    ensures Descending(rows, Without(l, id))
    ensures forall x :: x in Without(l, id) <==> x in l && x != id
    ensures if id in l then |Without(l, id)| == |l| - 1 else Without(l, id) == l
  {
    if l != [] {
      Elements(l);
      WithoutSpec(rows, l[1..], id);
      if l[0] != id {
        Elements(Without(l, id));
        assert Without(l, id)[1..] == Without(l[1..], id);
      }
    }
  }

  lemma {:induction false} ListSize(rows: Rows, l: seq<Id>, ids: set<Id>)
    requires Descending(rows, l) && forall id :: id in ids <==> id in l
    ensures |ids| == |l|
    decreases l
  {
    if l == [] {
      assert ids == {};
    } else {
      Elements(l);
      ListSize(rows, l[1..], ids - {l[0]});
    }
  }

  /** Updating a row moves it to the front. */
  lemma TouchOrdered(rows: Rows, l: seq<Id>, id: Id, row: Row)
    requires Ordered(rows, l) && forall x | x in rows :: rows[x].updated < row.updated
    ensures Ordered(rows[id := row], [id] + Without(l, id))
  {
    WithoutSpec(rows, l, id);
    DescendingElsewhere(rows, rows[id := row], Without(l, id));
    var next := [id] + Without(l, id);
    Elements(next);
    assert next[1..] == Without(l, id);
  }

  lemma {:induction false} DescendingElsewhere(rows: Rows, rows': Rows, l: seq<Id>)
    requires Descending(rows, l) && forall x | x in l :: x in rows && x in rows' && rows'[x] == rows[x]
    ensures Descending(rows', l)
  {
    if l != [] {
      Elements(l);
      DescendingElsewhere(rows, rows', l[1..]);
    }
  }

  /** The last of a descending list is the earliest. */
  lemma {:induction false} DescendingLast(rows: Rows, l: seq<Id>)
    requires Descending(rows, l) && l != []
    ensures
      var n := |l| - 1;
      l[n] in rows && Descending(rows, l[..n])
      && (forall x | x in l[..n] :: x in rows && rows[l[n]].updated < rows[x].updated)
      && forall x :: x in l <==> x == l[n] || x in l[..n]
  {
    var n := |l| - 1;
    Elements(l);
    if n > 0 {
      DescendingLast(rows, l[1..]);
      assert l[..n][1..] == l[1..][..n - 1];
      Elements(l[..n]);
    }
  }

  lemma SameSizeSubset(a: set<Id>, b: set<Id>)
    requires a <= b && |a| == |b|
    ensures a == b
  {
    if x :| x in b && x !in a {
      SubsetSize(a, b - {x});
    }
  }

  lemma {:induction false} SubsetSize(a: set<Id>, b: set<Id>)
    requires a <= b
    ensures |a| <= |b|
    decreases a
  {
    if a != {} {
      var x :| x in a;
      SubsetSize(a - {x}, b - {x});
    }
  }

  lemma SomeDeleted(all: set<Id>, kept: set<Id>)
    requires kept <= all && |kept| < |all|
    ensures exists id :: id in all && id !in kept
  {
    if forall id | id in all :: id in kept {
      SubsetSize(all, kept);
    }
  }

  /** Deleting all but the latest rows of an ordered table keeps the front of its list. */
  lemma TrimOrdered(rows: Rows, l: seq<Id>, kept: Rows)
    requires Ordered(rows, l) && |l| <= ROWS + 1 && Trimmed(rows, kept)
    ensures Ordered(kept, First(l, ROWS))
  {
    ListSize(rows, l, rows.Keys);
    if |l| > ROWS {
      var least := l[ROWS];
      DescendingLast(rows, l);
      SomeDeleted(rows.Keys, kept.Keys);
      SameSizeSubset(kept.Keys, rows.Keys - {least});
      DescendingElsewhere(rows, kept, l[..ROWS]);
    }
  }

  /** The first n of a list without one id depend only on the first n + 1 of the list. */
  lemma {:induction false} FirstWithout(rows: Rows, l: seq<Id>, id: Id, n: nat)
    requires Descending(rows, l)
    ensures First(Without(l, id), n) == First(Without(First(l, n + 1), id), n)
  {
    if l != [] && n > 0 {
      var rest := l[1..];
      assert First(l, n + 1)[1..] == First(rest, n);
      Elements(l);
      if l[0] == id {
        WithoutSpec(rows, rest, id);
        DescendingFirst(rows, rest, n);
        WithoutSpec(rows, First(rest, n), id);
      } else {
        FirstWithout(rows, rest, id, n - 1);
      }
    }
  }

  lemma {:induction false} DescendingFirst(rows: Rows, l: seq<Id>, n: nat)
    requires Descending(rows, l)
    ensures Descending(rows, First(l, n)) && forall x | x in First(l, n) :: x in l
  {
    if |l| > n {
      DescendingLast(rows, l);
      DescendingFirst(rows, l[..|l| - 1], n);
      assert l[..|l| - 1][..n] == l[..n] || |l| - 1 == n;
    }
  }

  /** Every id ever handled with the time of its last visit, as if no row were ever deleted. */
  ghost function Untrimmed(vs: seq<Visit>, tables: seq<Rows>, n: nat): Rows
    requires Run(vs, tables) && n <= |vs|
  {
    if n == 0 then map[]
    else if Took(tables[n - 1], vs[n - 1])
    then Untrimmed(vs, tables, n - 1)[vs[n - 1].id := Row(vs[n - 1].now, FRESH)]
    else Untrimmed(vs, tables, n - 1)
  }

  ghost predicate AllBefore(rows: Rows, vs: seq<Visit>, n: nat)
    requires n <= |vs|
  {
    forall id | id in rows :: exists i | 0 <= i < n :: rows[id].updated == vs[i].now
  }

  lemma FirstPrepended(id: Id, l: seq<Id>)
    ensures First([id] + l, ROWS) == [id] + First(l, ROWS - 1)
  {
  }

  lemma {:induction false} SurvivorsOrdered(vs: seq<Visit>, tables: seq<Rows>, n: nat)
    requires Run(vs, tables) && Increasing(vs) && n <= |vs|
    ensures Ordered(Untrimmed(vs, tables, n), Recent(vs, tables, n))
    ensures Ordered(tables[n], First(Recent(vs, tables, n), ROWS))
    ensures AllBefore(Untrimmed(vs, tables, n), vs, n) && AllBefore(tables[n], vs, n)
  {
    if n > 0 {
      SurvivorsOrdered(vs, tables, n - 1);
      SurvivorsStep(vs, tables, n);
    }
  }

  lemma SurvivorsStep(vs: seq<Visit>, tables: seq<Rows>, n: nat)
    requires Run(vs, tables) && Increasing(vs) && 0 < n <= |vs|
    requires Ordered(Untrimmed(vs, tables, n - 1), Recent(vs, tables, n - 1))
    requires Ordered(tables[n - 1], First(Recent(vs, tables, n - 1), ROWS))
    requires AllBefore(Untrimmed(vs, tables, n - 1), vs, n - 1) && AllBefore(tables[n - 1], vs, n - 1)
    ensures Ordered(Untrimmed(vs, tables, n), Recent(vs, tables, n))
    ensures Ordered(tables[n], First(Recent(vs, tables, n), ROWS))
    ensures AllBefore(Untrimmed(vs, tables, n), vs, n) && AllBefore(tables[n], vs, n)
  {
    hide Descending, Ordered, Step, Without;
    var rows, v := tables[n - 1], vs[n - 1];
    var all, recent := Untrimmed(vs, tables, n - 1), Recent(vs, tables, n - 1);
    assert Visited(rows, v, tables[n]);
    if Took(rows, v) {
      TouchOrdered(all, recent, v.id, Row(v.now, FRESH));
      var row := Row(v.now, Step(StateOf(rows, v.id), v.e).value.0);
      var top := First(recent, ROWS);
      TouchOrdered(rows, top, v.id, row);
      WithoutShorter(top, v.id);
      TrimOrdered(rows[v.id := row], [v.id] + Without(top, v.id), tables[n]);
      OrderedDescending(all, recent);
      FirstWithout(all, recent, v.id, ROWS - 1);
      FirstPrepended(v.id, Without(top, v.id));
      FirstPrepended(v.id, Without(recent, v.id));
    }
  }

  lemma WithoutShorter(l: seq<Id>, id: Id)
    ensures |Without(l, id)| <= |l|
  {
  }

  lemma OrderedDescending(rows: Rows, l: seq<Id>)
    requires Ordered(rows, l)
    ensures Descending(rows, l)
  {
  }

  /** With an increasing clock the table holds exactly the 128 most recently handled ids. */
  lemma MostRecentSurvive(vs: seq<Visit>, tables: seq<Rows>, n: nat, id: Id)
    requires Run(vs, tables) && Increasing(vs) && n <= |vs|
    ensures id in tables[n] <==> id in First(Recent(vs, tables, n), 128)
  {
    SurvivorsOrdered(vs, tables, n);
  }
}
