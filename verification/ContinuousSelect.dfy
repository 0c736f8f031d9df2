/** The continuous select of `src/database.cpp` over the dispatch queue of `src/runloop.cpp`.

    A continuous select keeps a bitmap of the oids in its result.  Every change of the table is
    announced while the statement runs, but the listener only queues a closure; the closure runs
    later, when the run loop drains its queue, and then looks at the table as it is by that time.
    The functions below are the steps of that system; the class carries them out in place. */
module ContinuousSelect {

  type Oid = int

  datatype ChangeKind = Insert | Update | Delete

  /** A closure waiting in the dispatch queue: what happened, and to which row. */
  datatype Change = Change(kind: ChangeKind, oid: Oid)

  /** A call of the client's handler: the action, the oid, and the row that the statement stands on, if it does. */
  datatype Call<Row> = Inserted(oid: Oid, row: Row) | Updated(oid: Oid, row: Row) | Removed(oid: Oid)

  /** To which of several rows a statement steps first; SQLite decides. */
  type Plan = f: set<Oid> -> Oid | forall c: set<Oid> :: c != {} ==> f(c) in c
    ghost witness (c: set<Oid>) => if c == {} then 0 else AnyOf(c)

  ghost function AnyOf(c: set<Oid>): (oid: Oid)
    requires c != {}
    ensures oid in c
  {
    assert (forall oid :: oid !in c) ==> c == {};
    var oid :| oid in c;
    oid
  }

  /** The WHERE clause, split at its top-level ORs; no disjunct at all stands for an empty clause. */
  datatype Query<!Row> = Query(disjuncts: seq<Row -> bool>, first: Plan)

  datatype State<Row> = State(
    table: map<Oid, Row>,
    bitmap: set<Oid>,
    queue: seq<Change>,
    calls: seq<Call<Row>>,
    assertionHeld: bool)

  /** What can happen: a statement changes the table (and queues a closure), or the run loop pops one. */
  datatype Action<Row> =
    | InsertRow(oid: Oid, row: Row)
    | UpdateRow(oid: Oid, row: Row)
    | MoveRow(from: Oid, to: Oid, row: Row)
    | DeleteRow(oid: Oid)
    | Dispatch

  // ---------------------------------------------------------------- the query and its checker

  predicate Matches<Row>(q: Query<Row>, row: Row) {
    q.disjuncts == [] || exists i :: 0 <= i < |q.disjuncts| && q.disjuncts[i](row)
  }

  /** The result of the query. */
  ghost function Result<Row(!new)>(q: Query<Row>, table: map<Oid, Row>): map<Oid, Row> {
    map o | o in table && Matches(q, table[o]) :: table[o]
  }

  ghost function Without<Row>(rows: map<Oid, Row>, left: set<Oid>): map<Oid, Row> {
    map o | o in rows && o !in left :: rows[o]
  }

  lemma OneLessLeft<Row>(rows: map<Oid, Row>, left: set<Oid>, oid: Oid)
    requires oid in left && oid in rows
    ensures Without(rows, left - {oid}) == Without(rows, left)[oid := rows[oid]] && oid !in Without(rows, left)
  {
  }

  lemma WithoutAll<Row>(rows: map<Oid, Row>)
    ensures Without(rows, {}) == rows && Without(rows, rows.Keys) == map[]
  {
  }

  /** The result of the query, as a set of oids. */
  ghost function View<Row(!new)>(q: Query<Row>, table: map<Oid, Row>): set<Oid> {
    set o | o in table && Matches(q, table[o])
  }

  /** Whether some disjunct but the last accepts the row. */
  predicate EarlierDisjunct<Row>(q: Query<Row>, row: Row) {
    exists i :: 0 <= i < |q.disjuncts| - 1 && q.disjuncts[i](row)
  }

  /** Whether the check statement steps to a row.  Its text is the query's with " AND oid = ?"
      appended, and AND binds tighter than OR, so the oid only restricts the last disjunct. */
  predicate CheckFindsRow<Row>(q: Query<Row>, table: map<Oid, Row>, oid: Oid) {
    if q.disjuncts == [] then
      oid in table
    else
      exists o :: o in table && (EarlierDisjunct(q, table[o]) || (o == oid && q.disjuncts[|q.disjuncts| - 1](table[o])))
  }

  /** The rows to which the check statement can step. */
  function Candidates<Row>(q: Query<Row>, table: map<Oid, Row>, oid: Oid): (c: set<Oid>)
    ensures c <= table.Keys && (c != {} <==> CheckFindsRow(q, table, oid))
  {
    var c := set o | o in table && CanStep(q, table, oid, o);
    assert forall o :: o in c <==> o in table && CanStep(q, table, oid, o);
    c
  }

  predicate CanStep<Row>(q: Query<Row>, table: map<Oid, Row>, oid: Oid, o: Oid)
    requires o in table
  {
    if q.disjuncts == [] then o == oid
    else EarlierDisjunct(q, table[o]) || (o == oid && q.disjuncts[|q.disjuncts| - 1](table[o]))
  }

  /** The row that the check statement then stands on, and that the handler reads. */
  function CheckedRow<Row>(q: Query<Row>, table: map<Oid, Row>, oid: Oid): Row
    requires CheckFindsRow(q, table, oid)
  {
    table[q.first(Candidates(q, table, oid))]
  }

  /** Nothing but the last disjunct of the clause can hold; true of every clause without a top-level OR. */
  ghost predicate RowLocal<Row(!new)>(q: Query<Row>) {
    forall row :: !EarlierDisjunct(q, row)
  }

  /** The check statement answers "is this row in the result?" on every table exactly for the
      queries whose earlier disjuncts never hold. */
  lemma CheckIsRowLocal<Row(!new)>(q: Query<Row>)
    ensures RowLocal(q) <==>
            forall table: map<Oid, Row>, oid: Oid {:trigger CheckFindsRow(q, table, oid)} ::
              CheckFindsRow(q, table, oid) <==> oid in View(q, table)
  {
    if RowLocal(q) {
      forall table: map<Oid, Row>, oid: Oid
        ensures CheckFindsRow(q, table, oid) <==> oid in View(q, table)
      {
        if oid in table && Matches(q, table[oid]) && q.disjuncts != [] {
          var i :| 0 <= i < |q.disjuncts| && q.disjuncts[i](table[oid]);
          assert !EarlierDisjunct(q, table[oid]);
        }
      }
    } else {
      var row :| EarlierDisjunct(q, row);
      var table: map<Oid, Row> := map[0 := row];
      assert 0 in table && EarlierDisjunct(q, table[0]);
      assert CheckFindsRow(q, table, 1) && 1 !in View(q, table);
    }
  }

  /** For such a clause it is the row that was asked for. */
  lemma CheckedRowIsRow<Row(!new)>(q: Query<Row>, table: map<Oid, Row>, oid: Oid)
    requires RowLocal(q) && CheckFindsRow(q, table, oid)
    ensures oid in table && CheckedRow(q, table, oid) == table[oid]
  {
    var o := q.first(Candidates(q, table, oid));
    assert CanStep(q, table, oid, o) && !EarlierDisjunct(q, table[o]);
  }

  // ---------------------------------------------------------------- the steps

  ghost function Queued<Row>(s: State<Row>, table: map<Oid, Row>, change: Change): State<Row> {
    s.(table := table, queue := s.queue + [change])
  }

  /** The closure of the "insert" listener. */
  ghost function OnInsert<Row(!new)>(q: Query<Row>, s: State<Row>, oid: Oid): State<Row> {
    if CheckFindsRow(q, s.table, oid) then
      s.(assertionHeld := s.assertionHeld && oid !in s.bitmap,
         bitmap := s.bitmap + {oid},
         calls := s.calls + [Inserted(oid, CheckedRow(q, s.table, oid))])
    else if oid in s.bitmap then
      s.(bitmap := s.bitmap - {oid}, calls := s.calls + [Removed(oid)])
    else
      s
  }

  /** The closure of the "update" listener. */
  ghost function OnUpdate<Row(!new)>(q: Query<Row>, s: State<Row>, oid: Oid): State<Row> {
    if CheckFindsRow(q, s.table, oid) then
      s.(bitmap := s.bitmap + {oid},
         calls := s.calls + [if oid in s.bitmap then Updated(oid, CheckedRow(q, s.table, oid))
                             else Inserted(oid, CheckedRow(q, s.table, oid))])
    else if oid in s.bitmap then
      s.(bitmap := s.bitmap - {oid}, calls := s.calls + [Removed(oid)])
    else
      s
  }

  /** The closure of the "delete" listener. */
  ghost function OnDelete<Row>(s: State<Row>, oid: Oid): State<Row> {
    if oid in s.bitmap then
      s.(bitmap := s.bitmap - {oid}, calls := s.calls + [Removed(oid)])
    else
      s
  }

  ghost function RunClosure<Row(!new)>(q: Query<Row>, s: State<Row>, change: Change): State<Row> {
    match change.kind
    case Insert => OnInsert(q, s, change.oid)
    case Update => OnUpdate(q, s, change.oid)
    case Delete => OnDelete(s, change.oid)
  }

  /** One step.  A statement that SQLite rejects, or that affects no row, announces nothing. */
  ghost function Step<Row(!new)>(q: Query<Row>, s: State<Row>, a: Action<Row>): State<Row> {
    match a
    case InsertRow(oid, row) =>
      if oid in s.table then s else Queued(s, s.table[oid := row], Change(Insert, oid))
    case UpdateRow(oid, row) =>
      if oid in s.table then Queued(s, s.table[oid := row], Change(Update, oid)) else s
    case MoveRow(from, to, row) =>
      if from in s.table && to !in s.table
      then Queued(s, (s.table - {from})[to := row], Change(Update, to)) else s
    case DeleteRow(oid) =>
      if oid in s.table then Queued(s, s.table - {oid}, Change(Delete, oid)) else s
    case Dispatch =>
      if s.queue == [] then s else RunClosure(q, s.(queue := s.queue[1..]), s.queue[0])
  }

  ghost function Run<Row(!new)>(q: Query<Row>, s: State<Row>, actions: seq<Action<Row>>): State<Row>
    decreases |actions|
  {
    if actions == [] then s else Run(q, Step(q, s, actions[0]), actions[1..])
  }

  /** The run loop on its own. */
  function Dispatches<Row>(n: nat): seq<Action<Row>> {
    seq(n, _ => Dispatch)
  }

  lemma NoDispatches<Row>()
    ensures Dispatches<Row>(0) == []
  {
  }

  lemma CallsOnlyGrow<Row(!new)>(q: Query<Row>, s: State<Row>)
    ensures s.calls <= Step(q, s, Dispatch).calls
  {
  }

  lemma DispatchesUnfold<Row>(n: nat)
    ensures var more := Dispatches<Row>(n + 1); more[0] == Dispatch && more[1..] == Dispatches(n)
  {
  }

  /** The state after the initial scan, which inserts the rows of the result one by one. */
  ghost predicate Scanned<Row(!new)>(q: Query<Row>, s: State<Row>) {
    && s.bitmap == View(q, s.table)
    && s.queue == []
    && Replay(s.calls) == Shown(Result(q, s.table))
    && s.assertionHeld
  }

  // ---------------------------------------------------------------- the client's picture

  /** What a client that follows the handler calls shows, unless a call made no sense to it. */
  datatype Picture<Row> = Shown(rows: map<Oid, Row>) | Confused {
    /** These are the oids that are shown. */
    ghost predicate Has(oids: set<Oid>) {
      Shown? && rows.Keys == oids
    }
  }

  /** An insert must name a new row, an update or a removal one that is shown. */
  ghost function Follow<Row>(p: Picture<Row>, c: Call<Row>): Picture<Row> {
    match p
    case Confused => Confused
    case Shown(rows) =>
      match c
      case Inserted(oid, row) => if oid in rows then Confused else Shown(rows[oid := row])
      case Updated(oid, row) => if oid in rows then Shown(rows[oid := row]) else Confused
      case Removed(oid) => if oid in rows then Shown(rows - {oid}) else Confused
  }

  ghost function Replay<Row>(calls: seq<Call<Row>>): Picture<Row> {
    if calls == [] then Shown(map[]) else Follow(Replay(calls[..|calls| - 1]), calls[|calls| - 1])
  }

  lemma ReplayOneMore<Row>(calls: seq<Call<Row>>, c: Call<Row>)
    ensures Replay(calls + [c]) == Follow(Replay(calls), c)
  {
    assert (calls + [c])[..|calls|] == calls;
  }

  lemma NothingShown<Row>()
    ensures Replay<Row>([]) == Shown(map[])
  {
  }

  // ---------------------------------------------------------------- what is waiting

  ghost predicate Pending(queue: seq<Change>, oid: Oid) {
    exists i :: 0 <= i < |queue| && queue[i].oid == oid
  }

  datatype Waiting = Nothing | Closure(kind: ChangeKind)

  /** The last closure that waits for a row. */
  ghost function LastPending(queue: seq<Change>, oid: Oid): Waiting {
    if queue == [] then Nothing
    else
      var later := LastPending(queue[1..], oid);
      if later.Nothing? && queue[0].oid == oid then Closure(queue[0].kind) else later
  }

  lemma {:induction false} PendingIsLast(queue: seq<Change>, oid: Oid)
    ensures Pending(queue, oid) <==> LastPending(queue, oid).Closure?
  {
    if queue != [] {
      PendingIsLast(queue[1..], oid);
      assert forall i :: 1 <= i < |queue| ==> queue[i] == queue[1..][i - 1];
    }
  }

  lemma {:induction false} LastOneMore(queue: seq<Change>, c: Change, oid: Oid)
    ensures LastPending(queue + [c], oid) == if c.oid == oid then Closure(c.kind) else LastPending(queue, oid)
  {
    if queue == [] {
      assert (queue + [c])[1..] == [];
    } else {
      assert (queue + [c])[1..] == queue[1..] + [c];
      LastOneMore(queue[1..], c, oid);
    }
  }

  // ---------------------------------------------------------------- the view

  /** Every row with nothing waiting is in the bitmap exactly when it is in the result. */
  ghost predicate Current<Row(!new)>(q: Query<Row>, s: State<Row>) {
    forall oid :: !Pending(s.queue, oid) ==> (oid in s.bitmap <==> oid in View(q, s.table))
  }

  /** What holds of one oid: a deletion that waits last was not followed by anything that made the row. */
  ghost predicate OidInvariant<Row(!new)>(q: Query<Row>, s: State<Row>, oid: Oid) {
    && (LastPending(s.queue, oid) == Closure(Delete) ==> oid !in s.table)
    && (LastPending(s.queue, oid) == Nothing ==> (oid in s.bitmap <==> oid in View(q, s.table)))
  }

  ghost predicate ViewInvariant<Row(!new)>(q: Query<Row>, s: State<Row>) {
    forall oid :: OidInvariant(q, s, oid)
  }

  lemma ViewInvariantIsCurrent<Row(!new)>(q: Query<Row>, s: State<Row>)
    requires ViewInvariant(q, s)
    ensures Current(q, s) && (s.queue == [] ==> s.bitmap == View(q, s.table))
  {
    forall oid ensures OidInvariant(q, s, oid) && (Pending(s.queue, oid) <==> LastPending(s.queue, oid).Closure?) {
      PendingIsLast(s.queue, oid);
    }
    if s.queue == [] {
      forall oid ensures oid in s.bitmap <==> oid in View(q, s.table) {
        assert !Pending(s.queue, oid);
      }
    }
  }

  /** An update that really changes an oid must not take away a row that is shown and has nothing waiting. */
  ghost predicate Harmless<Row>(s: State<Row>, a: Action<Row>) {
    a.MoveRow? && a.from in s.table && a.to !in s.table ==> a.from !in s.bitmap || Pending(s.queue, a.from)
  }

  lemma QueuedKeepsView<Row(!new)>(q: Query<Row>, s: State<Row>, table: map<Oid, Row>, c: Change)
    requires ViewInvariant(q, s) && (c.kind == Delete ==> c.oid !in table)
    requires forall o :: o != c.oid ==> (o in table ==> o in s.table && table[o] == s.table[o])
    requires forall o :: o != c.oid && o in s.table && o !in table ==> o !in s.bitmap || Pending(s.queue, o)
    ensures ViewInvariant(q, Queued(s, table, c))
  {
    var t := Queued(s, table, c);
    forall oid ensures OidInvariant(q, t, oid) {
      assert OidInvariant(q, s, oid);
      LastOneMore(s.queue, c, oid);
      PendingIsLast(s.queue, oid);
    }
  }

  lemma DispatchKeepsView<Row(!new)>(q: Query<Row>, s: State<Row>)
    requires RowLocal(q) && ViewInvariant(q, s)
    ensures ViewInvariant(q, Step(q, s, Dispatch))
  {
    if s.queue != [] {
      var c, t := s.queue[0], Step(q, s, Dispatch);
      CheckIsRowLocal(q);
      assert CheckFindsRow(q, s.table, c.oid) <==> c.oid in View(q, s.table);
      forall oid ensures OidInvariant(q, t, oid) {
        assert OidInvariant(q, s, oid);
      }
    }
  }

  lemma StepKeepsView<Row(!new)>(q: Query<Row>, s: State<Row>, a: Action<Row>)
    requires RowLocal(q) && ViewInvariant(q, s) && Harmless(s, a)
    ensures ViewInvariant(q, Step(q, s, a))
  {
    match a
    case InsertRow(oid, row) =>
      if oid !in s.table { QueuedKeepsView(q, s, s.table[oid := row], Change(Insert, oid)); }
    case UpdateRow(oid, row) =>
      if oid in s.table { QueuedKeepsView(q, s, s.table[oid := row], Change(Update, oid)); }
    case MoveRow(from, to, row) =>
      if from in s.table && to !in s.table { QueuedKeepsView(q, s, (s.table - {from})[to := row], Change(Update, to)); }
    case DeleteRow(oid) =>
      if oid in s.table { QueuedKeepsView(q, s, s.table - {oid}, Change(Delete, oid)); }
    case Dispatch => DispatchKeepsView(q, s);
  }

  /** The other moves leave a row in the view that no longer exists, with nothing on its way to take it out. */
  lemma HarmfulMoveSpoilsView<Row(!new)>(q: Query<Row>, s: State<Row>, a: Action<Row>)
    requires !Harmless(s, a)
    ensures !Current(q, Step(q, s, a))
  {
    var t := Step(q, s, a);
    PendingIsLast(s.queue, a.from);
    LastOneMore(s.queue, Change(Update, a.to), a.from);
    PendingIsLast(t.queue, a.from);
    assert a.from in t.bitmap && a.from !in View(q, t.table) && !Pending(t.queue, a.from);
  }

  ghost predicate AllHarmless<Row(!new)>(q: Query<Row>, s: State<Row>, actions: seq<Action<Row>>)
    decreases |actions|
  {
    actions == [] || (Harmless(s, actions[0]) && AllHarmless(q, Step(q, s, actions[0]), actions[1..]))
  }

  /** The view is current before the run, after each of its steps, and so at its end. */
  ghost predicate CurrentThroughout<Row(!new)>(q: Query<Row>, s: State<Row>, actions: seq<Action<Row>>)
    decreases |actions|
  {
    Current(q, s) && (actions == [] || CurrentThroughout(q, Step(q, s, actions[0]), actions[1..]))
  }

  lemma {:induction false} ViewThroughRun<Row(!new)>(q: Query<Row>, s: State<Row>, actions: seq<Action<Row>>)
    requires RowLocal(q) && ViewInvariant(q, s)
    ensures CurrentThroughout(q, s, actions) <==> AllHarmless(q, s, actions)
    ensures AllHarmless(q, s, actions) ==> ViewInvariant(q, Run(q, s, actions))
    decreases |actions|
  {
    hide RowLocal, ViewInvariant, Current, Step, Harmless;
    ViewInvariantIsCurrent(q, s);
    if actions != [] {
      if Harmless(s, actions[0]) {
        StepKeepsView(q, s, actions[0]);
        ViewThroughRun(q, Step(q, s, actions[0]), actions[1..]);
      } else {
        HarmfulMoveSpoilsView(q, s, actions[0]);
      }
    }
  }

  lemma ScannedIsInvariant<Row(!new)>(q: Query<Row>, s: State<Row>)
    requires Scanned(q, s)
    ensures ViewInvariant(q, s) && CallInvariant(s) && Tidy(s)
  {
  }

  // ---------------------------------------------------------------- the calls

  /** Whenever the closure of an insertion is due, the row cannot be in the bitmap: the closure before it took
      the row out, or it was not `shown` to begin with. */
  ghost predicate Orderly(queue: seq<Change>, oid: Oid, shown: bool) {
    queue == []
    || (if queue[0].oid != oid then Orderly(queue[1..], oid, shown)
        else (queue[0].kind == Insert ==> !shown) && Orderly(queue[1..], oid, queue[0].kind != Delete))
  }

  /** An insertion of the row that happens now will not find it in the bitmap. */
  ghost predicate Clean<Row>(s: State<Row>, oid: Oid) {
    match LastPending(s.queue, oid)
    case Nothing => oid !in s.bitmap
    case Closure(kind) => kind == Delete
  }

  lemma {:induction false} OrderlyIfLess(queue: seq<Change>, oid: Oid)
    requires Orderly(queue, oid, true)
    ensures Orderly(queue, oid, false)
  {
    if queue != [] && queue[0].oid != oid { OrderlyIfLess(queue[1..], oid); }
  }

  lemma {:induction false} OrderlyOneMore(queue: seq<Change>, c: Change, oid: Oid, shown: bool)
    ensures Orderly(queue + [c], oid, shown) <==>
            && Orderly(queue, oid, shown)
            && (c == Change(Insert, oid) ==>
                  if LastPending(queue, oid).Nothing? then !shown else LastPending(queue, oid).kind == Delete)
  {
    if queue == [] {
      assert (queue + [c])[1..] == [];
    } else {
      assert (queue + [c])[1..] == queue[1..] + [c];
      OrderlyOneMore(queue[1..], c, oid, if queue[0].oid != oid then shown else queue[0].kind != Delete);
    }
  }

  ghost predicate OidOrderly<Row>(s: State<Row>, oid: Oid) {
    Orderly(s.queue, oid, oid in s.bitmap)
  }

  ghost predicate CallInvariant<Row>(s: State<Row>) {
    (forall oid :: OidOrderly(s, oid)) && Replay(s.calls).Has(s.bitmap) && s.assertionHeld
  }

  lemma QueuedKeepsCalls<Row>(s: State<Row>, table: map<Oid, Row>, c: Change)
    requires CallInvariant(s) && (c.kind == Insert ==> Clean(s, c.oid))
    ensures CallInvariant(Queued(s, table, c))
  {
    var t := Queued(s, table, c);
    forall oid ensures OidOrderly(t, oid) {
      assert OidOrderly(s, oid);
      OrderlyOneMore(s.queue, c, oid, oid in s.bitmap);
    }
  }

  /** No closure confuses the client or fails the assertion, whatever the clause is. */
  lemma DispatchKeepsCalls<Row(!new)>(q: Query<Row>, s: State<Row>)
    requires CallInvariant(s)
    ensures CallInvariant(Step(q, s, Dispatch))
  {
    hide CheckFindsRow, CheckedRow;
    if s.queue != [] {
      var c, t := s.queue[0], Step(q, s, Dispatch);
      forall oid ensures OidOrderly(t, oid) {
        assert OidOrderly(s, oid);
        if Orderly(s.queue[1..], oid, true) { OrderlyIfLess(s.queue[1..], oid); }
      }
      assert OidOrderly(s, c.oid);
      forall x: Call<Row> { ReplayOneMore(s.calls, x); }
    }
  }

  lemma CallInvariantMeans<Row>(s: State<Row>)
    requires CallInvariant(s)
    ensures s.assertionHeld && Replay(s.calls).Has(s.bitmap)
  {
  }

  /** A row that does not exist cannot be in the way of an insertion, and a row whose deletion waits last is gone. */
  ghost predicate OidTidy<Row>(s: State<Row>, oid: Oid) {
    && (oid !in s.table ==> Clean(s, oid))
    && (LastPending(s.queue, oid) == Closure(Delete) ==> oid !in s.table)
  }

  ghost predicate Tidy<Row>(s: State<Row>) {
    forall oid :: OidTidy(s, oid)
  }

  /** An update that really changes an oid must not take away a row that is shown or has something waiting. */
  ghost predicate Quiet<Row>(s: State<Row>, a: Action<Row>) {
    a.MoveRow? && a.from in s.table && a.to !in s.table ==> a.from !in s.bitmap && !Pending(s.queue, a.from)
  }

  lemma QuietIsClean<Row>(s: State<Row>, a: Action<Row>)
    requires Tidy(s) && a.MoveRow? && a.from in s.table && a.to !in s.table
    ensures Quiet(s, a) <==> Clean(s, a.from)
  {
    assert OidTidy(s, a.from);
    PendingIsLast(s.queue, a.from);
  }

  lemma QueuedKeepsTidy<Row>(s: State<Row>, table: map<Oid, Row>, c: Change)
    requires Tidy(s) && (c.oid in table <==> c.kind != Delete)
    requires forall o :: o != c.oid && o in table ==> o in s.table
    requires forall o :: o != c.oid && o in s.table && o !in table ==> Clean(s, o)
    ensures Tidy(Queued(s, table, c))
  {
    forall oid ensures OidTidy(Queued(s, table, c), oid) {
      assert OidTidy(s, oid);
      LastOneMore(s.queue, c, oid);
    }
  }

  lemma DispatchKeepsTidy<Row(!new)>(q: Query<Row>, s: State<Row>)
    requires Tidy(s)
    ensures Tidy(Step(q, s, Dispatch))
  {
    hide CheckFindsRow;
    if s.queue != [] {
      forall oid ensures OidTidy(Step(q, s, Dispatch), oid) {
        assert OidTidy(s, oid);
      }
    }
  }

  lemma StepKeepsTidy<Row(!new)>(q: Query<Row>, s: State<Row>, a: Action<Row>)
    requires Tidy(s) && Quiet(s, a)
    ensures Tidy(Step(q, s, a))
  {
    match a
    case InsertRow(oid, row) =>
      if oid !in s.table { QueuedKeepsTidy(s, s.table[oid := row], Change(Insert, oid)); }
    case UpdateRow(oid, row) =>
      if oid in s.table { QueuedKeepsTidy(s, s.table[oid := row], Change(Update, oid)); }
    case MoveRow(from, to, row) =>
      if from in s.table && to !in s.table {
        QuietIsClean(s, a);
        QueuedKeepsTidy(s, (s.table - {from})[to := row], Change(Update, to));
      }
    case DeleteRow(oid) =>
      if oid in s.table { QueuedKeepsTidy(s, s.table - {oid}, Change(Delete, oid)); }
    case Dispatch => DispatchKeepsTidy(q, s);
  }

  lemma StepKeepsCalls<Row(!new)>(q: Query<Row>, s: State<Row>, a: Action<Row>)
    requires CallInvariant(s) && Tidy(s)
    ensures CallInvariant(Step(q, s, a))
  {
    match a
    case InsertRow(oid, row) =>
      if oid !in s.table {
        assert OidTidy(s, oid);
        QueuedKeepsCalls(s, s.table[oid := row], Change(Insert, oid));
      }
    case UpdateRow(oid, row) =>
      if oid in s.table { QueuedKeepsCalls(s, s.table[oid := row], Change(Update, oid)); }
    case MoveRow(from, to, row) =>
      if from in s.table && to !in s.table { QueuedKeepsCalls(s, (s.table - {from})[to := row], Change(Update, to)); }
    case DeleteRow(oid) =>
      if oid in s.table { QueuedKeepsCalls(s, s.table - {oid}, Change(Delete, oid)); }
    case Dispatch => DispatchKeepsCalls(q, s);
  }

  ghost predicate AllQuiet<Row(!new)>(q: Query<Row>, s: State<Row>, actions: seq<Action<Row>>)
    decreases |actions|
  {
    actions == [] || (Quiet(s, actions[0]) && AllQuiet(q, Step(q, s, actions[0]), actions[1..]))
  }

  lemma {:induction false} CallsThroughRun<Row(!new)>(q: Query<Row>, s: State<Row>, actions: seq<Action<Row>>)
    requires CallInvariant(s) && Tidy(s) && AllQuiet(q, s, actions)
    ensures CallInvariant(Run(q, s, actions)) && Tidy(Run(q, s, actions))
    decreases |actions|
  {
    hide CallInvariant, Tidy, Step;
    if actions != [] {
      StepKeepsCalls(q, s, actions[0]);
      StepKeepsTidy(q, s, actions[0]);
      CallsThroughRun(q, Step(q, s, actions[0]), actions[1..]);
    }
  }

  // ---------------------------------------------------------------- the rows that the client shows

  ghost predicate OidKnown<Row>(s: State<Row>, rows: map<Oid, Row>, oid: Oid) {
    oid in s.bitmap && !Pending(s.queue, oid) ==> oid in s.table && oid in rows && rows[oid] == s.table[oid]
  }

  /** Of every row in the bitmap that has nothing waiting the client has what is in the table. */
  ghost predicate RowsKnown<Row>(s: State<Row>) {
    var p := Replay(s.calls);
    p.Shown? && forall oid :: OidKnown(s, p.rows, oid)
  }

  lemma PendingOneMore(queue: seq<Change>, c: Change, oid: Oid)
    ensures Pending(queue + [c], oid) <==> Pending(queue, oid) || c.oid == oid
  {
    PendingIsLast(queue, oid);
    PendingIsLast(queue + [c], oid);
    LastOneMore(queue, c, oid);
  }

  lemma PendingWithoutFirst(queue: seq<Change>, oid: Oid)
    requires queue != []
    ensures Pending(queue, oid) <==> Pending(queue[1..], oid) || queue[0].oid == oid
  {
    assert queue == [queue[0]] + queue[1..];
    assert forall i :: 1 <= i < |queue| ==> queue[i] == queue[1..][i - 1];
  }

  lemma QueuedKeepsRows<Row>(s: State<Row>, table: map<Oid, Row>, c: Change)
    requires RowsKnown(s)
    requires forall o :: o != c.oid && o in s.bitmap && !Pending(s.queue, o) && o in s.table ==> o in table && table[o] == s.table[o]
    ensures RowsKnown(Queued(s, table, c))
  {
    hide Pending;
    forall oid ensures OidKnown(Queued(s, table, c), Replay(s.calls).rows, oid) {
      assert OidKnown(s, Replay(s.calls).rows, oid);
      PendingOneMore(s.queue, c, oid);
    }
  }

  /** A call for one row leaves what is shown of the others. */
  lemma FollowKeepsOthers<Row>(p: Picture<Row>, c: Call<Row>, oid: Oid)
    requires p.Shown? && Follow(p, c).Shown? && oid != c.oid
    ensures var rows, rows' := p.rows, Follow(p, c).rows;
            (oid in rows <==> oid in rows') && (oid in rows ==> rows[oid] == rows'[oid])
  {
  }

  /** The call that a closure makes, if it makes one: a row that the check finds is handed over as it is. */
  lemma ClosureCalls<Row(!new)>(q: Query<Row>, s: State<Row>, change: Change)
    requires RowLocal(q)
    ensures var t := RunClosure(q, s, change);
            && t.queue == s.queue && t.table == s.table
            && (t.calls == s.calls || (t.calls == s.calls + [t.calls[|s.calls|]] && t.calls[|s.calls|].oid == change.oid))
            && (forall o :: o != change.oid ==> (o in s.bitmap <==> o in t.bitmap))
            && (change.oid in t.bitmap ==>
                  && change.oid in s.table && t.calls != s.calls && !t.calls[|s.calls|].Removed?
                  && t.calls[|s.calls|].row == s.table[change.oid])
  {
    hide RowLocal, CheckFindsRow, CheckedRow;
    if CheckFindsRow(q, s.table, change.oid) { CheckedRowIsRow(q, s.table, change.oid); }
  }

  lemma DispatchKeepsRows<Row(!new)>(q: Query<Row>, s: State<Row>)
    requires RowLocal(q) && CallInvariant(s) && RowsKnown(s)
    ensures RowsKnown(Step(q, s, Dispatch))
  {
    hide RowLocal, RunClosure, Pending, CallInvariant;
    if s.queue != [] {
      var c, t := s.queue[0], Step(q, s, Dispatch);
      DispatchKeepsCalls(q, s);
      CallInvariantMeans(t);
      ClosureCalls(q, s.(queue := s.queue[1..]), c);
      forall oid ensures OidKnown(t, Replay(t.calls).rows, oid) {
        assert OidKnown(s, Replay(s.calls).rows, oid);
        PendingWithoutFirst(s.queue, oid);
        if t.calls != s.calls {
          ReplayOneMore(s.calls, t.calls[|s.calls|]);
          if oid != c.oid { FollowKeepsOthers(Replay(s.calls), t.calls[|s.calls|], oid); }
        }
      }
    }
  }

  lemma StepKeepsRows<Row(!new)>(q: Query<Row>, s: State<Row>, a: Action<Row>)
    requires RowLocal(q) && CallInvariant(s) && RowsKnown(s) && Quiet(s, a)
    ensures RowsKnown(Step(q, s, a))
  {
    hide RowLocal, CallInvariant, RowsKnown;
    match a
    case InsertRow(oid, row) =>
      if oid !in s.table { QueuedKeepsRows(s, s.table[oid := row], Change(Insert, oid)); }
    case UpdateRow(oid, row) =>
      if oid in s.table { QueuedKeepsRows(s, s.table[oid := row], Change(Update, oid)); }
    case MoveRow(from, to, row) =>
      if from in s.table && to !in s.table { QueuedKeepsRows(s, (s.table - {from})[to := row], Change(Update, to)); }
    case DeleteRow(oid) =>
      if oid in s.table { QueuedKeepsRows(s, s.table - {oid}, Change(Delete, oid)); }
    case Dispatch => DispatchKeepsRows(q, s);
  }

  lemma {:induction false} RowsThroughRun<Row(!new)>(q: Query<Row>, s: State<Row>, actions: seq<Action<Row>>)
    requires RowLocal(q) && CallInvariant(s) && Tidy(s) && RowsKnown(s) && AllQuiet(q, s, actions)
    ensures RowsKnown(Run(q, s, actions)) && AllHarmless(q, s, actions)
    decreases |actions|
  {
    hide RowLocal, CallInvariant, Tidy, RowsKnown, Step;
    if actions != [] {
      StepKeepsRows(q, s, actions[0]);
      StepKeepsCalls(q, s, actions[0]);
      StepKeepsTidy(q, s, actions[0]);
      RowsThroughRun(q, Step(q, s, actions[0]), actions[1..]);
    }
  }

  lemma ScannedIsKnown<Row(!new)>(q: Query<Row>, s: State<Row>)
    requires Scanned(q, s)
    ensures RowsKnown(s)
  {
    hide Matches;
  }

  /** With nothing waiting the client shows the rows of the result. */
  lemma KnownIsResult<Row(!new)>(q: Query<Row>, s: State<Row>)
    requires ViewInvariant(q, s) && CallInvariant(s) && RowsKnown(s) && s.queue == []
    ensures Replay(s.calls) == Shown(Result(q, s.table))
  {
    hide Matches, ViewInvariant, CallInvariant;
    ViewInvariantIsCurrent(q, s);
    CallInvariantMeans(s);
    var rows := Replay(s.calls).rows;
    forall oid | oid in rows ensures oid in s.table && rows[oid] == s.table[oid] {
      assert OidKnown(s, rows, oid) && !Pending(s.queue, oid);
    }
  }

  // ---------------------------------------------------------------- the results

  /** A run without updates that change an oid. */
  ghost predicate KeepsOids<Row>(actions: seq<Action<Row>>) {
    forall i :: 0 <= i < |actions| ==> !actions[i].MoveRow?
  }

  /** Without such updates every run meets both conditions; so it does if they are rejected or find no row. */
  lemma {:induction false} KeepsOidsIsHarmless<Row(!new)>(q: Query<Row>, s: State<Row>, actions: seq<Action<Row>>)
    requires KeepsOids(actions)
    ensures AllHarmless(q, s, actions) && AllQuiet(q, s, actions)
    decreases |actions|
  {
    hide Step;
    if actions != [] { KeepsOidsIsHarmless(q, Step(q, s, actions[0]), actions[1..]); }
  }

  /** The view is current throughout a run exactly when no update takes away the oid of a row that is shown
      and has no closure waiting. */
  lemma CurrentExactlyIfHarmless<Row(!new)>(q: Query<Row>, s: State<Row>, actions: seq<Action<Row>>)
    requires RowLocal(q) && Scanned(q, s)
    ensures CurrentThroughout(q, s, actions) <==> AllHarmless(q, s, actions)
  {
    ScannedIsInvariant(q, s);
    ViewThroughRun(q, s, actions);
  }

  /** At the end of such a run, an oid with no closure waiting is in the bitmap exactly when its row exists now
      and satisfies the clause; so whenever the queue is empty the bitmap is the query's result. */
  lemma ViewIsCurrent<Row(!new)>(q: Query<Row>, s: State<Row>, actions: seq<Action<Row>>, oid: Oid)
    requires RowLocal(q) && Scanned(q, s) && AllHarmless(q, s, actions)
    ensures var t := Run(q, s, actions);
            && (!Pending(t.queue, oid) ==> (oid in t.bitmap <==> oid in View(q, t.table)))
            && (t.queue == [] ==> t.bitmap == View(q, t.table))
  {
    ScannedIsInvariant(q, s);
    ViewThroughRun(q, s, actions);
    ViewInvariantIsCurrent(q, Run(q, s, actions));
  }

  /** The assertion of the insert closure holds, and the handler calls make sense to a client that follows
      them: its picture is the bitmap.  This does not depend on the clause. */
  lemma CallsAreWellFormed<Row(!new)>(q: Query<Row>, s: State<Row>, actions: seq<Action<Row>>)
    requires Scanned(q, s) && AllQuiet(q, s, actions)
    ensures Run(q, s, actions).assertionHeld
    ensures Replay(Run(q, s, actions).calls).Has(Run(q, s, actions).bitmap)
  {
    ScannedIsInvariant(q, s);
    CallsThroughRun(q, s, actions);
  }

  /** What the client shows of an oid with nothing waiting is the row as it is now; with the queue empty it shows exactly
      the rows of the result. */
  lemma PictureIsCurrent<Row(!new)>(q: Query<Row>, s: State<Row>, actions: seq<Action<Row>>, oid: Oid)
    requires RowLocal(q) && Scanned(q, s) && AllQuiet(q, s, actions)
    ensures var t := Run(q, s, actions); var p := Replay(t.calls);
            && p.Has(t.bitmap)
            && (oid in t.bitmap && !Pending(t.queue, oid) ==> oid in t.table && p.rows[oid] == t.table[oid])
            && (t.queue == [] ==> p == Shown(Result(q, t.table)))
  {
    hide RowLocal, Scanned, AllQuiet, AllHarmless, Run, ViewInvariant, CallInvariant, Tidy, Result;
    ScannedIsInvariant(q, s);
    ScannedIsKnown(q, s);
    RowsThroughRun(q, s, actions);
    ViewThroughRun(q, s, actions);
    CallsThroughRun(q, s, actions);
    var t := Run(q, s, actions);
    CallInvariantMeans(t);
    assert OidKnown(t, Replay(t.calls).rows, oid);
    if t.queue == [] { KnownIsResult(q, t); }
  }

  /** With nothing waiting, an update that changes an oid leaves the view right exactly when the row was not in it. */
  lemma MoveKeepsView<Row(!new)>(q: Query<Row>, s: State<Row>, from: Oid, to: Oid, row: Row)
    requires RowLocal(q) && ViewInvariant(q, s) && s.queue == [] && from in s.table && to !in s.table
    ensures var t := Run(q, s, [MoveRow(from, to, row), Dispatch]);
            t.queue == [] && (t.bitmap == View(q, t.table) <==> from !in View(q, s.table))
  {
    var actions := [MoveRow(from, to, row), Dispatch];
    var s1 := Step(q, s, actions[0]);
    assert actions[1..] == [Dispatch] && actions[1..][1..] == [];
    assert Run(q, s1, [Dispatch]) == Step(q, s1, Dispatch);
    ViewInvariantIsCurrent(q, s);
    assert s1.queue == [Change(Update, to)];
    CheckIsRowLocal(q);
    assert CheckFindsRow(q, s1.table, to) <==> to in View(q, s1.table);
    var t := Step(q, s1, Dispatch);
    assert from in t.bitmap <==> from in s.bitmap;
    assert forall o :: o != from && o != to ==> (o in t.bitmap <==> o in View(q, t.table));
  }

  // ---------------------------------------------------------------- draining the queue

  lemma {:induction false} DrainedView<Row(!new)>(q: Query<Row>, s: State<Row>)
    requires RowLocal(q) && ViewInvariant(q, s)
    ensures var t := Run(q, s, Dispatches(|s.queue|));
            t.queue == [] && t.table == s.table && ViewInvariant(q, t)
    decreases |s.queue|
  {
    hide RowLocal, ViewInvariant, RunClosure, Dispatches;
    if s.queue == [] {
      NoDispatches<Row>();
    } else {
      DrainUnfolds(q, s);
      DispatchKeepsView(q, s);
      DrainedView(q, Step(q, s, Dispatch));
    }
  }

  lemma {:induction false} DrainedCalls<Row(!new)>(q: Query<Row>, s: State<Row>)
    requires CallInvariant(s)
    ensures CallInvariant(Run(q, s, Dispatches(|s.queue|)))
    decreases |s.queue|
  {
    hide CallInvariant, RunClosure, Dispatches;
    if s.queue == [] {
      NoDispatches<Row>();
    } else {
      DrainUnfolds(q, s);
      DispatchKeepsCalls(q, s);
      DrainedCalls(q, Step(q, s, Dispatch));
    }
  }

  lemma DrainUnfolds<Row(!new)>(q: Query<Row>, s: State<Row>)
    requires s.queue != []
    ensures var t := Step(q, s, Dispatch);
            && t.queue == s.queue[1..] && t.table == s.table
            && Run(q, s, Dispatches(|s.queue|)) == Run(q, t, Dispatches(|t.queue|))
  {
    DispatchesUnfold<Row>(|s.queue| - 1);
    var all := Dispatches<Row>(|s.queue|);
    assert all != [] && all[0] == Dispatch;
  }

  /** A row of the result is always found by the check. */
  lemma CheckFindsMatch<Row(!new)>(q: Query<Row>, table: map<Oid, Row>, oid: Oid)
    requires oid in View(q, table)
    ensures CheckFindsRow(q, table, oid)
  {
    if q.disjuncts != [] {
      var i :| 0 <= i < |q.disjuncts| && q.disjuncts[i](table[oid]);
      assert i < |q.disjuncts| - 1 ==> EarlierDisjunct(q, table[oid]);
    }
  }

  /** If the closures of a row of the result are not orderly, one of its insertions finds it in the bitmap. */
  lemma {:induction false} DisorderFails<Row(!new)>(q: Query<Row>, s: State<Row>, oid: Oid)
    requires oid in View(q, s.table)
    requires s.assertionHeld ==> !OidOrderly(s, oid)
    ensures !Run(q, s, Dispatches(|s.queue|)).assertionHeld
    decreases |s.queue|
  {
    hide CheckFindsRow, Dispatches, View;
    if s.queue == [] {
      NoDispatches<Row>();
    } else {
      DrainUnfolds(q, s);
      CheckFindsMatch(q, s.table, oid);
      DisorderFails(q, Step(q, s, Dispatch), oid);
    }
  }

  /** The insertion of a row that satisfies the clause passes the assertion exactly when it is clean. */
  lemma InsertPassesIfClean<Row(!new)>(q: Query<Row>, s: State<Row>, oid: Oid, row: Row)
    requires CallInvariant(s) && oid !in s.table && Matches(q, row)
    ensures Run(q, s, [InsertRow(oid, row)] + Dispatches(|s.queue| + 1)).assertionHeld <==> Clean(s, oid)
  {
    hide Dispatches, Matches, RunClosure;
    var a := InsertRow(oid, row);
    var t := Step(q, s, a);
    assert ([a] + Dispatches(|s.queue| + 1))[1..] == Dispatches(|t.queue|);
    if Clean(s, oid) {
      QueuedKeepsCalls(s, t.table, Change(Insert, oid));
      DrainedCalls(q, t);
      CallInvariantMeans(Run(q, t, Dispatches(|t.queue|)));
    } else {
      OrderlyOneMore(s.queue, Change(Insert, oid), oid, oid in s.bitmap);
      DisorderFails(q, t, oid);
    }
  }

  /** Inserting a row under the oid that an update took away passes the assertion exactly if the update was quiet. */
  lemma ReinsertPassesIfQuiet<Row(!new)>(q: Query<Row>, s: State<Row>, a: Action<Row>, row: Row)
    requires CallInvariant(s) && Tidy(s) && Matches(q, row)
    requires a.MoveRow? && a.from in s.table && a.to !in s.table
    ensures Run(q, s, [a] + ([InsertRow(a.from, row)] + Dispatches(|s.queue| + 2))).assertionHeld <==> Quiet(s, a)
  {
    hide CallInvariant, Tidy, Dispatches, Matches, Clean, Quiet, RunClosure;
    var more := [InsertRow(a.from, row)] + Dispatches(|s.queue| + 2);
    var t := Step(q, s, a);
    assert ([a] + more)[1..] == more;
    QueuedKeepsCalls(s, t.table, Change(Update, a.to));
    InsertPassesIfClean(q, t, a.from, row);
    CleanAfterMove(q, s, a);
    QuietIsClean(s, a);
  }

  lemma CleanAfterMove<Row(!new)>(q: Query<Row>, s: State<Row>, a: Action<Row>)
    requires a.MoveRow? && a.from in s.table && a.to !in s.table
    ensures Clean(Step(q, s, a), a.from) <==> Clean(s, a.from)
  {
    LastOneMore(s.queue, Change(Update, a.to), a.from);
  }

  /** A closure that waits for the old oid takes it out of the view. */
  lemma PendingMoveKeepsView<Row(!new)>(q: Query<Row>, s: State<Row>, from: Oid, to: Oid, row: Row)
    requires RowLocal(q) && ViewInvariant(q, s) && from in s.table && to !in s.table && Pending(s.queue, from)
    ensures var t := Run(q, s, [MoveRow(from, to, row)] + Dispatches(|s.queue| + 1));
            t.queue == [] && t.bitmap == View(q, t.table) && from !in t.bitmap
  {
    hide RowLocal, ViewInvariant, Dispatches;
    var a := MoveRow(from, to, row);
    var t := Step(q, s, a);
    StepKeepsView(q, s, a);
    assert ([a] + Dispatches(|s.queue| + 1))[1..] == Dispatches(|s.queue| + 1);
    DrainedView(q, t);
    ViewInvariantIsCurrent(q, Run(q, t, Dispatches(|t.queue|)));
    assert from !in t.table;
  }

  // ---------------------------------------------------------------- exactly when the assertion is safe

  /** However a run is cut short and continued by actions that keep the oids, the assertion holds. */
  ghost predicate AssertionSafe<Row(!new)>(q: Query<Row>, s: State<Row>, actions: seq<Action<Row>>) {
    forall k: nat, more: seq<Action<Row>> {:trigger actions[..k] + more} ::
      k <= |actions| && KeepsOids(more) ==> Run(q, s, actions[..k] + more).assertionHeld
  }

  lemma {:induction false} QuietPrefix<Row(!new)>(q: Query<Row>, s: State<Row>, actions: seq<Action<Row>>, k: nat,
                                                  more: seq<Action<Row>>)
    requires AllQuiet(q, s, actions) && k <= |actions| && KeepsOids(more)
    ensures AllQuiet(q, s, actions[..k] + more)
    decreases k
  {
    hide Step, Quiet;
    if k == 0 {
      assert actions[..0] + more == more;
      KeepsOidsIsHarmless(q, s, more);
    } else {
      assert (actions[..k] + more)[1..] == actions[1..][..k - 1] + more;
      QuietPrefix(q, Step(q, s, actions[0]), actions[1..], k - 1, more);
    }
  }

  lemma NotQuietIsUnsafe<Row(!new)>(q: Query<Row>, s: State<Row>, actions: seq<Action<Row>>, row: Row)
    requires CallInvariant(s) && Tidy(s) && Matches(q, row) && actions != [] && !Quiet(s, actions[0])
    ensures !AssertionSafe(q, s, actions)
  {
    hide CallInvariant, Tidy, Matches, Run;
    var a := actions[0];
    var more := [InsertRow(a.from, row)] + Dispatches(|s.queue| + 2);
    ReinsertPassesIfQuiet(q, s, a, row);
    assert actions[..1] + more == [a] + more;
    assert KeepsOids(more);
  }

  lemma SafeAfterStep<Row(!new)>(q: Query<Row>, s: State<Row>, actions: seq<Action<Row>>)
    requires actions != [] && AssertionSafe(q, s, actions)
    ensures AssertionSafe(q, Step(q, s, actions[0]), actions[1..])
  {
    hide Step;
    var rest := actions[1..];
    forall k: nat, more: seq<Action<Row>> | k <= |rest| && KeepsOids(more)
      ensures Run(q, Step(q, s, actions[0]), rest[..k] + more).assertionHeld
    {
      assert Run(q, s, actions[..k + 1] + more).assertionHeld;
      assert (actions[..k + 1] + more)[1..] == rest[..k] + more;
    }
  }

  lemma {:induction false} SafeIsQuiet<Row(!new)>(q: Query<Row>, s: State<Row>, actions: seq<Action<Row>>, row: Row)
    requires CallInvariant(s) && Tidy(s) && Matches(q, row) && AssertionSafe(q, s, actions)
    ensures AllQuiet(q, s, actions)
    decreases |actions|
  {
    hide CallInvariant, Tidy, Matches, AssertionSafe, Step, Quiet;
    if actions != [] {
      if Quiet(s, actions[0]) {
        StepKeepsCalls(q, s, actions[0]);
        StepKeepsTidy(q, s, actions[0]);
        SafeAfterStep(q, s, actions);
        SafeIsQuiet(q, Step(q, s, actions[0]), actions[1..], row);
      } else {
        NotQuietIsUnsafe(q, s, actions, row);
      }
    }
  }

  /** If any row can satisfy the clause, the assertion is safe in a run exactly when no update takes away the oid
      of a row that is shown or has a closure waiting. */
  lemma SafeExactlyIfQuiet<Row(!new)>(q: Query<Row>, s: State<Row>, actions: seq<Action<Row>>)
    requires Scanned(q, s) && exists row :: Matches(q, row)
    ensures AssertionSafe(q, s, actions) <==> AllQuiet(q, s, actions)
  {
    hide Matches, CallInvariant, Tidy, Step;
    ScannedIsInvariant(q, s);
    if AllQuiet(q, s, actions) {
      forall k: nat, more: seq<Action<Row>> | k <= |actions| && KeepsOids(more)
        ensures Run(q, s, actions[..k] + more).assertionHeld
      {
        QuietPrefix(q, s, actions, k, more);
        CallsThroughRun(q, s, actions[..k] + more);
        CallInvariantMeans(Run(q, s, actions[..k] + more));
      }
    }
    if AssertionSafe(q, s, actions) {
      var row :| Matches(q, row);
      SafeIsQuiet(q, s, actions, row);
    }
  }

  // ---------------------------------------------------------------- exactly which clauses are served

  /** What holds without moves: the row of a waiting insertion or update exists. */
  ghost predicate Attended<Row>(s: State<Row>, oid: Oid) {
    match LastPending(s.queue, oid)
    case Nothing => oid in s.bitmap <==> oid in s.table
    case Closure(kind) => oid in s.table <==> kind != Delete
  }

  ghost predicate AllMatch<Row(!new)>(q: Query<Row>) {
    forall row :: Matches(q, row)
  }

  lemma StepKeepsAttended<Row(!new)>(q: Query<Row>, s: State<Row>, a: Action<Row>, oid: Oid)
    requires AllMatch(q) && Attended(s, oid) && !a.MoveRow?
    ensures Attended(Step(q, s, a), oid)
  {
    hide CheckFindsRow;
    if a.Dispatch? {
      if s.queue != [] && oid in s.table { CheckFindsMatch(q, s.table, oid); }
    } else {
      forall kind { LastOneMore(s.queue, Change(kind, a.oid), oid); }
    }
  }

  lemma {:induction false} AttendedThroughRun<Row(!new)>(q: Query<Row>, s: State<Row>, actions: seq<Action<Row>>, oid: Oid)
    requires AllMatch(q) && Attended(s, oid) && KeepsOids(actions)
    ensures Attended(Run(q, s, actions), oid)
    decreases |actions|
  {
    hide AllMatch, Attended, Step;
    if actions != [] {
      StepKeepsAttended(q, s, actions[0], oid);
      AttendedThroughRun(q, Step(q, s, actions[0]), actions[1..], oid);
    }
  }

  /** The view of the clause is current at the end of every run without updates that change an oid. */
  ghost predicate Served<Row(!new)>(q: Query<Row>) {
    forall s: State<Row>, actions: seq<Action<Row>> {:trigger Run(q, s, actions)} ::
      Scanned(q, s) && KeepsOids(actions) ==> Current(q, Run(q, s, actions))
  }

  /** The same for every run with harmless ones. */
  ghost predicate ServedWithMoves<Row(!new)>(q: Query<Row>) {
    forall s: State<Row>, actions: seq<Action<Row>> {:trigger Run(q, s, actions)} ::
      Scanned(q, s) && AllHarmless(q, s, actions) ==> Current(q, Run(q, s, actions))
  }

  lemma RowLocalIsServed<Row(!new)>(q: Query<Row>, s: State<Row>, actions: seq<Action<Row>>)
    requires RowLocal(q) && Scanned(q, s) && AllHarmless(q, s, actions)
    ensures Current(q, Run(q, s, actions))
  {
    ScannedIsInvariant(q, s);
    ViewThroughRun(q, s, actions);
    ViewInvariantIsCurrent(q, Run(q, s, actions));
  }

  lemma AllMatchIsServed<Row(!new)>(q: Query<Row>, s: State<Row>, actions: seq<Action<Row>>)
    requires AllMatch(q) && Scanned(q, s) && KeepsOids(actions)
    ensures Current(q, Run(q, s, actions))
  {
    hide Run;
    var t := Run(q, s, actions);
    forall oid | !Pending(t.queue, oid) ensures oid in t.bitmap <==> oid in View(q, t.table) {
      AttendedThroughRun(q, s, actions, oid);
      PendingIsLast(t.queue, oid);
    }
  }

  /** One row that satisfies an earlier disjunct puts a row into the view that does not satisfy the clause. */
  lemma WrongRowShown<Row(!new)>(q: Query<Row>, hit: Row, miss: Row)
    requires EarlierDisjunct(q, hit) && !Matches(q, miss)
    ensures !Served(q)
  {
    var s := Alone(q, hit);
    var actions := [InsertRow(2, miss), Dispatch];
    var t := Queued(s, s.table[2 := miss], Change(Insert, 2));
    assert actions[1..] == [Dispatch] && actions[1..][1..] == [];
    assert Run(q, t, [Dispatch]) == Step(q, t, Dispatch);
    assert 1 in t.table && EarlierDisjunct(q, t.table[1]);
    assert !Current(q, Step(q, t, Dispatch)) by { assert !Pending(Step(q, t, Dispatch).queue, 2); }
    assert Run(q, s, actions) == Step(q, t, Dispatch);
  }

  /** A scanned table with one row. */
  ghost function Alone<Row(!new)>(q: Query<Row>, row: Row): (s: State<Row>)
    requires Matches(q, row)
    ensures Scanned(q, s)
  {
    var calls := [Inserted(1, row)];
    assert calls[..0] == [];
    NothingShown<Row>();
    assert Replay(calls) == Shown(map[1 := row]);
    State(map[1 := row], {1}, [], calls, true)
  }

  /** The check answers for every oid as long as one row satisfies an earlier disjunct. */
  lemma EarlierFinds<Row(!new)>(q: Query<Row>, table: map<Oid, Row>, o: Oid, oid: Oid)
    requires o in table && EarlierDisjunct(q, table[o])
    ensures CheckFindsRow(q, table, oid) && Matches(q, table[o])
  {
  }

  /** Two equal rows that satisfy the clause, both shown. */
  ghost function Twins<Row(!new)>(q: Query<Row>, row: Row): (s: State<Row>)
    requires Matches(q, row)
    ensures Scanned(q, s) && s.table == map[1 := row, 2 := row] && s.bitmap == {1, 2}
  {
    var calls := [Inserted(1, row)] + [Inserted(2, row)];
    ReplayOneMore([], Inserted(1, row));
    ReplayOneMore([Inserted(1, row)], Inserted(2, row));
    assert [] + [Inserted(1, row)] == [Inserted(1, row)];
    NothingShown<Row>();
    State(map[1 := row, 2 := row], {1, 2}, [], calls, true)
  }

  /** That row keeps another one in the view after an update of the other row and a change of its oid. */
  lemma GoneRowShown<Row(!new)>(q: Query<Row>, hit: Row)
    requires EarlierDisjunct(q, hit)
    ensures !ServedWithMoves(q)
  {
    hide EarlierDisjunct, CheckFindsRow, CheckedRow, Matches, Scanned;
    EarlierFinds(q, map[1 := hit], 1, 1);
    var s := Twins(q, hit);
    var a0, a1 := UpdateRow(2, hit), MoveRow(2, 3, hit);
    var s1 := Step(q, s, a0);
    var s2 := Step(q, s1, a1);
    var t := Step(q, s2, Dispatch);
    var actions := [a0, a1, Dispatch];
    assert actions[1..] == [a1, Dispatch] && actions[2..] == [Dispatch];
    assert Harmless(s1, a1) by { assert s1.queue[0].oid == 2; }
    assert AllHarmless(q, s2, [Dispatch]) && Run(q, s2, [Dispatch]) == t;
    assert [a1, Dispatch][1..] == [Dispatch];
    assert AllHarmless(q, s1, [a1, Dispatch]) && Run(q, s1, [a1, Dispatch]) == t;
    assert AllHarmless(q, s, actions) && Run(q, s, actions) == t;
    EarlierFinds(q, s2.table, 1, 2);
    assert 2 in t.bitmap && 2 !in View(q, t.table) && !Pending(t.queue, 2);
  }

  /** The clauses that every run without updates of an oid serves are those whose earlier disjuncts never hold,
      and those that every row satisfies. */
  lemma ServedExactly<Row(!new)>(q: Query<Row>)
    ensures Served(q) <==> RowLocal(q) || AllMatch(q)
  {
    hide Scanned, Current, Run, Matches, EarlierDisjunct, KeepsOids;
    if RowLocal(q) || AllMatch(q) {
      forall s: State<Row>, actions: seq<Action<Row>> | Scanned(q, s) && KeepsOids(actions)
        ensures Current(q, Run(q, s, actions))
      {
        KeepsOidsIsHarmless(q, s, actions);
        if RowLocal(q) { RowLocalIsServed(q, s, actions); } else { AllMatchIsServed(q, s, actions); }
      }
    } else {
      var hit, miss :| EarlierDisjunct(q, hit) && !Matches(q, miss);
      WrongRowShown(q, hit, miss);
    }
  }

  /** With harmless updates of oids, only the former. */
  lemma ServedWithMovesExactly<Row(!new)>(q: Query<Row>)
    ensures ServedWithMoves(q) <==> RowLocal(q)
  {
    hide Scanned, Current, Run, Matches, EarlierDisjunct, AllHarmless;
    if RowLocal(q) {
      forall s: State<Row>, actions: seq<Action<Row>> | Scanned(q, s) && AllHarmless(q, s, actions)
        ensures Current(q, Run(q, s, actions))
      {
        RowLocalIsServed(q, s, actions);
      }
    } else {
      var hit :| EarlierDisjunct(q, hit);
      GoneRowShown(q, hit);
    }
  }

  // ---------------------------------------------------------------- in place

  /** The database together with one continuous select on it: the shared context of the three
      listeners, the run loop's queue, and a record of the handler calls. */
  class Selection<Row(!new, ==)> {
    const name: string
    const query: Query<Row>
    var table: map<Oid, Row>
    var bitmap: set<Oid>
    var queue: seq<Change>
    var calls: seq<Call<Row>>
    ghost var assertionHeld: bool

    ghost function Abstract(): State<Row>
      reads this
    {
      State(table, bitmap, queue, calls, assertionHeld)
    }

    /** Prepares the select on a table and reports the rows that are already in its result. */
    constructor (name: string, query: Query<Row>, table: map<Oid, Row>)
      ensures Scanned(query, Abstract())
      ensures this.name == name && this.query == query && this.table == table
    {
      hide Matches, View;
      this.name, this.query, this.table := name, query, table;
      bitmap, queue, calls, assertionHeld := {}, [], [], true;
      new;
      Scan();
    }

    /** Steps through the rows of the result, and announces each. */
    method Scan()
      requires bitmap == {} && calls == [] && queue == []
      modifies this`bitmap, this`calls
      ensures bitmap == View(query, table) && Replay(calls) == Shown(Result(query, table))
    {
      hide Replay, Matches, Without;
      NothingShown<Row>();
      ghost var result := Result(query, table);
      var rows := set o | o in table && Matches(query, table[o]);
      var left: set<Oid> := rows;
      assert rows == result.Keys;
      WithoutAll(result);
      while left != {}
        invariant left <= rows && bitmap == rows - left
        invariant Replay(calls) == Shown(Without(result, left))
        decreases |left|
      {
        assert (forall o: Oid :: o !in left) ==> left == {};
        var oid :| oid in left;
        ReplayOneMore(calls, Inserted(oid, table[oid]));
        OneLessLeft(result, left, oid);
        calls := calls + [Inserted(oid, table[oid])];
        bitmap := bitmap + {oid};
        left := left - {oid};
      }
    }

    /** The preupdate hook: runs inside the statement that changes the row, and only queues. */
    method OnPreupdate(kind: ChangeKind, databaseName: string, tableName: string, key1: Oid, key2: Oid)
      modifies this`queue
      ensures queue == if databaseName == "main" && tableName == name
                       then old(queue) + [Change(kind, if kind == Delete then key1 else key2)] else old(queue)
    {
      if databaseName == "main" {
        match kind {
          case Insert => Emit(Insert, tableName, key2);
          case Update => Emit(Update, tableName, key2);
          case Delete => Emit(Delete, tableName, key1);
        }
      }
    }

    method Emit(kind: ChangeKind, target: string, oid: Oid)
      modifies this`queue
      ensures queue == if target == name then old(queue) + [Change(kind, oid)] else old(queue)
    {
      if target == name {
        queue := queue + [Change(kind, oid)];
      }
    }

    method InsertStatement(oid: Oid, row: Row)
      modifies this`queue, this`table
      ensures Abstract() == Step(query, old(Abstract()), InsertRow(oid, row))
    {
      if oid !in table {
        OnPreupdate(Insert, "main", name, oid, oid);
        table := table[oid := row];
      }
    }

    method UpdateStatement(oid: Oid, row: Row)
      modifies this`queue, this`table
      ensures Abstract() == Step(query, old(Abstract()), UpdateRow(oid, row))
    {
      if oid in table {
        OnPreupdate(Update, "main", name, oid, oid);
        table := table[oid := row];
      }
    }

    /** An update that also gives the row another oid; only the new one is announced. */
    method MoveStatement(from: Oid, to: Oid, row: Row)
      modifies this`queue, this`table
      ensures Abstract() == Step(query, old(Abstract()), MoveRow(from, to, row))
    {
      if from in table && to !in table {
        OnPreupdate(Update, "main", name, from, to);
        table := (table - {from})[to := row];
      }
    }

    method DeleteStatement(oid: Oid)
      modifies this`queue, this`table
      ensures Abstract() == Step(query, old(Abstract()), DeleteRow(oid))
    {
      if oid in table {
        OnPreupdate(Delete, "main", name, oid, oid);
        table := table - {oid};
      }
    }

    /** Runs one queued closure. */
    method RunOne(change: Change)
      modifies this`bitmap, this`calls, this`assertionHeld
      ensures Abstract() == RunClosure(query, old(Abstract()), change)
    {
      var oid := change.oid;
      if change.kind == Delete {
        if oid in bitmap {
          bitmap := bitmap - {oid};
          calls := calls + [Removed(oid)];
        }
      } else {
        var action := change.kind;
        if CheckFindsRow(query, table, oid) {
          if action == Insert {
            assertionHeld := assertionHeld && oid !in bitmap;
            bitmap := bitmap + {oid};
          } else if oid !in bitmap {
            bitmap := bitmap + {oid};
            action := Insert;
          }
          var row := CheckedRow(query, table, oid);
          calls := calls + [if action == Insert then Inserted(oid, row) else Updated(oid, row)];
        } else if oid in bitmap {
          bitmap := bitmap - {oid};
          calls := calls + [Removed(oid)];
        }
      }
      assert bitmap == RunClosure(query, old(Abstract()), change).bitmap;
    }

    /** Drains the queue: the closures run one after the other.  If the view was kept up to then, it is now
        the result of the query on the table, and if the calls made sense, they still do. */
    method DrainDispatchQueue()
      modifies this`queue, this`bitmap, this`calls, this`assertionHeld
      ensures queue == [] && old(calls) <= calls
      ensures Abstract() == Run(query, old(Abstract()), Dispatches(old(|queue|)))
      ensures RowLocal(query) && old(ViewInvariant(query, Abstract())) ==> bitmap == View(query, table)
      ensures old(CallInvariant(Abstract())) ==> assertionHeld && Replay(calls).Has(bitmap)
      ensures RowLocal(query) && old(ViewInvariant(query, Abstract()) && CallInvariant(Abstract()) && RowsKnown(Abstract()))
              ==> Replay(calls) == Shown(Result(query, table))
    {
      hide RowLocal, ViewInvariant, CallInvariant, RowsKnown, Result, RunClosure;
      ghost var start := Abstract();
      ghost var whole := Run(query, start, Dispatches(|queue|));
      while queue != []
        invariant old(calls) <= calls
        invariant Run(query, Abstract(), Dispatches(|queue|)) == whole
        invariant RowLocal(query) && ViewInvariant(query, start) ==> ViewInvariant(query, Abstract())
        invariant CallInvariant(start) ==> CallInvariant(Abstract())
        invariant RowLocal(query) && CallInvariant(start) && RowsKnown(start) ==> RowsKnown(Abstract())
        decreases |queue|
      {
        if RowLocal(query) && ViewInvariant(query, start) { DispatchKeepsView(query, Abstract()); }
        if CallInvariant(start) { DispatchKeepsCalls(query, Abstract()); }
        if RowLocal(query) && CallInvariant(start) && RowsKnown(start) { DispatchKeepsRows(query, Abstract()); }
        CallsOnlyGrow(query, Abstract());
        DispatchesUnfold<Row>(|queue| - 1);
        var change := queue[0];
        queue := queue[1..];
        RunOne(change);
      }
      if RowLocal(query) && ViewInvariant(query, start) { ViewInvariantIsCurrent(query, Abstract()); }
      if CallInvariant(start) { CallInvariantMeans(Abstract()); }
      if RowLocal(query) && ViewInvariant(query, start) && CallInvariant(start) && RowsKnown(start) { KnownIsResult(query, Abstract()); }
    }
  }
}
