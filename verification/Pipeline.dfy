/** The bin-diff worker pipeline as a protocol: one reader, any number of workers, two bounded queues,
    one inserter and a shared error flag. Each action is one atomic step of one task; every
    interleaving is a run. */
module Pipeline {
  import opened Sql

  /** A processed row together with the row it came from. */
  datatype Done<S, T> = Done(origin: S, result: T)

  /** The task that runs the query. Its sender is dropped when the query returns; an error of its own
      is stored only afterwards. */
  datatype Reader<S> =
    | Fetching
    | Sending(row: S)
    | StoringError
    | Finished

  datatype Worker<S, T> =
    | Receiving
    | Processing(row: S)
    | Delivering(item: Done<S, T>)
    | Raising
    | Checking
    | Stopped

  /** The task that owns the connection, and what `run` returns. */
  datatype Inserter<S, T> =
    | Preparing
    | Draining
    | Inserting(item: Done<S, T>)
    | LoadingFlag
    | Returned(ok: bool)

  /** What never changes during a run: the rows of the query, what processing makes of a row, which
      rows the database refuses, and the capacity of both queues. */
  datatype Config<!S, !T> = Config(
    rows: seq<S>,
    process: S -> Option<T>,
    capacity: nat)

  datatype State<!S, T> = State(
    read: nat,
    reader: Reader<S>,
    work: seq<S>,
    workers: seq<Worker<S, T>>,
    done: seq<Done<S, T>>,
    inserter: Inserter<S, T>,
    inserted: seq<Done<S, T>>,
    lost: seq<S>,
    flag: bool,
    queryFailed: bool,
    panicked: bool)
  {
    // `lost` records the rows that no task holds any more although they were not inserted

    /** The receiving side of the work queue is gone. */
    predicate NoReceiver() {
      forall i | 0 <= i < |workers| :: workers[i].Stopped?
    }

    /** The sending side of the work queue is gone. */
    predicate SenderDropped() {
      reader.StoringError? || reader.Finished?
    }

    /** The receiving side of the insert queue is gone. */
    predicate InserterGone() {
      inserter.LoadingFlag? || inserter.Returned?
    }

    /** Every task has ended. */
    predicate Final() {
      reader.Finished? && NoReceiver() && inserter.Returned?
    }
  }

  function Start<S, T>(workers: nat): State<S, T> {
    State(0, Fetching, [], seq(workers, i => Receiving), [], Preparing, [], [], false, false, false)
  }

  datatype Action =
    | Fetch              // the reader gets the next row
    | QueryEnds          // there is no further row
    | QueryFails         // the query itself fails; the sender is dropped
    | QueryPanics        // a row cannot be read; the sender is dropped and nothing is stored
    | StoreQueryError    // ... and only then the flag is set
    | Send               // the reader enqueues its row
    | SendFails          // every worker is gone
    | Receive(i: nat)    // worker i dequeues a row
    | Disconnect(i: nat) // worker i finds the queue empty and closed
    | Process(i: nat)    // worker i processes its row
    | Panic(i: nat)      // ... or panics while doing so
    | Deliver(i: nat)    // worker i enqueues its result
    | DeliverFails(i: nat) // the inserter is gone
    | Raise(i: nat)      // worker i sets the flag
    | Check(i: nat)      // worker i looks at the flag
    | Prepare            // the inserter creates tables and begins
    | PrepareFails
    | Take               // the inserter dequeues a result
    | Insert             // ... and inserts it
    | InsertFails
    | Drained            // the queue is empty and every sender is gone
    | LoadFlag           // `run` looks at the flag

  /** One step, or `None` when the action is not enabled. */
  function Step<S, T>(c: Config<S, T>, s: State<S, T>, a: Action): Option<State<S, T>> {
    match a
    case Fetch =>
      if s.reader.Fetching? && s.read < |c.rows|
      then Some(s.(reader := Sending(c.rows[s.read]), read := s.read + 1)) else None
    case QueryEnds =>
      if s.reader.Fetching? && s.read >= |c.rows| then Some(s.(reader := Finished)) else None
    case QueryFails =>
      if s.reader.Fetching? then Some(s.(reader := StoringError, queryFailed := true)) else None
    case QueryPanics =>
      if s.reader.Fetching? then Some(s.(reader := Finished, panicked := true)) else None
    case StoreQueryError =>
      if s.reader.StoringError? then Some(s.(reader := Finished, flag := true)) else None
    case Send =>
      if s.reader.Sending? && !s.NoReceiver() && |s.work| < c.capacity
      then Some(s.(reader := Fetching, work := s.work + [s.reader.row])) else None
    case SendFails =>
      if s.reader.Sending? && s.NoReceiver()
      then Some(s.(reader := Finished, lost := s.lost + [s.reader.row])) else None
    case Prepare =>
      if s.inserter.Preparing? then Some(s.(inserter := Draining)) else None
    case PrepareFails =>
      if s.inserter.Preparing? then Some(s.(inserter := Returned(false))) else None
    case Take =>
      if s.inserter.Draining? && |s.done| > 0
      then Some(s.(inserter := Inserting(s.done[0]), done := s.done[1..])) else None
    case Insert =>
      if s.inserter.Inserting?
      then Some(s.(inserter := Draining, inserted := s.inserted + [s.inserter.item])) else None
    case InsertFails =>
      if s.inserter.Inserting?
      then Some(s.(inserter := Returned(false), lost := s.lost + [s.inserter.item.origin])) else None
    case Drained =>
      if s.inserter.Draining? && |s.done| == 0 && s.NoReceiver() then Some(s.(inserter := LoadingFlag)) else None
    case LoadFlag =>
      if s.inserter.LoadingFlag? then Some(s.(inserter := Returned(!s.flag))) else None
    case _ => WorkerStep(c, s, a, a.i)
  }

  function WithWorker<S, T>(s: State<S, T>, i: nat, w: Worker<S, T>): State<S, T>
    requires i < |s.workers|
  {
    s.(workers := s.workers[i := w])
  }

  function WorkerStep<S, T>(c: Config<S, T>, s: State<S, T>, a: Action, i: nat): Option<State<S, T>> {
    if i >= |s.workers| then None else
    var w := s.workers[i];
    match a
    case Receive(_) =>
      if w.Receiving? && |s.work| > 0
      then Some(WithWorker(s, i, Processing(s.work[0])).(work := s.work[1..])) else None
    case Disconnect(_) =>
      if w.Receiving? && |s.work| == 0 && s.SenderDropped() then Some(WithWorker(s, i, Stopped)) else None
    case Process(_) =>
      if !w.Processing? then None else
      var result := c.process(w.row);
      Some(if result.Some? then WithWorker(s, i, Delivering(Done(w.row, result.value)))
           else WithWorker(s, i, Raising).(lost := s.lost + [w.row]))
    case Panic(_) =>
      if w.Processing? then Some(WithWorker(s, i, Stopped).(panicked := true, lost := s.lost + [w.row])) else None
    case Deliver(_) =>
      if w.Delivering? && !s.InserterGone() && |s.done| < c.capacity
      then Some(WithWorker(s, i, Checking).(done := s.done + [w.item])) else None
    case DeliverFails(_) =>
      if w.Delivering? && s.InserterGone()
      then Some(WithWorker(s, i, Raising).(lost := s.lost + [w.item.origin])) else None
    case Raise(_) =>
      if w.Raising? then Some(WithWorker(s, i, Checking).(flag := true)) else None
    case Check(_) =>
      if w.Checking? then Some(WithWorker(s, i, if s.flag then Stopped else Receiving)) else None
    case _ => None
  }

  /** The states that some interleaving of the tasks can reach. */
  ghost predicate IsRun<S, T>(c: Config<S, T>, workers: nat, actions: seq<Action>, states: seq<State<S, T>>) {
    && |states| == |actions| + 1
    && states[0] == Start(workers)
    && forall k | 0 <= k < |actions| :: Step(c, states[k], actions[k]) == Some(states[k + 1])
  }

  // ---------------------------------------------------------------- conservation

  /** The rows that a queue of results came from. */
  ghost function Origins<S, T>(items: seq<Done<S, T>>): seq<S> {
    seq(|items|, i requires 0 <= i < |items| => items[i].origin)
  }

  ghost function Count<S>(held: bool, row: S, x: S): nat {
    if held && row == x then 1 else 0
  }

  ghost function HeldByWorker<S, T>(w: Worker<S, T>, x: S): nat {
    match w
    case Processing(row) => Count(true, row, x)
    case Delivering(item) => Count(true, item.origin, x)
    case _ => 0
  }

  ghost function HeldByWorkers<S, T>(ws: seq<Worker<S, T>>, x: S): nat {
    if ws == [] then 0 else HeldByWorkers(ws[..|ws| - 1], x) + HeldByWorker(ws[|ws| - 1], x)
  }

  ghost function HeldByReader<S>(r: Reader<S>, x: S): nat {
    if r.Sending? then Count(true, r.row, x) else 0
  }

  ghost function HeldByInserter<S, T>(i: Inserter<S, T>, x: S): nat {
    if i.Inserting? then Count(true, i.item.origin, x) else 0
  }

  /** How often a row is somewhere in the pipeline or in the table. */
  ghost function Somewhere<S, T>(s: State<S, T>, x: S): nat {
    HeldByReader(s.reader, x) + multiset(s.work)[x] + HeldByWorkers(s.workers, x) + multiset(Origins(s.done))[x]
    + HeldByInserter(s.inserter, x) + multiset(Origins(s.inserted))[x]
  }

  /** Nothing has gone wrong, or is about to be reported. */
  ghost predicate Clean<S, T>(s: State<S, T>) {
    && !s.flag && !s.panicked && !s.queryFailed
    && (s.inserter.Returned? ==> s.inserter.ok)
    && forall i | 0 <= i < |s.workers| :: !s.workers[i].Raising?
  }

  ghost predicate Faithful<S, T>(c: Config<S, T>, item: Done<S, T>) {
    c.process(item.origin) == Some(item.result)
  }

  /** Every result in the pipeline or the table is the processed form of its row. */
  ghost predicate AllFaithful<S, T>(c: Config<S, T>, s: State<S, T>) {
    && (forall i | 0 <= i < |s.done| :: Faithful(c, s.done[i]))
    && (forall i | 0 <= i < |s.inserted| :: Faithful(c, s.inserted[i]))
    && (forall i | 0 <= i < |s.workers| :: s.workers[i].Delivering? ==> Faithful(c, s.workers[i].item))
    && (s.inserter.Inserting? ==> Faithful(c, s.inserter.item))
  }

  /** Whatever went wrong, every row that was read is somewhere, or on record as lost, and never twice. */
  ghost predicate Conserved<S(!new), T>(c: Config<S, T>, s: State<S, T>)
    requires s.read <= |c.rows|
  {
    forall x :: Balanced(c, s, x)
  }

  ghost predicate Balanced<S, T>(c: Config<S, T>, s: State<S, T>, x: S)
    requires s.read <= |c.rows|
  {
    multiset(c.rows[..s.read])[x] == Somewhere(s, x) + multiset(s.lost)[x]
  }

  /** What every reachable state keeps. */
  ghost predicate Inv<S(!new), T>(c: Config<S, T>, workers: nat, s: State<S, T>) {
    && s.read <= |c.rows|
    && |s.workers| == workers
    && |s.work| <= c.capacity && |s.done| <= c.capacity
    && AllFaithful(c, s)
    && Conserved(c, s)
    && Orderly(c, s)
  }

  /** A task ends only for the reasons the protocol gives. */
  ghost predicate Orderly<S, T>(c: Config<S, T>, s: State<S, T>) {
    && (Clean(s) ==> s.lost == [])
    && (Clean(s) && s.reader.Finished? ==> s.read == |c.rows|)
    && (Clean(s) && (exists i :: 0 <= i < |s.workers| && s.workers[i].Stopped?) ==> s.reader.Finished? && s.work == [])
    && (s.inserter.LoadingFlag? || s.inserter == Returned(true) ==> s.NoReceiver() && s.done == [])
    && (s.inserter == Returned(true) && !s.queryFailed ==> !s.flag)
    && (s.reader.StoringError? ==> s.queryFailed)
    && (s.queryFailed ==> s.reader.StoringError? || s.flag)
  }

  // ---------------------------------------------------------------- preservation

  lemma OriginsAppend<S, T>(items: seq<Done<S, T>>, item: Done<S, T>)
    ensures Origins(items + [item]) == Origins(items) + [item.origin]
  {
  }

  lemma OriginsHead<S, T>(items: seq<Done<S, T>>)
    requires items != []
    ensures Origins(items) == [items[0].origin] + Origins(items[1..])
  {
  }

  lemma {:induction false} HeldUpdate<S, T>(ws: seq<Worker<S, T>>, i: nat, w: Worker<S, T>, x: S)
    requires i < |ws|
    ensures HeldByWorkers(ws[i := w], x) + HeldByWorker(ws[i], x) == HeldByWorkers(ws, x) + HeldByWorker(w, x)
  {
    var last := |ws| - 1;
    if i == last {
      assert ws[i := w][..last] == ws[..last];
    } else {
      HeldUpdate(ws[..last], i, w, x);
      assert ws[i := w][..last] == ws[..last][i := w];
    }
  }

  lemma {:induction false} IdleHoldNothing<S, T>(ws: seq<Worker<S, T>>, x: S)
    requires forall i | 0 <= i < |ws| :: HeldByWorker(ws[i], x) == 0
    ensures HeldByWorkers(ws, x) == 0
  {
    if ws == [] {
    } else {
      IdleHoldNothing(ws[..|ws| - 1], x);
    }
  }

  /** Once something went wrong it stays so. */
  lemma DirtyStays<S, T>(c: Config<S, T>, s: State<S, T>, a: Action, s': State<S, T>)
    requires Step(c, s, a) == Some(s') && Clean(s')
    ensures Clean(s)
  {
    forall i | 0 <= i < |s.workers|
      ensures !s.workers[i].Raising?
    {
      assert !s'.workers[i].Raising?;
    }
  }

  lemma PushCount<S>(rows: seq<S>, row: S, x: S)
    ensures multiset(rows + [row])[x] == multiset(rows)[x] + Count(true, row, x)
  {
  }

  lemma ReaderConserves<S, T>(c: Config<S, T>, s: State<S, T>, a: Action, s': State<S, T>, x: S)
    requires Step(c, s, a) == Some(s') && (a.Fetch? || a.Send? || a.SendFails?)
    requires s.read <= |c.rows| && Balanced(c, s, x)
    ensures s'.read <= |c.rows| && Balanced(c, s', x)
  {
    if a.Fetch? {
      assert c.rows[..s'.read] == c.rows[..s.read] + [c.rows[s.read]];
      PushCount(c.rows[..s.read], c.rows[s.read], x);
    } else if a.Send? {
      PushCount(s.work, s.reader.row, x);
    } else {
      PushCount(s.lost, s.reader.row, x);
    }
  }

  lemma InserterConserves<S, T>(c: Config<S, T>, s: State<S, T>, a: Action, s': State<S, T>, x: S)
    requires Step(c, s, a) == Some(s') && (a.Take? || a.Insert? || a.InsertFails?)
    requires s.read <= |c.rows| && Balanced(c, s, x)
    ensures s'.read <= |c.rows| && Balanced(c, s', x)
  {
    if a.Take? {
      TakeBalance(c, s, s', x);
    } else if a.Insert? {
      InsertBalance(c, s, s', x);
    } else {
      InsertFailsBalance(c, s, s', x);
    }
    InserterTouches(c, s, a, s');
  }

  lemma InserterTouches<S, T>(c: Config<S, T>, s: State<S, T>, a: Action, s': State<S, T>)
    requires Step(c, s, a) == Some(s') && (a.Take? || a.Insert? || a.InsertFails?)
    ensures s'.read == s.read && s'.reader == s.reader && s'.work == s.work && s'.workers == s.workers
  {
  }

  /** What the inserter and the places that it moves rows between hold together. */
  ghost function AroundInserter<S, T>(s: State<S, T>, x: S): nat {
    multiset(Origins(s.done))[x] + HeldByInserter(s.inserter, x) + multiset(Origins(s.inserted))[x]
    + multiset(s.lost)[x]
  }

  lemma TakeBalance<S, T>(c: Config<S, T>, s: State<S, T>, s': State<S, T>, x: S)
    requires Step(c, s, Take) == Some(s')
    ensures AroundInserter(s', x) == AroundInserter(s, x)
  {
    OriginsHead(s.done);
    HeadCount(Origins(s.done), x);
  }

  lemma InsertBalance<S, T>(c: Config<S, T>, s: State<S, T>, s': State<S, T>, x: S)
    requires Step(c, s, Insert) == Some(s')
    ensures AroundInserter(s', x) == AroundInserter(s, x)
  {
    TailCount(s.inserted, s.inserter.item, x);
  }

  lemma InsertFailsBalance<S, T>(c: Config<S, T>, s: State<S, T>, s': State<S, T>, x: S)
    requires Step(c, s, InsertFails) == Some(s')
    ensures AroundInserter(s', x) == AroundInserter(s, x)
  {
    PushCount(s.lost, s.inserter.item.origin, x);
  }

  lemma WorkerConserves<S, T>(c: Config<S, T>, s: State<S, T>, a: Action, s': State<S, T>, x: S)
    requires Step(c, s, a) == Some(s') && IsWorkerAction(a)
    requires s.read <= |c.rows| && Balanced(c, s, x)
    ensures s'.read <= |c.rows| && Balanced(c, s', x)
  {
    WorkerTouches(c, s, a, s');
    HeldUpdate(s.workers, a.i, s'.workers[a.i], x);
    WorkerBalance(c, s, a, s', x);
    SomewhereShifts(s, s', a.i, x);
  }

  lemma WorkerTouches<S, T>(c: Config<S, T>, s: State<S, T>, a: Action, s': State<S, T>)
    requires Step(c, s, a) == Some(s') && IsWorkerAction(a)
    ensures WorkerStep(c, s, a, a.i) == Some(s') && a.i < |s.workers| == |s'.workers|
    ensures s'.workers == s.workers[a.i := s'.workers[a.i]]
    ensures s'.read == s.read && s'.reader == s.reader && s'.inserter == s.inserter && s'.inserted == s.inserted
  {
  }

  /** How often a row is held by worker `i`, in the queues around it, or on record as lost. */
  ghost function Around<S, T>(s: State<S, T>, i: nat, x: S): nat
    requires i < |s.workers|
  {
    HeldByWorker(s.workers[i], x) + multiset(s.work)[x] + multiset(Origins(s.done))[x] + multiset(s.lost)[x]
  }

  lemma SomewhereShifts<S, T>(s: State<S, T>, s': State<S, T>, i: nat, x: S)
    requires i < |s.workers| == |s'.workers|
    requires s'.reader == s.reader && s'.inserter == s.inserter && s'.inserted == s.inserted
    requires HeldByWorkers(s'.workers, x) + HeldByWorker(s.workers[i], x)
          == HeldByWorkers(s.workers, x) + HeldByWorker(s'.workers[i], x)
    requires Around(s, i, x) == Around(s', i, x)
    ensures Somewhere(s', x) + multiset(s'.lost)[x] == Somewhere(s, x) + multiset(s.lost)[x]
  {
  }

  /** One worker and the queues around it keep what they hold together. */
  lemma WorkerBalance<S, T>(c: Config<S, T>, s: State<S, T>, a: Action, s': State<S, T>, x: S)
    requires IsWorkerAction(a) && a.i < |s.workers| == |s'.workers| && WorkerStep(c, s, a, a.i) == Some(s')
    ensures Around(s', a.i, x) == Around(s, a.i, x)
  {
    if a.Receive? {
      ReceiveBalance(c, s, a, s', x);
    } else if a.Deliver? {
      DeliverBalance(c, s, a, s', x);
    } else if a.Process? {
      ProcessBalance(c, s, a, s', x);
    } else if a.DeliverFails? || a.Panic? {
      LossBalance(c, s, a, s', x);
    }
  }

  lemma LossBalance<S, T>(c: Config<S, T>, s: State<S, T>, a: Action, s': State<S, T>, x: S)
    requires (a.DeliverFails? || a.Panic?) && a.i < |s.workers| == |s'.workers|
    requires WorkerStep(c, s, a, a.i) == Some(s')
    ensures Around(s', a.i, x) == Around(s, a.i, x)
  {
    var w := s.workers[a.i];
    PushCount(s.lost, if w.Processing? then w.row else w.item.origin, x);
  }

  lemma ReceiveBalance<S, T>(c: Config<S, T>, s: State<S, T>, a: Action, s': State<S, T>, x: S)
    requires a.Receive? && a.i < |s.workers| == |s'.workers| && WorkerStep(c, s, a, a.i) == Some(s')
    ensures Around(s', a.i, x) == Around(s, a.i, x)
  {
    HeadCount(s.work, x);
  }

  lemma DeliverBalance<S, T>(c: Config<S, T>, s: State<S, T>, a: Action, s': State<S, T>, x: S)
    requires a.Deliver? && a.i < |s.workers| == |s'.workers| && WorkerStep(c, s, a, a.i) == Some(s')
    ensures Around(s', a.i, x) == Around(s, a.i, x)
  {
    TailCount(s.done, s.workers[a.i].item, x);
  }

  lemma ProcessBalance<S, T>(c: Config<S, T>, s: State<S, T>, a: Action, s': State<S, T>, x: S)
    requires a.Process? && a.i < |s.workers| == |s'.workers| && WorkerStep(c, s, a, a.i) == Some(s')
    ensures Around(s', a.i, x) == Around(s, a.i, x)
  {
    PushCount(s.lost, s.workers[a.i].row, x);
  }

  lemma HeadCount<S>(rows: seq<S>, x: S)
    requires rows != []
    ensures multiset(rows)[x] == multiset(rows[1..])[x] + Count(true, rows[0], x)
  {
    assert rows == [rows[0]] + rows[1..];
  }

  lemma TailCount<S, T>(items: seq<Done<S, T>>, item: Done<S, T>, x: S)
    ensures multiset(Origins(items + [item]))[x] == multiset(Origins(items))[x] + Count(true, item.origin, x)
  {
    OriginsAppend(items, item);
  }

  /** While nothing went wrong, somebody is there to receive what the reader sends. */
  lemma SenderIsHeard<S(!new), T>(c: Config<S, T>, workers: nat, s: State<S, T>)
    requires Inv(c, workers, s) && Clean(s) && workers > 0
    ensures !(s.reader.Sending? && s.NoReceiver())
  {
    if s.NoReceiver() {
      assert s.workers[0].Stopped?;
    }
  }

  /** No step of any task loses or duplicates a row unnoticed. */
  lemma Conserves<S, T>(c: Config<S, T>, s: State<S, T>, a: Action, s': State<S, T>, x: S)
    requires s.read <= |c.rows| && Balanced(c, s, x) && Step(c, s, a) == Some(s')
    ensures s'.read <= |c.rows| && Balanced(c, s', x)
  {
    if a.Fetch? || a.Send? || a.SendFails? {
      ReaderConserves(c, s, a, s', x);
    } else if a.Take? || a.Insert? || a.InsertFails? {
      InserterConserves(c, s, a, s', x);
    } else if IsWorkerAction(a) {
      WorkerConserves(c, s, a, s', x);
    } else {
      OthersMoveNothing(c, s, a, s', x);
    }
  }

  lemma OthersMoveNothing<S, T>(c: Config<S, T>, s: State<S, T>, a: Action, s': State<S, T>, x: S)
    requires Step(c, s, a) == Some(s') && !IsWorkerAction(a)
    requires !a.Fetch? && !a.Send? && !a.SendFails? && !a.Take? && !a.Insert? && !a.InsertFails?
    requires s.read <= |c.rows| && Balanced(c, s, x)
    ensures s'.read <= |c.rows| && Balanced(c, s', x)
  {
  }

  /** A row is lost only in a step after which something has visibly gone wrong. */
  lemma LossIsNotClean<S(!new), T>(c: Config<S, T>, workers: nat, s: State<S, T>, a: Action, s': State<S, T>)
    requires Inv(c, workers, s) && Step(c, s, a) == Some(s') && Clean(s') && workers > 0
    ensures s'.lost == []
  {
    DirtyStays(c, s, a, s');
    SenderIsHeard(c, workers, s);
    if a.Process? || a.DeliverFails? {
      assert !s'.workers[a.i].Raising?;
    }
  }

  lemma StartInv<S(!new), T>(c: Config<S, T>, workers: nat)
    ensures Inv(c, workers, Start<S, T>(workers))
  {
    var s := Start<S, T>(workers);
    forall x
      ensures Balanced(c, s, x)
    {
      IdleHoldNothing(s.workers, x);
      assert c.rows[..0] == [];
    }
  }

  /** The invariant survives every step of every task. */
  lemma StepInv<S(!new), T>(c: Config<S, T>, workers: nat, s: State<S, T>, a: Action, s': State<S, T>)
    requires Inv(c, workers, s) && Step(c, s, a) == Some(s') && workers > 0
    ensures Inv(c, workers, s')
  {
    StepFaithful(c, s, a, s');
    forall x
      ensures s'.read <= |c.rows| && Balanced(c, s', x)
    {
      Conserves(c, s, a, s', x);
    }
    if IsWorkerAction(a) {
      WorkerStepOrderly(c, workers, s, a, s');
    } else {
      OtherStepOrderly(c, workers, s, a, s');
    }
  }

  /** The actions of the workers. */
  predicate IsWorkerAction(a: Action) {
    a.Receive? || a.Disconnect? || a.Process? || a.Panic? || a.Deliver? || a.DeliverFails? || a.Raise? || a.Check?
  }

  lemma StepFaithful<S, T>(c: Config<S, T>, s: State<S, T>, a: Action, s': State<S, T>)
    requires AllFaithful(c, s) && Step(c, s, a) == Some(s')
    ensures AllFaithful(c, s')
  {
    if IsWorkerAction(a) {
      WorkerStepFaithful(c, s, a, s');
    }
  }

  lemma WorkerStepFaithful<S, T>(c: Config<S, T>, s: State<S, T>, a: Action, s': State<S, T>)
    requires AllFaithful(c, s) && IsWorkerAction(a) && Step(c, s, a) == Some(s')
    ensures AllFaithful(c, s')
  {
    WorkerTouches(c, s, a, s');
  }

  lemma WorkerStepOrderly<S(!new), T>(c: Config<S, T>, workers: nat, s: State<S, T>, a: Action, s': State<S, T>)
    requires Inv(c, workers, s) && Step(c, s, a) == Some(s') && IsWorkerAction(a) && workers > 0
    ensures Orderly(c, s')
  {
    if Clean(s') {
      DirtyStays(c, s, a, s');
      LossIsNotClean(c, workers, s, a, s');
    }
  }

  lemma OtherStepOrderly<S(!new), T>(c: Config<S, T>, workers: nat, s: State<S, T>, a: Action, s': State<S, T>)
    requires Inv(c, workers, s) && Step(c, s, a) == Some(s') && !IsWorkerAction(a) && workers > 0
    ensures Orderly(c, s')
  {
    if Clean(s') {
      DirtyStays(c, s, a, s');
      SenderIsHeard(c, workers, s);
      LossIsNotClean(c, workers, s, a, s');
    }
  }

  /** Every state of every run satisfies the invariant. */
  lemma {:induction false} RunInv<S(!new), T>(c: Config<S, T>, workers: nat, actions: seq<Action>,
                                              states: seq<State<S, T>>, k: nat)
    requires IsRun(c, workers, actions, states) && workers > 0 && k < |states|
    ensures Inv(c, workers, states[k])
  {
    if k == 0 {
      StartInv(c, workers);
    } else {
      RunInv(c, workers, actions, states, k - 1);
      StepInv(c, workers, states[k - 1], actions[k - 1], states[k]);
    }
  }

  /** A run that returns Ok, whose query did not fail and whose tasks did not panic, has inserted the
      processed form of every row exactly once: for any number of workers and any queue capacity. */
  lemma OkMeansComplete<S(!new), T>(c: Config<S, T>, workers: nat, actions: seq<Action>, states: seq<State<S, T>>,
                                    k: nat)
    requires IsRun(c, workers, actions, states) && workers > 0 && k < |states|
    requires states[k].inserter == Returned(true) && !states[k].queryFailed && !states[k].panicked
    ensures multiset(Origins(states[k].inserted)) == multiset(c.rows)
    ensures forall i | 0 <= i < |states[k].inserted| :: Faithful(c, states[k].inserted[i])
  {
    RunInv(c, workers, actions, states, k);
    var s := states[k];
    assert s.workers[0].Stopped?;
    assert Clean(s);
    OkIsCompleteIff(c, workers, actions, states, k);
  }

  /** What an Ok leaves outside the table: the rows on record as lost, the row that the reader still holds,
      and what nobody will take from the work queue any more. */
  ghost predicate NothingLeftBehind<S, T>(s: State<S, T>) {
    s.lost == [] && !s.reader.Sending? && s.work == []
  }

  /** Exactly when Ok means complete, whatever happened on the way: the inserted rows are the rows of the
      query, each once, if and only if all rows were read and none was left behind. */
  lemma OkIsCompleteIff<S(!new), T>(c: Config<S, T>, workers: nat, actions: seq<Action>, states: seq<State<S, T>>,
                                    k: nat)
    requires IsRun(c, workers, actions, states) && workers > 0 && k < |states|
    requires states[k].inserter == Returned(true)
    ensures multiset(Origins(states[k].inserted)) == multiset(c.rows)
       <==> states[k].read == |c.rows| && NothingLeftBehind(states[k])
  {
    RunInv(c, workers, actions, states, k);
    var s := states[k];
    forall x
      ensures multiset(c.rows)[x] == multiset(Origins(s.inserted))[x] + HeldByReader(s.reader, x) + multiset(s.work)[x]
                                     + multiset(s.lost)[x] + multiset(c.rows[s.read..])[x]
    {
      OkBalance(c, workers, s, x);
    }
    assert s.reader.Sending? ==> HeldByReader(s.reader, s.reader.row) == 1;
    if multiset(Origins(s.inserted)) == multiset(c.rows) {
      NoneCounts(s.lost);
      NoneCounts(s.work);
      NoneCounts(c.rows[s.read..]);
    }
  }

  /** Where the rows of the query are once `run` has returned Ok. */
  lemma OkBalance<S(!new), T>(c: Config<S, T>, workers: nat, s: State<S, T>, x: S)
    requires Inv(c, workers, s) && s.inserter == Returned(true)
    ensures multiset(c.rows)[x] == multiset(Origins(s.inserted))[x] + HeldByReader(s.reader, x) + multiset(s.work)[x]
                                   + multiset(s.lost)[x] + multiset(c.rows[s.read..])[x]
  {
    IdleHoldNothing(s.workers, x);
    assert c.rows == c.rows[..s.read] + c.rows[s.read..];
    assert Balanced(c, s, x);
  }

  lemma NoneCounts<S(!new)>(rows: seq<S>)
    ensures (forall x :: multiset(rows)[x] == 0) ==> rows == []
  {
    if rows != [] {
      assert rows[0] in multiset(rows);
    }
  }

  // ---------------------------------------------------------------- progress

  function WorkerWeight<S, T>(w: Worker<S, T>): nat {
    match w
    case Stopped => 0
    case Receiving => 1
    case Checking => 2
    case Raising => 3
    case Delivering(_) => 5
    case Processing(_) => 6
  }

  function WorkersWeight<S, T>(ws: seq<Worker<S, T>>): nat {
    if ws == [] then 0 else WorkersWeight(ws[..|ws| - 1]) + WorkerWeight(ws[|ws| - 1])
  }

  function ReaderWeight<S>(r: Reader<S>): nat {
    match r
    case Finished => 0
    case StoringError => 1
    case Fetching => 2
    case Sending(_) => 9
  }

  function InserterWeight<S, T>(i: Inserter<S, T>): nat {
    match i
    case Returned(_) => 0
    case LoadingFlag => 1
    case Draining => 2
    case Preparing => 3
    case Inserting(_) => 3
  }

  /** How much the tasks can still do. */
  function Measure<S, T>(c: Config<S, T>, s: State<S, T>): nat {
    8 * (if s.read <= |c.rows| then |c.rows| - s.read else 0) + ReaderWeight(s.reader) + 6 * |s.work|
    + WorkersWeight(s.workers) + 2 * |s.done| + InserterWeight(s.inserter)
  }

  lemma {:induction false} WeightUpdate<S, T>(ws: seq<Worker<S, T>>, i: nat, w: Worker<S, T>)
    requires i < |ws|
    ensures WorkersWeight(ws[i := w]) + WorkerWeight(ws[i]) == WorkersWeight(ws) + WorkerWeight(w)
  {
    var last := |ws| - 1;
    if i == last {
      assert ws[i := w][..last] == ws[..last];
    } else {
      WeightUpdate(ws[..last], i, w);
      assert ws[i := w][..last] == ws[..last][i := w];
    }
  }

  /** Every step, failing or not, uses up some of the measure. */
  lemma StepDecreases<S, T>(c: Config<S, T>, s: State<S, T>, a: Action, s': State<S, T>)
    requires Step(c, s, a) == Some(s')
    ensures Measure(c, s') < Measure(c, s)
  {
    if IsWorkerAction(a) {
      WorkerStepDecreases(c, s, a, s');
    }
  }

  lemma WorkerStepDecreases<S, T>(c: Config<S, T>, s: State<S, T>, a: Action, s': State<S, T>)
    requires IsWorkerAction(a) && Step(c, s, a) == Some(s')
    ensures Measure(c, s') < Measure(c, s)
  {
    var i := a.i;
    var w := s'.workers[i];
    assert s'.workers == s.workers[i := w];
    WeightUpdate(s.workers, i, w);
    assert WorkerWeight(w) + 2 * |s'.done| + 6 * |s'.work| < WorkerWeight(s.workers[i]) + 2 * |s.done| + 6 * |s.work|;
  }

  lemma RunStep<S, T>(c: Config<S, T>, workers: nat, actions: seq<Action>, states: seq<State<S, T>>, k: nat)
    requires IsRun(c, workers, actions, states) && k < |actions|
    ensures Step(c, states[k], actions[k]) == Some(states[k + 1])
  {
  }

  /** No run is longer than the measure of its start. */
  lemma {:induction false} RunsAreFinite<S, T>(c: Config<S, T>, workers: nat, actions: seq<Action>,
                                               states: seq<State<S, T>>, k: nat)
    requires IsRun(c, workers, actions, states) && k < |states|
    ensures k + Measure(c, states[k]) <= Measure(c, Start<S, T>(workers))
  {
    if k == 0 {
    } else {
      RunsAreFinite(c, workers, actions, states, k - 1);
      RunStep(c, workers, actions, states, k - 1);
      StepDecreases(c, states[k - 1], actions[k - 1], states[k]);
    }
  }

  /** A busy worker can move, unless it waits for room in the insert queue. */
  function WorkerMove<S, T>(s: State<S, T>, i: nat): Action
    requires i < |s.workers|
  {
    match s.workers[i]
    case Processing(_) => Process(i)
    case Delivering(_) => if s.InserterGone() then DeliverFails(i) else Deliver(i)
    case Raising => Raise(i)
    case Checking => Check(i)
    case Receiving => if |s.work| > 0 then Receive(i) else Disconnect(i)
    case Stopped => Check(i)
  }

  function InserterMove<S, T>(s: State<S, T>): Action {
    match s.inserter
    case Preparing => Prepare
    case Draining => if |s.done| > 0 then Take else Drained
    case Inserting(_) => Insert
    case LoadingFlag => LoadFlag
    case Returned(_) => LoadFlag
  }

  function ReaderMove<S, T>(c: Config<S, T>, s: State<S, T>): Action {
    match s.reader
    case Fetching => if s.read < |c.rows| then Fetch else QueryEnds
    case Sending(_) => if s.NoReceiver() then SendFails else Send
    case StoringError => StoreQueryError
    case Finished => QueryEnds
  }

  /** The pipeline never gets stuck: in every state where some task has not ended, some task can move,
      also after failures and with full queues. */
  lemma Progress<S, T>(c: Config<S, T>, s: State<S, T>)
    requires c.capacity > 0 && !s.Final()
    ensures exists a :: Step(c, s, a).Some?
  {
    if i: nat :| i < |s.workers| && (s.workers[i].Processing? || s.workers[i].Raising? || s.workers[i].Checking?) {
      assert Step(c, s, WorkerMove(s, i)).Some?;
    } else if i: nat :| i < |s.workers| && s.workers[i].Delivering? {
      if s.InserterGone() || |s.done| < c.capacity {
        assert Step(c, s, WorkerMove(s, i)).Some?;
      } else {
        assert Step(c, s, InserterMove(s)).Some?;
      }
    } else if i: nat :| i < |s.workers| && s.workers[i].Receiving? {
      if |s.work| > 0 || s.SenderDropped() {
        assert Step(c, s, WorkerMove(s, i)).Some?;
      } else {
        assert Step(c, s, ReaderMove(c, s)).Some?;
      }
    } else if !s.reader.Finished? {
      assert Step(c, s, ReaderMove(c, s)).Some?;
    } else {
      assert Step(c, s, InserterMove(s)).Some?;
    }
  }

  // ---------------------------------------------------------------- after an error

  /** A failed query is reported unless its error is stored after `run` has looked at the flag: this is the only
      way in which it gets lost. */
  lemma QueryFailureIsReported<S(!new), T>(c: Config<S, T>, workers: nat, actions: seq<Action>,
                                           states: seq<State<S, T>>, k: nat)
    requires IsRun(c, workers, actions, states) && workers > 0 && k < |actions|
    requires actions[k].LoadFlag? && states[k].queryFailed
    ensures states[k + 1].inserter == Returned(true) ==> states[k].reader.StoringError?
    ensures states[k].reader.Finished? ==> states[k + 1].inserter == Returned(false)
  {
    RunInv(c, workers, actions, states, k);
  }

  /** Worker `i` is not about to take a row, and the flag keeps it so. */
  ghost predicate Barred<S, T>(s: State<S, T>, i: nat) {
    s.flag && i < |s.workers| && !s.workers[i].Receiving?
  }

  lemma StepKeepsBarred<S, T>(c: Config<S, T>, s: State<S, T>, a: Action, s': State<S, T>, i: nat)
    requires Step(c, s, a) == Some(s') && s.flag && i < |s.workers|
    ensures s'.flag && i < |s'.workers|
    ensures Barred(s, i) || a == Receive(i) ==> Barred(s', i)
    ensures Barred(s, i) ==> a != Receive(i)
  {
    if IsWorkerAction(a) {
      WorkerTouches(c, s, a, s');
    }
  }

  lemma {:induction false} StaysBarred<S, T>(c: Config<S, T>, workers: nat, actions: seq<Action>,
                                             states: seq<State<S, T>>, k: nat, n: nat, i: nat)
    requires IsRun(c, workers, actions, states) && k <= n < |states|
    requires states[k].flag && i < |states[k].workers|
    ensures states[n].flag && i < |states[n].workers| && (Barred(states[k], i) ==> Barred(states[n], i))
    decreases n - k
  {
    if k < n {
      StepKeepsBarred(c, states[k], actions[k], states[k + 1], i);
      StaysBarred(c, workers, actions, states, k + 1, n, i);
    }
  }

  /** Once the flag is set no worker takes more than one further row. */
  lemma FlagLimitsWork<S, T>(c: Config<S, T>, workers: nat, actions: seq<Action>, states: seq<State<S, T>>, k: nat,
                             m: nat, n: nat, i: nat)
    requires IsRun(c, workers, actions, states) && k <= m < n < |actions|
    requires states[k].flag && i < |states[k].workers|
    ensures !(actions[m] == Receive(i) && actions[n] == Receive(i))
  {
    StaysBarred(c, workers, actions, states, k, m, i);
    StepKeepsBarred(c, states[m], actions[m], states[m + 1], i);
    if actions[m] == Receive(i) {
      StaysBarred(c, workers, actions, states, m + 1, n, i);
      StepKeepsBarred(c, states[n], actions[n], states[n + 1], i);
    }
  }

  // ---------------------------------------------------------------- what Ok does not say

  /** Some run leads to the state. */
  ghost predicate Reachable<S(!new), T(!new)>(c: Config<S, T>, workers: nat, s: State<S, T>) {
    exists actions, states :: IsRun<S, T>(c, workers, actions, states) && states[|actions|] == s
  }

  lemma StartIsReachable<S(!new), T(!new)>(c: Config<S, T>, workers: nat)
    ensures Reachable(c, workers, Start<S, T>(workers))
  {
    assert IsRun<S, T>(c, workers, [], [Start<S, T>(workers)]);
  }

  /** A run goes on by one step. */
  lemma ReachableStep<S(!new), T(!new)>(c: Config<S, T>, workers: nat, s: State<S, T>, a: Action, s': State<S, T>)
    requires Reachable(c, workers, s) && Step(c, s, a) == Some(s')
    ensures Reachable(c, workers, s')
  {
    var actions, states :| IsRun<S, T>(c, workers, actions, states) && states[|actions|] == s;
    var actions', states' := actions + [a], states + [s'];
    forall k | 0 <= k < |actions'|
      ensures Step(c, states'[k], actions'[k]) == Some(states'[k + 1])
    {
      if k < |actions| {
        assert states'[k] == states[k] && states'[k + 1] == states[k + 1] && actions'[k] == actions[k];
      }
    }
    assert IsRun(c, workers, actions', states') && states'[|actions'|] == s';
  }

  /** The hypothesis on the query is needed: its error is stored only after its sender is dropped, and a
      run can return Ok in between, having inserted nothing. */
  lemma QueryErrorCanComeTooLate<S(!new), T(!new)>(c: Config<S, T>) returns (s: State<S, T>)
    ensures Reachable(c, 1, s)
    ensures s.inserter == Returned(true) && s.queryFailed && s.inserted == []
    ensures Step(c, s, StoreQueryError).Some? && Step(c, s, StoreQueryError).value.Final()
  {
    var s0 := Start<S, T>(1);
    StartIsReachable(c, 1);
    var s1 := s0.(reader := StoringError, queryFailed := true);
    ReachableStep(c, 1, s0, QueryFails, s1);
    assert s1.workers[0 := Stopped] == [Stopped];
    var s2 := s1.(workers := [Stopped]);
    ReachableStep(c, 1, s1, Disconnect(0), s2);
    s := InserterEnds(c, 1, s2);
  }

  /** When the workers are gone and nothing waits, the inserter finishes. */
  lemma InserterEnds<S(!new), T(!new)>(c: Config<S, T>, workers: nat, s: State<S, T>) returns (s': State<S, T>)
    requires Reachable(c, workers, s) && s.inserter.Preparing? && s.NoReceiver() && s.done == [] && !s.flag
    ensures s' == s.(inserter := Returned(true)) && Reachable(c, workers, s')
  {
    var draining, loading := s.(inserter := Draining), s.(inserter := LoadingFlag);
    s' := s.(inserter := Returned(true));
    ReachableStep(c, workers, s, Prepare, draining);
    ReachableStep(c, workers, draining, Drained, loading);
    ReachableStep(c, workers, loading, LoadFlag, s');
  }

  /** So is the hypothesis on panics: a panicking worker drops its row without telling anybody. */
  lemma PanicLosesRow<S(!new), T(!new)>(c: Config<S, T>) returns (s: State<S, T>)
    requires |c.rows| == 1 && c.capacity > 0
    ensures Reachable(c, 2, s)
    ensures s.Final() && s.inserter == Returned(true) && s.panicked && !s.queryFailed && s.inserted == []
    ensures s.lost == c.rows
  {
    var s4 := RowPanics(c);
    var s5 := s4.(reader := Finished);
    ReachableStep(c, 2, s4, QueryEnds, s5);
    assert s5.workers[1 := Stopped] == [Stopped, Stopped];
    var s6 := s5.(workers := [Stopped, Stopped]);
    ReachableStep(c, 2, s5, Disconnect(1), s6);
    s := InserterEnds(c, 2, s6);
  }

  lemma RowPanics<S(!new), T(!new)>(c: Config<S, T>) returns (s: State<S, T>)
    requires |c.rows| == 1 && c.capacity > 0
    ensures s == Start<S, T>(2).(read := 1, workers := [Stopped, Receiving], panicked := true, lost := c.rows)
    ensures Reachable(c, 2, s)
  {
    var row := c.rows[0];
    var s2 := FirstRowSent(c, 2);
    assert s2.workers[0 := Processing(row)] == [Processing(row), Receiving] && s2.work[1..] == [];
    var s3 := s2.(workers := [Processing(row), Receiving], work := []);
    ReachableStep(c, 2, s2, Receive(0), s3);
    assert s3.workers[0 := Stopped] == [Stopped, Receiving] && s3.lost + [row] == [row] == c.rows;
    s := s3.(workers := [Stopped, Receiving], panicked := true, lost := [row]);
    ReachableStep(c, 2, s3, Panic(0), s);
  }

  lemma FirstRowSent<S(!new), T(!new)>(c: Config<S, T>, workers: nat) returns (s: State<S, T>)
    requires |c.rows| > 0 && c.capacity > 0 && workers > 0
    ensures s == Start<S, T>(workers).(read := 1, work := [c.rows[0]]) && Reachable(c, workers, s)
  {
    var row := c.rows[0];
    var s0 := Start<S, T>(workers);
    StartIsReachable(c, workers);
    var s1 := s0.(reader := Sending(row), read := 1);
    ReachableStep(c, workers, s0, Fetch, s1);
    assert s1.workers[0].Receiving?;
    assert s1.work + [row] == [row];
    s := s1.(reader := Fetching, work := [row]);
    ReachableStep(c, workers, s1, Send, s);
  }

  // ---------------------------------------------------------------- the table that a run fills

  /** The table after the inserts, keyed by the coordinate of the row. */
  function Filled<S, K, T>(items: seq<Done<S, T>>, key: S -> K): map<K, T> {
    if items == [] then map[]
    else Filled(items[..|items| - 1], key)[key(items[|items| - 1].origin) := items[|items| - 1].result]
  }

  lemma {:induction false} FilledFrom<S, K, T>(items: seq<Done<S, T>>, key: S -> K, k: K)
    ensures k in Filled(items, key) <==> exists i :: 0 <= i < |items| && key(items[i].origin) == k
    ensures k in Filled(items, key) ==>
              exists i :: 0 <= i < |items| && key(items[i].origin) == k && items[i].result == Filled(items, key)[k]
  {
    if items == [] {
    } else {
      var init := items[..|items| - 1];
      FilledFrom(init, key, k);
      if k in Filled(init, key) {
        var i :| 0 <= i < |init| && key(init[i].origin) == k && init[i].result == Filled(init, key)[k];
        assert items[i] == init[i];
      }
    }
  }

  /** If the query delivers every row of a keyed table once, in whatever order, an Ok run fills the
      result table with the processed form of each row under its key, and the plain INSERT never meets
      a key that is already there. */
  lemma OkFillsTable<S(!new), K(!new), T>(query: map<K, S>, key: S -> K, c: Config<S, T>, workers: nat,
                                          actions: seq<Action>, states: seq<State<S, T>>, k: nat)
    requires Lists(c.rows, query, key)
    requires IsRun(c, workers, actions, states) && workers > 0 && k < |states|
    requires states[k].inserter == Returned(true) && !states[k].queryFailed && !states[k].panicked
    ensures forall i, j | 0 <= i < j < |states[k].inserted| ::
              key(states[k].inserted[i].origin) != key(states[k].inserted[j].origin)
    ensures forall q :: q in Filled(states[k].inserted, key) <==> q in query
    ensures forall q | q in query :: Some(Filled(states[k].inserted, key)[q]) == c.process(query[q])
  {
    OkMeansComplete(c, workers, actions, states, k);
    var items := states[k].inserted;
    forall i | 0 <= i < |items|
      ensures key(items[i].origin) in query && query[key(items[i].origin)] == items[i].origin
    {
      assert Origins(items)[i] in multiset(Origins(items));
    }
    forall i, j | 0 <= i < j < |items|
      ensures key(items[i].origin) != key(items[j].origin)
    {
      if items[i].origin == items[j].origin {
        TwiceCounts(Origins(items), i, j);
      }
    }
    forall q
      ensures q in Filled(items, key) <==> q in query
      ensures q in query ==> Some(Filled(items, key)[q]) == c.process(query[q])
    {
      FilledFrom(items, key, q);
      if q in query {
        assert query[q] in multiset(Origins(items));
        var i :| 0 <= i < |items| && Origins(items)[i] == query[q];
        assert key(items[i].origin) == q;
      }
    }
  }

  // ---------------------------------------------------------------- the verdict of a run

  /** What the world around the pipeline can do to it. */
  predicate IsFault(a: Action) {
    a.QueryFails? || a.QueryPanics? || a.PrepareFails? || a.Panic?
  }

  ghost predicate Faultless(actions: seq<Action>) {
    forall k | 0 <= k < |actions| :: !IsFault(actions[k])
  }

  /** The row about to be inserted has a key that the table already has. */
  ghost predicate KeyTaken<S, K(!new), T>(s: State<S, T>, key: S -> K, taken: set<K>) {
    s.inserter.Inserting?
    && (key(s.inserter.item.origin) in taken
        || exists i :: 0 <= i < |s.inserted| && key(s.inserted[i].origin) == key(s.inserter.item.origin))
  }

  /** A plain INSERT into a table with the keys `taken` fails exactly when it meets a key again. */
  ghost predicate PlainInserts<S, K(!new), T>(actions: seq<Action>, states: seq<State<S, T>>, key: S -> K,
                                              taken: set<K>)
    requires |states| == |actions| + 1
  {
    forall k | 0 <= k < |actions| ::
      (actions[k].InsertFails? ==> KeyTaken(states[k], key, taken))
          && (actions[k].Insert? ==> !KeyTaken(states[k], key, taken))
  }

  /** The rows are those of a keyed table, each once, in whatever order. */
  ghost predicate Lists<S(!new), K(!new)>(rows: seq<S>, query: map<K, S>, key: S -> K) {
    && (forall q | q in query :: key(query[q]) == q)
    && (forall x :: multiset(rows)[x] == if key(x) in query && query[key(x)] == x then 1 else 0)
  }

  lemma {:induction false} NothingFailed<S, T>(c: Config<S, T>, workers: nat, actions: seq<Action>,
                                               states: seq<State<S, T>>, k: nat)
    requires IsRun(c, workers, actions, states) && Faultless(actions) && k < |states|
    ensures !states[k].queryFailed && !states[k].panicked && !states[k].reader.StoringError?
  {
    if k == 0 {
    } else {
      NothingFailed(c, workers, actions, states, k - 1);
      assert Step(c, states[k - 1], actions[k - 1]) == Some(states[k]) && !IsFault(actions[k - 1]);
    }
  }

  /** A row that is somewhere in the pipeline is a row of the query, and not twice. */
  lemma HeldIsListed<S(!new), K(!new), T>(c: Config<S, T>, workers: nat, s: State<S, T>, query: map<K, S>, key: S -> K,
                                          x: S)
    requires Inv(c, workers, s) && Clean(s) && Lists(c.rows, query, key)
    ensures Somewhere(s, x) <= 1
    ensures Somewhere(s, x) > 0 ==> key(x) in query && query[key(x)] == x
  {
    assert c.rows == c.rows[..s.read] + c.rows[s.read..];
    assert multiset(c.rows)[x] == multiset(c.rows[..s.read])[x] + multiset(c.rows[s.read..])[x];
    assert Balanced(c, s, x);
  }

  /** The row that the inserter holds does not clash, unless with what was there before. */
  lemma NoClash<S(!new), K(!new), T>(c: Config<S, T>, workers: nat, s: State<S, T>, query: map<K, S>, key: S -> K,
                                     taken: set<K>)
    requires Inv(c, workers, s) && Clean(s) && Lists(c.rows, query, key) && query.Keys !! taken
    ensures !KeyTaken(s, key, taken)
  {
    if s.inserter.Inserting? {
      var x := s.inserter.item.origin;
      HeldIsListed(c, workers, s, query, key, x);
      forall i | 0 <= i < |s.inserted|
        ensures key(s.inserted[i].origin) != key(x)
      {
        var y := s.inserted[i].origin;
        assert Origins(s.inserted)[i] in multiset(Origins(s.inserted));
        HeldIsListed(c, workers, s, query, key, y);
      }
    }
  }

  /** A worker holds at most what the pipeline holds. */
  lemma {:induction false} WorkerHolds<S, T>(ws: seq<Worker<S, T>>, i: nat, x: S)
    requires i < |ws|
    ensures HeldByWorker(ws[i], x) <= HeldByWorkers(ws, x)
  {
    if i == |ws| - 1 {
    } else {
      WorkerHolds(ws[..|ws| - 1], i, x);
    }
  }

  /** A step without a fault, on rows that can all be processed and inserted, leaves everything in order. */
  lemma CleanStep<S(!new), K(!new), T>(c: Config<S, T>, workers: nat, s: State<S, T>, a: Action, s': State<S, T>,
                                       query: map<K, S>, key: S -> K, taken: set<K>)
    requires Inv(c, workers, s) && Clean(s) && workers > 0 && Step(c, s, a) == Some(s')
    requires !IsFault(a) && (a.InsertFails? ==> KeyTaken(s, key, taken))
    requires Lists(c.rows, query, key) && query.Keys !! taken
    requires forall q | q in query :: c.process(query[q]).Some?
    ensures Clean(s')
  {
    NoClash(c, workers, s, query, key, taken);
    if a.Process? {
      var x := s.workers[a.i].row;
      WorkerHolds(s.workers, a.i, x);
      HeldIsListed(c, workers, s, query, key, x);
      assert c.process(query[key(x)]).Some?;
    }
    InserterListens(c, workers, s);
  }

  /** While nothing went wrong, somebody is there to receive what the workers deliver. */
  lemma InserterListens<S(!new), T>(c: Config<S, T>, workers: nat, s: State<S, T>)
    requires Inv(c, workers, s) && Clean(s)
    ensures s.InserterGone() ==> s.NoReceiver()
  {
  }

  lemma StepAt<S, K(!new), T>(c: Config<S, T>, workers: nat, actions: seq<Action>, states: seq<State<S, T>>,
                              key: S -> K, taken: set<K>, k: nat)
    returns (a: Action)
    requires IsRun(c, workers, actions, states) && k < |actions|
    requires Faultless(actions) && PlainInserts(actions, states, key, taken)
    ensures Step(c, states[k], a) == Some(states[k + 1]) && !IsFault(a)
    ensures a.InsertFails? ==> KeyTaken(states[k], key, taken)
  {
    a := actions[k];
  }

  lemma {:induction false} StaysClean<S(!new), K(!new), T>(c: Config<S, T>, workers: nat, actions: seq<Action>,
                                                           states: seq<State<S, T>>, query: map<K, S>, key: S -> K,
                                                           taken: set<K>, k: nat)
    requires IsRun(c, workers, actions, states) && workers > 0 && k < |states|
    requires Faultless(actions) && PlainInserts(actions, states, key, taken)
    requires Lists(c.rows, query, key) && query.Keys !! taken
    requires forall q | q in query :: c.process(query[q]).Some?
    ensures Clean(states[k])
  {
    if k == 0 {
      StartIsClean<S, T>(workers);
    } else {
      StaysClean(c, workers, actions, states, query, key, taken, k - 1);
      StaysCleanAt(c, workers, actions, states, query, key, taken, k - 1);
    }
  }

  lemma StartIsClean<S, T>(workers: nat)
    ensures Clean(Start<S, T>(workers))
  {
  }

  lemma StaysCleanAt<S(!new), K(!new), T>(c: Config<S, T>, workers: nat, actions: seq<Action>, states: seq<State<S, T>>,
                                          query: map<K, S>, key: S -> K, taken: set<K>, k: nat)
    requires IsRun(c, workers, actions, states) && workers > 0 && k < |actions| && Clean(states[k])
    requires Faultless(actions) && PlainInserts(actions, states, key, taken)
    requires Lists(c.rows, query, key) && query.Keys !! taken
    requires forall q | q in query :: c.process(query[q]).Some?
    ensures Clean(states[k + 1])
  {
    RunInv(c, workers, actions, states, k);
    var a := StepAt(c, workers, actions, states, key, taken, k);
    CleanStep(c, workers, states[k], a, states[k + 1], query, key, taken);
  }

  /** Nothing was inserted over a key of the table. */
  lemma {:induction false} NothingOverwritten<S, K(!new), T>(c: Config<S, T>, workers: nat, actions: seq<Action>,
                                                             states: seq<State<S, T>>, key: S -> K, taken: set<K>,
                                                             k: nat)
    requires IsRun(c, workers, actions, states) && PlainInserts(actions, states, key, taken) && k < |states|
    ensures forall i | 0 <= i < |states[k].inserted| :: key(states[k].inserted[i].origin) !in taken
  {
    if k == 0 {
    } else {
      NothingOverwritten(c, workers, actions, states, key, taken, k - 1);
      RunStep(c, workers, actions, states, k - 1);
      assert actions[k - 1].Insert? ==> !KeyTaken(states[k - 1], key, taken);
      InsertedStep(c, states[k - 1], actions[k - 1], states[k]);
    }
  }

  lemma InsertedStep<S, T>(c: Config<S, T>, s: State<S, T>, a: Action, s': State<S, T>)
    requires Step(c, s, a) == Some(s')
    ensures if a.Insert? then s.inserter.Inserting? && s'.inserted == s.inserted + [s.inserter.item]
              else s'.inserted == s.inserted
  {
  }

  /** Whatever happens to a run, the table never holds anything but processed rows of the query, each under
      its own key. */
  lemma PartialTable<S(!new), K(!new), T>(c: Config<S, T>, workers: nat, actions: seq<Action>, states: seq<State<S, T>>,
                                          query: map<K, S>, key: S -> K, k: nat)
    requires IsRun(c, workers, actions, states) && workers > 0 && k < |states| && Lists(c.rows, query, key)
    ensures forall q | q in Filled(states[k].inserted, key) ::
              q in query && Some(Filled(states[k].inserted, key)[q]) == c.process(query[q])
  {
    RunInv(c, workers, actions, states, k);
    var s := states[k];
    forall q | q in Filled(s.inserted, key)
      ensures q in query && Some(Filled(s.inserted, key)[q]) == c.process(query[q])
    {
      FilledFrom(s.inserted, key, q);
      var i :| 0 <= i < |s.inserted| && key(s.inserted[i].origin) == q
          && s.inserted[i].result == Filled(s.inserted, key)[q];
      InsertedIsListed(c, workers, s, query, key, i);
    }
  }

  lemma InsertedIsListed<S(!new), K(!new), T>(c: Config<S, T>, workers: nat, s: State<S, T>, query: map<K, S>,
                                              key: S -> K, i: nat)
    requires Inv(c, workers, s) && Lists(c.rows, query, key) && i < |s.inserted|
    ensures var x := s.inserted[i].origin; key(x) in query && query[key(x)] == x && Faithful(c, s.inserted[i])
  {
    var x := s.inserted[i].origin;
    assert Origins(s.inserted)[i] in multiset(Origins(s.inserted));
    assert Balanced(c, s, x);
    assert c.rows == c.rows[..s.read] + c.rows[s.read..];
    assert multiset(c.rows)[x] == multiset(c.rows[..s.read])[x] + multiset(c.rows[s.read..])[x];
  }

  /** The verdict of a run that the world leaves alone: when all tasks have ended it returns Ok if and only
      if every row can be processed and no key is taken, for any number of workers, any capacity and
      any interleaving. Then the table has the processed form of every row. */
  lemma RunVerdict<S(!new), K(!new), T>(c: Config<S, T>, workers: nat, actions: seq<Action>, states: seq<State<S, T>>,
                                        query: map<K, S>, key: S -> K, taken: set<K>, k: nat)
    requires IsRun(c, workers, actions, states) && workers > 0 && k < |states| && states[k].Final()
    requires Faultless(actions) && PlainInserts(actions, states, key, taken) && Lists(c.rows, query, key)
    ensures states[k].inserter == Returned(true)
       <==> query.Keys !! taken && forall q | q in query :: c.process(query[q]).Some?
    ensures states[k].inserter == Returned(true) ==>
              && (forall q :: q in Filled(states[k].inserted, key) <==> q in query)
              && (forall q | q in query :: Some(Filled(states[k].inserted, key)[q]) == c.process(query[q]))
  {
    NothingFailed(c, workers, actions, states, k);
    if query.Keys !! taken && forall q | q in query :: c.process(query[q]).Some? {
      StaysClean(c, workers, actions, states, query, key, taken, k);
    }
    if states[k].inserter == Returned(true) {
      OkFillsTable(query, key, c, workers, actions, states, k);
      NothingOverwritten(c, workers, actions, states, key, taken, k);
      forall q | q in query
        ensures q !in taken
      {
        FilledFrom(states[k].inserted, key, q);
      }
    }
  }

  lemma TwiceCounts<S>(s: seq<S>, i: int, j: int)
    requires 0 <= i < j < |s| && s[i] == s[j]
    ensures multiset(s)[s[i]] >= 2
  {
    assert s == s[..i] + [s[i]] + s[i + 1..j] + [s[j]] + s[j + 1..];
  }
}
