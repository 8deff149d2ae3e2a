/** Reentrant transactions over one SQLite connection: what joins, what commits,
    and what a failing COMMIT, ROLLBACK or close leaves behind. */
module Transactions {
  /** What is stored: the `schema_meta` table and, as a ledger, everything else
      written so far. */
  datatype Data = Data(meta: map<string, nat>, ledger: seq<string>)

  datatype Change = SetMeta(key: string, value: nat) | Put(entry: string)

  function Changed(d: Data, c: Change): Data {
    match c
    case SetMeta(key, value) => d.(meta := d.meta[key := value])
    case Put(entry) => d.(ledger := d.ledger + [entry])
  }

  /** A failing COMMIT or ROLLBACK leaves the transaction open, or SQLite has
      dropped it. */
  datatype Outcome = Works | FailsOpen | FailsClosed

  /** What may go wrong around one transaction's body. */
  datatype Faults = Faults(begins: bool, commit: Outcome, rollback: Outcome, closes: bool, reconnects: bool)

  /** The code between the `with` lines: writes, a raise (after which SQLite may
      have dropped the transaction by itself), and transactions inside, whose
      exception the caller may catch. */
  datatype Code =
    | Done
    | Write(change: Change, next: Code)
    | Fail(rollsBack: bool)
    | Nested(body: Code, faults: Faults, catches: bool, next: Code)

  /** `Closed` is a connection that was closed and could not be replaced. */
  datatype Conn = Idle | Open(working: Data) | Closed

  datatype Db = Db(durable: Data, conn: Conn)

  function RollbackAfterFailure(s: Db, f: Faults): Db
    requires s.conn.Open?
  {
    if f.rollback != FailsOpen || f.reconnects then s.(conn := Idle)
    else if f.closes then s.(conn := Closed)
    else s
  }

  /** The state afterwards, and whether an exception leaves the block. */
  function Transaction(s: Db, body: Code, f: Faults): (Db, bool)
    decreases body, 1
  {
    if s.conn.Closed? || (s.conn.Idle? && !f.begins) then (s, true)
    else
      var outer := s.conn.Idle?;
      var (t, raised) := Exec(if outer then s.(conn := Open(s.durable)) else s, body);
      if !outer || !t.conn.Open? then (t, raised)
      else if raised then (RollbackAfterFailure(t, f), true)
      else
        match f.commit
        case Works => (Db(t.conn.working, Idle), false)
        case FailsOpen => (RollbackAfterFailure(t, f), true)
        case FailsClosed => (t.(conn := Idle), true)
  }

  /** A write outside a transaction commits by itself. */
  function Exec(s: Db, code: Code): (Db, bool)
    decreases code, 0
  {
    match code
    case Done => (s, false)
    case Write(change, next) =>
      (match s.conn
       case Closed => (s, true)
       case Open(working) => Exec(s.(conn := Open(Changed(working, change))), next)
       case Idle => Exec(s.(durable := Changed(s.durable, change)), next))
    case Fail(rollsBack) => (if rollsBack && s.conn.Open? then s.(conn := Idle) else s, true)
    case Nested(body, faults, catches, next) =>
      var (t, raised) := Transaction(s, body, faults);
      if raised && !catches then (t, true) else Exec(t, next)
  }

  // ---- The plain meaning ----

  /** The same code with no transactions at all. */
  function Apply(d: Data, code: Code): (Data, bool)
    decreases code
  {
    match code
    case Done => (d, false)
    case Write(change, next) => Apply(Changed(d, change), next)
    case Fail(_) => (d, true)
    case Nested(body, faults, catches, next) =>
      var (e, raised) := Apply(d, body);
      if raised && !catches then (e, true) else Apply(e, next)
  }

  /** How code ends that runs inside an open transaction. `Dropped` raises after
      SQLite has dropped the transaction by itself; `Swallowed` means that a
      caller caught such an exception and went on without a transaction. */
  datatype Fate = Completes | Raises | Dropped | Swallowed

  function FateOf(code: Code): Fate {
    match code
    case Done => Completes
    case Write(_, next) => FateOf(next)
    case Fail(rollsBack) => if rollsBack then Dropped else Raises
    case Nested(body, _, catches, next) =>
      match FateOf(body)
      case Completes => FateOf(next)
      case Raises => if catches then FateOf(next) else Raises
      case Dropped => if catches then Swallowed else Dropped
      case Swallowed => Swallowed
  }

  predicate Steady(code: Code) { !FateOf(code).Swallowed? }

  /** Inside an open transaction the code works on the uncommitted copy alone:
      inner transactions join it, whatever their own faults would have been. */
  lemma {:induction false} InnerJoinsOuter(s: Db, code: Code)
    requires s.conn.Open? && Steady(code)
    ensures var (t, raised) := Exec(s, code); var (d, failed) := Apply(s.conn.working, code);
      && raised == failed == !FateOf(code).Completes? && t.durable == s.durable
      && t.conn == if FateOf(code).Dropped? then Idle else Open(d)
    decreases code
  {
    match code
    case Done =>
    case Write(change, next) => InnerJoinsOuter(s.(conn := Open(Changed(s.conn.working, change))), next);
    case Fail(_) =>
    case Nested(body, faults, catches, next) =>
      InnerJoinsOuter(s, body);
      var (t, raised) := Transaction(s, body, faults);
      if !raised || catches {
        InnerJoinsOuter(t, next);
      }
  }

  /** All or nothing: success makes everything durable at once, an exception nothing. */
  lemma OutermostIsAtomic(s: Db, body: Code, f: Faults)
    requires s.conn.Idle? && Steady(body)
    ensures var (t, raised) := Transaction(s, body, f); var (d, failed) := Apply(s.durable, body);
      && (raised <==> !f.begins || failed || f.commit != Works)
      && (if raised then t.durable == s.durable else t == Db(d, Idle))
  {
    InnerJoinsOuter(s.(conn := Open(s.durable)), body);
  }

  // ---- Bodies that go on without their transaction ----

  lemma {:induction false} WorkingCopyIsLost(d: Data, v: Data, w: Data, code: Code)
    requires FateOf(code).Swallowed?
    ensures Exec(Db(d, Open(v)), code) == Exec(Db(d, Open(w)), code)
    decreases code
  {
    match code
    case Write(change, next) => WorkingCopyIsLost(d, Changed(v, change), Changed(w, change), next);
    case Nested(body, faults, catches, next) =>
      if FateOf(body).Swallowed? {
        WorkingCopyIsLost(d, v, w, body);
      } else {
        InnerJoinsOuter(Db(d, Open(v)), body);
        InnerJoinsOuter(Db(d, Open(w)), body);
        if !FateOf(body).Dropped? {
          WorkingCopyIsLost(d, Apply(v, body).0, Apply(w, body).0, next);
        }
      }
  }

  /** Such a body is not atomic: what it wrote first is lost, whether it reports
      success or not. */
  lemma FirstWriteIsLost(s: Db, c: Change, body: Code, f: Faults)
    requires s.conn.Idle? && FateOf(body).Swallowed?
    ensures Transaction(s, Write(c, body), f) == Transaction(s, body, f)
  {
    WorkingCopyIsLost(s.durable, Changed(s.durable, c), s.durable, body);
  }

  /** And what it writes afterwards commits one by one, also when it raises in the end. */
  lemma LateWriteCommitsAlone(s: Db, c: Change, late: Change, raises: bool, f: Faults, g: Faults)
    requires s.conn.Idle? && f.begins
    ensures var body := Write(c, Nested(Fail(true), g, true, Write(late, if raises then Fail(false) else Done)));
      FateOf(body).Swallowed? && Transaction(s, body, f) == (Db(Changed(s.durable, late), Idle), raises)
  {
    var rest := Write(late, if raises then Fail(false) else Done);
    var inner := Nested(Fail(true), g, true, rest);
    FirstWriteIsLost(s, c, inner, f);
    assert Exec(s, rest) == (Db(Changed(s.durable, late), Idle), raises);
    assert Exec(s.(conn := Open(s.durable)), inner) == Exec(s, rest);
  }

  /** The transaction is stuck for good: ROLLBACK left it open, close failed, and
      so did the new connection. */
  predicate Stuck(f: Faults) { f.rollback == FailsOpen && !f.closes && !f.reconnects }

  /** Whatever the body did, a transaction stays open past the outermost exit
      only when it is stuck. For a body that does not go on without its
      transaction it stays open exactly when it is stuck and had to be rolled
      back: the body raised, or COMMIT failed and left it open. Then, too, is the
      only time a connection is lost: it was closed and not replaced. */
  lemma NothingStaysOpen(s: Db, body: Code, f: Faults)
    requires s.conn.Idle?
    ensures var (t, raised) := Transaction(s, body, f); t.conn.Open? ==> raised && Stuck(f)
    ensures Steady(body) ==>
      (Transaction(s, body, f).0.conn.Open? <==>
        f.begins && Stuck(f) && (FateOf(body).Raises? || (FateOf(body).Completes? && f.commit.FailsOpen?)))
    ensures Steady(body) ==>
      (Transaction(s, body, f).0.conn.Closed? <==>
        f.begins && f.rollback.FailsOpen? && f.closes && !f.reconnects
        && (FateOf(body).Raises? || (FateOf(body).Completes? && f.commit.FailsOpen?)))
  {
    if Steady(body) {
      InnerJoinsOuter(s.(conn := Open(s.durable)), body);
    }
  }

  // ---- Whole runs ----

  datatype Job = Job(body: Code, faults: Faults)

  function RunJobs(s: Db, jobs: seq<Job>): Db {
    if jobs == [] then s
    else Transaction(RunJobs(s, jobs[..|jobs| - 1]), jobs[|jobs| - 1].body, jobs[|jobs| - 1].faults).0
  }

  function Succeeded(s: Db, jobs: seq<Job>): seq<Job> {
    if jobs == [] then []
    else
      var init, job := jobs[..|jobs| - 1], jobs[|jobs| - 1];
      Succeeded(s, init) + if Transaction(RunJobs(s, init), job.body, job.faults).1 then [] else [job]
  }

  function ApplyJobs(d: Data, jobs: seq<Job>): Data {
    if jobs == [] then d else Apply(ApplyJobs(d, jobs[..|jobs| - 1]), jobs[|jobs| - 1].body).0
  }

  /** The jobs that reported success, unless they had joined a transaction stuck open. */
  function Committed(s: Db, jobs: seq<Job>): seq<Job> {
    if jobs == [] then []
    else
      var init, job := jobs[..|jobs| - 1], jobs[|jobs| - 1];
      var t := RunJobs(s, init);
      Committed(s, init) + if t.conn.Open? || Transaction(t, job.body, job.faults).1 then [] else [job]
  }

  lemma NothingDurableOutsideIdle(s: Db, body: Code, f: Faults)
    requires !s.conn.Idle? && Steady(body)
    ensures Transaction(s, body, f).0.durable == s.durable && (s.conn.Closed? ==> Transaction(s, body, f).1)
  {
    if s.conn.Open? {
      InnerJoinsOuter(s, body);
    }
  }

  /** Over any run, with any failures, stuck transactions included, the database
      holds exactly what committed, in order. */
  lemma {:induction false} OnlyCommittedIsDurable(s: Db, jobs: seq<Job>)
    requires s.conn.Idle? && forall i :: 0 <= i < |jobs| ==> Steady(jobs[i].body)
    ensures RunJobs(s, jobs).durable == ApplyJobs(s.durable, Committed(s, jobs))
  {
    if jobs != [] {
      var init, job := jobs[..|jobs| - 1], jobs[|jobs| - 1];
      OnlyCommittedIsDurable(s, init);
      var t := RunJobs(s, init);
      hide Transaction, Apply, FateOf;
      if t.conn.Idle? {
        OutermostIsAtomic(t, job.body, job.faults);
      } else {
        NothingDurableOutsideIdle(t, job.body, job.faults);
      }
      var did := Committed(s, init);
      assert (did + [job])[..|did|] == did;
      assert did + [] == did;
    }
  }

  lemma {:induction false} SuccessCommits(s: Db, jobs: seq<Job>)
    requires s.conn.Idle? && forall i :: 0 <= i < |jobs| ==> !Stuck(jobs[i].faults)
    ensures Committed(s, jobs) == Succeeded(s, jobs) && !RunJobs(s, jobs).conn.Open?
  {
    if jobs != [] {
      var init, job := jobs[..|jobs| - 1], jobs[|jobs| - 1];
      SuccessCommits(s, init);
      var t := RunJobs(s, init);
      if t.conn.Idle? {
        NothingStaysOpen(t, job.body, job.faults);
      }
    }
  }

  /** As long as none gets stuck, success means durable: the database holds
      exactly those that reported success. */
  lemma OnlySuccessIsDurable(s: Db, jobs: seq<Job>)
    requires s.conn.Idle? && forall i :: 0 <= i < |jobs| ==> Steady(jobs[i].body) && !Stuck(jobs[i].faults)
    ensures var t := RunJobs(s, jobs); !t.conn.Open? && t.durable == ApplyJobs(s.durable, Succeeded(s, jobs))
  {
    OnlyCommittedIsDurable(s, jobs);
    SuccessCommits(s, jobs);
  }

  /** Once one is stuck, the next reports success and still makes nothing durable. */
  lemma StuckSwallowsLaterWrites(s: Db, f: Faults, g: Faults, c: Change)
    requires s.conn.Idle? && f.begins && Stuck(f)
    ensures var t := Transaction(s, Fail(false), f).0; var (u, raised) := Transaction(t, Write(c, Done), g);
      !raised && u.durable == s.durable
  {
    var t := Transaction(s, Fail(false), f).0;
    assert t == s.(conn := Open(s.durable));
    assert Exec(t, Write(c, Done)) == (t.(conn := Open(Changed(t.conn.working, c))), false);
  }
}
