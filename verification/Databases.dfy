/** The database object itself, and the files next to it. */
module Databases {
  import opened Transactions
  import opened LegacyImport

  class Database {
    var durable: Data
    var conn: Conn
    var files: Files

    ghost function Now(): Db
      reads this
    {
      Db(durable, conn)
    }

    constructor (persisted: Data, present: Files)
      ensures Now() == Db(persisted, Idle) && files == present
    {
      durable, conn, files := persisted, Idle, present;
    }

    /** Rolls back; if the transaction is still open, replaces the connection. */
    method RollbackAfterFailure(f: Faults)
      requires conn.Open?
      modifies this`conn
      ensures Now() == Transactions.RollbackAfterFailure(old(Now()), f)
    {
      if f.rollback != FailsOpen {
        conn := Idle;
        return;
      }
      if f.closes {
        conn := Closed;
      }
      if f.reconnects {
        conn := Idle;
      }
    }

    method Transaction(body: Code, f: Faults) returns (raised: bool)
      modifies this`durable, this`conn
      ensures (Now(), raised) == Transactions.Transaction(old(Now()), body, f)
      decreases body, 1
    {
      if conn.Closed? {
        return true;
      }
      var outer := !conn.Open?;
      if outer {
        if !f.begins {
          return true;
        }
        conn := Open(durable);
      }
      raised := Execute(body);
      if outer && conn.Open? {
        if raised {
          RollbackAfterFailure(f);
        } else {
          match f.commit
          case Works =>
            durable, conn := conn.working, Idle;
          case FailsOpen =>
            RollbackAfterFailure(f);
            raised := true;
          case FailsClosed =>
            conn, raised := Idle, true;
        }
      }
    }

    method Execute(code: Code) returns (raised: bool)
      modifies this`durable, this`conn
      ensures (Now(), raised) == Exec(old(Now()), code)
      decreases code, 0
    {
      match code
      case Done =>
        raised := false;
      case Write(change, next) =>
        match conn {
          case Closed =>
            return true;
          case Open(working) =>
            conn := Open(Changed(working, change));
          case Idle =>
            durable := Changed(durable, change);
        }
        raised := Execute(next);
      case Fail(rollsBack) =>
        if rollsBack && conn.Open? {
          conn := Idle;
        }
        raised := true;
      case Nested(body, faults, catches, next) =>
        raised := Transaction(body, faults);
        if !raised || catches {
          raised := Execute(next);
        }
    }

    method Migrate(component: string, version: nat, step: Code, f: Faults) returns (raised: bool)
      modifies this`durable, this`conn
      ensures (Now(), raised) == LegacyImport.Migrate(old(Now()), component, version, step, f)
    {
      var current := if conn.Open? then conn.working else durable;
      raised := Transaction(MigrateBody(current, component, version, step), f);
    }

    method RetireSource(source: string, renames: bool) returns (gone: bool)
      modifies this`files
      ensures files == Retire(old(files), source, renames)
      ensures gone == (source !in files)
    {
      if source !in files {
        return true;
      }
      var n := 2;
      var retired := Candidate(source, 1);
      while retired in files
        invariant 2 <= n <= 100 && retired == Candidate(source, n - 1)
        invariant FirstFree(files, source, n - 1) == FirstFree(files, source, 1)
        decreases 100 - n
      {
        if n > 99 {
          return false;
        }
        retired := Candidate(source, n);
        n := n + 1;
      }
      if !renames {
        return false;
      }
      files := (files - {source})[retired := files[source]];
      gone := true;
    }

    /** One start of the program over the import, run until it ends or dies. */
    method ImportJson(legacy: Legacy, r: Start) returns (imported: bool)
      requires conn == Idle && Loads(legacy)
      modifies this
      ensures World(durable, files) == Import(World(old(durable), old(files)), legacy, r)
      ensures imported ==> Legible(old(files), legacy, r.readable)
      ensures r.crash.No? && Legible(old(files), legacy, r.readable) ==>
        (imported <==> !Marked(old(durable), legacy.marker) && Marked(durable, legacy.marker))
    {
      ghost var w := World(durable, files);
      if Marked(durable, legacy.marker) {
        if r.crash.No? {
          var _ := RetireSource(legacy.source, r.renames);
        }
        return false;
      }
      StartIsAtomic(w, legacy, r);
      if r.crash.BeforeCommit? {
        return false;
      }
      var legible := Legible(files, legacy, r.readable);
      var raised := Transaction(Body(World(durable, files), legacy, r.readable), r.faults);
      imported := legible && !raised;
      if imported && r.crash.No? {
        var _ := RetireSource(legacy.source, r.renames);
      }
    }
  }
}
