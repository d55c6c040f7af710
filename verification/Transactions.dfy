/**
  Database sessions as the ORM models see them. A transaction works on a private copy of the
  state; every statement may fail and then has no effect; a transaction that is never
  committed is discarded. Which statements fail is an arbitrary function of their number.
 */
module Transactions {

  /** What the model functions return as error. */
  datatype Error = BeginFailed | StatementFailed | NoRow

  /** None of the statements with these numbers fails. */
  ghost predicate NoFaults(faults: nat -> bool, from: nat, to: nat) {
    forall i | from <= i < to :: !faults(i)
  }

  class Session<S> {
    var committed: S
    /** The private copy of the open transaction. */
    var work: S
    /** How many statements have been issued. */
    var clock: nat
    const faults: nat -> bool

    constructor (initial: S, faults: nat -> bool)
      ensures committed == initial && clock == 0 && this.faults == faults
    {
      committed, work, clock, this.faults := initial, initial, 0, faults;
    }

    method Begin() returns (ok: bool)
      modifies this`work, this`clock
      ensures ok == !faults(old(clock)) && clock == old(clock) + 1
      ensures ok ==> work == committed
    {
      ok := !faults(clock);
      clock := clock + 1;
      if ok { work := committed; }
    }

    /** A statement of the open transaction, given by the state it leads to. */
    method Exec(next: S) returns (ok: bool)
      modifies this`work, this`clock
      ensures ok == !faults(old(clock)) && clock == old(clock) + 1
      ensures work == if ok then next else old(work)
    {
      ok := !faults(clock);
      clock := clock + 1;
      if ok { work := next; }
    }

    /** A statement that only reads. */
    method Read() returns (ok: bool)
      modifies this`clock
      ensures ok == !faults(old(clock)) && clock == old(clock) + 1
    {
      ok := !faults(clock);
      clock := clock + 1;
    }

    /** A statement outside any transaction. */
    method ExecNow(next: S) returns (ok: bool)
      modifies this`committed, this`clock
      ensures ok == !faults(old(clock)) && clock == old(clock) + 1
      ensures committed == if ok then next else old(committed)
    {
      ok := !faults(clock);
      clock := clock + 1;
      if ok { committed := next; }
    }

    method Commit() returns (ok: bool)
      modifies this`committed, this`clock
      ensures ok == !faults(old(clock)) && clock == old(clock) + 1
      ensures committed == if ok then work else old(committed)
    {
      ok := !faults(clock);
      clock := clock + 1;
      if ok { committed := work; }
    }

    method Rollback()
      modifies this`work
      ensures work == committed
    {
      work := committed;
    }
  }
}
