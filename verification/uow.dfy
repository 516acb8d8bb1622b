/** `SQLAlchemyUoW` and what a use case does, step by step. A use case is a
    function from the session state to a result, the state after it, and
    the effects it had on the world in order: database reads and writes,
    the end of the transaction, cache calls, object-store calls and the
    security services. */
module UnitOfWork {

  import opened Common
  import opened Schema
  import opened Storage

  datatype Ending = Commit | Rollback

  datatype Relation = Authors | Books | Users | Favourites | Reviews

  datatype Effect =
    | Read(relation: Relation)
    | Write(relation: Relation)
    | Finish(ending: Ending)
    | CacheGet(key: string)
    | CacheSet(key: string)
    | CacheDelete(key: string)
    | PutObject(put: ObjectPut)
    | RemoveObject(url: string)
    | HashPassword
    | VerifyPassword
    | IssueToken

  /** A use case's outcome: what it returned or raised, the committed
      state, and its effects in order. */
  datatype Run<T> = Run(result: Result<T>, db: Db, effects: seq<Effect>)

  /** `async with uow:` around a block that started from `before`, did
      `inside` and ended in `outcome` with the session at `staged`. `__aexit__`
      commits when the block finished and rolls back when it raised, so a
      failed block leaves no trace in the database. */
  function Transaction<T>(before: Db, inside: seq<Effect>, outcome: Result<T>, staged: Db): (r: Run<T>)
    ensures r.result == outcome
    ensures r.effects == inside + [Finish(if outcome.Ok? then Commit else Rollback)]
    ensures r.db == if outcome.Ok? then staged else before
  {
    if outcome.Ok? then Run(outcome, staged, inside + [Finish(Commit)])
    else Run(outcome, before, inside + [Finish(Rollback)])
  }

  /** A raise before the block: the session is never touched. */
  function Refuse<T>(db: Db, before: seq<Effect>, error: Error): (r: Run<T>)
    ensures r.result == Err(error) && r.db == db && r.effects == before
  {
    Run(Err(error), db, before)
  }

  /** A run that commits was the only way its effects could write. */
  predicate Committed<T>(r: Run<T>)
  {
    Finish(Commit) in r.effects
  }

  /** Whatever the block did, the state after the unit of work is either
      the one before it or the one the block staged, and it is the staged
      one exactly when the transaction commits. */
  lemma TransactionAtomic<T>(before: Db, inside: seq<Effect>, outcome: Result<T>, staged: Db)
    requires forall k :: 0 <= k < |inside| ==> !inside[k].Finish?
    ensures var r := Transaction(before, inside, outcome, staged);
      && (Committed(r) <==> outcome.Ok?)
      && (Committed(r) ==> r.db == staged)
      && (!Committed(r) ==> r.db == before)
  {
    var r := Transaction(before, inside, outcome, staged);
    if outcome.Err? {
      assert r.effects == inside + [Finish(Rollback)];
      assert forall k :: 0 <= k < |r.effects| ==> r.effects[k] != Finish(Commit);
    } else {
      assert r.effects[|inside|] == Finish(Commit);
    }
  }
}
