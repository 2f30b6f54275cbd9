/**
 * The `deletecron` command: removes a cronjob from the bot's in-memory
 * schedule (cancelling the scheduled job) and from the database, and tells
 * the caller whether either happened.
 */
module DeleteCron {
  import opened Common
  import opened Cronjobs

  /** A job the scheduler holds in memory. */
  class ScheduledJob {
    var cancelled: bool

    constructor ()
      ensures !cancelled
    {
      cancelled := false;
    }

    method Cancel()
      modifies this
      ensures cancelled
    {
      cancelled := true;
    }
  }

  /** The client's `cronjobs` object: the scheduled job of each cronjob id. */
  class Schedule {
    var jobs: map<int, ScheduledJob>

    /** Every id has a job of its own. */
    ghost predicate Valid()
      reads this
    {
      forall a, b :: a in jobs && b in jobs && a != b ==> jobs[a] != jobs[b]
    }

    constructor ()
      ensures Valid() && jobs == map[]
    {
      jobs := map[];
    }
  }

  /** The command's arguments; `id` is None when it is missing or not an integer (the "" default). */
  datatype Args = Args(id: Option<int>)

  /** What `exec` sends back. */
  datatype Reply = NotAvailableAsDm | HelpDelCron | Sent(deleted: bool)

  /** JavaScript `!id` for the id argument: "" and 0 are falsy. */
  predicate Falsy(id: Option<int>) {
    id.None? || id.value == 0
  }

  /** `+b`: a boolean as a number. */
  function BoolNumber(b: bool): int {
    if b then 1 else 0
  }

  /** How `checkArgs` as written ends: it returns `undefined`, or evaluating the unbound `message` throws. */
  datatype ArgCheck = Passes | ThrowsReferenceError

  /**
   * `checkArgs` as written: `!args || !args.id || !args.id < 0 ? message.util.send(...) : undefined`.
   * The third test compares a boolean with 0, and the help branch names a
   * `message` that is not in scope.
   */
  function CheckArgsAsWritten(args: Option<Args>): ArgCheck {
    if args.None? || Falsy(args.value.id) || BoolNumber(Falsy(args.value.id)) < 0 then ThrowsReferenceError
    else Passes
  }

  /** `!args.id < 0` is never true, whatever the id. */
  lemma NegatedIdNeverNegative(id: Option<int>)
    ensures !(BoolNumber(Falsy(id)) < 0)
  {
  }

  /** A negative id passes the check as written. */
  lemma NegativeIdPasses()
    ensures CheckArgsAsWritten(Some(Args(Some(-1)))) == Passes
  {
  }

  /** Missing arguments do not yield the help text: the check as written throws. */
  lemma MissingArgsThrow()
    ensures CheckArgsAsWritten(None) == ThrowsReferenceError
    ensures CheckArgsAsWritten(Some(Args(None))) == ThrowsReferenceError
  {
  }

  /**
   * `checkArgs` as intended: the help text when the arguments or the id are
   * missing or the id is not positive, nothing otherwise.
   */
  function CheckArgs(args: Option<Args>): (help: Option<Reply>)
    ensures help.Some? ==> help.value == HelpDelCron
    ensures help.None? <==> args.Some? && args.value.id.Some? && args.value.id.value > 0
  {
    if args.None? || Falsy(args.value.id) || args.value.id.value < 0 then Some(HelpDelCron) else None
  }

  /**
   * The intended check answers with the help text wherever the one as written
   * throws, and differs from it otherwise only on negative ids.
   */
  lemma CheckArgsDiffersOnNegativeIds(args: Option<Args>)
    ensures CheckArgsAsWritten(args) == ThrowsReferenceError ==> CheckArgs(args) == Some(HelpDelCron)
    ensures CheckArgsAsWritten(args) == Passes ==>
      (CheckArgs(args).Some? <==> args.value.id.value < 0)
  {
  }

  class DeleteCronCommand {
    const cronjobs: Schedule
    const db: CronjobTable

    constructor (cronjobs: Schedule, db: CronjobTable)
      ensures this.cronjobs == cronjobs && this.db == db
    {
      this.cronjobs := cronjobs;
      this.db := db;
    }

    /**
     * `deleteCronjob`: cancels and unschedules the job with `id` if there is
     * one, deletes its row from the database, and returns whether either
     * happened. No other scheduled job is touched.
     */
    method DeleteCronjob(id: int) returns (deleted: bool)
      requires cronjobs.Valid() && db.Valid()
      modifies cronjobs, cronjobs.jobs.Values, db
      ensures cronjobs.Valid() && db.Valid()
      ensures cronjobs.jobs == old(cronjobs.jobs) - {id}
      ensures id in old(cronjobs.jobs) ==> old(cronjobs.jobs)[id].cancelled
      ensures forall k :: k in cronjobs.jobs ==> cronjobs.jobs[k].cancelled == old(cronjobs.jobs[k].cancelled)
      ensures db.rows == WithoutId(old(db.rows), id)
      ensures deleted <==> id in old(cronjobs.jobs) || exists j :: j in old(db.rows) && j.id == id
      ensures !deleted ==> cronjobs.jobs == old(cronjobs.jobs) && db.rows == old(db.rows)
    {
      var canceled := false;
      var deletedFromDB := false;
      if id in cronjobs.jobs {
        cronjobs.jobs[id].Cancel();
        cronjobs.jobs := cronjobs.jobs - {id};
        canceled := true;
      }
      var removed := db.DeleteCronjob(id);
      if removed {
        deletedFromDB := true;
      }
      deleted := canceled || deletedFromDB;
    }

    /**
     * `exec`: refuses a DM, answers bad arguments with the help text (the
     * intended check), and otherwise deletes the job and sends whether it was
     * deleted. The refusals change nothing.
     */
    method Exec(inGuild: bool, args: Option<Args>) returns (reply: Reply)
      requires cronjobs.Valid() && db.Valid()
      modifies cronjobs, cronjobs.jobs.Values, db
      ensures cronjobs.Valid() && db.Valid()
      ensures !inGuild ==> reply == NotAvailableAsDm
      ensures inGuild && CheckArgs(args).Some? ==> reply == HelpDelCron
      ensures !inGuild || CheckArgs(args).Some? ==>
        cronjobs.jobs == old(cronjobs.jobs) && db.rows == old(db.rows)
        && forall k :: k in cronjobs.jobs ==> cronjobs.jobs[k].cancelled == old(cronjobs.jobs[k].cancelled)
      ensures inGuild && CheckArgs(args).None? ==>
        var id := args.value.id.value;
        && cronjobs.jobs == old(cronjobs.jobs) - {id}
        && (id in old(cronjobs.jobs) ==> old(cronjobs.jobs)[id].cancelled)
        && (forall k :: k in cronjobs.jobs ==> cronjobs.jobs[k].cancelled == old(cronjobs.jobs[k].cancelled))
        && db.rows == WithoutId(old(db.rows), id)
        && reply == Sent(id in old(cronjobs.jobs) || exists j :: j in old(db.rows) && j.id == id)
    {
      if !inGuild {
        return NotAvailableAsDm;
      }
      var errorMessage := CheckArgs(args);
      if errorMessage.Some? {
        return errorMessage.value;
      }
      var cid := args.value.id.value;
      var deleted := DeleteCronjob(cid);
      reply := Sent(deleted);
    }

    /**
     * `exec` with `checkArgs` as written: `None` stands for the ReferenceError
     * that rejects the call before anything is sent, which is what missing
     * arguments, a missing id or id 0 lead to. Any other id, negative ones
     * included, goes on to the deletion.
     */
    method ExecAsWritten(inGuild: bool, args: Option<Args>) returns (reply: Option<Reply>)
      requires cronjobs.Valid() && db.Valid()
      modifies cronjobs, cronjobs.jobs.Values, db
      ensures cronjobs.Valid() && db.Valid()
      ensures !inGuild ==> reply == Some(NotAvailableAsDm)
      ensures inGuild ==> (reply.None? <==> CheckArgsAsWritten(args) == ThrowsReferenceError)
      ensures !inGuild || CheckArgsAsWritten(args) == ThrowsReferenceError ==>
        cronjobs.jobs == old(cronjobs.jobs) && db.rows == old(db.rows)
        && forall k :: k in cronjobs.jobs ==> cronjobs.jobs[k].cancelled == old(cronjobs.jobs[k].cancelled)
      ensures inGuild && CheckArgsAsWritten(args) == Passes ==>
        var id := args.value.id.value;
        && cronjobs.jobs == old(cronjobs.jobs) - {id}
        && (id in old(cronjobs.jobs) ==> old(cronjobs.jobs)[id].cancelled)
        && (forall k :: k in cronjobs.jobs ==> cronjobs.jobs[k].cancelled == old(cronjobs.jobs[k].cancelled))
        && db.rows == WithoutId(old(db.rows), id)
        && reply == Some(Sent(id in old(cronjobs.jobs) || exists j :: j in old(db.rows) && j.id == id))
    {
      if !inGuild {
        return Some(NotAvailableAsDm);
      }
      var check := CheckArgsAsWritten(args);
      if check == ThrowsReferenceError {
        return None;
      }
      var cid := args.value.id.value;
      var deleted := DeleteCronjob(cid);
      reply := Some(Sent(deleted));
    }
  }
}
