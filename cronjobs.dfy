/**
 * The `cronjobs` table, declared and used the same way by `src/DB.ts` and
 * `src/DB.js`: jobs get fresh AUTOINCREMENT ids and are deleted by id.
 */
module Cronjobs {
  import opened Common

  /** A row (`created` is left out). */
  datatype Cronjob = Cronjob(id: int, schedule: string, command: string, arguments: Option<string>,
                             createdBy: string, guild: string)

  function JobId(j: Cronjob): int { j.id }

  /**
   * The rows left after `DELETE FROM cronjobs WHERE id = ?`: exactly the rows
   * with another id, one fewer row iff some row had it.
   */
  function WithoutId(rows: seq<Cronjob>, id: int): (r: seq<Cronjob>)
    ensures forall j :: j in r <==> j in rows && j.id != id
    ensures |r| < |rows| <==> exists j :: j in rows && j.id == id
    ensures r == rows <==> forall j :: j in rows ==> j.id != id
  {
    var keep := (j: Cronjob) => j.id != id;
    if forall j :: j in rows ==> keep(j) then
      FilterKeepsAll(rows, keep);
      Filter(rows, keep)
    else
      Filter(rows, keep)
  }

  class CronjobTable {
    var rows: seq<Cronjob>
    var lastId: nat

    ghost predicate Valid()
      reads this
    {
      UniqueBy(rows, JobId) && forall j :: j in rows ==> 1 <= j.id <= lastId
    }

    constructor ()
      ensures Valid() && rows == []
    {
      rows, lastId := [], 0;
    }

    /**
     * `storeCronjob`: inserts the job under an id no row has ever had and
     * returns that id.
     */
    method StoreCronjob(schedule: string, command: string, arguments: Option<string>, creator: string, guild: string)
      returns (id: int)
      requires Valid()
      modifies this
      ensures Valid()
      ensures id == old(lastId) + 1 && lastId == id
      ensures forall j :: j in old(rows) ==> j.id < id
      ensures rows == old(rows) + [Cronjob(id, schedule, command, arguments, creator, guild)]
    {
      lastId := lastId + 1;
      id := lastId;
      AppendKeepsUnique(rows, Cronjob(id, schedule, command, arguments, creator, guild), JobId);
      rows := rows + [Cronjob(id, schedule, command, arguments, creator, guild)];
    }

    /** `deleteCronjob`: removes the job with `id`; true iff there was one. */
    method DeleteCronjob(id: int) returns (deleted: bool)
      requires Valid()
      modifies this
      ensures Valid()
      ensures rows == WithoutId(old(rows), id)
      ensures lastId == old(lastId)
      ensures deleted <==> exists j :: j in old(rows) && j.id == id
    {
      FilterKeepsUnique(rows, (j: Cronjob) => j.id != id, JobId);
      var before := |rows|;
      rows := WithoutId(rows, id);
      var changes := before - |rows|;
      deleted := changes > 0;
    }

    /** `getCronjobs`: every stored job. */
    function GetCronjobs(): seq<Cronjob>
      reads this
    {
      rows
    }
  }
}
