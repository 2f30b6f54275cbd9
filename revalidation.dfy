/**
 * `revalidateKeys` in both database versions: every registration, read in
 * `ORDER BY guild` order, is checked again against the game's API, and the
 * result is one entry per row. The API check (`Util.validateWorld`) is not
 * part of this model: its outcome for the i-th row of the snapshot is an
 * input. The throttling semaphore and delay are left out.
 */
module Revalidation {
  import opened Common
  import opened Ordering
  import opened Registrations

  /** The rejection reasons `Util.validateWorld` distinguishes; anything else is `Unexpected`. */
  datatype ValidationError = InvalidKey | ConfigWorldDuplicate | NetworkError | Unexpected

  /**
   * What `Util.validateWorld` settles with: resolved with the name of the
   * world role the key earns, resolved with `false`, or rejected.
   */
  datatype WorldCheck = OnWorld(role: string) | NotOnWorld | Failed(error: ValidationError)

  /** The columns the `src/DB.ts` query selects. */
  datatype KeyRow = KeyRow(apiKey: string, guild: string, user: string, role: Option<string>, accountName: Option<string>)

  function Project(r: Registration): KeyRow {
    KeyRow(r.apiKey, r.guild, r.user, r.role, r.accountName)
  }

  /** `SELECT <columns> FROM registrations ORDER BY guild`: the sorted rows, projected. */
  function Snapshot<T>(rows: seq<Registration>, project: Registration -> T): (s: seq<T>)
    ensures |s| == |rows|
    ensures forall i :: 0 <= i < |s| ==> s[i] == project(OrderByGuild(rows)[i])
  {
    var sorted := OrderByGuild(rows);
    seq(|sorted|, i requires 0 <= i < |sorted| => project(sorted[i]))
  }

  /** An entry of the `src/DB.ts` result: the row and the role it earns, `None` standing for `false`. */
  datatype Entry = Entry(row: KeyRow, admitted: Option<string>)

  /**
   * One row's entry: its role when the key is still on a world, `false`
   * when it is not or the key became invalid, no entry (`undefined`) on any
   * other error.
   */
  function Classify(row: KeyRow, w: WorldCheck): (e: Option<Entry>)
    ensures e.None? <==> w.Failed? && w.error != InvalidKey
    ensures e.Some? ==> e.value.row == row
    ensures e.Some? ==> (e.value.admitted.Some? <==> w.OnWorld?)
    ensures w.OnWorld? ==> e == Some(Entry(row, Some(w.role)))
  {
    match w
    case OnWorld(role) => Some(Entry(row, Some(role)))
    case NotOnWorld => Some(Entry(row, None))
    case Failed(error) => if error == InvalidKey then Some(Entry(row, None)) else None
  }

  /**
   * `revalidateKeys` of `src/DB.ts`: one entry per registration, in guild
   * order; `outcomes[i]` is the check of the i-th row in that order. An
   * entry is missing exactly where the check failed with an error other than
   * an invalid key; present entries come from the table, keep guild order,
   * and hold the earned role or `false`.
   */
  function RevalidateKeys(rows: seq<Registration>, outcomes: seq<WorldCheck>): (r: seq<Option<Entry>>)
    requires |outcomes| == |rows|
    ensures |r| == |rows|
    ensures forall i :: 0 <= i < |r| ==> (r[i].None? <==> outcomes[i].Failed? && outcomes[i].error != InvalidKey)
    ensures forall i :: 0 <= i < |r| && outcomes[i].OnWorld? ==> r[i].value.admitted == Some(outcomes[i].role)
    ensures forall i :: 0 <= i < |r| && (outcomes[i] == NotOnWorld || outcomes[i] == Failed(InvalidKey)) ==>
      r[i].value.admitted == None
    ensures forall i, j :: 0 <= i < j < |r| && r[i].Some? && r[j].Some? ==>
      TextLeq(r[i].value.row.guild, r[j].value.row.guild)
    ensures forall i :: 0 <= i < |r| && r[i].Some? ==> exists x :: x in rows && r[i].value.row == Project(x)
    ensures forall i :: 0 <= i < |r| ==> r[i] == Classify(Project(OrderByGuild(rows)[i]), outcomes[i])
  {
    var s := Snapshot(rows, Project);
    var sorted := OrderByGuild(rows);
    OrderByGuildSameRows(rows);
    var r := seq(|s|, i requires 0 <= i < |s| => Classify(s[i], outcomes[i]));
    assert forall i :: 0 <= i < |r| ==> sorted[i] in sorted;
    r
  }

  /** Every registration is checked: its row occurs in the snapshot the outcomes refer to. */
  lemma EveryRowIsChecked(rows: seq<Registration>, outcomes: seq<WorldCheck>, x: Registration)
    requires |outcomes| == |rows|
    requires x in rows
    ensures exists i :: 0 <= i < |rows| && RevalidateKeys(rows, outcomes)[i] == Classify(Project(x), outcomes[i])
  {
    OrderByGuildSameRows(rows);
    var sorted := OrderByGuild(rows);
    var i :| 0 <= i < |sorted| && sorted[i] == x;
    assert RevalidateKeys(rows, outcomes)[i] == Classify(Project(x), outcomes[i]);
  }

  /** The columns the `src/DB.js` query selects. */
  datatype LegacyRow = LegacyRow(apiKey: string, guild: string, user: string)

  function ProjectLegacy(r: Registration): LegacyRow {
    LegacyRow(r.apiKey, r.guild, r.user)
  }

  /** JavaScript truthiness of what `validateWorld` resolved with: a role name other than "". */
  predicate Truthy(w: WorldCheck)
    requires !w.Failed?
  {
    w.OnWorld? && w.role != ""
  }

  /**
   * `revalidateKeys` of `src/DB.js`: without a rejection handler a single
   * failed check rejects the whole result (None); otherwise each row in guild
   * order is kept where the check resolved falsy and is `undefined` elsewhere.
   */
  function LegacyRevalidateKeys(rows: seq<Registration>, outcomes: seq<WorldCheck>): (r: Option<seq<Option<LegacyRow>>>)
    requires |outcomes| == |rows|
    ensures r.None? <==> exists i :: 0 <= i < |outcomes| && outcomes[i].Failed?
    ensures r.Some? ==> |r.value| == |rows|
    ensures r.Some? ==> forall i :: 0 <= i < |rows| ==>
      (r.value[i].Some? <==> !Truthy(outcomes[i]))
      && (r.value[i].Some? ==> r.value[i].value == ProjectLegacy(OrderByGuild(rows)[i]))
  {
    if exists i :: 0 <= i < |outcomes| && outcomes[i].Failed? then None
    else
      var s := Snapshot(rows, ProjectLegacy);
      Some(seq(|s|, i requires 0 <= i < |s| => if Truthy(outcomes[i]) then None else Some(s[i])))
  }

  /**
   * The two versions agree on which rows lose their role when no check fails
   * and no world role is named "": `src/DB.js` keeps a row exactly where
   * `src/DB.ts` reports `false`.
   */
  lemma LegacyMatchesFalseEntries(rows: seq<Registration>, outcomes: seq<WorldCheck>)
    requires |outcomes| == |rows|
    requires forall i :: 0 <= i < |outcomes| ==> !outcomes[i].Failed? && outcomes[i] != OnWorld("")
    ensures var legacy := LegacyRevalidateKeys(rows, outcomes);
      var r := RevalidateKeys(rows, outcomes);
      && legacy.Some?
      && forall i :: 0 <= i < |rows| ==>
           (legacy.value[i].Some? <==> r[i].value.admitted.None?)
           && (legacy.value[i].Some? ==> legacy.value[i].value == LegacyRow(r[i].value.row.apiKey, r[i].value.row.guild, r[i].value.row.user))
  {
  }
}
