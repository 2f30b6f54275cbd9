/**
 * The `command_permissions` table and the permission check built on it.
 * Permissions are signed weights: the weights of every grant that applies to
 * a user (to the user itself or to one of its roles) are added up, and the
 * command is allowed when the sum is positive. The upsert of `setPermission`
 * (`ON CONFLICT(command, receiver)`) needs a unique key on (command, receiver),
 * which the model keeps as the table's invariant.
 */
module Permissions {
  import opened Common

  /**
   * One grant. `kind` is the `type` column ("user", "role", ...), `guild`
   * is nullable.
   */
  datatype Grant = Grant(command: string, receiver: string, kind: string, guild: Option<string>, value: int)

  function CommandReceiver(g: Grant): (string, string) { (g.command, g.receiver) }

  /** SQL `a = b`: never true when either side is NULL. */
  predicate SqlEquals(a: Option<string>, b: Option<string>) {
    a.Some? && b.Some? && a.value == b.value
  }

  /** `SUM(value)` over the rows `where` selects: NULL (None) when it selects none. */
  function SqlSum(rows: seq<Grant>, where: Grant -> bool): (total: Option<int>)
    ensures total.None? <==> forall g :: g in rows ==> !where(g)
  {
    if rows == [] then None
    else
      var rest := SqlSum(rows[1..], where);
      assert forall g :: g in rows <==> g == rows[0] || g in rows[1..];
      if where(rows[0]) then Some(rows[0].value + (if rest.Some? then rest.value else 0))
      else rest
  }

  /** The plain sum of `value` over the selected rows (0 for none). */
  function Total(rows: seq<Grant>, where: Grant -> bool): int {
    if rows == [] then 0
    else (if where(rows[0]) then rows[0].value else 0) + Total(rows[1..], where)
  }

  /** SQL SUM is the plain sum whenever some row is selected. */
  lemma {:induction false} SqlSumIsTotal(rows: seq<Grant>, where: Grant -> bool)
    ensures Total(rows, where) == if SqlSum(rows, where).Some? then SqlSum(rows, where).value else 0
  {
    if rows != [] {
      SqlSumIsTotal(rows[1..], where);
    }
  }

  /** Two conditions that select the same rows give the same sum. */
  lemma {:induction false} SqlSumSameSelection(rows: seq<Grant>, w1: Grant -> bool, w2: Grant -> bool)
    requires forall g :: g in rows ==> w1(g) == w2(g)
    ensures SqlSum(rows, w1) == SqlSum(rows, w2)
  {
    if rows != [] {
      assert rows[0] in rows;
      assert forall g :: g in rows[1..] ==> g in rows;
      SqlSumSameSelection(rows[1..], w1, w2);
    }
  }

  /**
   * The row filter of `checkPermission`: same command, same guild (NULL
   * never matches), receiver among the candidates, type user or role.
   */
  predicate Applies(g: Grant, command: string, gid: Option<string>, receivers: seq<string>) {
    && g.command == command
    && SqlEquals(g.guild, gid)
    && g.receiver in receivers
    && (g.kind == "user" || g.kind == "role")
  }

  /** The weight `checkPermission` reads: the SQL SUM over the applicable grants. */
  function Weight(rows: seq<Grant>, command: string, gid: Option<string>, receivers: seq<string>): Option<int> {
    SqlSum(rows, (g: Grant) => Applies(g, command, gid, receivers))
  }

  /** A weight allows the command when it is a number above zero; NULL does not. */
  predicate Allows(weight: Option<int>) {
    weight.Some? && weight.value > 0
  }

  /**
   * The weight is the sum of `value` over exactly the applicable grants;
   * it is NULL, which does not allow, when no grant applies.
   */
  lemma WeightIsSumOfApplicable(rows: seq<Grant>, command: string, gid: Option<string>, receivers: seq<string>)
    ensures Weight(rows, command, gid, receivers).None? <==>
      forall g :: g in rows ==> !Applies(g, command, gid, receivers)
    ensures Weight(rows, command, gid, receivers).Some? ==>
      Weight(rows, command, gid, receivers).value == Total(rows, (g: Grant) => Applies(g, command, gid, receivers))
    ensures (forall g :: g in rows ==> !Applies(g, command, gid, receivers)) ==>
      !Allows(Weight(rows, command, gid, receivers))
  {
    SqlSumIsTotal(rows, (g: Grant) => Applies(g, command, gid, receivers));
  }

  /** Only which receivers are candidates matters, not their order or repetition. */
  lemma WeightIgnoresReceiverOrder(rows: seq<Grant>, command: string, gid: Option<string>, r1: seq<string>, r2: seq<string>)
    requires forall x :: x in r1 <==> x in r2
    ensures Weight(rows, command, gid, r1) == Weight(rows, command, gid, r2)
  {
    SqlSumSameSelection(rows, (g: Grant) => Applies(g, command, gid, r1), (g: Grant) => Applies(g, command, gid, r2));
  }

  /** `setPermission`'s read-back: `SUM(value)` for command, guild and receiver, of any type. */
  function ReceiverWeight(rows: seq<Grant>, command: string, gid: Option<string>, receiver: string): Option<int> {
    SqlSum(rows, (g: Grant) => g.command == command && SqlEquals(g.guild, gid) && g.receiver == receiver)
  }

  /** The position of the grant for (command, receiver), if there is one. */
  function Find(rows: seq<Grant>, command: string, receiver: string): (i: Option<nat>)
    ensures i.Some? ==> i.value < |rows| && rows[i.value].command == command && rows[i.value].receiver == receiver
    ensures i.None? ==> forall g :: g in rows ==> g.command != command || g.receiver != receiver
  {
    if rows == [] then None
    else if rows[0].command == command && rows[0].receiver == receiver then Some(0)
    else
      var rest := Find(rows[1..], command, receiver);
      assert forall g :: g in rows ==> g == rows[0] || g in rows[1..];
      if rest.Some? then Some(rest.value + 1) else None
  }

  /**
   * `INSERT ... ON CONFLICT(command, receiver) DO UPDATE SET value = ?`:
   * an existing grant only gets the new value; otherwise `g` is added.
   */
  function Upsert(rows: seq<Grant>, g: Grant): seq<Grant> {
    match Find(rows, g.command, g.receiver)
    case Some(i) => rows[i := rows[i].(value := g.value)]
    case None => rows + [g]
  }

  /**
   * After the upsert the key stays unique and its one grant holds the new
   * value; a grant that existed keeps its type and guild, and every other
   * grant is untouched.
   */
  lemma UpsertSetsValue(rows: seq<Grant>, g: Grant)
    requires UniqueBy(rows, CommandReceiver)
    ensures var t := Upsert(rows, g);
      && UniqueBy(t, CommandReceiver)
      && (exists k :: 0 <= k < |t| && t[k].command == g.command && t[k].receiver == g.receiver && t[k].value == g.value)
      && (forall x :: x in t && x.command == g.command && x.receiver == g.receiver ==>
            x.value == g.value
            && (if exists y :: y in rows && y.command == g.command && y.receiver == g.receiver
                then exists y :: y in rows && y.command == g.command && y.receiver == g.receiver
                                 && x == y.(value := g.value)
                else x == g))
      && (forall x :: x in rows && (x.command != g.command || x.receiver != g.receiver) ==> x in t)
      && (forall x :: x in t && (x.command != g.command || x.receiver != g.receiver) ==> x in rows)
  {
    var t := Upsert(rows, g);
    match Find(rows, g.command, g.receiver)
    case Some(i) =>
      assert forall k :: 0 <= k < |rows| && k != i ==> CommandReceiver(rows[k]) != CommandReceiver(rows[i]);
      forall x | x in t && x.command == g.command && x.receiver == g.receiver
        ensures x == rows[i].(value := g.value)
      {
        var k :| 0 <= k < |t| && t[k] == x;
        assert k == i;
      }
      forall x | x in rows && (x.command != g.command || x.receiver != g.receiver) ensures x in t {
        var k :| 0 <= k < |rows| && rows[k] == x;
        assert t[k] == x;
      }
      assert t[i].command == g.command && t[i].receiver == g.receiver && t[i].value == g.value;
    case None =>
      AppendKeepsUnique(rows, g, CommandReceiver);
      assert t[|rows|] == g;
  }

  /**
   * What `setPermission` returns: the new value when the grant's guild equals
   * `gid`, NULL otherwise (a grant kept from another guild, or no guild).
   */
  lemma ReceiverWeightAfterUpsert(rows: seq<Grant>, g: Grant, gid: Option<string>)
    requires UniqueBy(rows, CommandReceiver)
    requires g.guild == gid
    ensures var t := Upsert(rows, g);
      var i := Find(t, g.command, g.receiver);
      && i.Some?
      && ReceiverWeight(t, g.command, gid, g.receiver) ==
           (if SqlEquals(t[i.value].guild, gid) then Some(g.value) else None)
  {
    var t := Upsert(rows, g);
    UpsertSetsValue(rows, g);
    var i := Find(t, g.command, g.receiver).value;
    var w := (x: Grant) => x.command == g.command && SqlEquals(x.guild, gid) && x.receiver == g.receiver;
    assert ReceiverWeight(t, g.command, gid, g.receiver) == SqlSum(t, w);
    SingleSelected(t, w, i);
  }

  /** A sum over a selection of one row is that row's value. */
  lemma {:induction false} SingleSelected(rows: seq<Grant>, w: Grant -> bool, i: nat)
    requires i < |rows|
    requires forall k :: 0 <= k < |rows| && k != i ==> !w(rows[k])
    ensures SqlSum(rows, w) == if w(rows[i]) then Some(rows[i].value) else None
  {
    if i == 0 {
      assert forall g :: g in rows[1..] ==> !w(g) by {
        forall g | g in rows[1..] ensures !w(g) {
          var k :| 0 <= k < |rows[1..]| && rows[1..][k] == g;
          assert rows[k + 1] == g;
        }
      }
    } else {
      assert !w(rows[0]);
      SingleSelected(rows[1..], w, i - 1);
    }
  }

  /**
   * A role granted +5 and one of its members granted -10 on the same command
   * and guild: the member's weight is -5, which does not allow the command.
   */
  lemma OpposingGrantsScenario()
    ensures var t := Upsert(Upsert([], Grant("poll", "admins", "role", Some("guildA"), 5)),
                            Grant("poll", "42", "user", Some("guildA"), -10));
      && Weight(t, "poll", Some("guildA"), ["admins", "42"]) == Some(-5)
      && !Allows(Weight(t, "poll", Some("guildA"), ["admins", "42"]))
  {
    var g1 := Grant("poll", "admins", "role", Some("guildA"), 5);
    var g2 := Grant("poll", "42", "user", Some("guildA"), -10);
    assert Upsert([], g1) == [g1];
    assert Find([g1], "poll", "42") == None;
    var t := [g1, g2];
    assert Upsert([g1], g2) == t;
    var w := (g: Grant) => Applies(g, "poll", Some("guildA"), ["admins", "42"]);
    assert t[1..] == [g2] && t[1..][1..] == [];
    assert SqlSum([], w) == None;
    assert SqlSum([g2], w) == Some(-10);
    assert SqlSum(t, w) == Some(-5);
  }

  /** The caller's mutable list of role ids (a JavaScript array). */
  class RoleList {
    var elems: seq<string>

    constructor (initial: seq<string>)
      ensures elems == initial
    {
      elems := initial;
    }

    method Push(x: string)
      modifies this
      ensures elems == old(elems) + [x]
    {
      elems := elems + [x];
    }
  }

  class PermissionTable {
    var rows: seq<Grant>

    ghost predicate Valid()
      reads this
    {
      UniqueBy(rows, CommandReceiver)
    }

    /** Opens a table that already holds `initial`. */
    constructor (initial: seq<Grant>)
      requires UniqueBy(initial, CommandReceiver)
      ensures Valid() && rows == initial
    {
      rows := initial;
    }

    /**
     * `checkPermission`: appends `uid` to the caller's `roles`, then sums the
     * weights of the grants for the command in guild `gid` whose receiver is
     * among those; allowed iff that sum is positive.
     */
    method CheckPermission(command: string, uid: string, roles: RoleList, gid: Option<string>)
      returns (allowed: bool, weight: Option<int>)
      modifies roles
      ensures roles.elems == old(roles.elems) + [uid]
      ensures weight == Weight(rows, command, gid, roles.elems)
      ensures allowed <==> Allows(weight)
    {
      roles.Push(uid);
      weight := Weight(rows, command, gid, roles.elems);
      allowed := weight.Some? && weight.value > 0;
    }

    /**
     * `setPermission`: upserts the grant for (command, receiver) and returns
     * the SUM for (command, gid, receiver) read back in the same transaction.
     */
    method SetPermission(command: string, receiver: string, kind: string, value: int, gid: Option<string>)
      returns (perm: Option<int>)
      requires Valid()
      modifies this
      ensures Valid()
      ensures rows == Upsert(old(rows), Grant(command, receiver, kind, gid, value))
      ensures perm == ReceiverWeight(rows, command, gid, receiver)
    {
      var g := Grant(command, receiver, kind, gid, value);
      UpsertSetsValue(rows, g);
      rows := Upsert(rows, g);
      perm := ReceiverWeight(rows, command, gid, receiver);
    }
  }
}
