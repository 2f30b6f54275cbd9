/**
 * The `registrations` table of the bot's database: one row per Discord user
 * and guild, holding the Guild Wars 2 API key the user registered, the GW2
 * account it belongs to and the role it earned.
 *
 * The table has two uniqueness constraints with different conflict policies:
 * `UNIQUE(user, guild) ON CONFLICT REPLACE` deletes the clashing row and
 * inserts the new one, `UNIQUE(guild, api_key)` aborts the insert. SQLite
 * checks aborting constraints before replacing ones, so a key already held in
 * the guild (even by the same user) makes the insert fail without any row
 * being removed.
 */
module Registrations {
  import opened Common
  import opened Ordering

  /**
   * One row. `id` and `created` are left out: no modelled query reads them.
   * `accountName` is a nullable column the insert below never sets.
   */
  datatype Registration = Registration(
    user: string,
    guild: string,
    apiKey: string,
    gw2account: string,
    role: Option<string>,
    accountName: Option<string>)

  function UserGuild(r: Registration): (string, string) { (r.user, r.guild) }

  function GuildKey(r: Registration): (string, string) { (r.guild, r.apiKey) }

  /** Both UNIQUE constraints hold. */
  ghost predicate Constrained(rows: seq<Registration>) {
    UniqueBy(rows, UserGuild) && UniqueBy(rows, GuildKey)
  }

  /** Some row of the guild already holds `key`. */
  predicate KeyTaken(rows: seq<Registration>, guild: string, key: string) {
    exists r :: r in rows && r.guild == guild && r.apiKey == key
  }

  /** The rows not belonging to (user, guild). */
  function WithoutPair(rows: seq<Registration>, user: string, guild: string): seq<Registration> {
    Filter(rows, (r: Registration) => !(r.user == user && r.guild == guild))
  }

  /** The rows not holding `key`, in any guild. */
  function WithoutKey(rows: seq<Registration>, key: string): seq<Registration> {
    Filter(rows, (r: Registration) => r.apiKey != key)
  }

  /**
   * `INSERT INTO registrations` of `row`: None when the (guild, api_key)
   * constraint aborts, otherwise the table after the (user, guild) replace.
   */
  function Insert(rows: seq<Registration>, row: Registration): Option<seq<Registration>> {
    if KeyTaken(rows, row.guild, row.apiKey) then None
    else Some(WithoutPair(rows, row.user, row.guild) + [row])
  }

  /**
   * An insert fails exactly when the guild already holds the key; when it
   * succeeds the constraints still hold, the new row is the only row for its
   * (user, guild), and every row of another (user, guild) is kept.
   */
  lemma InsertReplacesPair(rows: seq<Registration>, row: Registration)
    requires Constrained(rows)
    ensures Insert(rows, row).None? <==> exists r :: r in rows && r.guild == row.guild && r.apiKey == row.apiKey
    ensures Insert(rows, row).Some? ==>
      var t := Insert(rows, row).value;
      && Constrained(t)
      && row in t
      && (forall r :: r in t && r.user == row.user && r.guild == row.guild ==> r == row)
      && (forall r :: r in rows && (r.user != row.user || r.guild != row.guild) ==> r in t)
      && (forall r :: r in t ==> r == row || r in rows)
  {
    if !KeyTaken(rows, row.guild, row.apiKey) {
      var keep := (r: Registration) => !(r.user == row.user && r.guild == row.guild);
      var kept := WithoutPair(rows, row.user, row.guild);
      assert kept == Filter(rows, keep);
      FilterKeepsUnique(rows, keep, UserGuild);
      FilterKeepsUnique(rows, keep, GuildKey);
      AppendKeepsUnique(kept, row, UserGuild);
      AppendKeepsUnique(kept, row, GuildKey);
    }
  }

  /**
   * Storing the key a user already holds in the guild is refused: the
   * aborting (guild, api_key) check sees the user's own row before the
   * (user, guild) replace could remove it.
   */
  lemma SameUserSameKeyRefused()
    ensures
      var row := Registration("user", "guild", "key", "account.1234", None, None);
      Insert([row], row).None?
  {
  }

  /**
   * The insert the registration command's own test cases call for: only a key
   * held by another user of the guild aborts it, and the user's own row is
   * replaced, whatever key it held.
   */
  function InsertIntended(rows: seq<Registration>, row: Registration): Option<seq<Registration>> {
    if exists r :: r in rows && r.guild == row.guild && r.apiKey == row.apiKey && r.user != row.user then None
    else Some(WithoutPair(rows, row.user, row.guild) + [row])
  }

  /**
   * The intended insert keeps both constraints, fails only on another user's
   * key, and accepts a user re-registering the key they already hold.
   */
  lemma InsertIntendedReplacesOwnKey(rows: seq<Registration>, row: Registration)
    requires Constrained(rows)
    ensures InsertIntended(rows, row).None? <==>
      exists r :: r in rows && r.guild == row.guild && r.apiKey == row.apiKey && r.user != row.user
    ensures (exists r :: r in rows && r.user == row.user && r.guild == row.guild && r.apiKey == row.apiKey) ==>
      InsertIntended(rows, row).Some?
    ensures InsertIntended(rows, row).Some? ==>
      var t := InsertIntended(rows, row).value;
      && Constrained(t)
      && row in t
      && (forall r :: r in t && r.user == row.user && r.guild == row.guild ==> r == row)
      && (forall r :: r in rows && (r.user != row.user || r.guild != row.guild) ==> r in t)
      && (forall r :: r in t ==> r == row || r in rows)
  {
    if InsertIntended(rows, row).Some? {
      var keep := (r: Registration) => !(r.user == row.user && r.guild == row.guild);
      var kept := WithoutPair(rows, row.user, row.guild);
      assert kept == Filter(rows, keep);
      FilterKeepsUnique(rows, keep, UserGuild);
      FilterKeepsUnique(rows, keep, GuildKey);
      AppendKeepsUnique(kept, row, UserGuild);
      AppendKeepsUnique(kept, row, GuildKey);
    }
    if exists r :: r in rows && r.user == row.user && r.guild == row.guild && r.apiKey == row.apiKey {
      var o :| o in rows && o.user == row.user && o.guild == row.guild && o.apiKey == row.apiKey;
      forall r | r in rows && r.guild == row.guild && r.apiKey == row.apiKey
        ensures r.user == row.user
      {
        var i :| 0 <= i < |rows| && rows[i] == r;
        var j :| 0 <= j < |rows| && rows[j] == o;
        assert GuildKey(rows[i]) == GuildKey(rows[j]);
      }
    }
  }

  /** Deleting rows keeps both constraints. */
  lemma WithoutKeyConstrained(rows: seq<Registration>, key: string)
    requires Constrained(rows)
    ensures Constrained(WithoutKey(rows, key))
  {
    var keep := (r: Registration) => r.apiKey != key;
    assert WithoutKey(rows, key) == Filter(rows, keep);
    FilterKeepsUnique(rows, keep, UserGuild);
    FilterKeepsUnique(rows, keep, GuildKey);
  }

  /** The rows are in `ORDER BY guild` order. */
  ghost predicate SortedByGuild(s: seq<Registration>) {
    forall i, j :: 0 <= i < j < |s| ==> TextLeq(s[i].guild, s[j].guild)
  }

  /** Puts `x` in front of the first row whose guild does not sort before it. */
  function InsertByGuild(x: Registration, s: seq<Registration>): seq<Registration> {
    if s == [] then [x]
    else if TextLeq(x.guild, s[0].guild) then [x] + s
    else [s[0]] + InsertByGuild(x, s[1..])
  }

  lemma {:induction false} InsertByGuildPermutes(x: Registration, s: seq<Registration>)
    ensures multiset(InsertByGuild(x, s)) == multiset(s) + multiset{x}
    ensures forall y :: y in InsertByGuild(x, s) ==> y == x || y in s
  {
    if s != [] && !TextLeq(x.guild, s[0].guild) {
      InsertByGuildPermutes(x, s[1..]);
      assert s == [s[0]] + s[1..];
    }
  }

  /** A row that sorts before every row of a sorted sequence can go in front of it. */
  lemma ConsSorted(a: Registration, rest: seq<Registration>)
    requires SortedByGuild(rest)
    requires forall y :: y in rest ==> TextLeq(a.guild, y.guild)
    ensures SortedByGuild([a] + rest)
  {
    var r := [a] + rest;
    forall i, j | 0 <= i < j < |r| ensures TextLeq(r[i].guild, r[j].guild) {
      assert r[j] == rest[j - 1];
      if i == 0 {
        assert rest[j - 1] in rest;
      } else {
        assert r[i] == rest[i - 1];
      }
    }
  }

  lemma SortedTail(s: seq<Registration>)
    requires SortedByGuild(s) && s != []
    ensures SortedByGuild(s[1..])
    ensures forall y :: y in s[1..] ==> TextLeq(s[0].guild, y.guild)
  {
    var tail := s[1..];
    forall i, j | 0 <= i < j < |tail| ensures TextLeq(tail[i].guild, tail[j].guild) {
      assert tail[i] == s[i + 1] && tail[j] == s[j + 1];
    }
    forall y | y in tail ensures TextLeq(s[0].guild, y.guild) {
      var k :| 0 <= k < |tail| && tail[k] == y;
      assert s[k + 1] == y;
    }
  }

  lemma {:induction false} InsertByGuildSorted(x: Registration, s: seq<Registration>)
    requires SortedByGuild(s)
    ensures SortedByGuild(InsertByGuild(x, s))
  {
    if s == [] {
    } else if TextLeq(x.guild, s[0].guild) {
      SortedTail(s);
      forall y | y in s ensures TextLeq(x.guild, y.guild) {
        if y != s[0] {
          assert y in s[1..];
          TextLeqTransitive(x.guild, s[0].guild, y.guild);
        }
      }
      ConsSorted(x, s);
    } else {
      var tail := s[1..];
      SortedTail(s);
      InsertByGuildSorted(x, tail);
      InsertByGuildPermutes(x, tail);
      TextLeqTotal(x.guild, s[0].guild);
      ConsSorted(s[0], InsertByGuild(x, tail));
    }
  }

  /** `SELECT ... FROM registrations ORDER BY guild`: a sorted permutation of the rows. */
  function OrderByGuild(rows: seq<Registration>): (r: seq<Registration>)
    ensures |r| == |rows|
    ensures SortedByGuild(r)
    ensures multiset(r) == multiset(rows)
  {
    if rows == [] then []
    else
      var rest := OrderByGuild(rows[1..]);
      InsertByGuildSorted(rows[0], rest);
      InsertByGuildPermutes(rows[0], rest);
      assert rows == [rows[0]] + rows[1..];
      assert |InsertByGuild(rows[0], rest)| == |multiset(InsertByGuild(rows[0], rest))|;
      InsertByGuild(rows[0], rest)
  }

  /** The sorted rows are the table's rows. */
  lemma OrderByGuildSameRows(rows: seq<Registration>)
    ensures forall r :: r in OrderByGuild(rows) <==> r in rows
  {
    var sorted := OrderByGuild(rows);
    forall r ensures r in sorted <==> r in rows {
      assert r in sorted <==> r in multiset(sorted);
      assert r in rows <==> r in multiset(rows);
    }
  }

  /** A row of `getDesignatedRoles`. */
  datatype Designation = Designation(user: string, guild: string, role: Option<string>)

  function Designate(r: Registration): Designation {
    Designation(r.user, r.guild, r.role)
  }

  /** The selected columns of each row, in order. */
  function Designations(s: seq<Registration>): (d: seq<Designation>)
    ensures |d| == |s|
    ensures forall i :: 0 <= i < |s| ==> d[i] == Designate(s[i])
  {
    if s == [] then [] else [Designate(s[0])] + Designations(s[1..])
  }

  /** Projecting a row put in front adds that row's designation. */
  lemma DesignationsCons(x: Registration, s: seq<Registration>)
    ensures multiset(Designations([x] + s)) == multiset{Designate(x)} + multiset(Designations(s))
  {
    assert ([x] + s)[1..] == s;
    assert Designations([x] + s) == [Designate(x)] + Designations(s);
  }

  /** One step of the insert: a row kept in front keeps its designation in front. */
  lemma DesignationsInsertStep(x: Registration, s: seq<Registration>)
    requires s != [] && !TextLeq(x.guild, s[0].guild)
    requires multiset(Designations(InsertByGuild(x, s[1..]))) == multiset(Designations(s[1..])) + multiset{Designate(x)}
    ensures multiset(Designations(InsertByGuild(x, s))) == multiset(Designations(s)) + multiset{Designate(x)}
  {
    var inserted := InsertByGuild(x, s[1..]);
    calc {
      multiset(Designations(InsertByGuild(x, s)));
      == { assert InsertByGuild(x, s) == [s[0]] + inserted; }
      multiset(Designations([s[0]] + inserted));
      == { DesignationsCons(s[0], inserted); }
      multiset{Designate(s[0])} + multiset(Designations(inserted));
      multiset{Designate(s[0])} + multiset(Designations(s[1..])) + multiset{Designate(x)};
      == { DesignationsCons(s[0], s[1..]); assert s == [s[0]] + s[1..]; }
      multiset(Designations(s)) + multiset{Designate(x)};
    }
  }

  /** Projecting after an ordered insert adds the inserted row's designation. */
  lemma {:induction false} DesignationsInsert(x: Registration, s: seq<Registration>)
    ensures multiset(Designations(InsertByGuild(x, s))) == multiset(Designations(s)) + multiset{Designate(x)}
  {
    if s == [] {
      assert Designations([x]) == [Designate(x)];
    } else if TextLeq(x.guild, s[0].guild) {
      DesignationsCons(x, s);
    } else {
      DesignationsInsert(x, s[1..]);
      DesignationsInsertStep(x, s);
    }
  }

  /** Sorting the rows leaves their designations the same up to order. */
  lemma {:induction false} DesignationsOrdered(rows: seq<Registration>)
    ensures multiset(Designations(OrderByGuild(rows))) == multiset(Designations(rows))
  {
    if rows != [] {
      DesignationsOrdered(rows[1..]);
      DesignationsInsert(rows[0], OrderByGuild(rows[1..]));
      DesignationsCons(rows[0], rows[1..]);
      assert rows == [rows[0]] + rows[1..];
    }
  }

  /** A Discord user offered to `whois` as a candidate. */
  datatype DiscordUser = DiscordUser(id: string, username: string)

  /** A row of the `whois` answer. */
  datatype WhoisRow = WhoisRow(discordUser: string, accountName: Option<string>)

  /** `LOWER(account_name) LIKE '%' || lower(search) || '%'`; a NULL account never matches. */
  predicate AccountMatches(r: Registration, search: string) {
    r.accountName.Some? && Contains(Lower(r.accountName.value), Lower(search))
  }

  /** A `findDuplicateRegistrations` group: the users sharing one GW2 account. */
  datatype DuplicateGroup = DuplicateGroup(users: multiset<string>, count: nat, gw2account: string)

  /** The rows linked to `account`: the group `GROUP BY gw2account` forms for it. */
  function AccountRows(rows: seq<Registration>, account: string): seq<Registration> {
    Filter(rows, (r: Registration) => r.gw2account == account)
  }

  /** The rows of that group belonging to user `u`. */
  function UserAccountRows(rows: seq<Registration>, account: string, u: string): seq<Registration> {
    Filter(rows, (r: Registration) => r.gw2account == account && r.user == u)
  }

  /**
   * The users of the rows linked to `account` (`group_concat(user)` without
   * its order): each user as often as it has rows for the account, so its
   * size is that group's `COUNT(*)`.
   */
  function UsersOf(rows: seq<Registration>, account: string): (users: multiset<string>)
    ensures |users| <= |rows|
    ensures |users| == |AccountRows(rows, account)|
    ensures forall u :: users[u] == |UserAccountRows(rows, account, u)|
    ensures forall u :: u in users <==> exists r :: r in rows && r.gw2account == account && r.user == u
  {
    if rows == [] then multiset{}
    else
      var r0 := rows[0];
      var rest := UsersOf(rows[1..], account);
      assert forall r :: r in rows <==> r == r0 || r in rows[1..];
      assert |AccountRows(rows, account)| == (if r0.gw2account == account then 1 else 0) + |AccountRows(rows[1..], account)|;
      assert forall u :: (|UserAccountRows(rows, account, u)|
        == (if r0.gw2account == account && r0.user == u then 1 else 0) + |UserAccountRows(rows[1..], account, u)|);
      (if r0.gw2account == account then multiset{r0.user} else multiset{}) + rest
  }

  class RegistrationTable {
    var rows: seq<Registration>

    ghost predicate Valid()
      reads this
    {
      Constrained(rows)
    }

    /** Opens a table that already holds `initial`. */
    constructor (initial: seq<Registration>)
      requires Constrained(initial)
      ensures Valid() && rows == initial
    {
      rows := initial;
    }

    /**
     * `storeAPIKey`: true when the row was inserted (replacing the user's
     * earlier row in that guild), false when the guild already holds the key,
     * in which case nothing changes.
     */
    method StoreAPIKey(user: string, guild: string, key: string, gw2account: string, role: Option<string>)
      returns (ok: bool)
      requires Valid()
      modifies this
      ensures Valid()
      ensures ok <==> !KeyTaken(old(rows), guild, key)
      ensures ok ==> rows == WithoutPair(old(rows), user, guild) + [Registration(user, guild, key, gw2account, role, None)]
      ensures !ok ==> rows == old(rows)
    {
      var row := Registration(user, guild, key, gw2account, role, None);
      InsertReplacesPair(rows, row);
      var inserted := Insert(rows, row);
      if inserted.Some? {
        rows := inserted.value;
        ok := true;
      } else {
        ok := false;
      }
    }

    /** `deleteKey`: removes every row holding `key` and reports whether there was one. */
    method DeleteKey(key: string) returns (changed: bool)
      requires Valid()
      modifies this
      ensures Valid()
      ensures rows == WithoutKey(old(rows), key)
      ensures changed <==> exists r :: r in old(rows) && r.apiKey == key
    {
      WithoutKeyConstrained(rows, key);
      var before := |rows|;
      rows := WithoutKey(rows, key);
      var changes := before - |rows|;
      changed := changes > 0;
    }

    /**
     * `whois`: the (user, account name) pairs of the rows whose user is one
     * of the candidates, united with those whose lower-cased account name
     * contains the lower-cased search string. Duplicates collapse (UNION).
     */
    method Whois(search: string, candidates: seq<DiscordUser>) returns (result: set<WhoisRow>)
      ensures forall w :: w in result <==>
        exists r :: r in rows && w == WhoisRow(r.user, r.accountName)
                 && ((exists c :: c in candidates && c.id == r.user) || AccountMatches(r, search))
    {
      var whoisIds: seq<string> := [];
      var i := 0;
      while i < |candidates|
        invariant 0 <= i <= |candidates|
        invariant forall id :: id in whoisIds <==> exists c :: c in candidates[..i] && c.id == id
      {
        assert candidates[..i + 1] == candidates[..i] + [candidates[i]];
        whoisIds := whoisIds + [candidates[i].id];
        i := i + 1;
      }
      assert candidates[..i] == candidates;
      result := set r | r in rows && (r.user in whoisIds || AccountMatches(r, search)) :: WhoisRow(r.user, r.accountName);
    }

    /** `findDuplicateRegistrations`: one group per GW2 account linked to more than one row. */
    function FindDuplicateRegistrations(): (groups: set<DuplicateGroup>)
      reads this
      ensures forall g :: g in groups ==>
        g.count > 1 && g.count == |g.users| && g.users == UsersOf(rows, g.gw2account)
        && g.count == |AccountRows(rows, g.gw2account)|
      ensures forall r :: r in rows && |UsersOf(rows, r.gw2account)| > 1 ==>
        exists g :: g in groups && g.gw2account == r.gw2account
    {
      set r | r in rows && |UsersOf(rows, r.gw2account)| > 1 ::
        DuplicateGroup(UsersOf(rows, r.gw2account), |UsersOf(rows, r.gw2account)|, r.gw2account)
    }

    /** `getDesignatedRoles`: user, guild and role of every row, in guild order. */
    function GetDesignatedRoles(): (d: seq<Designation>)
      reads this
      ensures |d| == |rows|
      ensures forall i, j :: 0 <= i < j < |d| ==> TextLeq(d[i].guild, d[j].guild)
      ensures forall x :: x in d <==> exists r :: r in rows && x == Designation(r.user, r.guild, r.role)
      ensures multiset(d) == multiset(Designations(rows))
    {
      var sorted := OrderByGuild(rows);
      OrderByGuildSameRows(rows);
      var d := Designations(sorted);
      DesignationsOrdered(rows);
      forall x | x in d ensures exists r :: r in rows && x == Designation(r.user, r.guild, r.role) {
        var k :| 0 <= k < |d| && d[k] == x;
        assert sorted[k] in sorted;
      }
      forall r | r in rows ensures Designation(r.user, r.guild, r.role) in d {
        var k :| 0 <= k < |sorted| && sorted[k] == r;
        assert d[k] == Designation(r.user, r.guild, r.role);
      }
      d
    }
  }
}
