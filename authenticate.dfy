/**
 * The `authenticate` command: a user hands in a Guild Wars 2 API key; the
 * bot checks its format, asks the game's API which world role it earns and
 * then, on every guild it shares with the user, stores the key and grants
 * that role.
 *
 * Discord and the game's API are not part of this model. The guilds the bot
 * is on, the invoking message, the validation outcome and the account id
 * (`Util.getAccountGUID`) are inputs; what the command sends, deletes and
 * assigns is its output, as a list of effects in the order they are issued.
 */
module Authenticate {
  import opened Common
  import opened Registrations
  import opened Revalidation

  /** `\w` of a JavaScript regular expression without the `u` flag. */
  predicate WordChar(c: char) {
    ('a' <= c <= 'z') || ('A' <= c <= 'Z') || ('0' <= c <= '9') || c == '_'
  }

  /** The widths of the word-character groups of an API key. */
  const KeyGroups: seq<nat> := [8, 4, 4, 4, 20, 4, 4, 4, 12]

  /**
   * `s` is made of runs of word characters of the given widths, separated by
   * single '-', with nothing before or after (`^...$`).
   */
  predicate MatchesGroups(s: string, groups: seq<nat>)
    requires |groups| > 0
    decreases |groups|
  {
    && groups[0] <= |s|
    && (forall i :: 0 <= i < groups[0] ==> WordChar(s[i]))
    && if |groups| == 1 then |s| == groups[0]
       else groups[0] < |s| && s[groups[0]] == '-' && MatchesGroups(s[groups[0] + 1..], groups[1..])
  }

  /** `/^\w{8}-\w{4}-\w{4}-\w{4}-\w{20}-\w{4}-\w{4}-\w{4}-\w{12}$/.test(key)` */
  predicate ValidFormat(key: string) {
    MatchesGroups(key, KeyGroups)
  }

  /** The length of a string of these groups. */
  function Width(groups: seq<nat>): nat
    requires |groups| > 0
    decreases |groups|
  {
    if |groups| == 1 then groups[0] else groups[0] + 1 + Width(groups[1..])
  }

  /** Position `i` holds a separator in a string of these groups. */
  predicate IsSeparator(groups: seq<nat>, i: int)
    requires |groups| > 0
    decreases |groups|
  {
    |groups| > 1 && (i == groups[0] || IsSeparator(groups[1..], i - groups[0] - 1))
  }

  lemma {:induction false} SeparatorBounds(groups: seq<nat>, i: int)
    requires |groups| > 0
    requires IsSeparator(groups, i)
    ensures groups[0] <= i < Width(groups)
  {
    if i != groups[0] {
      SeparatorBounds(groups[1..], i - groups[0] - 1);
    }
  }

  /**
   * A string matches the groups exactly when it has their total width, a
   * '-' at every separator position and a word character everywhere else.
   */
  lemma {:induction false} MatchesGroupsShape(s: string, groups: seq<nat>)
    requires |groups| > 0
    ensures MatchesGroups(s, groups) <==>
      |s| == Width(groups)
      && forall i :: 0 <= i < |s| ==> if IsSeparator(groups, i) then s[i] == '-' else WordChar(s[i])
    decreases |groups|
  {
    var g := groups[0];
    if |groups| > 1 && g < |s| {
      var rest := groups[1..];
      var t := s[g + 1..];
      MatchesGroupsShape(t, rest);
      forall i | 0 <= i < g ensures !IsSeparator(groups, i) {
        if IsSeparator(rest, i - g - 1) {
          SeparatorBounds(rest, i - g - 1);
        }
      }
      if |s| == Width(groups)
         && forall i :: 0 <= i < |s| ==> if IsSeparator(groups, i) then s[i] == '-' else WordChar(s[i])
      {
        forall j | 0 <= j < |t| ensures if IsSeparator(rest, j) then t[j] == '-' else WordChar(t[j]) {
          assert t[j] == s[g + 1 + j];
          assert IsSeparator(groups, g + 1 + j) == IsSeparator(rest, j);
        }
      }
      if MatchesGroups(s, groups) {
        forall i | 0 <= i < |s| ensures if IsSeparator(groups, i) then s[i] == '-' else WordChar(s[i]) {
          if i > g {
            assert s[i] == t[i - g - 1];
          }
        }
      }
    }
  }

  /** An API key is 72 characters long: the widths and the eight dashes. */
  lemma KeyWidth()
    ensures Width(KeyGroups) == 72
  {
    assert KeyGroups[1..] == [4, 4, 4, 20, 4, 4, 4, 12];
    assert KeyGroups[1..][1..] == [4, 4, 20, 4, 4, 4, 12];
    assert KeyGroups[1..][1..][1..] == [4, 20, 4, 4, 4, 12];
    assert KeyGroups[1..][1..][1..][1..] == [20, 4, 4, 4, 12];
    assert KeyGroups[1..][1..][1..][1..][1..] == [4, 4, 4, 12];
    assert KeyGroups[1..][1..][1..][1..][1..][1..] == [4, 4, 12];
    assert KeyGroups[1..][1..][1..][1..][1..][1..][1..] == [4, 12];
    assert KeyGroups[1..][1..][1..][1..][1..][1..][1..][1..] == [12];
  }

  /** A key of the wrong length, the empty default among them, is refused. */
  lemma WrongLengthRefused(key: string)
    requires |key| != 72
    ensures !ValidFormat(key)
  {
    MatchesGroupsShape(key, KeyGroups);
    KeyWidth();
  }

  /** A member of a guild (its user's id is the member's id). */
  datatype GuildMember = GuildMember(id: string, username: string)

  datatype Role = Role(id: string, name: string)

  datatype Guild = Guild(id: string, name: string, members: seq<GuildMember>, roles: seq<Role>)

  /** A guild shared with the author, and the author's membership in it. */
  datatype Membership = Membership(guild: Guild, member: GuildMember)

  /**
   * The invoking message: its author, whether it was posted on a guild
   * (`message.member` is set) rather than by DM, and whether the bot may
   * delete it.
   */
  datatype Message = Message(authorId: string, inGuild: bool, deletable: bool)

  /** The locale texts the command sends; `Blank` is the empty reply. */
  datatype Text = CheckingKey | KeyInvalidFormat | NoDelPerm | KeyDeclined | InternalError
                | KeyAccepted | KeyNotUnique | Blank

  /** What the command does to the outside world, in order. */
  datatype Effect =
    | ToChannel(text: Text)              // message.util.send
    | ToUser(text: Text)                 // responsible.send
    | DeleteMessage                      // message.delete()
    | AssignRole(memberId: string, guildId: string, roleId: string, role: string)
    | AuthLog(guild: Option<string>, memberId: string, role: string)

  /** `members.find(m => m.id == id)`: the first member with that id. */
  function FindMember(members: seq<GuildMember>, id: string): (r: Option<GuildMember>)
    ensures r.Some? ==> r.value in members && r.value.id == id
    ensures r.Some? ==> exists k :: 0 <= k < |members| && members[k] == r.value
                                  && forall j :: 0 <= j < k ==> members[j].id != id
    ensures r.None? <==> forall m :: m in members ==> m.id != id
  {
    if members == [] then None
    else if members[0].id == id then Some(members[0])
    else
      assert forall m :: m in members ==> m == members[0] || m in members[1..];
      var r := FindMember(members[1..], id);
      if r.Some? then
        var k :| 0 <= k < |members[1..]| && members[1..][k] == r.value && forall j :: 0 <= j < k ==> members[1..][j].id != id;
        assert members[k + 1] == r.value;
        assert forall j :: 0 <= j < k + 1 ==> members[j].id != id by {
          forall j | 0 <= j < k + 1 ensures members[j].id != id {
            if j > 0 { assert members[j] == members[1..][j - 1]; }
          }
        }
        r
      else r
  }

  /** `roles.find(r => r.name === name)`: the first role with that name. */
  function FindRole(roles: seq<Role>, name: string): (r: Option<Role>)
    ensures r.Some? ==> r.value in roles && r.value.name == name
    ensures r.Some? ==> exists k :: 0 <= k < |roles| && roles[k] == r.value
                                  && forall j :: 0 <= j < k ==> roles[j].name != name
    ensures r.None? <==> forall x :: x in roles ==> x.name != name
  {
    if roles == [] then None
    else if roles[0].name == name then Some(roles[0])
    else
      assert forall x :: x in roles ==> x == roles[0] || x in roles[1..];
      var r := FindRole(roles[1..], name);
      if r.Some? then
        var k :| 0 <= k < |roles[1..]| && roles[1..][k] == r.value && forall j :: 0 <= j < k ==> roles[1..][j].name != name;
        assert roles[k + 1] == r.value;
        assert forall j :: 0 <= j < k + 1 ==> roles[j].name != name by {
          forall j | 0 <= j < k + 1 ensures roles[j].name != name {
            if j > 0 { assert roles[j] == roles[1..][j - 1]; }
          }
        }
        r
      else r
  }

  /**
   * The guilds, in order, on which the author is a member, each with that
   * membership: exactly the guilds having a member with the author's id.
   */
  function MembersOf(guilds: seq<Guild>, authorId: string): (ms: seq<Membership>)
    ensures |ms| <= |guilds|
    ensures forall m :: m in ms ==> m.guild in guilds && m.member in m.guild.members && m.member.id == authorId
    ensures forall g :: g in guilds && (exists x :: x in g.members && x.id == authorId) ==>
      exists m :: m in ms && m.guild == g
    decreases |guilds|
  {
    if guilds == [] then []
    else
      var init := guilds[..|guilds| - 1];
      var g := guilds[|guilds| - 1];
      var prev := MembersOf(init, authorId);
      assert guilds == init + [g];
      assert forall h :: h in guilds <==> h in init || h == g;
      match FindMember(g.members, authorId)
      case Some(x) => prev + [Membership(g, x)]
      case None => prev
  }

  /** The `guilds.forEach` loop that collects the author's memberships. */
  method CollectMembers(guilds: seq<Guild>, authorId: string) returns (members: seq<Membership>)
    ensures members == MembersOf(guilds, authorId)
  {
    members := [];
    var i := 0;
    while i < |guilds|
      invariant 0 <= i <= |guilds|
      invariant members == MembersOf(guilds[..i], authorId)
    {
      assert guilds[..i + 1][..i] == guilds[..i];
      var m := FindMember(guilds[i].members, authorId);
      if m.Some? {
        members := members + [Membership(guilds[i], m.value)];
      }
      i := i + 1;
    }
    assert guilds[..i] == guilds;
  }

  /** The reply for a rejected validation. */
  function ErrorReply(e: ValidationError): (t: Text)
    ensures t == KeyDeclined <==> e == InvalidKey
    ensures t == KeyDeclined || t == InternalError
  {
    match e
    case ConfigWorldDuplicate => InternalError
    case NetworkError => InternalError
    case InvalidKey => KeyDeclined
    case Unexpected => InternalError
  }

  /** The state the per-guild loop carries: the table, the effects so far and the pending reply. */
  datatype Progress = Progress(rows: seq<Registration>, effects: seq<Effect>, reply: Text)

  /**
   * One iteration for membership `m`: a guild without a role named after the
   * world is skipped with an internal error; otherwise the key is stored and,
   * when that succeeds, the role is assigned and logged.
   */
  function StoreFor(p: Progress, m: Membership, key: string, guid: string, role: string, logGuild: Option<string>): Progress {
    match FindRole(m.guild.roles, role)
    case None => p.(reply := InternalError)
    case Some(r) =>
      match Insert(p.rows, Registration(m.member.id, m.guild.id, key, guid, Some(r.name), None))
      case Some(rows) =>
        Progress(rows, p.effects + [AssignRole(m.member.id, m.guild.id, r.id, r.name), AuthLog(logGuild, m.member.id, r.name)], KeyAccepted)
      case None => p.(reply := KeyNotUnique)
  }

  /** The loop over the memberships, one `StoreFor` after another. */
  function StoreAll(p: Progress, ms: seq<Membership>, key: string, guid: string, role: string, logGuild: Option<string>): Progress
    decreases |ms|
  {
    if ms == [] then p
    else StoreFor(StoreAll(p, ms[..|ms| - 1], key, guid, role, logGuild), ms[|ms| - 1], key, guid, role, logGuild)
  }

  /** The effects of a message the bot tries to delete for privacy: none for a DM. */
  function Privacy(msg: Message): seq<Effect> {
    if !msg.inGuild then []
    else if msg.deletable then [DeleteMessage]
    else [ToChannel(NoDelPerm)]
  }

  datatype Outcome = Outcome(effects: seq<Effect>, rows: seq<Registration>)

  /**
   * The whole command: no message (a cron invocation) does nothing; the
   * check notice goes first; a malformed key ends there; otherwise the
   * message is deleted if posted on a guild, and the validation outcome
   * decides between a refusal and the per-guild loop followed by its reply.
   * A `guid` of None stands for a failed account lookup, after which nothing
   * more happens.
   */
  function Respond(message: Option<Message>, guilds: seq<Guild>, key: string, world: WorldCheck,
                   guid: Option<string>, logGuild: Option<string>, rows: seq<Registration>): Outcome
  {
    if message.None? then Outcome([], rows)
    else
      var start := [ToChannel(CheckingKey)];
      if !ValidFormat(key) then Outcome(start + [ToChannel(KeyInvalidFormat)], rows)
      else
        var pre := start + Privacy(message.value);
        match world
        case NotOnWorld => Outcome(pre + [ToUser(KeyDeclined)], rows)
        case Failed(e) => Outcome(pre + [ToUser(ErrorReply(e))], rows)
        case OnWorld(role) =>
          if guid.None? then Outcome(pre, rows)
          else
            var ms := MembersOf(guilds, message.value.authorId);
            var p := StoreAll(Progress(rows, pre, Blank), ms, key, guid.value, role, logGuild);
            Outcome(p.effects + [ToUser(p.reply)], p.rows)
  }

  /**
   * The `members.forEach` loop after a successful validation: stores the key
   * for each membership, assigns roles, and overwrites the reply each time.
   */
  method StoreKeys(members: seq<Membership>, key: string, guid: string, role: string, logGuild: Option<string>,
                   db: RegistrationTable, effects0: seq<Effect>)
    returns (effects: seq<Effect>, reply: Text)
    requires db.Valid()
    modifies db
    ensures db.Valid()
    ensures Progress(db.rows, effects, reply) == StoreAll(Progress(old(db.rows), effects0, Blank), members, key, guid, role, logGuild)
  {
    effects, reply := effects0, Blank;
    ghost var start := Progress(db.rows, effects, Blank);
    var i := 0;
    while i < |members|
      invariant 0 <= i <= |members|
      invariant db.Valid()
      invariant Progress(db.rows, effects, reply) == StoreAll(start, members[..i], key, guid, role, logGuild)
    {
      assert members[..i + 1][..i] == members[..i];
      var m := members[i];
      var r := FindRole(m.guild.roles, role);
      if r.None? {
        reply := InternalError;
      } else {
        var unique := db.StoreAPIKey(m.member.id, m.guild.id, key, guid, Some(r.value.name));
        if unique {
          effects := effects + [AssignRole(m.member.id, m.guild.id, r.value.id, r.value.name), AuthLog(logGuild, m.member.id, r.value.name)];
          reply := KeyAccepted;
        } else {
          reply := KeyNotUnique;
        }
      }
      i := i + 1;
    }
    assert members[..i] == members;
  }

  /** `AuthenticateCommand.command`. */
  method Command(message: Option<Message>, guilds: seq<Guild>, key: string, world: WorldCheck,
                 guid: Option<string>, logGuild: Option<string>, db: RegistrationTable)
    returns (effects: seq<Effect>)
    requires db.Valid()
    modifies db
    ensures db.Valid()
    ensures Outcome(effects, db.rows) == Respond(message, guilds, key, world, guid, logGuild, old(db.rows))
  {
    if message.None? {
      return [];
    }
    ghost var rows0 := db.rows;
    var msg := message.value;
    var members := CollectMembers(guilds, msg.authorId);
    var reply := Blank;
    effects := [ToChannel(CheckingKey)];
    var validFormat := ValidFormat(key);
    if !validFormat {
      effects := effects + [ToChannel(KeyInvalidFormat)];
      return;
    }
    if msg.inGuild {
      if msg.deletable {
        effects := effects + [DeleteMessage];
      } else {
        effects := effects + [ToChannel(NoDelPerm)];
      }
    }
    assert effects == [ToChannel(CheckingKey)] + Privacy(msg);
    match world
    case NotOnWorld =>
      reply := KeyDeclined;
      effects := effects + [ToUser(reply)];
    case Failed(e) =>
      effects := effects + [ToUser(ErrorReply(e))];
    case OnWorld(role) =>
      if guid.Some? {
        ghost var pre := effects;
        effects, reply := StoreKeys(members, key, guid.value, role, logGuild, db, effects);
        ghost var p := StoreAll(Progress(rows0, pre, Blank), members, key, guid.value, role, logGuild);
        assert Respond(message, guilds, key, world, guid, logGuild, rows0) == Outcome(p.effects + [ToUser(p.reply)], p.rows);
        effects := effects + [ToUser(reply)];
      }
  }

  /** A registration the loop may store for membership `m`. */
  predicate StoredFor(x: Registration, m: Membership, key: string, guid: string, role: string) {
    x == Registration(m.member.id, m.guild.id, key, guid, Some(role), None)
      && FindRole(m.guild.roles, role).Some?
  }

  /**
   * What the loop does to the table: the constraints keep holding, and every
   * row is an old row or the key stored for one of the memberships whose
   * guild has the role; a guild without the role gets no row.
   */
  lemma {:induction false} StoreAllRows(p: Progress, ms: seq<Membership>, key: string, guid: string, role: string, logGuild: Option<string>)
    requires Constrained(p.rows)
    ensures var q := StoreAll(p, ms, key, guid, role, logGuild);
      && Constrained(q.rows)
      && forall x :: x in q.rows ==> x in p.rows || exists m :: m in ms && StoredFor(x, m, key, guid, role)
    decreases |ms|
  {
    if ms != [] {
      var init := ms[..|ms| - 1];
      var m := ms[|ms| - 1];
      StoreAllRows(p, init, key, guid, role, logGuild);
      var before := StoreAll(p, init, key, guid, role, logGuild);
      assert forall n :: n in init ==> n in ms;
      var r := FindRole(m.guild.roles, role);
      if r.Some? {
        var row := Registration(m.member.id, m.guild.id, key, guid, Some(r.value.name), None);
        InsertReplacesPair(before.rows, row);
        assert r.value.name == role;
        assert StoredFor(row, m, key, guid, role);
      }
    }
  }

  /** One `StoreFor` keeps the effects so far and adds only this member's role effects. */
  lemma StoreForEffects(p: Progress, m: Membership, key: string, guid: string, role: string, logGuild: Option<string>)
    ensures var q := StoreFor(p, m, key, guid, role, logGuild);
      && |p.effects| <= |q.effects|
      && q.effects[..|p.effects|] == p.effects
      && forall k :: |p.effects| <= k < |q.effects| ==>
           (q.effects[k].AssignRole? || q.effects[k].AuthLog?)
           && q.effects[k].role == role
           && q.effects[k].memberId == m.member.id && FindRole(m.guild.roles, role).Some?
  {
  }

  /**
   * What the loop does to the effects: it only appends role assignments and
   * their log lines, each for a membership whose guild has the role, and the
   * role assigned is the world's role. It never messages the user.
   */
  lemma {:induction false} StoreAllEffects(p: Progress, ms: seq<Membership>, key: string, guid: string, role: string, logGuild: Option<string>)
    ensures var q := StoreAll(p, ms, key, guid, role, logGuild);
      && |p.effects| <= |q.effects|
      && q.effects[..|p.effects|] == p.effects
      && forall k :: |p.effects| <= k < |q.effects| ==>
           (q.effects[k].AssignRole? || q.effects[k].AuthLog?)
           && q.effects[k].role == role
           && exists m :: m in ms && q.effects[k].memberId == m.member.id && FindRole(m.guild.roles, role).Some?
    decreases |ms|
  {
    if ms != [] {
      var init := ms[..|ms| - 1];
      var m := ms[|ms| - 1];
      StoreAllEffects(p, init, key, guid, role, logGuild);
      var before := StoreAll(p, init, key, guid, role, logGuild);
      StoreForEffects(before, m, key, guid, role, logGuild);
      var q := StoreFor(before, m, key, guid, role, logGuild);
      assert q == StoreAll(p, ms, key, guid, role, logGuild);
      assert q.effects[..|p.effects|] == before.effects[..|before.effects|][..|p.effects|];
      assert m in ms;
      forall k | |p.effects| <= k < |q.effects|
        ensures (q.effects[k].AssignRole? || q.effects[k].AuthLog?)
           && q.effects[k].role == role
           && exists n :: n in ms && q.effects[k].memberId == n.member.id && FindRole(n.guild.roles, role).Some?
      {
        if k < |before.effects| {
          assert q.effects[k] == before.effects[k];
          var n :| n in init && before.effects[k].memberId == n.member.id && FindRole(n.guild.roles, role).Some?;
          assert n in ms;
        }
      }
    }
  }

  /**
   * The reply after the loop reflects the last guild processed: an internal
   * error when it lacks the role, acceptance when its store succeeded, the
   * duplicate notice when the guild already held the key. With no guild the
   * reply stays as it was.
   */
  lemma ReplyFromLastGuild(p: Progress, ms: seq<Membership>, key: string, guid: string, role: string, logGuild: Option<string>)
    ensures ms == [] ==> StoreAll(p, ms, key, guid, role, logGuild).reply == p.reply
    ensures ms != [] ==>
      var last := ms[|ms| - 1];
      var before := StoreAll(p, ms[..|ms| - 1], key, guid, role, logGuild);
      var reply := StoreAll(p, ms, key, guid, role, logGuild).reply;
      && (reply == InternalError <==> FindRole(last.guild.roles, role).None?)
      && (reply == KeyAccepted <==> FindRole(last.guild.roles, role).Some? && !KeyTaken(before.rows, last.guild.id, key))
      && (reply == KeyNotUnique <==> FindRole(last.guild.roles, role).Some? && KeyTaken(before.rows, last.guild.id, key))
  {
  }

  /** A malformed key gets the format notice; nothing is validated, deleted or stored. */
  lemma InvalidFormatStoresNothing(message: Option<Message>, guilds: seq<Guild>, key: string, world: WorldCheck,
                                   guid: Option<string>, logGuild: Option<string>, rows: seq<Registration>)
    requires message.Some? && !ValidFormat(key)
    ensures Respond(message, guilds, key, world, guid, logGuild, rows) ==
      Outcome([ToChannel(CheckingKey), ToChannel(KeyInvalidFormat)], rows)
  {
  }

  /**
   * A refused validation stores nothing and tells the user: the key declined
   * when the world check says `false` or the key is invalid, an internal
   * error for any other failure.
   */
  lemma RefusalStoresNothing(message: Option<Message>, guilds: seq<Guild>, key: string, world: WorldCheck,
                             guid: Option<string>, logGuild: Option<string>, rows: seq<Registration>)
    requires message.Some? && ValidFormat(key) && !world.OnWorld?
    ensures var o := Respond(message, guilds, key, world, guid, logGuild, rows);
      && o.rows == rows
      && |o.effects| > 0
      && o.effects[|o.effects| - 1] ==
           ToUser(if world == NotOnWorld || world == Failed(InvalidKey) then KeyDeclined else InternalError)
      && forall e :: e in o.effects ==> !e.AssignRole?
  {
  }

  /**
   * After a successful validation exactly one message goes to the user, the
   * last one, and every role assigned is the world's role on a guild the
   * author is a member of that has that role.
   */
  lemma OneReplyAfterLoop(message: Option<Message>, guilds: seq<Guild>, key: string, role: string,
                          guid: Option<string>, logGuild: Option<string>, rows: seq<Registration>)
    requires message.Some? && ValidFormat(key) && guid.Some?
    ensures var o := Respond(message, guilds, key, OnWorld(role), guid, logGuild, rows);
      && |o.effects| > 0
      && o.effects[|o.effects| - 1].ToUser?
      && (forall k :: 0 <= k < |o.effects| - 1 ==> !o.effects[k].ToUser?)
      && forall e :: e in o.effects && e.AssignRole? ==>
           e.role == role
           && exists m :: m in MembersOf(guilds, message.value.authorId) && e.memberId == m.member.id
                          && m.guild.id == e.guildId && FindRole(m.guild.roles, role).Some?
  {
    var pre := [ToChannel(CheckingKey)] + Privacy(message.value);
    var ms := MembersOf(guilds, message.value.authorId);
    var p := Progress(rows, pre, Blank);
    var q := StoreAll(p, ms, key, guid.value, role, logGuild);
    assert Respond(message, guilds, key, OnWorld(role), guid, logGuild, rows) == Outcome(q.effects + [ToUser(q.reply)], q.rows);
    assert forall e :: e in pre ==> !e.ToUser? && !e.AssignRole?;
    StoreAllEffects(p, ms, key, guid.value, role, logGuild);
    StoreAllAssignments(p, ms, key, guid.value, role, logGuild);
    forall k | 0 <= k < |q.effects| ensures !q.effects[k].ToUser? {
      if k < |pre| {
        assert q.effects[k] == pre[k];
      }
    }
  }

  /** The store for membership `m` succeeds from `p`: its guild has the role and does not hold the key yet. */
  predicate Stores(p: Progress, m: Membership, key: string, role: string) {
    FindRole(m.guild.roles, role).Some? && !KeyTaken(p.rows, m.guild.id, key)
  }

  /** The assignment a successful store for `m` makes: the guild's first role named `role`. */
  function Assignment(m: Membership, role: string): (e: Effect)
    requires FindRole(m.guild.roles, role).Some?
    ensures e.AssignRole? && e.memberId == m.member.id && e.guildId == m.guild.id && e.role == role
    ensures exists x :: x in m.guild.roles && x.id == e.roleId && x.name == role
  {
    AssignRole(m.member.id, m.guild.id, FindRole(m.guild.roles, role).value.id, role)
  }

  /**
   * One iteration: when the store succeeds the row is written and the role
   * assigned and logged; when the guild lacks the role or already holds the
   * key, neither the table nor the effects change.
   */
  lemma StoreForOutcome(p: Progress, m: Membership, key: string, guid: string, role: string, logGuild: Option<string>)
    ensures var q := StoreFor(p, m, key, guid, role, logGuild);
      && (|q.effects| > |p.effects| <==> Stores(p, m, key, role))
      && (Stores(p, m, key, role) ==>
            && Registration(m.member.id, m.guild.id, key, guid, Some(role), None) in q.rows
            && q.effects == p.effects + [Assignment(m, role), AuthLog(logGuild, m.member.id, role)])
      && (!Stores(p, m, key, role) ==> q.rows == p.rows && q.effects == p.effects)
  {
  }

  /** Running the loop over `a + b` is running it over `a`, then over `b`. */
  lemma {:induction false} StoreAllSplit(p: Progress, a: seq<Membership>, b: seq<Membership>, key: string, guid: string,
                                         role: string, logGuild: Option<string>)
    ensures StoreAll(p, a + b, key, guid, role, logGuild)
         == StoreAll(StoreAll(p, a, key, guid, role, logGuild), b, key, guid, role, logGuild)
    decreases |b|
  {
    if b == [] {
      assert a + b == a;
    } else {
      var n := |b| - 1;
      StoreAllSplit(p, a, b[..n], key, guid, role, logGuild);
      assert (a + b)[..|a + b| - 1] == a + b[..n];
      assert (a + b)[|a + b| - 1] == b[n];
    }
  }

  /** A row of a guild none of the memberships belongs to survives the loop. */
  lemma {:induction false} StoreAllKeepsRow(p: Progress, ms: seq<Membership>, key: string, guid: string, role: string,
                                            logGuild: Option<string>, x: Registration)
    requires x in p.rows
    requires forall m :: m in ms ==> m.guild.id != x.guild
    ensures x in StoreAll(p, ms, key, guid, role, logGuild).rows
    decreases |ms|
  {
    if ms != [] {
      var init := ms[..|ms| - 1];
      assert forall m :: m in init ==> m in ms;
      StoreAllKeepsRow(p, init, key, guid, role, logGuild, x);
      assert ms[|ms| - 1] in ms;
    }
  }

  /** The store for the i-th membership succeeds at its turn, after the loop has run over the ones before it. */
  predicate StoredAt(p: Progress, ms: seq<Membership>, i: int, key: string, guid: string, role: string, logGuild: Option<string>)
    requires 0 <= i < |ms|
  {
    Stores(StoreAll(p, ms[..i], key, guid, role, logGuild), ms[i], key, role)
  }

  /** An assignment one iteration adds is that membership's, after a successful store. */
  lemma StoreForNewAssignment(p: Progress, m: Membership, key: string, guid: string, role: string, logGuild: Option<string>, e: Effect)
    requires e in StoreFor(p, m, key, guid, role, logGuild).effects && e.AssignRole? && e !in p.effects
    ensures Stores(p, m, key, role) && e == Assignment(m, role)
  {
    StoreForOutcome(p, m, key, guid, role, logGuild);
  }

  /** A turn inside a prefix is the same turn of the whole list. */
  lemma StoredAtPrefix(p: Progress, ms: seq<Membership>, n: int, i: int, key: string, guid: string, role: string, logGuild: Option<string>)
    requires 0 <= i < n <= |ms|
    ensures ms[..n][i] == ms[i]
    ensures StoredAt(p, ms[..n], i, key, guid, role, logGuild) <==> StoredAt(p, ms, i, key, guid, role, logGuild)
  {
    assert ms[..n][..i] == ms[..i];
  }

  /** A membership whose store succeeded at its turn gets its role assignment. */
  lemma {:induction false} StoreAllAssignsStored(p: Progress, ms: seq<Membership>, key: string, guid: string, role: string, logGuild: Option<string>)
    ensures forall i :: 0 <= i < |ms| && StoredAt(p, ms, i, key, guid, role, logGuild) ==>
      Assignment(ms[i], role) in StoreAll(p, ms, key, guid, role, logGuild).effects
    decreases |ms|
  {
    if ms != [] {
      var n := |ms| - 1;
      var init := ms[..n];
      StoreAllAssignsStored(p, init, key, guid, role, logGuild);
      var before := StoreAll(p, init, key, guid, role, logGuild);
      StoreForOutcome(before, ms[n], key, guid, role, logGuild);
      var q := StoreAll(p, ms, key, guid, role, logGuild);
      assert q == StoreFor(before, ms[n], key, guid, role, logGuild);
      forall i | 0 <= i < |ms| && StoredAt(p, ms, i, key, guid, role, logGuild)
        ensures Assignment(ms[i], role) in q.effects
      {
        if i < n {
          StoredAtPrefix(p, ms, n, i, key, guid, role, logGuild);
          assert Assignment(ms[i], role) in before.effects;
        } else {
          assert ms[..n] == init;
        }
      }
    }
  }

  /** Every role assignment the loop makes is that of a membership whose store succeeded at its turn. */
  lemma {:induction false} StoreAllAssignsOnlyStored(p: Progress, ms: seq<Membership>, key: string, guid: string, role: string, logGuild: Option<string>)
    requires forall e :: e in p.effects ==> !e.AssignRole?
    ensures forall e :: e in StoreAll(p, ms, key, guid, role, logGuild).effects && e.AssignRole? ==>
      exists i :: 0 <= i < |ms| && StoredAt(p, ms, i, key, guid, role, logGuild) && e == Assignment(ms[i], role)
    decreases |ms|
  {
    if ms != [] {
      var n := |ms| - 1;
      var init := ms[..n];
      StoreAllAssignsOnlyStored(p, init, key, guid, role, logGuild);
      var before := StoreAll(p, init, key, guid, role, logGuild);
      var q := StoreAll(p, ms, key, guid, role, logGuild);
      assert q == StoreFor(before, ms[n], key, guid, role, logGuild);
      forall e | e in q.effects && e.AssignRole?
        ensures exists i :: 0 <= i < |ms| && StoredAt(p, ms, i, key, guid, role, logGuild) && e == Assignment(ms[i], role)
      {
        if e in before.effects {
          var i :| 0 <= i < n && StoredAt(p, init, i, key, guid, role, logGuild) && e == Assignment(init[i], role);
          StoredAtPrefix(p, ms, n, i, key, guid, role, logGuild);
        } else {
          StoreForNewAssignment(before, ms[n], key, guid, role, logGuild, e);
          assert ms[..n] == init;
          assert StoredAt(p, ms, n, key, guid, role, logGuild);
        }
      }
    }
  }

  /** Every role assignment the loop makes names a membership's guild having the role. */
  lemma StoreAllAssignments(p: Progress, ms: seq<Membership>, key: string, guid: string, role: string, logGuild: Option<string>)
    requires forall e :: e in p.effects ==> !e.AssignRole?
    ensures forall e :: e in StoreAll(p, ms, key, guid, role, logGuild).effects && e.AssignRole? ==>
      e.role == role
      && exists m :: m in ms && e.memberId == m.member.id && m.guild.id == e.guildId && FindRole(m.guild.roles, role).Some?
  {
    StoreAllAssignsOnlyStored(p, ms, key, guid, role, logGuild);
    forall e | e in StoreAll(p, ms, key, guid, role, logGuild).effects && e.AssignRole?
      ensures exists m :: m in ms && e.memberId == m.member.id && m.guild.id == e.guildId && FindRole(m.guild.roles, role).Some?
    {
      var i :| 0 <= i < |ms| && StoredAt(p, ms, i, key, guid, role, logGuild) && e == Assignment(ms[i], role);
      assert ms[i] in ms;
    }
  }

  /** The row a store at turn `i` writes is still there after the loop, the guilds being distinct. */
  lemma StoreAllWritesRow(p: Progress, ms: seq<Membership>, i: int, key: string, guid: string, role: string, logGuild: Option<string>)
    requires DistinctGuilds(ms)
    requires 0 <= i < |ms| && StoredAt(p, ms, i, key, guid, role, logGuild)
    ensures Registration(ms[i].member.id, ms[i].guild.id, key, guid, Some(role), None) in StoreAll(p, ms, key, guid, role, logGuild).rows
  {
    var row := Registration(ms[i].member.id, ms[i].guild.id, key, guid, Some(role), None);
    var turn := StoreAll(p, ms[..i], key, guid, role, logGuild);
    StoreForOutcome(turn, ms[i], key, guid, role, logGuild);
    assert ms[..i + 1][..i] == ms[..i] && ms[..i + 1][i] == ms[i];
    var after := StoreAll(p, ms[..i + 1], key, guid, role, logGuild);
    assert after == StoreFor(turn, ms[i], key, guid, role, logGuild);
    var rest := ms[i + 1..];
    assert ms[..i + 1] + rest == ms;
    StoreAllSplit(p, ms[..i + 1], rest, key, guid, role, logGuild);
    forall m | m in rest ensures m.guild.id != row.guild {
      var k :| 0 <= k < |rest| && rest[k] == m;
      assert ms[i + 1 + k] == m;
    }
    StoreAllKeepsRow(after, rest, key, guid, role, logGuild, row);
  }

  /**
   * The loop's rows: when the memberships are on distinct guilds, every
   * membership whose store succeeded at its turn has its row in the final
   * table; later iterations only replace rows of their own guild.
   */
  lemma StoreAllWritesRows(p: Progress, ms: seq<Membership>, key: string, guid: string, role: string, logGuild: Option<string>)
    requires DistinctGuilds(ms)
    ensures forall i :: 0 <= i < |ms| && StoredAt(p, ms, i, key, guid, role, logGuild) ==>
      Registration(ms[i].member.id, ms[i].guild.id, key, guid, Some(role), None) in StoreAll(p, ms, key, guid, role, logGuild).rows
  {
    forall i | 0 <= i < |ms| && StoredAt(p, ms, i, key, guid, role, logGuild)
      ensures Registration(ms[i].member.id, ms[i].guild.id, key, guid, Some(role), None) in StoreAll(p, ms, key, guid, role, logGuild).rows
    {
      StoreAllWritesRow(p, ms, i, key, guid, role, logGuild);
    }
  }

  /** No two memberships are on the same guild. */
  ghost predicate DistinctGuilds(ms: seq<Membership>) {
    forall i, j :: 0 <= i < j < |ms| ==> ms[i].guild.id != ms[j].guild.id
  }

  lemma AppendDistinct(prev: seq<Membership>, m: Membership)
    requires DistinctGuilds(prev)
    requires forall x :: x in prev ==> x.guild.id != m.guild.id
    ensures DistinctGuilds(prev + [m])
  {
    var ms := prev + [m];
    forall i, j | 0 <= i < j < |ms| ensures ms[i].guild.id != ms[j].guild.id {
      assert ms[i] == prev[i] && prev[i] in prev;
      if j < |prev| {
        assert ms[j] == prev[j];
      }
    }
  }

  /** The client's guilds have distinct ids, so the author's memberships are on distinct guilds. */
  lemma {:induction false} MembersOfDistinctGuilds(guilds: seq<Guild>, authorId: string)
    requires forall i, j :: 0 <= i < j < |guilds| ==> guilds[i].id != guilds[j].id
    ensures DistinctGuilds(MembersOf(guilds, authorId))
    decreases |guilds|
  {
    if guilds != [] {
      var init := guilds[..|guilds| - 1];
      var g := guilds[|guilds| - 1];
      MembersOfDistinctGuilds(init, authorId);
      var prev := MembersOf(init, authorId);
      forall x | x in prev ensures x.guild.id != g.id {
        var k :| 0 <= k < |init| && init[k] == x.guild;
        assert guilds[k] == x.guild;
      }
      var found := FindMember(g.members, authorId);
      if found.Some? {
        assert MembersOf(guilds, authorId) == prev + [Membership(g, found.value)];
        AppendDistinct(prev, Membership(g, found.value));
      }
    }
  }
}
