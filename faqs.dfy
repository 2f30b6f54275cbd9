/**
 * The `faqs` and `faq_keys` tables: an FAQ text and the keywords that
 * retrieve it. Each keyword row points at one FAQ through `faq_id`; a keyword
 * is unique (`UNIQUE(key) ON CONFLICT REPLACE`), so storing it again moves it
 * to the newer FAQ. Ids come from AUTOINCREMENT: one above the largest id the
 * table ever handed out (its `sqlite_sequence` entry, kept here as a counter).
 */
module Faqs {
  import opened Common

  /** A row of `faqs` (`created` is left out). */
  datatype Faq = Faq(id: int, text: Option<string>, createdBy: string, guild: string)

  /** A row of `faq_keys` (`created` is left out). */
  datatype FaqKey = FaqKey(id: int, key: string, faqId: Option<int>, createdBy: string, guild: string)

  /**
   * A row of `SELECT * FROM faqs AS f JOIN faq_keys AS fk`: the columns both
   * tables have (`id`, `created_by`, `guild`) come from `fk`, whose columns
   * are read last.
   */
  datatype FaqView = FaqView(id: int, text: Option<string>, createdBy: string, guild: string, key: string, faqId: Option<int>)

  function FaqId(f: Faq): int { f.id }

  function KeyRowId(k: FaqKey): int { k.id }

  function KeyText(k: FaqKey): string { k.key }

  function Joined(f: Faq, k: FaqKey): FaqView {
    FaqView(k.id, f.text, k.createdBy, k.guild, k.key, k.faqId)
  }

  /** Some keyword row points at FAQ `id`. */
  predicate Referenced(keys: seq<FaqKey>, id: int) {
    exists k :: k in keys && k.faqId == Some(id)
  }

  /** The FAQs some keyword still points at (the cleanup `LEFT JOIN ... WHERE key IS NULL`). */
  function PurgeOrphans(faqs: seq<Faq>, keys: seq<FaqKey>): seq<Faq> {
    Filter(faqs, (f: Faq) => Referenced(keys, f.id))
  }

  /** `INSERT INTO faq_keys` of `k` under `UNIQUE(key) ON CONFLICT REPLACE`. */
  function PutKey(keys: seq<FaqKey>, k: FaqKey): seq<FaqKey> {
    Filter(keys, (x: FaqKey) => x.key != k.key) + [k]
  }

  /**
   * The keyword rows after inserting `ks` one by one for FAQ `faqId`, the
   * n-th of them with id `lastId + n`.
   */
  function PutKeys(keys: seq<FaqKey>, lastId: int, ks: seq<string>, faqId: int, user: string, guild: string): seq<FaqKey>
    decreases |ks|
  {
    if ks == [] then keys
    else
      var n := |ks| - 1;
      PutKey(PutKeys(keys, lastId, ks[..n], faqId, user, guild), FaqKey(lastId + |ks|, ks[n], Some(faqId), user, guild))
  }

  /** The keyword table's own constraints: unique ids up to `lastId`, unique keywords. */
  ghost predicate KeysValid(keys: seq<FaqKey>, lastId: int) {
    && UniqueBy(keys, KeyRowId)
    && UniqueBy(keys, KeyText)
    && (forall k :: k in keys ==> 1 <= k.id <= lastId)
  }

  /**
   * Storing one keyword row with the next id: the constraints still hold,
   * the row is there, and it replaced exactly the old row of that keyword.
   */
  lemma PutKeyStep(keys: seq<FaqKey>, lastId: nat, row: FaqKey)
    requires KeysValid(keys, lastId)
    requires row.id == lastId + 1
    ensures var t := PutKey(keys, row);
      && KeysValid(t, lastId + 1)
      && row in t
      && (forall r :: r in t ==> r == row || (r in keys && r.key != row.key))
      && (forall r :: r in keys && r.key != row.key ==> r in t)
  {
    var keep := (x: FaqKey) => x.key != row.key;
    var kept := Filter(keys, keep);
    FilterKeepsUnique(keys, keep, KeyRowId);
    FilterKeepsUnique(keys, keep, KeyText);
    AppendKeepsUnique(kept, row, KeyRowId);
    AppendKeepsUnique(kept, row, KeyText);
  }

  /** Storing one more keyword appends one step to the fold. */
  lemma PutKeysSnoc(keys: seq<FaqKey>, lastId: int, ks: seq<string>, k: string, faqId: int, user: string, guild: string)
    ensures PutKeys(keys, lastId, ks + [k], faqId, user, guild)
         == PutKey(PutKeys(keys, lastId, ks, faqId, user, guild), FaqKey(lastId + |ks| + 1, k, Some(faqId), user, guild))
  {
    assert (ks + [k])[..|ks|] == ks;
  }

  /** Storing the keywords `ks` keeps the keyword table's constraints. */
  lemma {:induction false} PutKeysValid(keys: seq<FaqKey>, lastId: nat, ks: seq<string>, faqId: int, user: string, guild: string)
    requires KeysValid(keys, lastId)
    ensures KeysValid(PutKeys(keys, lastId, ks, faqId, user, guild), lastId + |ks|)
    decreases |ks|
  {
    if ks != [] {
      var n := |ks| - 1;
      PutKeysValid(keys, lastId, ks[..n], faqId, user, guild);
      PutKeyStep(PutKeys(keys, lastId, ks[..n], faqId, user, guild), lastId + n,
                 FaqKey(lastId + |ks|, ks[n], Some(faqId), user, guild));
    }
  }

  /** Each stored keyword has a row. */
  lemma {:induction false} PutKeysCover(keys: seq<FaqKey>, lastId: nat, ks: seq<string>, faqId: int, user: string, guild: string)
    requires KeysValid(keys, lastId)
    ensures var t := PutKeys(keys, lastId, ks, faqId, user, guild);
      forall k :: k in ks ==> exists r :: r in t && r.key == k
    decreases |ks|
  {
    if ks != [] {
      var n := |ks| - 1;
      var prefix := ks[..n];
      PutKeysCover(keys, lastId, prefix, faqId, user, guild);
      PutKeysValid(keys, lastId, prefix, faqId, user, guild);
      var before := PutKeys(keys, lastId, prefix, faqId, user, guild);
      var row := FaqKey(lastId + |ks|, ks[n], Some(faqId), user, guild);
      PutKeyStep(before, lastId + n, row);
      var t := PutKey(before, row);
      assert t == PutKeys(keys, lastId, ks, faqId, user, guild);
      assert ks == prefix + [ks[n]];
      forall k | k in ks ensures exists r :: r in t && r.key == k {
        if k != ks[n] {
          assert k in prefix;
          var r :| r in before && r.key == k;
          assert r in t;
        }
      }
    }
  }

  /** Every row of a stored keyword points at `faqId`. */
  lemma {:induction false} PutKeysPointAt(keys: seq<FaqKey>, lastId: nat, ks: seq<string>, faqId: int, user: string, guild: string)
    requires KeysValid(keys, lastId)
    ensures var t := PutKeys(keys, lastId, ks, faqId, user, guild);
      forall r :: r in t && r.key in ks ==> r.faqId == Some(faqId) && r.createdBy == user && r.guild == guild
    decreases |ks|
  {
    if ks != [] {
      var n := |ks| - 1;
      var prefix := ks[..n];
      PutKeysPointAt(keys, lastId, prefix, faqId, user, guild);
      PutKeysValid(keys, lastId, prefix, faqId, user, guild);
      var before := PutKeys(keys, lastId, prefix, faqId, user, guild);
      var row := FaqKey(lastId + |ks|, ks[n], Some(faqId), user, guild);
      PutKeyStep(before, lastId + n, row);
      var t := PutKey(before, row);
      assert t == PutKeys(keys, lastId, ks, faqId, user, guild);
      assert ks == prefix + [ks[n]];
      forall r | r in t && r.key in ks ensures r.faqId == Some(faqId) && r.createdBy == user && r.guild == guild {
        if r != row {
          assert r in before && r.key != ks[n];
          assert r.key in prefix;
        }
      }
    }
  }

  /** Rows of keywords not stored are kept, and no other row appears. */
  lemma {:induction false} PutKeysKeepsOthers(keys: seq<FaqKey>, lastId: nat, ks: seq<string>, faqId: int, user: string, guild: string)
    requires KeysValid(keys, lastId)
    ensures var t := PutKeys(keys, lastId, ks, faqId, user, guild);
      && (forall r :: r in keys && r.key !in ks ==> r in t)
      && (forall r :: r in t && r.key !in ks ==> r in keys)
    decreases |ks|
  {
    if ks != [] {
      var n := |ks| - 1;
      var prefix := ks[..n];
      PutKeysKeepsOthers(keys, lastId, prefix, faqId, user, guild);
      PutKeysValid(keys, lastId, prefix, faqId, user, guild);
      var before := PutKeys(keys, lastId, prefix, faqId, user, guild);
      var row := FaqKey(lastId + |ks|, ks[n], Some(faqId), user, guild);
      PutKeyStep(before, lastId + n, row);
      var t := PutKey(before, row);
      assert t == PutKeys(keys, lastId, ks, faqId, user, guild);
      assert ks == prefix + [ks[n]];
      forall r | r in keys && r.key !in ks ensures r in t {
        assert r.key !in prefix && r.key != ks[n];
        assert r in before;
      }
      forall r | r in t && r.key !in ks ensures r in keys {
        assert r.key !in prefix && r != row;
        assert r in before;
      }
    }
  }

  /**
   * Storing the keywords `ks` for FAQ `faqId`: afterwards each of them has a
   * row (exactly one, by `KeysValid`), pointing at `faqId`; rows of other
   * keywords are kept as they were and no other row appears.
   */
  lemma PutKeysEffect(keys: seq<FaqKey>, lastId: nat, ks: seq<string>, faqId: int, user: string, guild: string)
    requires KeysValid(keys, lastId)
    ensures var t := PutKeys(keys, lastId, ks, faqId, user, guild);
      && (forall k :: k in ks ==> exists r :: r in t && r.key == k)
      && (forall r :: r in t && r.key in ks ==> r.faqId == Some(faqId) && r.createdBy == user && r.guild == guild)
      && (forall r :: r in keys && r.key !in ks ==> r in t)
      && (forall r :: r in t && r.key !in ks ==> r in keys)
  {
    PutKeysCover(keys, lastId, ks, faqId, user, guild);
    PutKeysPointAt(keys, lastId, ks, faqId, user, guild);
    PutKeysKeepsOthers(keys, lastId, ks, faqId, user, guild);
  }

  /** The FAQ with id `id`, if any. */
  function FaqById(faqs: seq<Faq>, id: Option<int>): (r: Option<Faq>)
    ensures r.Some? ==> r.value in faqs && id == Some(r.value.id)
    ensures r.None? ==> forall f :: f in faqs ==> id != Some(f.id)
  {
    if faqs == [] then None
    else if id == Some(faqs[0].id) then Some(faqs[0])
    else
      assert forall f :: f in faqs ==> f == faqs[0] || f in faqs[1..];
      FaqById(faqs[1..], id)
  }

  /** The join of the two tables, restricted to the keyword rows `where` selects. */
  function JoinWhere(faqs: seq<Faq>, keys: seq<FaqKey>, where: FaqKey -> bool): (r: seq<FaqView>)
    requires UniqueBy(faqs, FaqId)
    ensures forall v :: v in r <==>
      exists f, k :: f in faqs && k in keys && where(k) && k.faqId == Some(f.id) && v == Joined(f, k)
  {
    if keys == [] then []
    else
      var rest := JoinWhere(faqs, keys[1..], where);
      var k := keys[0];
      var found := FaqById(faqs, k.faqId);
      assert forall x :: x in keys <==> x == k || x in keys[1..];
      assert forall f :: f in faqs && k.faqId == Some(f.id) ==> found == Some(f) by {
        forall f | f in faqs && k.faqId == Some(f.id) ensures found == Some(f) {
          var i :| 0 <= i < |faqs| && faqs[i] == f;
          var j :| 0 <= j < |faqs| && faqs[j] == found.value;
          assert FaqId(faqs[i]) == FaqId(faqs[j]);
        }
      }
      (if where(k) && found.Some? then [Joined(found.value, k)] else []) + rest
  }

  /** A keyword of `guild` with that text. */
  predicate KeyInGuild(k: FaqKey, key: string, guild: string) {
    k.key == key && k.guild == guild
  }

  /** The keyword rows not matching (key, guild). */
  function WithoutKeyInGuild(keys: seq<FaqKey>, key: string, guild: string): seq<FaqKey> {
    Filter(keys, (k: FaqKey) => !KeyInGuild(k, key, guild))
  }

  /**
   * `SELECT * FROM faqs AS f JOIN faq_keys AS fk ON f.id = fk.faq_id
   * WHERE fk.key = ? AND fk.guild = ?` read with `.get()`: a joined row
   * for the keyword (key, guild), or nothing when there is none.
   */
  function LookupFaq(faqs: seq<Faq>, keys: seq<FaqKey>, key: string, guild: string): (r: Option<FaqView>)
    requires UniqueBy(faqs, FaqId)
    ensures r.Some? <==> exists f, k :: f in faqs && k in keys && KeyInGuild(k, key, guild) && k.faqId == Some(f.id)
    ensures r.Some? ==> exists f, k :: f in faqs && k in keys && KeyInGuild(k, key, guild) && k.faqId == Some(f.id)
                                      && r.value == Joined(f, k)
  {
    var found := JoinWhere(faqs, keys, (k: FaqKey) => KeyInGuild(k, key, guild));
    if found == [] then
      assert forall f, k :: (f in faqs && k in keys && KeyInGuild(k, key, guild) && k.faqId == Some(f.id)
        ==> Joined(f, k) in found);
      None
    else
      assert found[0] in found;
      Some(found[0])
  }

  /** The same join restricted to `fk.guild = ?`, read with `.all()`. */
  function GuildFaqs(faqs: seq<Faq>, keys: seq<FaqKey>, guild: string): (r: seq<FaqView>)
    requires UniqueBy(faqs, FaqId)
    ensures forall v :: v in r <==>
      exists f, k :: f in faqs && k in keys && k.guild == guild && k.faqId == Some(f.id) && v == Joined(f, k)
  {
    JoinWhere(faqs, keys, (k: FaqKey) => k.guild == guild)
  }

  /** Every keyword row points at an existing FAQ (`FOREIGN KEY(faq_id) REFERENCES faqs(id)`). */
  ghost predicate ForeignKeysHold(faqs: seq<Faq>, keys: seq<FaqKey>) {
    forall k :: k in keys && k.faqId.Some? ==> exists f :: f in faqs && f.id == k.faqId.value
  }

  /**
   * The `keys.forEach(k => stmt.run(...))` loop of `storeFAQ`: inserts one
   * keyword row per key, each under the next AUTOINCREMENT id.
   */
  method InsertKeyRows(keys: seq<FaqKey>, keySeq: nat, keyList: seq<string>, faqId: int, user: string, guild: string)
    returns (keys': seq<FaqKey>, keySeq': nat)
    ensures keys' == PutKeys(keys, keySeq, keyList, faqId, user, guild)
    ensures keySeq' == keySeq + |keyList|
  {
    keys', keySeq' := keys, keySeq;
    var i := 0;
    while i < |keyList|
      invariant 0 <= i <= |keyList|
      invariant keySeq' == keySeq + i
      invariant keys' == PutKeys(keys, keySeq, keyList[..i], faqId, user, guild)
    {
      assert keyList[..i + 1] == keyList[..i] + [keyList[i]];
      PutKeysSnoc(keys, keySeq, keyList[..i], keyList[i], faqId, user, guild);
      keySeq' := keySeq' + 1;
      keys' := PutKey(keys', FaqKey(keySeq', keyList[i], Some(faqId), user, guild));
      i := i + 1;
    }
    assert keyList[..i] == keyList;
  }

  /** A new FAQ with its keywords leaves every keyword pointing at an existing FAQ. */
  lemma StoreKeepsForeignKeys(faqs: seq<Faq>, keys: seq<FaqKey>, lastId: nat, ks: seq<string>, f: Faq, user: string, guild: string)
    requires ForeignKeysHold(faqs, keys)
    requires KeysValid(keys, lastId)
    ensures ForeignKeysHold(faqs + [f], PutKeys(keys, lastId, ks, f.id, user, guild))
  {
    var t := PutKeys(keys, lastId, ks, f.id, user, guild);
    PutKeysEffect(keys, lastId, ks, f.id, user, guild);
    forall k | k in t && k.faqId.Some? ensures exists g :: g in faqs + [f] && g.id == k.faqId.value {
      if k.key in ks {
        assert f in faqs + [f];
      } else {
        var g :| g in faqs && g.id == k.faqId.value;
        assert g in faqs + [f];
      }
    }
  }

  /** The tables as `src/DB.ts` declares them, with foreign keys enforced. */
  class FaqStore {
    var faqs: seq<Faq>
    var keys: seq<FaqKey>
    var faqSeq: nat
    var keySeq: nat

    ghost predicate Valid()
      reads this
    {
      && UniqueBy(faqs, FaqId)
      && (forall f :: f in faqs ==> 1 <= f.id <= faqSeq)
      && KeysValid(keys, keySeq)
      && ForeignKeysHold(faqs, keys)
    }

    constructor ()
      ensures Valid() && faqs == [] && keys == []
    {
      faqs, keys, faqSeq, keySeq := [], [], 0, 0;
    }

    /**
     * `storeFAQ`: inserts the FAQ under a fresh id and one keyword row per
     * key, all pointing at it; returns the new id.
     */
    method StoreFAQ(user: string, guild: string, keyList: seq<string>, text: string) returns (id: int)
      requires Valid()
      modifies this
      ensures Valid()
      ensures id == old(faqSeq) + 1 && faqSeq == id
      ensures faqs == old(faqs) + [Faq(id, Some(text), user, guild)]
      ensures keys == PutKeys(old(keys), old(keySeq), keyList, id, user, guild)
      ensures keySeq == old(keySeq) + |keyList|
    {
      faqSeq := faqSeq + 1;
      id := faqSeq;
      AppendKeepsUnique(faqs, Faq(id, Some(text), user, guild), FaqId);
      faqs := faqs + [Faq(id, Some(text), user, guild)];
      keys, keySeq := InsertKeyRows(keys, keySeq, keyList, id, user, guild);
      PutKeysValid(old(keys), old(keySeq), keyList, id, user, guild);
      StoreKeepsForeignKeys(old(faqs), old(keys), old(keySeq), keyList, Faq(id, Some(text), user, guild), user, guild);
    }

    /**
     * `deleteFAQ`: removes the keyword rows for (key, guild), then every FAQ
     * no keyword points at; true iff a keyword row was removed.
     */
    method DeleteFAQ(key: string, guild: string) returns (changed: bool)
      requires Valid()
      modifies this
      ensures Valid()
      ensures keys == WithoutKeyInGuild(old(keys), key, guild)
      ensures faqs == PurgeOrphans(old(faqs), keys)
      ensures forall f :: f in faqs ==> Referenced(keys, f.id)
      ensures changed <==> exists k :: k in old(keys) && KeyInGuild(k, key, guild)
      ensures faqSeq == old(faqSeq) && keySeq == old(keySeq)
    {
      var keep := (k: FaqKey) => !KeyInGuild(k, key, guild);
      FilterKeepsUnique(keys, keep, KeyRowId);
      FilterKeepsUnique(keys, keep, KeyText);
      var before := |keys|;
      keys := WithoutKeyInGuild(keys, key, guild);
      var changes := before - |keys|;
      var remaining := keys;
      FilterKeepsUnique(faqs, (f: Faq) => Referenced(remaining, f.id), FaqId);
      faqs := PurgeOrphans(faqs, keys);
      changed := changes > 0;
    }

    /** `getFAQ`: the FAQ the keyword (key, guild) points at, if there is one. */
    function GetFAQ(key: string, guild: string): (r: Option<FaqView>)
      requires Valid()
      reads this
      ensures r.Some? <==> exists f, k :: f in faqs && k in keys && KeyInGuild(k, key, guild) && k.faqId == Some(f.id)
      ensures r.Some? ==> exists f, k :: f in faqs && k in keys && KeyInGuild(k, key, guild) && k.faqId == Some(f.id)
                                        && r.value == Joined(f, k)
    {
      LookupFaq(faqs, keys, key, guild)
    }

    /** `getFAQs`: every (FAQ, keyword) pair of the guild. */
    function GetFAQs(guild: string): (r: seq<FaqView>)
      requires Valid()
      reads this
      ensures forall v :: v in r <==>
        exists f, k :: f in faqs && k in keys && k.guild == guild && k.faqId == Some(f.id) && v == Joined(f, k)
    {
      GuildFaqs(faqs, keys, guild)
    }
  }
}
