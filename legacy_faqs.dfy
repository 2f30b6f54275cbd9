/**
 * The FAQ tables as the older `src/DB.js` declares and uses them. Two things
 * differ from `src/DB.ts`: `faqs` has `UNIQUE(text) ON CONFLICT REPLACE`, so
 * storing an FAQ with a text already present deletes that FAQ and inserts the
 * new one under a fresh id; and the connection never sets the
 * `foreign_keys` pragma, so whether that deletion cascades through
 * `ON DELETE CASCADE` to the replaced FAQ's keyword rows depends on the
 * default the SQLite library was built with. The store models both: with
 * foreign keys off, keyword rows of the replaced FAQ that are not stored
 * again keep pointing at an id that no longer exists; with them on, they are
 * deleted together with it. `deleteFAQ` ignores the guild and runs its two
 * statements as two separate transactions.
 */
module LegacyFaqs {
  import opened Common
  import opened Faqs

  /** The value the `UNIQUE(text)` index compares: NULL texts never clash. */
  datatype TextSlot = Text(text: string) | NullText(id: int)

  function TextKey(f: Faq): TextSlot {
    if f.text.Some? then Text(f.text.value) else NullText(f.id)
  }

  /** `INSERT INTO faqs` of `f` under `UNIQUE(text) ON CONFLICT REPLACE`. */
  function InsertFaq(faqs: seq<Faq>, f: Faq): seq<Faq> {
    Filter(faqs, (x: Faq) => TextKey(x) != TextKey(f)) + [f]
  }

  /** The FAQs the insert of `f` deletes: those with its text. */
  function Replaced(faqs: seq<Faq>, f: Faq): seq<Faq> {
    Filter(faqs, (x: Faq) => TextKey(x) == TextKey(f))
  }

  /** `ON DELETE CASCADE`: the keyword rows left once the FAQs `removed` are deleted. */
  function Cascade(keys: seq<FaqKey>, removed: seq<Faq>): seq<FaqKey> {
    Filter(keys, (k: FaqKey) => forall x :: x in removed ==> k.faqId != Some(x.id))
  }

  /** The keyword rows left after `DELETE FROM faq_keys WHERE key = ?`. */
  function WithoutKeyword(keys: seq<FaqKey>, key: string): seq<FaqKey> {
    Filter(keys, (k: FaqKey) => k.key != key)
  }

  /**
   * Inserting an FAQ under a fresh id: the constraints still hold, the new
   * FAQ is the only one with its text, FAQs with other texts are kept, and
   * nothing else appears.
   */
  lemma InsertFaqReplacesText(faqs: seq<Faq>, f: Faq)
    requires UniqueBy(faqs, FaqId) && UniqueBy(faqs, TextKey)
    requires f.text.Some?
    requires forall x :: x in faqs ==> x.id < f.id
    ensures var t := InsertFaq(faqs, f);
      && UniqueBy(t, FaqId) && UniqueBy(t, TextKey)
      && f in t
      && (forall x :: x in t && x.text == f.text ==> x == f)
      && (forall x :: x in faqs && x.text != f.text ==> x in t)
      && (forall x :: x in t ==> x == f || (x in faqs && x.text != f.text))
  {
    var keep := (x: Faq) => TextKey(x) != TextKey(f);
    var kept := Filter(faqs, keep);
    FilterKeepsUnique(faqs, keep, FaqId);
    FilterKeepsUnique(faqs, keep, TextKey);
    AppendKeepsUnique(kept, f, FaqId);
    AppendKeepsUnique(kept, f, TextKey);
  }

  /**
   * With foreign keys not enforced, a keyword that `storeFAQ` did not store
   * again keeps pointing at the FAQ it pointed at, even when that FAQ was
   * just replaced: after the store it no longer joins with any FAQ.
   */
  lemma ReplacedFaqLeavesDanglingKeys(faqs: seq<Faq>, keys: seq<FaqKey>, keySeq: nat, f: Faq,
                                      ks: seq<string>, user: string, guild: string, k: FaqKey)
    requires UniqueBy(faqs, FaqId) && UniqueBy(faqs, TextKey) && KeysValid(keys, keySeq)
    requires f.text.Some?
    requires forall x :: x in faqs ==> x.id < f.id
    requires k in keys && k.key !in ks
    requires exists prev :: prev in faqs && prev.text == f.text && k.faqId == Some(prev.id)
    ensures k in PutKeys(keys, keySeq, ks, f.id, user, guild)
    ensures forall x :: x in InsertFaq(faqs, f) ==> k.faqId != Some(x.id)
  {
    PutKeysEffect(keys, keySeq, ks, f.id, user, guild);
    InsertFaqReplacesText(faqs, f);
    var prev :| prev in faqs && prev.text == f.text && k.faqId == Some(prev.id);
    forall x | x in InsertFaq(faqs, f) ensures k.faqId != Some(x.id) {
      if x != f {
        var i :| 0 <= i < |faqs| && faqs[i] == x;
        var j :| 0 <= j < |faqs| && faqs[j] == prev;
        assert i != j;
        assert FaqId(faqs[i]) != FaqId(faqs[j]);
      }
    }
  }

  /** The cascade keeps the keyword table's constraints. */
  lemma CascadeKeysValid(keys: seq<FaqKey>, lastId: nat, removed: seq<Faq>)
    requires KeysValid(keys, lastId)
    ensures KeysValid(Cascade(keys, removed), lastId)
  {
    var keep := (k: FaqKey) => forall x :: x in removed ==> k.faqId != Some(x.id);
    FilterKeepsUnique(keys, keep, KeyRowId);
    FilterKeepsUnique(keys, keep, KeyText);
  }

  /**
   * With foreign keys enforced, replacing an FAQ by text deletes its keyword
   * rows along with it: after the store no keyword points at the replaced
   * FAQ, and every keyword still points at an FAQ that exists.
   */
  lemma ReplacedFaqCascades(faqs: seq<Faq>, keys: seq<FaqKey>, keySeq: nat, f: Faq,
                            ks: seq<string>, user: string, guild: string)
    requires UniqueBy(faqs, FaqId) && UniqueBy(faqs, TextKey) && KeysValid(keys, keySeq)
    requires ForeignKeysHold(faqs, keys)
    requires f.text.Some?
    requires forall x :: x in faqs ==> x.id < f.id
    ensures var t := PutKeys(Cascade(keys, Replaced(faqs, f)), keySeq, ks, f.id, user, guild);
      && KeysValid(t, keySeq + |ks|)
      && ForeignKeysHold(InsertFaq(faqs, f), t)
      && forall k, prev :: k in t && prev in faqs && prev.text == f.text ==> k.faqId != Some(prev.id)
  {
    var removed := Replaced(faqs, f);
    var cascaded := Cascade(keys, removed);
    var keep := (x: Faq) => TextKey(x) != TextKey(f);
    var kept := Filter(faqs, keep);
    assert InsertFaq(faqs, f) == kept + [f];
    CascadeKeysValid(keys, keySeq, removed);
    PutKeysValid(cascaded, keySeq, ks, f.id, user, guild);
    forall k | k in cascaded && k.faqId.Some? ensures exists x :: x in kept && x.id == k.faqId.value {
      var x :| x in faqs && x.id == k.faqId.value;
      assert x !in removed;
      assert TextKey(x) != TextKey(f);
    }
    assert ForeignKeysHold(kept, cascaded);
    StoreKeepsForeignKeys(kept, cascaded, keySeq, ks, f, user, guild);
    var t := PutKeys(cascaded, keySeq, ks, f.id, user, guild);
    PutKeysEffect(cascaded, keySeq, ks, f.id, user, guild);
    forall k, prev | k in t && prev in faqs && prev.text == f.text ensures k.faqId != Some(prev.id) {
      assert prev.id < f.id;
      if k.key !in ks {
        assert k in cascaded;
        assert prev in removed;
      }
    }
  }

  class LegacyFaqStore {
    /** Whether the SQLite build enforces foreign keys by default; the code never sets the pragma. */
    const foreignKeys: bool
    var faqs: seq<Faq>
    var keys: seq<FaqKey>
    var faqSeq: nat
    var keySeq: nat

    ghost predicate Valid()
      reads this
    {
      && UniqueBy(faqs, FaqId)
      && UniqueBy(faqs, TextKey)
      && (forall f :: f in faqs ==> 1 <= f.id <= faqSeq)
      && KeysValid(keys, keySeq)
      && (foreignKeys ==> ForeignKeysHold(faqs, keys))
    }

    constructor (foreignKeys: bool)
      ensures Valid() && faqs == [] && keys == [] && this.foreignKeys == foreignKeys
    {
      this.foreignKeys := foreignKeys;
      faqs, keys, faqSeq, keySeq := [], [], 0, 0;
    }

    /**
     * `storeFAQ`: inserts the FAQ under a fresh id, replacing any FAQ with
     * the same text (and, with foreign keys enforced, deleting that FAQ's
     * keyword rows with it), then one keyword row per key pointing at it;
     * returns the new id.
     */
    method StoreFAQ(user: string, guild: string, keyList: seq<string>, text: string) returns (id: int)
      requires Valid()
      modifies this
      ensures Valid()
      ensures id == old(faqSeq) + 1 && faqSeq == id
      ensures faqs == InsertFaq(old(faqs), Faq(id, Some(text), user, guild))
      ensures !foreignKeys ==> keys == PutKeys(old(keys), old(keySeq), keyList, id, user, guild)
      ensures foreignKeys ==>
        keys == PutKeys(Cascade(old(keys), Replaced(old(faqs), Faq(id, Some(text), user, guild))), old(keySeq), keyList, id, user, guild)
      ensures keySeq == old(keySeq) + |keyList|
    {
      faqSeq := faqSeq + 1;
      id := faqSeq;
      var f := Faq(id, Some(text), user, guild);
      InsertFaqReplacesText(faqs, f);
      if foreignKeys {
        ReplacedFaqCascades(faqs, keys, keySeq, f, keyList, user, guild);
        keys := Cascade(keys, Replaced(faqs, f));
      } else {
        PutKeysValid(keys, keySeq, keyList, id, user, guild);
      }
      faqs := InsertFaq(faqs, f);
      keys, keySeq := InsertKeyRows(keys, keySeq, keyList, id, user, guild);
    }

    /**
     * `deleteFAQ`: removes the keyword row for `key` in whatever guild, then,
     * in a second transaction, every FAQ no keyword points at. Returns nothing.
     */
    method DeleteFAQ(key: string)
      requires Valid()
      modifies this
      ensures Valid()
      ensures keys == WithoutKeyword(old(keys), key)
      ensures forall k :: k in keys ==> k.key != key
      ensures faqs == PurgeOrphans(old(faqs), keys)
      ensures faqSeq == old(faqSeq) && keySeq == old(keySeq)
    {
      var keep := (k: FaqKey) => k.key != key;
      FilterKeepsUnique(keys, keep, KeyRowId);
      FilterKeepsUnique(keys, keep, KeyText);
      keys := WithoutKeyword(keys, key);
      var remaining := keys;
      FilterKeepsUnique(faqs, (f: Faq) => Referenced(remaining, f.id), FaqId);
      FilterKeepsUnique(faqs, (f: Faq) => Referenced(remaining, f.id), TextKey);
      ghost var before := faqs;
      faqs := PurgeOrphans(faqs, keys);
      forall k | foreignKeys && k in keys && k.faqId.Some? ensures exists f :: f in faqs && f.id == k.faqId.value {
        var f :| f in before && f.id == k.faqId.value;
        assert Referenced(keys, f.id);
      }
    }

    /** `getFAQ`: the same query as in `src/DB.ts`. */
    function GetFAQ(key: string, guild: string): (r: Option<FaqView>)
      requires Valid()
      reads this
      ensures r.Some? <==> exists f, k :: f in faqs && k in keys && KeyInGuild(k, key, guild) && k.faqId == Some(f.id)
      ensures r.Some? ==> exists f, k :: f in faqs && k in keys && KeyInGuild(k, key, guild) && k.faqId == Some(f.id)
                                        && r.value == Joined(f, k)
    {
      LookupFaq(faqs, keys, key, guild)
    }

    /** `getFAQs`: the same query as in `src/DB.ts`. */
    function GetFAQs(guild: string): (r: seq<FaqView>)
      requires Valid()
      reads this
      ensures forall v :: v in r <==>
        exists f, k :: f in faqs && k in keys && k.guild == guild && k.faqId == Some(f.id) && v == Joined(f, k)
    {
      GuildFaqs(faqs, keys, guild)
    }
  }
}
