/**
 * Country records and their translation bucket. A record is a Ruby hash of attributes;
 * the engine only ever touches two keys of it: 'translations' (a `Translations` hash,
 * insertion ordered, locale => translated name or nil) and 'translated_names' (the
 * array `translations.values`, a derived view).
 */
module Translations {
  import opened Outcomes
  import opened Locales

  /** An attribute value as parsed from the bundled JSON or passed to `register`. */
  datatype Value =
    | VNull
    | VBool(b: bool)
    | VInt(i: int)
    | VStr(s: string)
    | VList(items: seq<Value>)
    | VDict(entries: map<string, Value>)

  /** An insertion-ordered hash from locale to translated name (nil allowed). */
  type Translations = seq<(string, Option<string>)>

  /**
   * One country record: its other attributes, its 'translations' key (absent or nil is
   * `None`) and its 'translated_names' key.
   */
  datatype Record = Record(
    attrs: map<string, Value>,
    translations: Option<Translations>,
    translatedNames: Option<seq<Option<string>>>)

  /** `translations.keys`. */
  function Keys(t: Translations): (r: seq<string>)
    ensures |r| == |t|
    ensures forall i :: 0 <= i < |t| ==> r[i] == t[i].0
  {
    if t == [] then [] else [t[0].0] + Keys(t[1..])
  }

  /** `translations.values`, in insertion order. */
  function Values(t: Translations): (r: seq<Option<string>>)
    ensures |r| == |t|
    ensures forall i :: 0 <= i < |t| ==> r[i] == t[i].1
  {
    if t == [] then [] else [t[0].1] + Values(t[1..])
  }

  /** A hash never holds a key twice. */
  predicate KeysDistinct(t: Translations) {
    Distinct(Keys(t))
  }

  /** `translations.key?(l) ? Some(translations[l]) : None`. */
  function Get(t: Translations, l: string): (r: Option<Option<string>>)
    ensures r.Some? <==> l in Keys(t)
  {
    if t == [] then None
    else if t[0].0 == l then Some(t[0].1)
    else Get(t[1..], l)
  }

  /**
   * `translations[l] = v`: an existing key keeps its position and takes the new
   * value, a new key goes at the end.
   */
  function Put(t: Translations, l: string, v: Option<string>): (r: Translations)
    ensures Get(r, l) == Some(v)
  {
    if t == [] then [(l, v)]
    else if t[0].0 == l then [(l, v)] + t[1..]
    else [t[0]] + Put(t[1..], l, v)
  }

  /** Storing under an existing key keeps the key order; a new key goes at the end. */
  lemma {:induction false} PutKeys(t: Translations, l: string, v: Option<string>)
    ensures l in Keys(t) ==> Keys(Put(t, l, v)) == Keys(t)
    ensures l !in Keys(t) ==> Keys(Put(t, l, v)) == Keys(t) + [l]
  {
    if t != [] {
      var r := Put(t, l, v);
      if t[0].0 == l {
        assert r[1..] == t[1..];
      } else {
        PutKeys(t[1..], l, v);
        assert r[1..] == Put(t[1..], l, v);
        assert Keys(t)[1..] == Keys(t[1..]);
      }
    }
  }

  /** Storing under a key keeps the hash free of duplicate keys. */
  lemma PutKeepsDistinct(t: Translations, l: string, v: Option<string>)
    ensures KeysDistinct(t) ==> KeysDistinct(Put(t, l, v))
  {
    PutKeys(t, l, v);
    var ks := Keys(t);
    if l !in ks && KeysDistinct(t) {
      forall i, j | 0 <= i < j < |ks| + 1 ensures (ks + [l])[i] != (ks + [l])[j] {
        if j == |ks| {
          assert ks[i] in ks;
        }
      }
    }
  }

  /** `translations.delete(l)`: the entry for `l` goes, every other entry stays in order. */
  function Delete(t: Translations, l: string): (r: Translations)
    ensures Get(r, l) == None
  {
    if t == [] then []
    else if t[0].0 == l then Delete(t[1..], l)
    else [t[0]] + Delete(t[1..], l)
  }

  /** Deleting drops exactly that key from the key order, and keeps the hash free of duplicate keys. */
  lemma {:induction false} DeleteKeys(t: Translations, l: string)
    ensures Keys(Delete(t, l)) == Minus(Keys(t), {l})
    ensures KeysDistinct(t) ==> KeysDistinct(Delete(t, l))
  {
    if t != [] {
      DeleteKeys(t[1..], l);
      assert Keys(t)[1..] == Keys(t[1..]);
    }
  }

  /** Deleting a key that was just added restores the hash (the key was new). */
  lemma {:induction false} DeleteUndoesPut(t: Translations, l: string, v: Option<string>)
    requires l !in Keys(t)
    ensures Delete(Put(t, l, v), l) == t
  {
    if t != [] {
      assert t[0].0 != l;
      assert Keys(t)[1..] == Keys(t[1..]);
      DeleteUndoesPut(t[1..], l, v);
    }
  }

  /** Storing the same value twice is storing it once. */
  lemma {:induction false} PutTwice(t: Translations, l: string, v: Option<string>)
    ensures Put(Put(t, l, v), l, v) == Put(t, l, v)
  {
    if t != [] && t[0].0 != l {
      PutTwice(t[1..], l, v);
    }
  }

  /** Storing under `l` leaves every other locale's entry as it was. */
  lemma {:induction false} PutOther(t: Translations, l: string, v: Option<string>, k: string)
    requires k != l
    ensures Get(Put(t, l, v), k) == Get(t, k)
  {
    if t != [] && t[0].0 != l {
      PutOther(t[1..], l, v, k);
    }
  }

  /** Deleting `l` leaves every other locale's entry as it was. */
  lemma {:induction false} DeleteOther(t: Translations, l: string, k: string)
    requires k != l
    ensures Get(Delete(t, l), k) == Get(t, k)
  {
    if t != [] {
      DeleteOther(t[1..], l, k);
    }
  }

  /** The translations of a record, an absent or nil bucket read as empty (`||= Translations.new`). */
  function TranslationsOf(rec: Record): Translations {
    rec.translations.GetOr([])
  }

  /** 'translated_names' is present and equals `translations.values`. */
  predicate NamesCurrent(rec: Record) {
    rec.translations.Some? && rec.translatedNames == Some(Values(rec.translations.value))
  }

  /**
   * What every cached record satisfies: its bucket is a hash (no key twice), and its
   * 'translated_names', when present, is the current view of that bucket.
   */
  predicate RecordOk(rec: Record) {
    (rec.translations.Some? ==> KeysDistinct(rec.translations.value)) &&
    (rec.translatedNames.Some? ==> NamesCurrent(rec))
  }

  /**
   * One iteration of `load_translations` on one record (lib/countries/data.rb:135-137):
   * create the bucket if missing, store the locale's name, recompute the view.
   */
  function WithTranslation(rec: Record, l: string, v: Option<string>): (r: Record)
    ensures r.attrs == rec.attrs && r.translations.Some?
    ensures NamesCurrent(r)
    ensures Get(TranslationsOf(r), l) == Some(v)
  {
    var t := Put(TranslationsOf(rec), l, v);
    rec.(translations := Some(t), translatedNames := Some(Values(t)))
  }

  /**
   * One iteration of `unload_translations` on one record (lib/countries/data.rb:144-145):
   * drop the locale's entry, recompute the view. Ruby raises on a nil bucket, hence the requires.
   */
  function WithoutTranslation(rec: Record, l: string): (r: Record)
    requires rec.translations.Some?
    ensures r.attrs == rec.attrs && r.translations.Some?
    ensures NamesCurrent(r)
    ensures Get(TranslationsOf(r), l) == None
  {
    var t := Delete(rec.translations.value, l);
    rec.(translations := Some(t), translatedNames := Some(Values(t)))
  }

  /** A load step keeps a well-formed record well formed. */
  lemma WithTranslationKeepsOk(rec: Record, l: string, v: Option<string>)
    requires RecordOk(rec)
    ensures RecordOk(WithTranslation(rec, l, v))
  {
    PutKeepsDistinct(TranslationsOf(rec), l, v);
  }

  /** An unload step keeps a well-formed record well formed. */
  lemma WithoutTranslationKeepsOk(rec: Record, l: string)
    requires rec.translations.Some? && RecordOk(rec)
    ensures RecordOk(WithoutTranslation(rec, l))
  {
    DeleteKeys(rec.translations.value, l);
  }

  /** Loading `l` leaves every other locale of the record as it was. */
  lemma WithTranslationOther(rec: Record, l: string, v: Option<string>, k: string)
    requires k != l
    ensures Get(TranslationsOf(WithTranslation(rec, l, v)), k) == Get(TranslationsOf(rec), k)
  {
    PutOther(TranslationsOf(rec), l, v, k);
  }

  /** Unloading `l` leaves every other locale of the record as it was. */
  lemma WithoutTranslationOther(rec: Record, l: string, k: string)
    requires rec.translations.Some? && k != l
    ensures Get(TranslationsOf(WithoutTranslation(rec, l)), k) == Get(TranslationsOf(rec), k)
  {
    DeleteOther(rec.translations.value, l, k);
  }

  /** Unloading a locale that a load just added gives the record its old bucket back. */
  lemma UnloadUndoesLoad(rec: Record, l: string, v: Option<string>)
    requires rec.translations.Some? && l !in Keys(rec.translations.value)
    ensures WithoutTranslation(WithTranslation(rec, l, v), l).translations == rec.translations
  {
    DeleteUndoesPut(rec.translations.value, l, v);
  }

  /** Loading the same locale twice with the same file leaves the record as one load does. */
  lemma LoadIdempotent(rec: Record, l: string, v: Option<string>)
    ensures WithTranslation(WithTranslation(rec, l, v), l, v) == WithTranslation(rec, l, v)
  {
    PutTwice(TranslationsOf(rec), l, v);
  }
}
