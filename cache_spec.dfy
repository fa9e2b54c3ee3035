/**
 * The country cache as values: the bundled files the engine reads, the effect of
 * loading or unloading one locale on the whole cache, and the effect of a full
 * `update_cache` (load the base data if needed, then synchronise the locales).
 * The `Store` class in store.dfy is proved against these functions.
 */
module CacheSpec {
  import opened Outcomes
  import opened Locales
  import opened Translations

  /** The exceptions the engine can raise, as values. */
  datatype Error =
    | NoRecord(code: string)        // `@@cache[alpha2]` is nil: NoMethodError on `nil['translations']`
    | NoTranslations(code: string)  // the record has no bucket: NoMethodError on `nil.delete`
    | CodesUndefined                // `@@_country_codes` read before the first `load_data!`: NameError
    | BadAlpha2                     // `data[:alpha2]` is not a string: NoMethodError on `upcase`

  /**
   * The bundled files, as `load_cache` (lib/countries/data.rb:150-153) would read them.
   * A missing `countries.json` is an empty `countries`; a missing `locales/<l>.json` is
   * a locale absent from `localeNames`; `localeCatalog` is what the locale-definition
   * file glob (lib/countries/data.rb:159-169) finds.
   */
  datatype DataFiles = DataFiles(
    countryCodes: seq<string>,
    countries: map<string, Record>,
    localeNames: map<string, map<string, string>>,
    localeCatalog: seq<string>)

  /** `countryCodes` are the keys of countries.json in file order; the records are well formed. */
  predicate FilesOk(f: DataFiles) {
    Distinct(f.countryCodes) && Elems(f.countryCodes) == f.countries.Keys &&
    forall c :: c in f.countries ==> RecordOk(f.countries[c])
  }

  /** `load_cache(['locales', "#{l}.json"])[c]`: nil when the file or the entry is missing. */
  function NameFor(f: DataFiles, l: string, c: string): Option<string> {
    if l in f.localeNames && c in f.localeNames[l] then Some(f.localeNames[l][c]) else None
  }

  /**
   * `load_data!` on the cache (lib/countries/data.rb:76-83): a non-empty cache is kept as it is;
   * an empty one becomes countries.json merged with the registered records, which win.
   */
  function BaseCache(cache: map<string, Record>, registered: map<string, Record>, f: DataFiles): (r: map<string, Record>)
    ensures cache != map[] ==> r == cache
    ensures cache == map[] ==> r.Keys == f.countries.Keys + registered.Keys
    ensures cache == map[] ==> forall c :: c in registered ==> r[c] == registered[c]
    ensures cache == map[] ==> forall c :: c in f.countries && c !in registered ==> r[c] == f.countries[c]
  {
    if cache == map[] then f.countries + registered else cache
  }

  /** `@@_country_codes` after `load_data!`: set from countries.json only when the cache was empty. */
  function BaseCodes(cache: map<string, Record>, codes: Option<seq<string>>, f: DataFiles): Option<seq<string>> {
    if cache == map[] then Some(f.countryCodes) else codes
  }

  /** `internal_codes` (lib/countries/data.rb:108-110): bundled codes that are not registered. */
  function InternalCodesOf(codes: seq<string>, registered: map<string, Record>): (r: seq<string>)
    ensures forall c :: c in r <==> c in codes && c !in registered
    ensures Distinct(codes) ==> Distinct(r)
  {
    Minus(codes, registered.Keys)
  }

  /** What would make a step on code `c` raise: no record, or (for an unload) no bucket. */
  function Problem(cache: map<string, Record>, c: string, needBucket: bool): Option<Error> {
    if c !in cache then Some(NoRecord(c))
    else if needBucket && cache[c].translations.None? then Some(NoTranslations(c))
    else None
  }

  /** None of the first `k` codes would make a step raise. */
  predicate ReadyUpTo(cache: map<string, Record>, codes: seq<string>, k: nat, needBucket: bool)
    requires k <= |codes|
  {
    forall j :: 0 <= j < k ==> Problem(cache, codes[j], needBucket) == None
  }

  /** Every code has a record (and a bucket, when `needBucket`): a pass over `codes` cannot raise. */
  predicate Ready(cache: map<string, Record>, codes: seq<string>, needBucket: bool) {
    ReadyUpTo(cache, codes, |codes|, needBucket)
  }

  /** One iteration of the load loop, on code `c`: its record gets the locale's name. */
  function LoadStep(p: map<string, Record>, c: string, l: string, f: DataFiles): (r: map<string, Record>)
    ensures r.Keys == p.Keys
    ensures forall k :: k in p && k != c ==> r[k] == p[k]
    ensures c in p ==> r[c] == WithTranslation(p[c], l, NameFor(f, l, c))
  {
    if c in p then p[c := WithTranslation(p[c], l, NameFor(f, l, c))] else p
  }

  /** One iteration of the unload loop, on code `c`: its record loses the locale. */
  function UnloadStep(p: map<string, Record>, c: string, l: string): (r: map<string, Record>)
    ensures r.Keys == p.Keys
    ensures forall k :: k in p && k != c ==> r[k] == p[k]
    ensures c in p ==> r[c] == if p[c].translations.Some? then WithoutTranslation(p[c], l) else p[c]
  {
    if c in p && p[c].translations.Some? then p[c := WithoutTranslation(p[c], l)] else p
  }

  /**
   * The loop of `load_translations(l)` (lib/countries/data.rb:134-138) after its first `i`
   * iterations: each internal record gets the locale's name and a fresh 'translated_names'.
   */
  function LoadedPrefix(before: map<string, Record>, codes: seq<string>, i: nat, l: string, f: DataFiles): (r: map<string, Record>)
    requires i <= |codes|
    ensures r.Keys == before.Keys
  {
    if i == 0 then before else LoadStep(LoadedPrefix(before, codes, i - 1, l, f), codes[i - 1], l, f)
  }

  /**
   * The loop of `unload_translations(l)` (lib/countries/data.rb:143-146) after its first `i`
   * iterations: each internal record loses the locale and gets a fresh 'translated_names'.
   */
  function UnloadedPrefix(before: map<string, Record>, codes: seq<string>, i: nat, l: string): (r: map<string, Record>)
    requires i <= |codes|
    ensures r.Keys == before.Keys
  {
    if i == 0 then before else UnloadStep(UnloadedPrefix(before, codes, i - 1, l), codes[i - 1], l)
  }

  /** `load_translations(l)` run over all of `codes`. */
  function LoadPass(cache: map<string, Record>, codes: seq<string>, l: string, f: DataFiles): map<string, Record> {
    LoadedPrefix(cache, codes, |codes|, l, f)
  }

  /** `unload_translations(l)` run over all of `codes`. */
  function UnloadPass(cache: map<string, Record>, codes: seq<string>, l: string): map<string, Record> {
    UnloadedPrefix(cache, codes, |codes|, l)
  }

  /** After `i` iterations of the load loop, exactly the records of the first `i` codes hold the locale. */
  lemma {:induction false} LoadedPrefixAt(before: map<string, Record>, codes: seq<string>, i: nat, l: string, f: DataFiles, c: string)
    requires i <= |codes| && Distinct(codes) && c in before
    ensures LoadedPrefix(before, codes, i, l, f)[c] ==
            if c in codes[..i] then WithTranslation(before[c], l, NameFor(f, l, c)) else before[c]
  {
    if i > 0 {
      LoadedPrefixAt(before, codes, i - 1, l, f, c);
      DistinctTake(codes, i - 1);
      var p := LoadedPrefix(before, codes, i - 1, l, f);
      if c == codes[i - 1] {
        assert p[c] == before[c];
      } else {
        assert LoadedPrefix(before, codes, i, l, f)[c] == p[c];
      }
    }
  }

  /** After `i` iterations of the unload loop, exactly the records of the first `i` codes lost the locale. */
  lemma {:induction false} UnloadedPrefixAt(before: map<string, Record>, codes: seq<string>, i: nat, l: string, c: string)
    requires i <= |codes| && Distinct(codes) && c in before
    ensures UnloadedPrefix(before, codes, i, l)[c] ==
            if c in codes[..i] && before[c].translations.Some? then WithoutTranslation(before[c], l) else before[c]
  {
    if i > 0 {
      UnloadedPrefixAt(before, codes, i - 1, l, c);
      DistinctTake(codes, i - 1);
      var p := UnloadedPrefix(before, codes, i - 1, l);
      if c == codes[i - 1] {
        assert p[c] == before[c];
      } else {
        assert UnloadedPrefix(before, codes, i, l)[c] == p[c];
      }
    }
  }

  /** Every record in the cache is well formed. */
  predicate CacheOk(cache: map<string, Record>) {
    forall c :: c in cache ==> RecordOk(cache[c])
  }

  /** Laying the registrations over a cache keeps every record well formed. */
  lemma CacheOkUnion(a: map<string, Record>, b: map<string, Record>)
    requires CacheOk(a) && CacheOk(b)
    ensures CacheOk(a + b)
  {
  }

  /** The load loop keeps every record well formed. */
  lemma {:induction false} LoadedPrefixKeepsOk(before: map<string, Record>, codes: seq<string>, i: nat, l: string, f: DataFiles)
    requires i <= |codes| && CacheOk(before)
    ensures CacheOk(LoadedPrefix(before, codes, i, l, f))
  {
    if i > 0 {
      LoadedPrefixKeepsOk(before, codes, i - 1, l, f);
      var p := LoadedPrefix(before, codes, i - 1, l, f);
      var d := codes[i - 1];
      if d in p {
        WithTranslationKeepsOk(p[d], l, NameFor(f, l, d));
      }
    }
  }

  /** The unload loop keeps every record well formed. */
  lemma {:induction false} UnloadedPrefixKeepsOk(before: map<string, Record>, codes: seq<string>, i: nat, l: string)
    requires i <= |codes| && CacheOk(before)
    ensures CacheOk(UnloadedPrefix(before, codes, i, l))
  {
    if i > 0 {
      UnloadedPrefixKeepsOk(before, codes, i - 1, l);
      var p := UnloadedPrefix(before, codes, i - 1, l);
      var d := codes[i - 1];
      if d in p && p[d].translations.Some? {
        WithoutTranslationKeepsOk(p[d], l);
      }
    }
  }

  /** The unload loop never takes a bucket away: a record without one had none to begin with. */
  lemma {:induction false} UnloadedPrefixKeepsBuckets(before: map<string, Record>, codes: seq<string>, i: nat, l: string, c: string)
    requires i <= |codes| && c in before
    ensures UnloadedPrefix(before, codes, i, l)[c].translations.Some? == before[c].translations.Some?
  {
    if i > 0 {
      UnloadedPrefixKeepsBuckets(before, codes, i - 1, l, c);
    }
  }

  /** A completed load pass: every record of `codes` holds the locale's name from the files, the rest are untouched. */
  lemma LoadPassAt(cache: map<string, Record>, codes: seq<string>, l: string, f: DataFiles, c: string)
    requires Distinct(codes) && c in cache
    ensures LoadPass(cache, codes, l, f)[c] ==
            if c in codes then WithTranslation(cache[c], l, NameFor(f, l, c)) else cache[c]
  {
    LoadedPrefixAt(cache, codes, |codes|, l, f, c);
    assert codes[..|codes|] == codes;
  }

  /** A completed unload pass: every record of `codes` that has a bucket lost the locale, the rest are untouched. */
  lemma UnloadPassAt(cache: map<string, Record>, codes: seq<string>, l: string, c: string)
    requires Distinct(codes) && c in cache
    ensures UnloadPass(cache, codes, l)[c] ==
            if c in codes && cache[c].translations.Some? then WithoutTranslation(cache[c], l) else cache[c]
  {
    UnloadedPrefixAt(cache, codes, |codes|, l, c);
    assert codes[..|codes|] == codes;
  }

  /** The index of the first of `codes[i..]` that would make a step raise, or `|codes|` when none does. */
  function FirstProblemFrom(cache: map<string, Record>, codes: seq<string>, i: nat, needBucket: bool): (k: nat)
    requires i <= |codes|
    ensures i <= k <= |codes|
    ensures k < |codes| ==> Problem(cache, codes[k], needBucket).Some?
    ensures forall j :: i <= j < k ==> Problem(cache, codes[j], needBucket) == None
    decreases |codes| - i
  {
    if i == |codes| then i
    else if Problem(cache, codes[i], needBucket).Some? then i
    else FirstProblemFrom(cache, codes, i + 1, needBucket)
  }

  /** Where a pass over `codes` raises (`|codes|` when it completes). */
  function FirstProblem(cache: map<string, Record>, codes: seq<string>, needBucket: bool): nat {
    FirstProblemFrom(cache, codes, 0, needBucket)
  }

  /** A pass completes exactly when no code stops it. */
  lemma ReadyIffNoProblem(cache: map<string, Record>, codes: seq<string>, needBucket: bool)
    ensures Ready(cache, codes, needBucket) <==> FirstProblem(cache, codes, needBucket) == |codes|
  {
  }

  /** A pass over `codes` raises `e`: the error of the first code that stops it. */
  predicate RaisesWith(cache: map<string, Record>, codes: seq<string>, needBucket: bool, e: Error) {
    var k := FirstProblem(cache, codes, needBucket);
    k < |codes| && Problem(cache, codes[k], needBucket) == Some(e)
  }

  /**
   * A pass of `load_translations` (`needBucket` false) or `unload_translations` (true) over
   * `codes` raised `e` at the first code that could not be processed, leaving `after` with
   * the codes before it done and the rest untouched.
   */
  predicate StoppedAt(before: map<string, Record>, after: map<string, Record>, codes: seq<string>,
                      l: string, f: DataFiles, needBucket: bool, e: Error)
  {
    var k := FirstProblem(before, codes, needBucket);
    RaisesWith(before, codes, needBucket, e) &&
    after == (if needBucket then UnloadedPrefix(before, codes, k, l) else LoadedPrefix(before, codes, k, l, f))
  }

  /**
   * A locale synchronisation from `loaded` towards `requested` raised `e`: only the first pass can
   * raise (the removal pass when there is anything to remove, otherwise the loading pass), and it
   * stopped at the first code it could not process, at the first locale of that pass.
   */
  predicate SyncStopped(before: map<string, Record>, after: map<string, Record>, codes: seq<string>,
                        requested: seq<string>, loaded: seq<string>, f: DataFiles, e: Error)
  {
    FlushRequired(requested, loaded) &&
    StoppedAt(before, after, codes, FirstPassLocale(requested, loaded), f, ToRemove(requested, loaded) != [], e)
  }

  /** Two caches with the same codes (and, when buckets matter, the same buckets) stop a pass at the same code. */
  lemma {:induction false} FirstProblemSame(a: map<string, Record>, b: map<string, Record>, codes: seq<string>, i: nat, needBucket: bool)
    requires i <= |codes| && a.Keys == b.Keys
    requires needBucket ==> forall c :: c in a ==> a[c].translations.Some? == b[c].translations.Some?
    ensures FirstProblemFrom(a, codes, i, needBucket) == FirstProblemFrom(b, codes, i, needBucket)
    decreases |codes| - i
  {
    if i < |codes| {
      assert Problem(a, codes[i], needBucket) == Problem(b, codes[i], needBucket);
      FirstProblemSame(a, b, codes, i + 1, needBucket);
    }
  }

  /** A pass that needs buckets is stopped no later than one that only needs records. */
  lemma {:induction false} FirstProblemBuckets(cache: map<string, Record>, codes: seq<string>, i: nat)
    requires i <= |codes|
    ensures FirstProblemFrom(cache, codes, i, true) <= FirstProblemFrom(cache, codes, i, false)
    decreases |codes| - i
  {
    if i < |codes| && Problem(cache, codes[i], true).None? {
      FirstProblemBuckets(cache, codes, i + 1);
    }
  }

  /** Unloading the locales `ls`, in order. */
  function UnloadAll(cache: map<string, Record>, codes: seq<string>, ls: seq<string>): (r: map<string, Record>)
    ensures r.Keys == cache.Keys
    decreases |ls|
  {
    if ls == [] then cache
    else UnloadPass(UnloadAll(cache, codes, ls[..|ls| - 1]), codes, ls[|ls| - 1])
  }

  /** Loading the locales `ls`, in order. */
  function LoadAll(cache: map<string, Record>, codes: seq<string>, ls: seq<string>, f: DataFiles): (r: map<string, Record>)
    ensures r.Keys == cache.Keys
    decreases |ls|
  {
    if ls == [] then cache
    else LoadPass(LoadAll(cache, codes, ls[..|ls| - 1], f), codes, ls[|ls| - 1], f)
  }

  /** Unloading one more locale of `ls` is one more unload pass. */
  lemma UnloadAllStep(cache: map<string, Record>, codes: seq<string>, ls: seq<string>, i: nat)
    requires i < |ls|
    ensures UnloadAll(cache, codes, ls[..i + 1]) == UnloadPass(UnloadAll(cache, codes, ls[..i]), codes, ls[i])
  {
    assert ls[..i + 1][..i] == ls[..i];
  }

  /** Loading one more locale of `ls` is one more load pass. */
  lemma LoadAllStep(cache: map<string, Record>, codes: seq<string>, ls: seq<string>, f: DataFiles, i: nat)
    requires i < |ls|
    ensures LoadAll(cache, codes, ls[..i + 1], f) == LoadPass(LoadAll(cache, codes, ls[..i], f), codes, ls[i], f)
  {
    assert ls[..i + 1][..i] == ls[..i];
  }

  /** Unloading locales never adds or removes a record, nor takes a bucket away. */
  lemma {:induction false} UnloadAllKeepsBuckets(cache: map<string, Record>, codes: seq<string>, ls: seq<string>, c: string)
    requires c in cache
    ensures UnloadAll(cache, codes, ls)[c].translations.Some? == cache[c].translations.Some?
    decreases |ls|
  {
    if ls != [] {
      var prev := UnloadAll(cache, codes, ls[..|ls| - 1]);
      UnloadAllKeepsBuckets(cache, codes, ls[..|ls| - 1], c);
      UnloadedPrefixKeepsBuckets(prev, codes, |codes|, ls[|ls| - 1], c);
    }
  }

  /** The unload phase of a sync pass cannot make a later pass stop elsewhere, or raise otherwise, than on the original cache. */
  lemma UnloadAllKeepsProblems(cache: map<string, Record>, codes: seq<string>, ls: seq<string>, needBucket: bool)
    ensures FirstProblem(UnloadAll(cache, codes, ls), codes, needBucket) == FirstProblem(cache, codes, needBucket)
    ensures Ready(UnloadAll(cache, codes, ls), codes, needBucket) == Ready(cache, codes, needBucket)
    ensures forall e :: RaisesWith(UnloadAll(cache, codes, ls), codes, needBucket, e) == RaisesWith(cache, codes, needBucket, e)
  {
    var after := UnloadAll(cache, codes, ls);
    forall c | c in cache ensures cache[c].translations.Some? == after[c].translations.Some? {
      UnloadAllKeepsBuckets(cache, codes, ls, c);
    }
    FirstProblemSame(after, cache, codes, 0, needBucket);
    ReadyIffNoProblem(after, codes, needBucket);
    ReadyIffNoProblem(cache, codes, needBucket);
    var k := FirstProblem(cache, codes, needBucket);
    if k < |codes| {
      assert Problem(after, codes[k], needBucket) == Problem(cache, codes[k], needBucket);
    }
  }

  /**
   * When the unload phase of a sync pass can run (every internal record has a bucket), the load
   * phase after it cannot raise: a sync raises, if at all, in its first pass.
   */
  lemma UnloadPhaseReadiesLoad(cache: map<string, Record>, codes: seq<string>, rem: seq<string>)
    ensures Ready(cache, codes, true) ==> Ready(UnloadAll(cache, codes, rem), codes, false)
  {
    UnloadAllKeepsProblems(cache, codes, rem, false);
    ReadyIffNoProblem(cache, codes, true);
    ReadyIffNoProblem(cache, codes, false);
    FirstProblemBuckets(cache, codes, 0);
  }

  /** Earlier loads cannot make a load pass stop elsewhere, or raise otherwise, than on the original cache. */
  lemma LoadAllKeepsProblems(cache: map<string, Record>, codes: seq<string>, ls: seq<string>, f: DataFiles)
    ensures FirstProblem(LoadAll(cache, codes, ls, f), codes, false) == FirstProblem(cache, codes, false)
    ensures Ready(LoadAll(cache, codes, ls, f), codes, false) == Ready(cache, codes, false)
    ensures forall e :: RaisesWith(LoadAll(cache, codes, ls, f), codes, false, e) == RaisesWith(cache, codes, false, e)
  {
    var after := LoadAll(cache, codes, ls, f);
    FirstProblemSame(after, cache, codes, 0, false);
    ReadyIffNoProblem(after, codes, false);
    ReadyIffNoProblem(cache, codes, false);
  }

  /**
   * After unloading `ls`, a record outside `codes` is untouched; one inside has lost exactly
   * those locales, kept its bucket and its other attributes.
   */
  lemma {:induction false} UnloadAllAt(cache: map<string, Record>, codes: seq<string>, ls: seq<string>, c: string, k: string)
    requires Distinct(codes) && c in cache
    ensures c !in codes || ls == [] ==> UnloadAll(cache, codes, ls)[c] == cache[c]
    ensures c in codes ==> UnloadAll(cache, codes, ls)[c].attrs == cache[c].attrs
    ensures c in codes ==> UnloadAll(cache, codes, ls)[c].translations.Some? == cache[c].translations.Some?
    ensures c in codes ==> (Get(TranslationsOf(UnloadAll(cache, codes, ls)[c]), k) ==
            if k in ls then None else Get(TranslationsOf(cache[c]), k))
    ensures c in codes && ls != [] && cache[c].translations.Some? ==> NamesCurrent(UnloadAll(cache, codes, ls)[c])
    decreases |ls|
  {
    if ls != [] {
      var init := ls[..|ls| - 1];
      var last := ls[|ls| - 1];
      UnloadAllAt(cache, codes, init, c, k);
      assert k in ls <==> k in init || k == last;
      var prev := UnloadAll(cache, codes, init);
      UnloadPassAt(prev, codes, last, c);
      if c in codes && k != last && prev[c].translations.Some? {
        WithoutTranslationOther(prev[c], last, k);
      }
    }
  }

  /**
   * After loading `ls`, a record outside `codes` is untouched; one inside holds each of those
   * locales' names from the files and kept its other attributes.
   */
  lemma {:induction false} LoadAllAt(cache: map<string, Record>, codes: seq<string>, ls: seq<string>, f: DataFiles, c: string, k: string)
    requires Distinct(codes) && c in cache
    ensures c !in codes || ls == [] ==> LoadAll(cache, codes, ls, f)[c] == cache[c]
    ensures c in codes ==> LoadAll(cache, codes, ls, f)[c].attrs == cache[c].attrs
    ensures c in codes ==> (Get(TranslationsOf(LoadAll(cache, codes, ls, f)[c]), k) ==
            if k in ls then Some(NameFor(f, k, c)) else Get(TranslationsOf(cache[c]), k))
    ensures c in codes && ls != [] ==> NamesCurrent(LoadAll(cache, codes, ls, f)[c])
    decreases |ls|
  {
    if ls != [] {
      var init := ls[..|ls| - 1];
      var last := ls[|ls| - 1];
      LoadAllAt(cache, codes, init, f, c, k);
      assert k in ls <==> k in init || k == last;
      var prev := LoadAll(cache, codes, init, f);
      LoadPassAt(prev, codes, last, f, c);
      if c in codes && k != last {
        WithTranslationOther(prev[c], last, NameFor(f, last, c), k);
      }
    }
  }

  /**
   * `sync_translations!` on the cache (lib/countries/data.rb:85-95): nothing when no flush is
   * required, otherwise unload `locales_to_remove`, then load `locales_to_load` as computed
   * after the unloads.
   */
  function SyncedCache(cache: map<string, Record>, codes: seq<string>, loaded: seq<string>, requested: seq<string>, f: DataFiles): (r: map<string, Record>)
    ensures r.Keys == cache.Keys
  {
    if !FlushRequired(requested, loaded) then cache
    else LoadAll(UnloadAll(cache, codes, ToRemove(requested, loaded)), codes, Added(loaded, requested), f)
  }

  /**
   * After a sync pass an internal record holds the newly requested locales with the names from
   * the files, has lost the locales no longer requested, keeps the rest of its bucket and all its
   * other attributes, and its 'translated_names' is current whenever its bucket was touched.
   */
  lemma SyncedAt(cache: map<string, Record>, codes: seq<string>, loaded: seq<string>, requested: seq<string>, f: DataFiles, c: string, k: string)
    requires Distinct(codes) && c in cache
    ensures c !in codes ==> SyncedCache(cache, codes, loaded, requested, f)[c] == cache[c]
    ensures c in codes ==> SyncedCache(cache, codes, loaded, requested, f)[c].attrs == cache[c].attrs
    ensures c in codes ==> (SyncedCache(cache, codes, loaded, requested, f)[c].translations.Some? ==
            (cache[c].translations.Some? || Added(loaded, requested) != []))
    ensures c in codes ==> (Get(TranslationsOf(SyncedCache(cache, codes, loaded, requested, f)[c]), k) ==
            if k in requested && k !in loaded then Some(NameFor(f, k, c))
            else if k in loaded && k !in requested then None
            else Get(TranslationsOf(cache[c]), k))
    ensures Added(loaded, requested) != [] || (ToRemove(requested, loaded) != [] && cache[c].translations.Some?)
            ==> c in codes ==> NamesCurrent(SyncedCache(cache, codes, loaded, requested, f)[c])
  {
    FlushRequiredIffDiffer(requested, loaded);
    AddedIsToLoad(loaded, requested);
    if FlushRequired(requested, loaded) {
      var rem := ToRemove(requested, loaded);
      var mid := UnloadAll(cache, codes, rem);
      UnloadAllAt(cache, codes, rem, c, k);
      LoadAllAt(mid, codes, Added(loaded, requested), f, c, k);
    } else {
      assert k in requested <==> k in loaded by {
        assert k in Elems(requested) <==> k in Elems(loaded);
      }
      MinusNothing(loaded, Elems(ToRemove(requested, loaded)));
    }
  }

  /** Every internal record holds, for every locale in `loaded`, that locale's name from the files. */
  predicate Agrees(cache: map<string, Record>, codes: seq<string>, loaded: seq<string>, f: DataFiles) {
    forall c, l :: c in codes && l in loaded ==>
      c in cache && Get(TranslationsOf(cache[c]), l) == Some(NameFor(f, l, c))
  }

  /**
   * A sync pass over a cache that agreed with the old loaded locales makes it agree with the
   * requested ones, and removes every locale that is no longer requested.
   */
  lemma SyncAgrees(cache: map<string, Record>, codes: seq<string>, loaded: seq<string>, requested: seq<string>, f: DataFiles)
    requires Distinct(codes) && forall c :: c in codes ==> c in cache
    requires Agrees(cache, codes, loaded, f)
    ensures Agrees(SyncedCache(cache, codes, loaded, requested, f), codes, requested, f)
    ensures forall c, l :: c in codes && l in loaded && l !in requested ==>
              Get(TranslationsOf(SyncedCache(cache, codes, loaded, requested, f)[c]), l) == None
  {
    var r := SyncedCache(cache, codes, loaded, requested, f);
    forall c, l | c in codes && l in requested
      ensures c in r && Get(TranslationsOf(r[c]), l) == Some(NameFor(f, l, c))
    {
      SyncedAt(cache, codes, loaded, requested, f, c, l);
    }
    forall c, l | c in codes && l in loaded && l !in requested
      ensures Get(TranslationsOf(r[c]), l) == None
    {
      SyncedAt(cache, codes, loaded, requested, f, c, l);
    }
  }

  /**
   * `update_cache` on the cache (lib/countries/data.rb:62-66): `load_data!`, then
   * `sync_translations!` over the internal codes of the loaded cache.
   */
  function Refreshed(cache: map<string, Record>, registered: map<string, Record>, codes: Option<seq<string>>,
                     loaded: seq<string>, requested: seq<string>, f: DataFiles): map<string, Record>
  {
    SyncedCache(BaseCache(cache, registered, f),
                InternalCodesOf(BaseCodes(cache, codes, f).GetOr([]), registered),
                loaded, DowncaseAll(requested), f)
  }

  /** `update_cache` completes without raising. */
  predicate RefreshReady(cache: map<string, Record>, registered: map<string, Record>, codes: Option<seq<string>>,
                         loaded: seq<string>, requested: seq<string>, f: DataFiles)
  {
    var req := DowncaseAll(requested);
    !FlushRequired(req, loaded) ||
    (BaseCodes(cache, codes, f).Some? &&
     Ready(BaseCache(cache, registered, f),
           InternalCodesOf(BaseCodes(cache, codes, f).value, registered),
           ToRemove(req, loaded) != []))
  }

  /** `update_cache` as its two steps: the sync that follows `load_data!`, and when it cannot raise. */
  lemma RefreshSteps(cache: map<string, Record>, registered: map<string, Record>, codes: Option<seq<string>>,
                     loaded: seq<string>, requested: seq<string>, f: DataFiles, base: map<string, Record>, ics: seq<string>)
    requires base == BaseCache(cache, registered, f) && BaseCodes(cache, codes, f).Some?
    requires ics == InternalCodesOf(BaseCodes(cache, codes, f).value, registered)
    ensures Refreshed(cache, registered, codes, loaded, requested, f) == SyncedCache(base, ics, loaded, DowncaseAll(requested), f)
    ensures RefreshReady(cache, registered, codes, loaded, requested, f) <==>
            (!FlushRequired(DowncaseAll(requested), loaded) ||
             Ready(base, ics, ToRemove(DowncaseAll(requested), loaded) != []))
  {
  }

  /**
   * `update_cache` is idempotent: refreshing the state a refresh produced gives the same cache
   * (the second pass loads nothing and reads no file).
   */
  lemma RefreshIdempotent(cache: map<string, Record>, registered: map<string, Record>, codes: Option<seq<string>>,
                          loaded: seq<string>, requested: seq<string>, f: DataFiles)
    ensures var c1 := Refreshed(cache, registered, codes, loaded, requested, f);
            var l1 := SyncedLoaded(loaded, DowncaseAll(requested));
            Refreshed(c1, registered, BaseCodes(cache, codes, f), l1, requested, f) == c1
            && !FlushRequired(DowncaseAll(requested), l1)
  {
    var req := DowncaseAll(requested);
    var c1 := Refreshed(cache, registered, codes, loaded, requested, f);
    var l1 := SyncedLoaded(loaded, req);
    SyncConverges(loaded, req);
    var base := BaseCache(cache, registered, f);
    assert c1.Keys == base.Keys;
    if c1 == map[] {
      assert base == map[];
      assert cache == map[];
      assert BaseCache(c1, registered, f) == map[];
    }
  }

  /**
   * After `reset` (empty cache, nothing registered, nothing loaded) the next `update_cache`
   * rebuilds the whole bundled dataset and loads every requested locale into every record.
   */
  lemma ResetReloads(codes: Option<seq<string>>, requested: seq<string>, f: DataFiles)
    requires FilesOk(f)
    ensures var r := Refreshed(map[], map[], codes, [], requested, f);
            r.Keys == f.countries.Keys
            && (forall c :: c in r ==> r[c].attrs == f.countries[c].attrs)
            && Agrees(r, f.countryCodes, DowncaseAll(requested), f)
    ensures RefreshReady(map[], map[], codes, [], requested, f)
  {
    var req := DowncaseAll(requested);
    var base := BaseCache(map[], map[], f);
    assert base == f.countries;
    var ics := InternalCodesOf(f.countryCodes, map[]);
    var r := SyncedCache(base, ics, [], req, f);
    assert r == Refreshed(map[], map[], codes, [], requested, f);
    forall c | c in r ensures r[c].attrs == f.countries[c].attrs {
      assert c in ics;
      SyncedAt(base, ics, [], req, f, c, "");
    }
    SyncAgrees(base, ics, [], req, f);
    assert Agrees(r, ics, req, f);
    forall c, l | c in f.countryCodes && l in req
      ensures c in r && Get(TranslationsOf(r[c]), l) == Some(NameFor(f, l, c))
    {
      assert c in ics;
    }
    assert Ready(base, ics, false);
  }

  /**
   * Registered codes are never internal, so a refresh leaves each registered code's cache entry
   * as it was.
   */
  lemma RegisteredUntouched(cache: map<string, Record>, registered: map<string, Record>, codes: Option<seq<string>>,
                            loaded: seq<string>, requested: seq<string>, f: DataFiles, c: string)
    requires FilesOk(f) && (codes.Some? ==> codes.value == f.countryCodes)
    requires c in registered && (cache == map[] || c in cache)
    ensures var r := Refreshed(cache, registered, codes, loaded, requested, f);
            c in r && r[c] == if cache == map[] then registered[c] else cache[c]
  {
    var ics := InternalCodesOf(BaseCodes(cache, codes, f).GetOr([]), registered);
    SyncedAt(BaseCache(cache, registered, f), ics, loaded, DowncaseAll(requested), f, c, "");
  }

  /**
   * A bundled code that has neither a cache entry nor a registration (what `unregister`
   * leaves behind) makes every refresh that has a locale to load or unload raise.
   */
  lemma MissingInternalRecordRaises(cache: map<string, Record>, registered: map<string, Record>,
                                    loaded: seq<string>, requested: seq<string>, f: DataFiles, c: string)
    requires cache != map[] && c in f.countryCodes && c !in cache && c !in registered
    requires FlushRequired(DowncaseAll(requested), loaded)
    ensures !RefreshReady(cache, registered, Some(f.countryCodes), loaded, requested, f)
  {
    var ics := InternalCodesOf(f.countryCodes, registered);
    assert c in ics;
    var j :| 0 <= j < |ics| && ics[j] == c;
    assert Problem(cache, ics[j], ToRemove(DowncaseAll(requested), loaded) != []) == Some(NoRecord(c));
  }
}
