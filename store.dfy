/**
 * `ISO3166::Data` (lib/countries/data.rb): the process-wide country cache and its
 * locale-synchronisation engine, as one object whose fields are the class variables
 * and the two configuration lists the engine reads and writes.
 */
module CountryData {
  import opened Outcomes
  import opened Locales
  import opened Translations
  import opened CacheSpec

  /** `data[:alpha2]` when it is a string. */
  function Alpha2Of(data: map<string, Value>): Option<string> {
    if "alpha2" in data && data["alpha2"].VStr? then Some(data["alpha2"].s) else None
  }

  /**
   * The record `register` stores (lib/countries/data.rb:34-37): the caller's attributes under
   * string keys, a bucket holding the inline translations `data[:translations]` (an empty one
   * when there are none), and no 'translated_names'.
   */
  function RegisteredRecord(data: map<string, Value>, inline: Option<Translations>): (r: Record)
    requires inline.Some? ==> KeysDistinct(inline.value)
    ensures RecordOk(r) && r.translatedNames.None?
    ensures r.attrs.Keys == data.Keys - {"translations"}
    ensures forall k :: k in r.attrs ==> r.attrs[k] == data[k]
    ensures forall l :: Get(TranslationsOf(r), l) == if inline.Some? then Get(inline.value, l) else None
  {
    Record(data - {"translations"}, Some(inline.GetOr([])), None)
  }

  class Store {
    /** The bundled data files, read-only. */
    const files: DataFiles
    /** `@@cache`: country code => record. */
    var cache: map<string, Record>
    /** `@@registered_data`: runtime overrides. */
    var registered: map<string, Record>
    /** `@@_country_codes`: undefined until the first `load_data!`. */
    var countryCodes: Option<seq<string>>
    /** `@@locales`: the memoised locale catalog. */
    var available: seq<string>
    /** `ISO3166.configuration.loaded_locales`. */
    var loaded: seq<string>
    /** `ISO3166.configuration.locales`, as the caller set it. */
    var requested: seq<string>

    ghost predicate Valid()
      reads this
    {
      FilesOk(files) &&
      (countryCodes.Some? ==> countryCodes.value == files.countryCodes) &&
      (cache != map[] ==> countryCodes.Some?) &&
      (forall l :: l in loaded ==> IsLower(l)) &&
      CacheOk(cache) &&
      CacheOk(registered)
    }

    /** The state at process start (lib/countries/data.rb:7-9), with the configured locales. */
    constructor (files: DataFiles, locales: seq<string>)
      requires FilesOk(files)
      ensures Valid()
      ensures this.files == files && requested == locales
      ensures cache == map[] && registered == map[] && countryCodes == None
      ensures available == [] && loaded == []
    {
      this.files := files;
      cache := map[];
      registered := map[];
      countryCodes := None;
      available := [];
      loaded := [];
      requested := locales;
    }

    /** `requested_locales` (lib/countries/data.rb:124-126). */
    function RequestedLocales(): seq<string>
      reads this`requested
    {
      DowncaseAll(requested)
    }

    /** `loaded_locales` (lib/countries/data.rb:128-130). */
    function LoadedLocales(): seq<string>
      reads this`loaded
    {
      DowncaseAll(loaded)
    }

    /** `cache_flush_required?` (lib/countries/data.rb:112-114). */
    predicate CacheFlushRequired()
      reads this`requested, this`loaded
    {
      FlushRequired(RequestedLocales(), LoadedLocales())
    }

    /** `locales_to_load` (lib/countries/data.rb:116-118). */
    function LocalesToLoad(): seq<string>
      reads this`requested, this`loaded
    {
      ToLoad(RequestedLocales(), LoadedLocales())
    }

    /** `locales_to_remove` (lib/countries/data.rb:120-122). */
    function LocalesToRemove(): seq<string>
      reads this`requested, this`loaded
    {
      ToRemove(RequestedLocales(), LoadedLocales())
    }

    /** `internal_codes` (lib/countries/data.rb:108-110). */
    function InternalCodes(): seq<string>
      reads this`countryCodes, this`registered
    {
      InternalCodesOf(countryCodes.GetOr([]), registered)
    }

    /** The caller assigns `ISO3166.configuration.locales`. */
    method SetLocales(locales: seq<string>)
      modifies this`requested
      ensures requested == locales
    {
      requested := locales;
    }

    /** `load_locales` (lib/countries/data.rb:159-165): the catalog is read once, while it is empty. */
    method LoadLocales() returns (ls: seq<string>)
      modifies this`available
      ensures available == if old(available) == [] then files.localeCatalog else old(available)
      ensures ls == available
    {
      if available == [] {
        available := files.localeCatalog;
      }
      ls := available;
    }

    /** `load_data!` (lib/countries/data.rb:76-83). */
    method LoadData()
      requires Valid()
      modifies this`cache, this`countryCodes, this`available
      ensures Valid() && countryCodes.Some?
      ensures cache == BaseCache(old(cache), registered, files)
      ensures countryCodes == BaseCodes(old(cache), old(countryCodes), files)
      ensures available == if old(cache) == map[] && old(available) == [] then files.localeCatalog else old(available)
    {
      if cache != map[] {
        return;
      }
      cache := files.countries;
      countryCodes := Some(files.countryCodes);
      var _ := LoadLocales();
      cache := cache + registered;
    }

    /**
     * `load_translations(locale)` (lib/countries/data.rb:132-140): every internal record gets the
     * locale's name from `locales/<locale>.json`, then the locale is marked loaded. It raises at
     * the first internal code without a record, leaving the earlier records updated.
     */
    method LoadTranslations(locale: string) returns (r: Outcome<Error>)
      requires Valid() && IsLower(locale)
      modifies this`cache, this`loaded
      ensures Valid()
      ensures countryCodes.None? ==> r == Fail(CodesUndefined) && cache == old(cache) && loaded == old(loaded)
      ensures r.Pass? <==> countryCodes.Some? && Ready(old(cache), InternalCodes(), false)
      ensures r.Pass? ==> cache == LoadPass(old(cache), InternalCodes(), locale, files)
      ensures r.Pass? ==> loaded == old(loaded) + [locale]
      ensures r.Fail? ==> loaded == old(loaded)
      ensures r.Fail? && countryCodes.Some? ==> StoppedAt(old(cache), cache, InternalCodes(), locale, files, false, r.error)
    {
      if countryCodes.None? {
        return Fail(CodesUndefined);
      }
      var codes := InternalCodes();
      ReadyIffNoProblem(cache, codes, false);
      var m, k := RunLoadPass(cache, codes, locale, files);
      LoadedPrefixKeepsOk(cache, codes, k, locale, files);
      if k < |codes| {
        r := Fail(Problem(cache, codes[k], false).value);
      } else {
        assert codes[..k] == codes;
        loaded := loaded + [locale];
        r := Pass;
      }
      cache := m;
    }

    /**
     * `unload_translations(locale)` (lib/countries/data.rb:142-148): every internal record loses
     * the locale, then every copy of the locale leaves the loaded list. It raises at the first
     * internal code without a record or without a bucket, leaving the earlier records updated.
     */
    method UnloadTranslations(locale: string) returns (r: Outcome<Error>)
      requires Valid()
      modifies this`cache, this`loaded
      ensures Valid()
      ensures countryCodes.None? ==> r == Fail(CodesUndefined) && cache == old(cache) && loaded == old(loaded)
      ensures r.Pass? <==> countryCodes.Some? && Ready(old(cache), InternalCodes(), true)
      ensures r.Pass? ==> cache == UnloadPass(old(cache), InternalCodes(), locale)
      ensures r.Pass? ==> loaded == Minus(old(loaded), {locale})
      ensures r.Fail? ==> loaded == old(loaded)
      ensures r.Fail? && countryCodes.Some? ==> StoppedAt(old(cache), cache, InternalCodes(), locale, files, true, r.error)
    {
      if countryCodes.None? {
        return Fail(CodesUndefined);
      }
      var codes := InternalCodes();
      ReadyIffNoProblem(cache, codes, true);
      var m, k := RunUnloadPass(cache, codes, locale);
      UnloadedPrefixKeepsOk(cache, codes, k, locale);
      if k < |codes| {
        r := Fail(Problem(cache, codes[k], true).value);
      } else {
        loaded := Minus(loaded, {locale});
        r := Pass;
      }
      cache := m;
    }

    /**
     * `sync_translations!` (lib/countries/data.rb:85-95): when the loaded locales differ from the
     * requested ones, unload each locale to remove, then load each locale still missing. The first
     * pass that raises ends the sync, with the passes before it done.
     */
    method SyncTranslations() returns (r: Outcome<Error>)
      requires Valid()
      modifies this`cache, this`loaded
      ensures Valid()
      ensures !old(CacheFlushRequired()) ==> r == Pass && cache == old(cache) && loaded == old(loaded)
      ensures r.Pass? ==> cache == SyncedCache(old(cache), InternalCodes(), old(loaded), RequestedLocales(), files)
      ensures r.Pass? ==> loaded == SyncedLoaded(old(loaded), RequestedLocales())
      ensures old(CacheFlushRequired()) ==>
                (r.Pass? <==> (countryCodes.Some? &&
                  Ready(old(cache), InternalCodes(), ToRemove(RequestedLocales(), old(loaded)) != [])))
      ensures r.Fail? && countryCodes.Some? ==>
                RaisesWith(old(cache), InternalCodes(), ToRemove(RequestedLocales(), old(loaded)) != [], r.error)
      ensures r.Fail? ==> old(CacheFlushRequired()) && loaded == old(loaded)
      ensures r.Fail? && countryCodes.Some? ==>
                SyncStopped(old(cache), cache, InternalCodes(), RequestedLocales(), old(loaded), files, r.error)
      ensures countryCodes.None? && old(CacheFlushRequired()) ==> r == Fail(CodesUndefined) && cache == old(cache)
      ensures cache.Keys == old(cache).Keys
    {
      DowncaseAllOfLower(loaded);
      if !CacheFlushRequired() {
        return Pass;
      }
      ghost var codes := InternalCodes();
      ghost var req := RequestedLocales();
      var rem := LocalesToRemove();
      assert rem == ToRemove(req, old(loaded));
      r := UnloadEach(rem);
      assert InternalCodes() == codes && RequestedLocales() == req;
      if r.Fail? {
        assert FirstPassLocale(req, old(loaded)) == rem[0];
        return;
      }
      if rem == [] {
        MinusNothing(old(loaded), Elems(rem));
        assert cache == old(cache) && loaded == old(loaded);
      } else {
        UnloadPhaseReadiesLoad(old(cache), codes, rem);
      }
      DowncaseAllOfLower(loaded);
      AllLower(requested);
      var add := LocalesToLoad();
      r := LoadEach(add);
      assert InternalCodes() == codes && RequestedLocales() == req;
      if r.Fail? {
        assert rem == [] && FirstPassLocale(req, old(loaded)) == add[0];
      }
    }

    /** The unload phase of `sync_translations!` (lib/countries/data.rb:88-90). */
    method UnloadEach(ls: seq<string>) returns (r: Outcome<Error>)
      requires Valid()
      modifies this`cache, this`loaded
      ensures Valid()
      ensures r.Pass? <==> ls == [] || (countryCodes.Some? && Ready(old(cache), InternalCodes(), true))
      ensures r.Pass? ==> cache == UnloadAll(old(cache), InternalCodes(), ls)
      ensures r.Pass? ==> loaded == Minus(old(loaded), Elems(ls))
      ensures r.Fail? && countryCodes.Some? ==> RaisesWith(old(cache), InternalCodes(), true, r.error)
      ensures r.Fail? ==>
                ls != [] && loaded == old(loaded) &&
                (countryCodes.Some? ==> StoppedAt(old(cache), cache, InternalCodes(), ls[0], files, true, r.error))
      ensures countryCodes.None? && ls != [] ==> r == Fail(CodesUndefined) && cache == old(cache)
      ensures cache.Keys == old(cache).Keys
    {
      ghost var codes := InternalCodes();
      assert Elems(ls[..0]) == {};
      MinusNothing(loaded, {});
      var i := 0;
      while i < |ls|
        invariant 0 <= i <= |ls|
        invariant Valid()
        invariant cache == UnloadAll(old(cache), codes, ls[..i])
        invariant loaded == Minus(old(loaded), Elems(ls[..i]))
        invariant i > 0 ==> countryCodes.Some? && Ready(old(cache), codes, true)
      {
        UnloadAllKeepsProblems(old(cache), codes, ls[..i], true);
        ghost var before := cache;
        r := UnloadTranslations(ls[i]);
        if r.Fail? {
          assert countryCodes.Some? ==> RaisesWith(before, codes, true, r.error);
          assert i == 0 && ls[..i] == [];
          MinusNothing(old(loaded), {});
          return;
        }
        assert cache == UnloadPass(before, codes, ls[i]);
        UnloadAllStep(old(cache), codes, ls, i);
        TakeOneMore(ls, i, []);
        MinusMinus(old(loaded), Elems(ls[..i]), ls[i]);
        i := i + 1;
      }
      assert ls[..i] == ls;
      r := Pass;
    }

    /** The load phase of `sync_translations!` (lib/countries/data.rb:92-94). */
    method LoadEach(ls: seq<string>) returns (r: Outcome<Error>)
      requires Valid() && forall l :: l in ls ==> IsLower(l)
      modifies this`cache, this`loaded
      ensures Valid()
      ensures r.Pass? <==> ls == [] || (countryCodes.Some? && Ready(old(cache), InternalCodes(), false))
      ensures r.Pass? ==> cache == LoadAll(old(cache), InternalCodes(), ls, files)
      ensures r.Pass? ==> loaded == old(loaded) + ls
      ensures r.Fail? && countryCodes.Some? ==> RaisesWith(old(cache), InternalCodes(), false, r.error)
      ensures r.Fail? ==>
                ls != [] && loaded == old(loaded) &&
                (countryCodes.Some? ==> StoppedAt(old(cache), cache, InternalCodes(), ls[0], files, false, r.error))
      ensures countryCodes.None? && ls != [] ==> r == Fail(CodesUndefined) && cache == old(cache)
      ensures cache.Keys == old(cache).Keys
    {
      ghost var codes := InternalCodes();
      var i := 0;
      while i < |ls|
        invariant 0 <= i <= |ls|
        invariant Valid()
        invariant cache == LoadAll(old(cache), codes, ls[..i], files)
        invariant loaded == old(loaded) + ls[..i]
        invariant i > 0 ==> countryCodes.Some? && Ready(old(cache), codes, false)
      {
        LoadAllKeepsProblems(old(cache), codes, ls[..i], files);
        r := LoadTranslations(ls[i]);
        if r.Fail? {
          assert i == 0 && ls[..i] == [];
          return;
        }
        LoadAllStep(old(cache), codes, ls, files, i);
        TakeOneMore(ls, i, old(loaded));
        i := i + 1;
      }
      assert ls[..i] == ls;
      r := Pass;
    }

    /**
     * `update_cache` (lib/countries/data.rb:62-66), which `cache` (lib/countries/data.rb:47-49)
     * also is: `load_data!`, then `sync_translations!`, then the cache. It raises what the sync
     * raises; the base data is loaded by then.
     */
    method UpdateCache() returns (r: Result<map<string, Record>, Error>)
      requires Valid()
      modifies this`cache, this`countryCodes, this`available, this`loaded
      ensures Valid() && countryCodes.Some?
      ensures countryCodes == BaseCodes(old(cache), old(countryCodes), files)
      ensures available == if old(cache) == map[] && old(available) == [] then files.localeCatalog else old(available)
      ensures r.Ok? <==> RefreshReady(old(cache), registered, old(countryCodes), old(loaded), requested, files)
      ensures r.Ok? ==> r.value == cache && cache == Refreshed(old(cache), registered, old(countryCodes), old(loaded), requested, files)
      ensures r.Ok? ==> loaded == SyncedLoaded(old(loaded), RequestedLocales())
      ensures r.Ok? ==> !CacheFlushRequired()
      ensures r.Err? ==> loaded == old(loaded)
      ensures r.Err? ==> cache.Keys == BaseCache(old(cache), registered, files).Keys
      ensures r.Err? ==>
                SyncStopped(BaseCache(old(cache), registered, files), cache, InternalCodes(),
                            RequestedLocales(), old(loaded), files, r.error)
    {
      DowncaseAllOfLower(loaded);
      LoadData();
      ghost var codes := InternalCodes();
      ghost var req := RequestedLocales();
      ghost var base, cc, av, reg, rq := cache, countryCodes, available, registered, requested;
      RefreshSteps(old(cache), registered, old(countryCodes), loaded, requested, files, cache, codes);
      assert base == BaseCache(old(cache), registered, files);
      var o := SyncTranslations();
      assert countryCodes == cc && available == av && registered == reg && requested == rq;
      assert InternalCodes() == codes && RequestedLocales() == req;
      if o.Fail? {
        assert loaded == old(loaded) && SyncStopped(base, cache, codes, req, old(loaded), files, o.error);
        return Err(o.error);
      }
      SyncConverges(old(loaded), req);
      DowncaseAllOfLower(loaded);
      r := Ok(cache);
    }

    /** `Data.new(alpha2).call` (lib/countries/data.rb:11-17): the refreshed cache's entry for the upper-cased code. */
    method Call(alpha2: string) returns (r: Result<Option<Record>, Error>)
      requires Valid()
      modifies this`cache, this`countryCodes, this`available, this`loaded
      ensures Valid()
      ensures r.Ok? <==> RefreshReady(old(cache), registered, old(countryCodes), old(loaded), requested, files)
      ensures r.Ok? ==> cache == Refreshed(old(cache), registered, old(countryCodes), old(loaded), requested, files)
      ensures r.Ok? ==> r.value == if Upcase(alpha2) in cache then Some(cache[Upcase(alpha2)]) else None
      ensures countryCodes == BaseCodes(old(cache), old(countryCodes), files)
      ensures available == if old(cache) == map[] && old(available) == [] then files.localeCatalog else old(available)
      ensures r.Ok? ==> loaded == SyncedLoaded(old(loaded), RequestedLocales()) && !CacheFlushRequired()
      ensures r.Err? ==> loaded == old(loaded)
      ensures r.Err? ==> cache.Keys == BaseCache(old(cache), registered, files).Keys
      ensures r.Err? ==>
                SyncStopped(BaseCache(old(cache), registered, files), cache, InternalCodes(),
                            RequestedLocales(), old(loaded), files, r.error)
    {
      var code := Upcase(alpha2);
      var u := UpdateCache();
      if u.Err? {
        return Err(u.error);
      }
      r := Ok(if code in u.value then Some(u.value[code]) else None);
    }

    /** `codes` (lib/countries/data.rb:57-60): `load_data!`, then the cached codes. */
    method Codes() returns (r: set<string>)
      requires Valid()
      modifies this`cache, this`countryCodes, this`available
      ensures Valid()
      ensures cache == BaseCache(old(cache), registered, files)
      ensures countryCodes == BaseCodes(old(cache), old(countryCodes), files)
      ensures available == if old(cache) == map[] && old(available) == [] then files.localeCatalog else old(available)
      ensures r == cache.Keys
      ensures old(cache) == map[] ==> r == files.countries.Keys + registered.Keys
    {
      LoadData();
      r := cache.Keys;
    }

    /**
     * `register(data)` (lib/countries/data.rb:32-39): store the record under the upper-cased
     * `data[:alpha2]`, refresh the cache, and put every registered record over the result.
     * `inline` is `data[:translations]`. The new entry is recorded before the refresh, so it
     * stays registered even when the refresh raises.
     */
    method Register(data: map<string, Value>, inline: Option<Translations>) returns (r: Outcome<Error>)
      requires Valid() && (inline.Some? ==> KeysDistinct(inline.value))
      modifies this`cache, this`registered, this`countryCodes, this`available, this`loaded
      ensures Valid()
      ensures Alpha2Of(data).None? ==>
                r == Fail(BadAlpha2) && registered == old(registered) && cache == old(cache) &&
                loaded == old(loaded) && countryCodes == old(countryCodes) && available == old(available)
      ensures Alpha2Of(data).Some? ==> countryCodes == BaseCodes(old(cache), old(countryCodes), files)
      ensures Alpha2Of(data).Some? ==>
                available == if old(cache) == map[] && old(available) == [] then files.localeCatalog else old(available)
      ensures r.Pass? ==> loaded == SyncedLoaded(old(loaded), RequestedLocales())
      ensures r.Fail? ==> loaded == old(loaded)
      ensures r.Fail? && Alpha2Of(data).Some? ==> cache.Keys == BaseCache(old(cache), registered, files).Keys
      ensures r.Fail? && Alpha2Of(data).Some? ==>
                SyncStopped(BaseCache(old(cache), registered, files), cache, InternalCodes(),
                            RequestedLocales(), old(loaded), files, r.error)
      ensures Alpha2Of(data).Some? ==>
                registered == old(registered)[Upcase(Alpha2Of(data).value) := RegisteredRecord(data, inline)]
      ensures r.Pass? <==> (Alpha2Of(data).Some? &&
                RefreshReady(old(cache), registered, old(countryCodes), old(loaded), requested, files))
      ensures r.Pass? ==> cache == Refreshed(old(cache), registered, old(countryCodes), old(loaded), requested, files) + registered
      ensures r.Pass? ==> (Upcase(Alpha2Of(data).value) in cache &&
                cache[Upcase(Alpha2Of(data).value)] == RegisteredRecord(data, inline))
    {
      var a := Alpha2Of(data);
      if a.None? {
        return Fail(BadAlpha2);
      }
      registered := registered[Upcase(a.value) := RegisteredRecord(data, inline)];
      ghost var reg := registered;
      var u := UpdateCache();
      assert registered == reg;
      if u.Err? {
        return Fail(u.error);
      }
      CacheOkUnion(u.value, registered);
      cache := u.value + registered;
      r := Pass;
    }

    /**
     * `unregister(alpha2)` (lib/countries/data.rb:41-45): drop the upper-cased code from the
     * cache and from the registrations; the registration it removed is returned.
     */
    method Unregister(alpha2: string) returns (r: Option<Record>)
      requires Valid()
      modifies this`cache, this`registered
      ensures Valid()
      ensures cache == old(cache) - {Upcase(alpha2)}
      ensures registered == old(registered) - {Upcase(alpha2)}
      ensures r == if Upcase(alpha2) in old(registered) then Some(old(registered)[Upcase(alpha2)]) else None
      ensures countryCodes.Some? && Upcase(alpha2) in files.countryCodes ==>
                Upcase(alpha2) in InternalCodes() && Upcase(alpha2) !in cache
    {
      var code := Upcase(alpha2);
      r := if code in registered then Some(registered[code]) else None;
      cache := cache - {code};
      registered := registered - {code};
    }

    /** `reset` (lib/countries/data.rb:51-55): empty cache, nothing registered, nothing loaded. */
    method Reset()
      requires Valid()
      modifies this`cache, this`registered, this`loaded
      ensures Valid()
      ensures cache == map[] && registered == map[] && loaded == []
    {
      cache := map[];
      registered := map[];
      loaded := [];
    }
  }

  /**
   * The loop of `load_translations(l)` (lib/countries/data.rb:134-138) over `codes`: it stops at
   * the first code without a record and returns the cache as the loop left it.
   */
  method RunLoadPass(cache: map<string, Record>, codes: seq<string>, l: string, f: DataFiles)
    returns (m: map<string, Record>, k: nat)
    ensures k == FirstProblem(cache, codes, false)
    ensures m == LoadedPrefix(cache, codes, k, l, f)
  {
    m := cache;
    k := 0;
    while k < |codes|
      invariant 0 <= k <= |codes|
      invariant FirstProblem(cache, codes, false) == FirstProblemFrom(cache, codes, k, false)
      invariant m == LoadedPrefix(cache, codes, k, l, f)
    {
      var c := codes[k];
      if c !in m {
        return;
      }
      assert Problem(cache, c, false) == None;
      assert LoadedPrefix(cache, codes, k + 1, l, f) == LoadStep(m, c, l, f);
      m := m[c := WithTranslation(m[c], l, NameFor(f, l, c))];
      k := k + 1;
    }
  }

  /**
   * The loop of `unload_translations(l)` (lib/countries/data.rb:143-146) over `codes`: it stops at
   * the first code without a record or without a bucket and returns the cache as the loop left it.
   */
  method RunUnloadPass(cache: map<string, Record>, codes: seq<string>, l: string)
    returns (m: map<string, Record>, k: nat)
    ensures k == FirstProblem(cache, codes, true)
    ensures m == UnloadedPrefix(cache, codes, k, l)
  {
    m := cache;
    k := 0;
    while k < |codes|
      invariant 0 <= k <= |codes|
      invariant FirstProblem(cache, codes, true) == FirstProblemFrom(cache, codes, k, true)
      invariant m == UnloadedPrefix(cache, codes, k, l)
    {
      var c := codes[k];
      if c !in m {
        return;
      }
      UnloadedPrefixKeepsBuckets(cache, codes, k, l, c);
      if m[c].translations.None? {
        assert Problem(cache, c, true) == Some(NoTranslations(c));
        return;
      }
      m := m[c := WithoutTranslation(m[c], l)];
      k := k + 1;
    }
  }
}
