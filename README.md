# ISO3166::Data — the country cache and its locale synchronisation

A Dafny model of `ISO3166::Data` from the Ruby gem `countries` (lib/countries/data.rb).
The class keeps one process-wide cache: country code => record. It fills the cache from the
bundled `countries.json` on first use, and lays runtime registrations over it. On every read
it brings the translations of every bundled, unregistered ("internal") record in line with
the configured locales. It unloads the locales no longer requested, then loads the ones
still missing from `locales/<locale>.json`, and recomputes each record's `translated_names`
view as it goes.

Modules, leaves first:

- `Outcomes` (outcomes.dfy): `Option`, `Result`, and `Outcome` (`Pass | Fail(error)`).
  Ruby exceptions are modelled as `Fail` or `Err` values.
- `Locales` (locales.dfy): ASCII `downcase`/`upcase`, and Ruby's `Array#-` as `Minus`.
  Also the sync plan itself: `locales_to_load`, `locales_to_remove`,
  `cache_flush_required?`, what `loaded_locales` becomes, and the convergence proof.
- `Translations` (translations.dfy): a record's translation bucket as an
  insertion-ordered list of `(locale, name-or-nil)` pairs.
  - Get, Put and Delete behave like Ruby hash `[]`, `[]=` and `delete`.
  - `WithTranslation` and `WithoutTranslation` are one loop iteration of `load_translations`
    or `unload_translations` on one record.
- `CacheSpec` (cache_spec.dfy): the cache as a value. It covers:
  - the bundled files (`DataFiles`);
  - what `load_data!` builds;
  - one load or unload pass over the internal codes, with the first code that makes the
    pass raise;
  - a whole `sync_translations!` and a whole `update_cache`.
  Lemmas state each record's state after these operations.
- `CountryData` (store.dfy): class `Store`.
  - Its fields are the class variables `@@cache`, `@@registered_data`, `@@_country_codes` and
    `@@locales`, plus the two configuration lists the engine reads and writes.
  - Its methods are the engine's operations. The `each` loops are `while` loops, proved
    against the `CacheSpec` functions.

The bundled files are a constructor parameter (`files: DataFiles`): a missing file is an
empty map or an absent key, as `load_cache` returns `{}` for a missing path. Where Ruby raises
— `nil['translations']`, `nil.delete`, reading `@@_country_codes` before the first
`load_data!`, `nil.upcase` — the method returns a `Fail` value. The effects the loop made
before the raise stay, as they do in Ruby.

Two behaviours of the code worth knowing:

- Loading a locale sets the entry of *every* internal code: to `nil` when the locale file has
  no entry for the code, or when the file is missing (lib/countries/data.rb:136, 152). The
  code does not skip codes absent from the file.
- `unregister` of a code that is also bundled removes the bundled record until the cache is
  next emptied, e.g. by `reset`. The cache is not empty, so `load_data!` does not reload it (lib/countries/data.rb:43, 77, 100). The
  code is internal again (lib/countries/data.rb:109), so the next sync that has a locale to
  load or unload raises on `nil['translations']`. A register/unregister pair therefore does not
  restore the bundled record. `Store.Unregister` and `CacheSpec.MissingInternalRecordRaises`
  state this.

## Model

| member | source | states |
|---|---|---|
| Locales.Downcase | lib/countries/data.rb:125 | every character is lower-cased and nothing else changes; the result is lower case |
| Locales.Upcase | lib/countries/data.rb:12 | every character is upper-cased and nothing else changes; the result is upper case |
| Locales.DowncaseOfLower | lib/countries/data.rb:129 | lower-casing an already lower-case locale leaves it unchanged |
| Locales.UpcaseIdempotent | lib/countries/data.rb:12 | upper-casing twice is upper-casing once, so a code and its upper-cased form look up the same entry |
| Locales.DowncaseAll | lib/countries/data.rb:124-130 | the list is mapped element-wise by `Downcase`, with its length kept |
| Locales.AllLower | lib/countries/data.rb:124-126 | every requested locale, once normalised, is lower case |
| Locales.DowncaseAllOfLower | lib/countries/data.rb:128-130 | normalising a list of lower-case locales returns the list unchanged |
| Locales.Minus | lib/countries/data.rb:117 | `a - b` keeps exactly the elements of `a` not in `b`; it is no longer than `a` and has no repeats when `a` has none |
| Locales.MinusNothing | lib/countries/data.rb:121 | removing elements that do not occur leaves the list unchanged |
| Locales.MinusMinus | lib/countries/data.rb:147 | deleting one more locale after a removal is one removal of both, as in the unload loop of lines 88-90 |
| Locales.ToLoad | lib/countries/data.rb:116-118 | a locale is to load exactly when it is requested and not loaded |
| Locales.ToRemove | lib/countries/data.rb:120-122 | a locale is to remove exactly when it is loaded and not requested |
| Locales.FlushRequiredIffDiffer | lib/countries/data.rb:112-114 | a flush is required exactly when requested and loaded differ as sets (both directions) |
| Locales.FlushRequired | lib/countries/data.rb:112-114 | definition of `cache_flush_required?`: something to load or something to remove; `FlushRequiredIffDiffer` proves it means the two lists differ as sets |
| Locales.FirstPassLocale | lib/countries/data.rb:88-93 | the locale of the first pass a flushing sync runs: a loaded, no longer requested locale when there is one to remove, else a requested locale not yet loaded |
| Locales.Kept | lib/countries/data.rb:88-90 | definition: the loaded locales left after the unload phase has deleted `locales_to_remove` (line 147) |
| Locales.SyncedLoaded | lib/countries/data.rb:85-95 | definition: `loaded_locales` after a completed sync, unchanged without a flush, else the kept locales followed by the missing ones in requested order (lines 139, 147); `SyncConverges` proves it equals the requested locales as a set |
| Locales.Added | lib/countries/data.rb:92 | definition: `locales_to_load` as evaluated after the unload phase; `AddedIsToLoad` proves it holds the requested locales not loaded before the sync |
| Locales.AddedIsToLoad | lib/countries/data.rb:92 | the locales loaded after the unload phase are exactly the requested ones that were not loaded before the sync |
| Locales.SyncConverges | lib/countries/data.rb:85-95 | after a sync, loaded equals requested as a set, and a second sync has nothing to do |
| Translations.Keys | lib/countries/data.rb:136 | the keys of the bucket, in insertion order, one per entry |
| Translations.Values | lib/countries/data.rb:137 | `translations.values` (also at line 145): one per entry, in insertion order |
| Translations.Get | lib/countries/data.rb:136 | a lookup finds an entry exactly when the locale is a key |
| Translations.Put | lib/countries/data.rb:136 | after `t[l] = v`, looking up `l` yields `v` |
| Translations.PutKeys | lib/countries/data.rb:136 | storing under an existing key keeps the key order; a new key goes last |
| Translations.PutKeepsDistinct | lib/countries/data.rb:136 | storing never duplicates a key |
| Translations.Delete | lib/countries/data.rb:144 | after `t.delete(l)`, `l` has no entry |
| Translations.DeleteKeys | lib/countries/data.rb:144 | deleting drops exactly that key, keeps the order of the rest, and never duplicates a key |
| Translations.DeleteUndoesPut | lib/countries/data.rb:136-144 | deleting a key that was just added gives back the original bucket |
| Translations.PutTwice | lib/countries/data.rb:136 | storing the same value twice is storing it once |
| Translations.PutOther | lib/countries/data.rb:136 | storing under `l` leaves every other locale's entry unchanged |
| Translations.DeleteOther | lib/countries/data.rb:144 | deleting `l` leaves every other locale's entry unchanged |
| Translations.WithTranslation | lib/countries/data.rb:135-137 | a load step creates the bucket if missing and stores the locale's name; `translated_names` then equals `translations.values`; other attributes are unchanged |
| Translations.WithoutTranslation | lib/countries/data.rb:144-145 | an unload step removes the locale; `translated_names` then equals `translations.values`; other attributes are unchanged |
| Translations.WithTranslationKeepsOk | lib/countries/data.rb:135-137 | a load step keeps a record well formed: no duplicate key, and a current view |
| Translations.WithoutTranslationKeepsOk | lib/countries/data.rb:144-145 | an unload step keeps a record well formed |
| Translations.WithTranslationOther | lib/countries/data.rb:136 | loading one locale leaves the record's other locales unchanged |
| Translations.WithoutTranslationOther | lib/countries/data.rb:144 | unloading one locale leaves the record's other locales unchanged |
| Translations.UnloadUndoesLoad | lib/countries/data.rb:132-148 | unloading a locale that a load just added restores the record's bucket |
| Translations.LoadIdempotent | lib/countries/data.rb:132-138 | loading the same locale twice from the same file leaves the record as one load does |
| CacheSpec.BaseCache | lib/countries/data.rb:76-83 | a non-empty cache (`load_required?`, lines 99-101) is kept unchanged; an empty one becomes the bundled records overlaid by the registered ones, which win |
| CacheSpec.InternalCodesOf | lib/countries/data.rb:108-110 | a code is internal exactly when it is bundled and not registered; no repeats |
| CacheSpec.Problem | lib/countries/data.rb:135-144 | definition: what makes one iteration raise, `NoRecord` when the code has no cache entry (`nil['translations']`, lines 135 and 144), and for an unload `NoTranslations` when the record has no bucket (`nil.delete`, line 144) |
| CacheSpec.Ready | lib/countries/data.rb:134-146 | definition: every code has a record (and, for an unload, a bucket), so a pass over the codes cannot raise |
| CacheSpec.LoadStep | lib/countries/data.rb:134-137 | one load iteration changes only that code's record, which gets the locale's name from the file (nil if absent) |
| CacheSpec.UnloadStep | lib/countries/data.rb:143-145 | one unload iteration changes only that code's record, which loses the locale |
| CacheSpec.NameFor | lib/countries/data.rb:133-136 | definition: `locale_names[alpha2]`, nil when the locale file (line 152) or its entry for the code is missing |
| CacheSpec.BaseCodes | lib/countries/data.rb:79 | definition: `@@_country_codes` after `load_data!`, the bundled codes when the cache was empty (line 77), otherwise as before |
| CacheSpec.LoadedPrefix | lib/countries/data.rb:134-138 | the cache after the first `i` iterations of the load loop; it has the same codes as before |
| CacheSpec.UnloadedPrefix | lib/countries/data.rb:143-146 | the cache after the first `i` iterations of the unload loop; it has the same codes as before |
| CacheSpec.LoadPass | lib/countries/data.rb:132-140 | definition: the load loop run over every internal code; `LoadPassAt` states each record afterwards |
| CacheSpec.UnloadPass | lib/countries/data.rb:142-148 | definition: the unload loop run over every internal code; `UnloadPassAt` states each record afterwards |
| CacheSpec.CacheOkUnion | lib/countries/data.rb:38 | merging the registered records over the cache keeps every record well formed |
| CacheSpec.LoadedPrefixAt | lib/countries/data.rb:134-138 | after `i` load iterations, exactly the records of the first `i` codes hold the locale; all others are unchanged |
| CacheSpec.UnloadedPrefixAt | lib/countries/data.rb:143-146 | after `i` unload iterations, exactly the records of the first `i` codes have lost the locale; all others are unchanged |
| CacheSpec.LoadedPrefixKeepsOk | lib/countries/data.rb:134-138 | the load loop keeps every record's view current and its keys distinct |
| CacheSpec.UnloadedPrefixKeepsOk | lib/countries/data.rb:143-146 | the unload loop keeps every record's view current and its keys distinct |
| CacheSpec.UnloadedPrefixKeepsBuckets | lib/countries/data.rb:144 | the unload loop never adds or removes a bucket |
| CacheSpec.LoadPassAt | lib/countries/data.rb:132-140 | a completed load pass sets the locale on every internal record and touches no other record |
| CacheSpec.UnloadPassAt | lib/countries/data.rb:142-148 | a completed unload pass removes the locale from every internal record and touches no other record |
| CacheSpec.FirstProblemFrom | lib/countries/data.rb:134-144 | the index of the first code from `i` with no record (or no bucket, for an unload), and no such code before it |
| CacheSpec.FirstProblem | lib/countries/data.rb:134-144 | definition: the index of the code where a pass raises, the number of codes when it completes |
| CacheSpec.ReadyIffNoProblem | lib/countries/data.rb:134-146 | a pass completes exactly when no code stops it |
| CacheSpec.RaisesWith | lib/countries/data.rb:134-144 | definition: a pass raises the error of the first code that stops it |
| CacheSpec.StoppedAt | lib/countries/data.rb:132-148 | definition: the pass raised that error and left the cache with the codes before the stopping one done and the rest untouched |
| CacheSpec.SyncStopped | lib/countries/data.rb:85-95 | definition: a flush was required and its first pass, the unload of the first locale to remove or else the load of the first locale to load, stopped as `StoppedAt` says |
| CacheSpec.FirstProblemSame | lib/countries/data.rb:134-144 | caches with the same codes (and the same buckets, for an unload) stop a pass at the same code |
| CacheSpec.FirstProblemBuckets | lib/countries/data.rb:134-144 | an unload pass stops no later than a load pass over the same cache |
| CacheSpec.UnloadAll | lib/countries/data.rb:88-90 | one unload pass per locale, in order; the cache keeps its codes |
| CacheSpec.LoadAll | lib/countries/data.rb:92-94 | one load pass per locale, in order; the cache keeps its codes |
| CacheSpec.UnloadPhaseReadiesLoad | lib/countries/data.rb:88-94 | an unload phase that cannot raise leaves a cache on which the load phase cannot raise, so only the first pass of a sync can raise |
| CacheSpec.UnloadAllKeepsBuckets | lib/countries/data.rb:88-90 | the unload phase never adds or removes a bucket |
| CacheSpec.UnloadAllKeepsProblems | lib/countries/data.rb:88-94 | the unload phase does not change whether a later pass completes, where it raises, or with which error |
| CacheSpec.LoadAllKeepsProblems | lib/countries/data.rb:92-94 | earlier loads do not change whether a later load completes, where it raises, or with which error |
| CacheSpec.UnloadAllAt | lib/countries/data.rb:88-90 | after unloading a list of locales, an internal record has lost exactly those locales and kept its attributes; a non-internal record is unchanged |
| CacheSpec.LoadAllAt | lib/countries/data.rb:92-94 | after loading a list of locales, an internal record holds each one's name from the files and kept its attributes; a non-internal record is unchanged |
| CacheSpec.SyncedCache | lib/countries/data.rb:85-95 | the cache after a completed sync: unchanged without a flush, else `locales_to_remove` unloaded and then `Added` loaded; it keeps its codes |
| CacheSpec.SyncedAt | lib/countries/data.rb:85-95 | after a sync, an internal record holds the newly requested locales, has lost the ones no longer requested and keeps the rest; a non-internal record is unchanged |
| CacheSpec.SyncAgrees | lib/countries/data.rb:85-95 | a sync over a cache that agreed with the loaded locales makes it agree with the requested ones, and removes each locale no longer requested |
| CacheSpec.Refreshed | lib/countries/data.rb:62-66 | definition: `SyncedCache` over the cache `load_data!` leaves and the internal codes it records |
| CacheSpec.RefreshReady | lib/countries/data.rb:62-66 | definition: `update_cache` does not raise when no flush is required, or when the codes are defined and no internal code stops the first pass |
| CacheSpec.RefreshIdempotent | lib/countries/data.rb:62-66 | refreshing a state that a refresh produced changes nothing, and needs no flush |
| CacheSpec.ResetReloads | lib/countries/data.rb:51-55 | after a reset, the next refresh (lines 62-66, 76-95) rebuilds every bundled record and loads every requested locale into it, without raising |
| CacheSpec.RegisteredUntouched | lib/countries/data.rb:108-110 | registered codes are not internal, so a refresh leaves every registered code's cache entry unchanged |
| CacheSpec.MissingInternalRecordRaises | lib/countries/data.rb:134-144 | a bundled code with neither a cache entry nor a registration makes every refresh that has locales to sync raise |
| CountryData.Alpha2Of | lib/countries/data.rb:33 | definition: `data[:alpha2]` when it is a string; otherwise `upcase` raises, which `Register` reports as `BadAlpha2` |
| CountryData.RegisteredRecord | lib/countries/data.rb:34-37 | a registered record has the caller's attributes, a bucket with the inline translations (or an empty one), and no `translated_names` |
| CountryData.Store.constructor | lib/countries/data.rb:5-9 | the process starts with an empty cache, no registrations, undefined codes, an empty catalog and nothing loaded |
| CountryData.Store.RequestedLocales | lib/countries/data.rb:124-126 | definition: the configured locales, lower-cased |
| CountryData.Store.LoadedLocales | lib/countries/data.rb:128-130 | definition: the loaded locales, lower-cased |
| CountryData.Store.CacheFlushRequired | lib/countries/data.rb:112-114 | definition: `FlushRequired` of the requested and loaded locales |
| CountryData.Store.LocalesToLoad | lib/countries/data.rb:116-118 | definition: `ToLoad` of the requested and loaded locales |
| CountryData.Store.LocalesToRemove | lib/countries/data.rb:120-122 | definition: `ToRemove` of the requested and loaded locales |
| CountryData.Store.InternalCodes | lib/countries/data.rb:108-110 | definition: `InternalCodesOf` the recorded bundled codes (none while undefined) and the registrations |
| CountryData.Store.SetLocales | lib/countries/data.rb:124-126 | the caller sets the requested locales |
| CountryData.Store.LoadLocales | lib/countries/data.rb:159-165 | the locale catalog is read once, when it is empty, and is then memoised |
| CountryData.Store.LoadData | lib/countries/data.rb:76-83 | `load_data!` sets the cache to `BaseCache`, and records the bundled codes and the catalog only when the cache was empty |
| CountryData.Store.LoadTranslations | lib/countries/data.rb:132-140 | completes exactly when every internal code has a record, with the cache as `LoadPass` and the locale appended to loaded; otherwise fails at the first missing record with earlier records done |
| CountryData.Store.UnloadTranslations | lib/countries/data.rb:142-148 | completes exactly when every internal record has a bucket, with the cache as `UnloadPass` and every copy of the locale deleted from loaded; otherwise fails at the first problem with earlier records done |
| CountryData.Store.SyncTranslations | lib/countries/data.rb:85-95 | changes nothing when no flush is required; otherwise completes exactly when the passes cannot raise, with the cache as `SyncedCache` and loaded as `SyncedLoaded`; when it raises, only the first pass ran: loaded is unchanged and the cache is that pass stopped at its first problem (`SyncStopped`) |
| CountryData.Store.UnloadEach | lib/countries/data.rb:88-90 | unloads each locale in order; the cache is `UnloadAll`, and loaded has lost those locales; a raise can only come from the first locale, with loaded unchanged and the cache as that pass left it |
| CountryData.Store.LoadEach | lib/countries/data.rb:92-94 | loads each locale in order; the cache is `LoadAll`, and loaded has those locales appended; a raise can only come from the first locale, with loaded unchanged and the cache as that pass left it |
| CountryData.Store.UpdateCache | lib/countries/data.rb:62-66 | (also `cache`, lines 47-49) returns the cache as `Refreshed` exactly when `RefreshReady` holds, with loaded synced and no further flush required; otherwise raises with the base data loaded, loaded unchanged and the first sync pass stopped at its first problem (`SyncStopped`) |
| CountryData.Store.Call | lib/countries/data.rb:11-17 | returns the refreshed cache's entry for the upper-cased code, or nil when that code is absent; the codes, the catalog and loaded are left as `update_cache` leaves them; when it raises, loaded is unchanged and the cache is the base data with the first sync pass stopped at its first problem (`SyncStopped`) |
| CountryData.Store.Codes | lib/countries/data.rb:57-60 | loads the base data and returns its codes (`loaded_codes`, lines 103-105): after an empty cache, the bundled codes plus the registered ones; the codes and the locale catalog are set as `load_data!` sets them, the catalog read only when the cache and the catalog were empty (lines 80, 159-165) |
| CountryData.Store.Register | lib/countries/data.rb:32-39 | stores the record under the upper-cased alpha2, refreshes, and overlays every registration on the result, so the new entry is visible; the codes, the catalog and loaded are left as `update_cache` leaves them; when the refresh raises, loaded is unchanged and the cache is the base data with the first sync pass stopped at its first problem (`SyncStopped`); a non-string alpha2 fails with nothing changed |
| CountryData.Store.Unregister | lib/countries/data.rb:41-45 | removes the upper-cased code from the cache and the registrations and changes nothing else; a bundled code becomes internal with no record |
| CountryData.Store.Reset | lib/countries/data.rb:51-55 | empties the cache, the registrations and the loaded locales; the requested locales are kept |
| CountryData.RunLoadPass | lib/countries/data.rb:134-138 | the load loop stops at the first internal code without a record, with the cache as every earlier iteration left it |
| CountryData.RunUnloadPass | lib/countries/data.rb:143-146 | the unload loop stops at the first internal code without a record or a bucket, with the cache as every earlier iteration left it |

## Left out

- Reading files: `load_cache`, `datafile_path`, JSON parsing, and the `Dir.glob` of the
  locale-definition files (lib/countries/data.rb:150-169). They are the given `DataFiles`
  value. A missing file is an empty map or an absent key.
- `cache_dir`, `data_dir`, `cache_dir=` (lib/countries/data.rb:20-30). These only build paths;
  a `DataFiles` value stands for one directory's contents.
- `locale` / `find_locale_code` / `locale_path` (lib/countries/data.rb:72-74, 171-178). They
  read a YAML file and never touch the cache.
- `locales` (lib/countries/data.rb:68-70). It is `load_locales`, modelled as `Store.LoadLocales`.
- `.freeze` (lib/countries/data.rb:136-137, 145). It has no effect on the values the model
  tracks.
- Concurrency. The source has no locking, and the model is sequential.
- lib/countries/country.rb is not part of this model. It is a facade over cache entries. A
  caller that grows `configuration.locales` is `Store.SetLocales`.
- lib/countries/translations.rb is not part of this model. Its `Translations` class is
  modelled only as an insertion-ordered hash: store, delete and `values`.
- Locales.Downcase: maps ASCII letters only. Ruby's `String#downcase` also folds non-ASCII
  letters; locale codes are ASCII.
- Locales.Upcase: maps ASCII letters only. Ruby's `String#upcase` (lines 12, 33, 42) also folds
  non-ASCII letters; country codes are ASCII.
- Translations.Value: JSON numbers are modelled as integers only, because the engine never
  reads attribute values.
- CountryData.RegisteredRecord: Ruby's `k.to_s` turns symbol keys into strings. The model
  takes string keys already, because symbols and strings are not distinguished here. A
  caller-supplied `translated_names` key stays an ordinary attribute.
- CountryData.Alpha2Of: `data[:alpha2]` that is not a string fails with `BadAlpha2`. Ruby
  would also upcase a Symbol; the model does not.
- CountryData.Store.Register: returns only whether it raised, not Ruby's return value, the merged cache of line 38; the contract states that cache as the new `cache`.
- CountryData.Store.Codes: returns the cache's key set, not the ordered array `@@cache.keys`.
- Aliasing: Ruby shares record objects between `@@registered_data` and `@@cache`. The model
  copies values. No shared record is ever mutated: registered codes are never internal, and
  bundled records are not cached anywhere else.
- CountryData.Store.Register: `inline` stands for `data[:translations]`; the caller passes the two
  consistently, and the model does not tie `inline` to `data["translations"]`.
- CacheSpec.FilesOk: assumes every bundled record in countries.json is well formed, i.e. carries
  no stale `translated_names` that disagrees with its translations. The code does not check this.
- Ruby `configuration.loaded_locales` assigned by a caller: the model assumes it only changes
  through the engine and `reset`, so it holds lower-case locales (`Store.Valid`).
