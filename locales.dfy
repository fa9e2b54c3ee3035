/**
 * Locale codes and the list arithmetic the synchronisation engine performs on them
 * (lib/countries/data.rb:112-130): requested and loaded locales are lists of strings,
 * compared after lower-casing, and the deltas are Ruby `Array#-`.
 */
module Locales {

  /** `String#downcase` on one character (ASCII letters only). */
  function LowerChar(c: char): char {
    if 'A' <= c <= 'Z' then (c as int + 32) as char else c
  }

  /** `String#upcase` on one character (ASCII letters only). */
  function UpperChar(c: char): char {
    if 'a' <= c <= 'z' then (c as int - 32) as char else c
  }

  /** No upper-case ASCII letter occurs in `s`. */
  predicate IsLower(s: string) {
    forall i :: 0 <= i < |s| ==> !('A' <= s[i] <= 'Z')
  }

  /** No lower-case ASCII letter occurs in `s`. */
  predicate IsUpper(s: string) {
    forall i :: 0 <= i < |s| ==> !('a' <= s[i] <= 'z')
  }

  /** `s.downcase`: every letter lower-cased, nothing else touched. */
  function Downcase(s: string): (r: string)
    ensures |r| == |s|
    ensures forall i :: 0 <= i < |s| ==> r[i] == LowerChar(s[i])
    ensures IsLower(r)
  {
    if s == [] then [] else [LowerChar(s[0])] + Downcase(s[1..])
  }

  /** `s.upcase`: every letter upper-cased, nothing else touched. */
  function Upcase(s: string): (r: string)
    ensures |r| == |s|
    ensures forall i :: 0 <= i < |s| ==> r[i] == UpperChar(s[i])
    ensures IsUpper(r)
  {
    if s == [] then [] else [UpperChar(s[0])] + Upcase(s[1..])
  }

  /** Lower-casing a string that is already lower case changes nothing. */
  lemma {:induction false} DowncaseOfLower(s: string)
    requires IsLower(s)
    ensures Downcase(s) == s
  {
    if s != [] {
      DowncaseOfLower(s[1..]);
    }
  }

  /** Upper-casing twice is upper-casing once: `Data.new(c).call` and `Data.new(c.upcase).call` agree. */
  lemma {:induction false} UpcaseIdempotent(s: string)
    ensures Upcase(Upcase(s)) == Upcase(s)
  {
    if s != [] {
      UpcaseIdempotent(s[1..]);
      assert Upcase(s)[1..] == Upcase(s[1..]);
    }
  }

  /** `list.map { |l| l.to_s.downcase }` (lib/countries/data.rb:125, 129). */
  function DowncaseAll(ls: seq<string>): (r: seq<string>)
    ensures |r| == |ls|
    ensures forall i :: 0 <= i < |ls| ==> r[i] == Downcase(ls[i])
  {
    if ls == [] then [] else [Downcase(ls[0])] + DowncaseAll(ls[1..])
  }

  /** Every member of a lower-cased list is lower case. */
  lemma AllLower(ls: seq<string>)
    ensures forall l :: l in DowncaseAll(ls) ==> IsLower(l)
  {
  }

  /** A list of lower-case locales is its own lower-cased form. */
  lemma {:induction false} DowncaseAllOfLower(ls: seq<string>)
    requires forall l :: l in ls ==> IsLower(l)
    ensures DowncaseAll(ls) == ls
  {
    if ls != [] {
      DowncaseOfLower(ls[0]);
      DowncaseAllOfLower(ls[1..]);
    }
  }

  /** In a list without repeats, an element is not among the ones before it. */
  lemma DistinctTake(s: seq<string>, i: nat)
    requires Distinct(s) && i < |s|
    ensures s[..i + 1] == s[..i] + [s[i]]
    ensures s[i] !in s[..i]
  {
  }

  /** Taking one more element of a sequence appends that element. */
  lemma TakeOneMore(s: seq<string>, i: nat, p: seq<string>)
    requires i < |s|
    ensures s[..i + 1] == s[..i] + [s[i]]
    ensures p + s[..i + 1] == p + s[..i] + [s[i]]
    ensures s[..i + 1][..i] == s[..i]
    ensures Elems(s[..i + 1]) == Elems(s[..i]) + {s[i]}
  {
  }

  /** The members of a list, as a set. */
  function Elems(s: seq<string>): set<string> {
    set x | x in s
  }

  /** No element occurs twice. */
  predicate Distinct(s: seq<string>) {
    forall i, j :: 0 <= i < j < |s| ==> s[i] != s[j]
  }

  /**
   * Ruby's `a - b` on arrays: the elements of `a` that do not occur in `b`,
   * in `a`'s order and with `a`'s repetitions. With `b` a single element it is
   * also `a.delete(x)` (lib/countries/data.rb:147), which removes every copy.
   */
  function Minus(a: seq<string>, b: set<string>): (r: seq<string>)
    ensures forall x :: x in r <==> x in a && x !in b
    ensures |r| <= |a|
    ensures Distinct(a) ==> Distinct(r)
  {
    if a == [] then []
    else if a[0] in b then Minus(a[1..], b)
    else [a[0]] + Minus(a[1..], b)
  }

  /** Removing nothing that occurs leaves the list as it was. */
  lemma {:induction false} MinusNothing(a: seq<string>, b: set<string>)
    requires forall x :: x in a ==> x !in b
    ensures Minus(a, b) == a
  {
    if a != [] {
      MinusNothing(a[1..], b);
    }
  }

  /** Two successive removals are one removal of both: the unload loop's effect on `loaded_locales`. */
  lemma {:induction false} MinusMinus(a: seq<string>, b: set<string>, x: string)
    ensures Minus(Minus(a, b), {x}) == Minus(a, b + {x})
  {
    if a != [] {
      MinusMinus(a[1..], b, x);
    }
  }

  /** `locales_to_load`: requested locales not yet loaded (lib/countries/data.rb:116-118). */
  function ToLoad(requested: seq<string>, loaded: seq<string>): (r: seq<string>)
    ensures forall l :: l in r <==> l in requested && l !in loaded
  {
    Minus(requested, Elems(loaded))
  }

  /** `locales_to_remove`: loaded locales no longer requested (lib/countries/data.rb:120-122). */
  function ToRemove(requested: seq<string>, loaded: seq<string>): (r: seq<string>)
    ensures forall l :: l in r <==> l in loaded && l !in requested
  {
    Minus(loaded, Elems(requested))
  }

  /** `cache_flush_required?` (lib/countries/data.rb:112-114). */
  predicate FlushRequired(requested: seq<string>, loaded: seq<string>) {
    ToLoad(requested, loaded) != [] || ToRemove(requested, loaded) != []
  }

  /** A flush is required exactly when the two lists differ as sets. */
  lemma FlushRequiredIffDiffer(requested: seq<string>, loaded: seq<string>)
    ensures FlushRequired(requested, loaded) <==> Elems(requested) != Elems(loaded)
  {
    if ToLoad(requested, loaded) != [] {
      var x := ToLoad(requested, loaded)[0];
      assert x in Elems(requested) && x !in Elems(loaded);
    } else if ToRemove(requested, loaded) != [] {
      var x := ToRemove(requested, loaded)[0];
      assert x in Elems(loaded) && x !in Elems(requested);
    } else {
      assert Elems(requested) == Elems(loaded);
    }
  }

  /**
   * The locale of the first pass a sync runs: the first locale to remove, or, when there is
   * none, the first locale to load.
   */
  function FirstPassLocale(requested: seq<string>, loaded: seq<string>): (r: string)
    requires FlushRequired(requested, loaded)
    ensures ToRemove(requested, loaded) != [] ==> r in loaded && r !in requested
    ensures ToRemove(requested, loaded) == [] ==> r in requested && r !in loaded
  {
    if ToRemove(requested, loaded) != [] then ToRemove(requested, loaded)[0] else ToLoad(requested, loaded)[0]
  }

  /** The loaded locales that survive the unload phase of a sync pass. */
  function Kept(loaded: seq<string>, requested: seq<string>): seq<string> {
    Minus(loaded, Elems(ToRemove(requested, loaded)))
  }

  /**
   * `configuration.loaded_locales` after `sync_translations!`: the unloaded locales are
   * deleted, then the locales still missing are appended in requested order.
   */
  function SyncedLoaded(loaded: seq<string>, requested: seq<string>): seq<string> {
    if !FlushRequired(requested, loaded) then loaded
    else Kept(loaded, requested) + ToLoad(requested, Kept(loaded, requested))
  }

  /** The locales the load phase of a sync pass reads, computed after the unload phase. */
  function Added(loaded: seq<string>, requested: seq<string>): seq<string> {
    ToLoad(requested, Kept(loaded, requested))
  }

  /** The load phase reads exactly the requested locales that were not loaded before the pass. */
  lemma AddedIsToLoad(loaded: seq<string>, requested: seq<string>)
    ensures forall l :: l in Added(loaded, requested) <==> l in requested && l !in loaded
  {
    forall l ensures l in Kept(loaded, requested) <==> l in loaded && l in requested {
    }
  }

  /**
   * A sync pass converges: afterwards the loaded locales equal the requested ones as sets,
   * and a second pass has nothing to do.
   */
  lemma SyncConverges(loaded: seq<string>, requested: seq<string>)
    ensures Elems(SyncedLoaded(loaded, requested)) == Elems(requested)
    ensures !FlushRequired(requested, SyncedLoaded(loaded, requested))
  {
    FlushRequiredIffDiffer(requested, loaded);
    var s := SyncedLoaded(loaded, requested);
    if FlushRequired(requested, loaded) {
      AddedIsToLoad(loaded, requested);
      forall l ensures l in s <==> l in requested {
        assert l in Kept(loaded, requested) <==> l in loaded && l in requested;
      }
    }
    assert Elems(s) == Elems(requested);
    FlushRequiredIffDiffer(requested, s);
  }
}
