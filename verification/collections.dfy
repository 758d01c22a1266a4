/**
 The collection store: the process-wide `_collections` record and
 `loadCollection`. A key that is absent has not been tried yet; `NotFound`
 is the `false` sentinel; `Loaded` holds a parsed dataset. The package
 resolver, the file read and `JSON.parse` together form the provider, an
 arbitrary function of the collection name.
 */
module CollectionStore {

  /** A cached outcome: `Loaded(dataset)` or the `false` sentinel. */
  datatype Entry<D> = Loaded(dataset: D) | NotFound

  type Cache<D> = map<string, Entry<D>>

  /**
   What resolving `@iconify-json/<name>/icons.json` and reading it yields:
   no such package, a parsed dataset, or an exception from the read or the
   parse.
   */
  datatype Source<D> = NoPackage | Parsed(dataset: D) | Unreadable

  /** Result of one `loadCollection` call: a dataset, `undefined`, or a thrown exception. */
  datatype Lookup<D> = Hit(dataset: D) | Miss | Fault

  /** The cache after a call, its result, and whether the provider was consulted. */
  datatype Step<D> = Step(cache: Cache<D>, result: Lookup<D>, consulted: bool)

  /** Every entry of `c` is in `c'` unchanged. */
  predicate Extends<D(==)>(c: Cache<D>, c': Cache<D>) {
    forall k :: k in c ==> k in c' && c'[k] == c[k]
  }

  /** `loadCollection(name)` with own-key lookups in the cache. */
  function LoadCollection<D(==)>(cache: Cache<D>, provider: string -> Source<D>, name: string): (s: Step<D>)
    // A cached outcome is returned as it is, without asking the provider.
    ensures name in cache ==> s.cache == cache && !s.consulted
    ensures name in cache && cache[name].NotFound? ==> s.result == Miss
    ensures name in cache && cache[name].Loaded? ==> s.result == Hit(cache[name].dataset)
    // An untried name is always looked up, and the outcome is recorded unless the read threw.
    ensures name !in cache ==> s.consulted
    ensures name !in cache && provider(name).NoPackage? ==> s.result == Miss && s.cache == cache[name := NotFound]
    ensures name !in cache && provider(name).Parsed? ==>
      s.result == Hit(provider(name).dataset) && s.cache == cache[name := Loaded(provider(name).dataset)]
    ensures name !in cache && provider(name).Unreadable? ==> s.result == Fault && s.cache == cache
    // Only the entry for `name` can change, and no entry is ever overwritten.
    ensures Extends(cache, s.cache)
    ensures s.cache.Keys <= cache.Keys + {name}
    ensures s.result != Fault ==> name in s.cache
    ensures s.result.Hit? ==> name in s.cache && s.cache[name] == Loaded(s.result.dataset)
    ensures s.result.Miss? ==> name in s.cache && s.cache[name] == NotFound
  {
    if name in cache then
      match cache[name]
      case NotFound => Step(cache, Miss, false)
      case Loaded(d) => Step(cache, Hit(d), false)
    else
      match provider(name)
      case NoPackage => Step(cache[name := NotFound], Miss, true)
      case Parsed(d) => Step(cache[name := Loaded(d)], Hit(d), true)
      case Unreadable => Step(cache, Fault, true)
  }

  /** A second call for a name whose first call did not throw consults nobody and repeats the answer. */
  lemma LoadTwice<D>(cache: Cache<D>, provider: string -> Source<D>, name: string)
    requires LoadCollection(cache, provider, name).result != Fault
    ensures var s := LoadCollection(cache, provider, name);
            var s' := LoadCollection(s.cache, provider, name);
            !s'.consulted && s'.result == s.result && s'.cache == s.cache
  {
  }

  /**
   A sequence of `loadCollection` calls: the final cache and the names for
   which the provider was consulted, in order.
   */
  function LoadAll<D(==)>(cache: Cache<D>, provider: string -> Source<D>, names: seq<string>): (r: (Cache<D>, seq<string>))
    // Only names of the sequence are added, and only names that were not cached at the start are looked up.
    ensures forall k :: k in r.0 ==> k in cache || k in names
    ensures forall n :: n in r.1 ==> n in names && n !in cache
    ensures |r.1| <= |names|
    decreases |names|
  {
    if |names| == 0 then (cache, [])
    else
      var s := LoadCollection(cache, provider, names[0]);
      var (c, log) := LoadAll(s.cache, provider, names[1..]);
      (c, if s.consulted then [names[0]] + log else log)
  }

  /** Cached outcomes are stable: no sequence of calls changes or removes an entry. */
  lemma {:induction false} LoadAllKeepsEntries<D>(cache: Cache<D>, provider: string -> Source<D>, names: seq<string>)
    ensures Extends(cache, LoadAll(cache, provider, names).0)
    decreases |names|
  {
    if |names| > 0 {
      var s := LoadCollection(cache, provider, names[0]);
      LoadAllKeepsEntries(s.cache, provider, names[1..]);
    }
  }

  /** A name already cached is never handed to the provider again. */
  lemma {:induction false} CachedNeverConsulted<D>(cache: Cache<D>, provider: string -> Source<D>, names: seq<string>, name: string)
    requires name in cache
    ensures name !in LoadAll(cache, provider, names).1
    decreases |names|
  {
    if |names| > 0 {
      var s := LoadCollection(cache, provider, names[0]);
      CachedNeverConsulted(s.cache, provider, names[1..], name);
    }
  }

  /**
   At most one provider lookup per collection name over any sequence of
   calls, unless the lookup itself throws (a throw caches nothing, so the next
   call tries again).
   */
  lemma {:induction false} AtMostOneLookup<D>(cache: Cache<D>, provider: string -> Source<D>, names: seq<string>, name: string)
    requires !provider(name).Unreadable?
    ensures multiset(LoadAll(cache, provider, names).1)[name] <= (if name in cache then 0 else 1)
    decreases |names|
  {
    if |names| > 0 {
      var s := LoadCollection(cache, provider, names[0]);
      var log := LoadAll(s.cache, provider, names[1..]).1;
      AtMostOneLookup(s.cache, provider, names[1..], name);
      if names[0] == name && s.consulted {
        CachedNeverConsulted(s.cache, provider, names[1..], name);
        assert multiset(log)[name] == 0;
      }
    }
  }

  /** After a sequence of calls, every name it mentions is cached unless its lookup throws. */
  lemma {:induction false} LoadAllRecords<D>(cache: Cache<D>, provider: string -> Source<D>, names: seq<string>, i: nat)
    requires i < |names| && !provider(names[i]).Unreadable?
    ensures names[i] in LoadAll(cache, provider, names).0
    decreases |names|
  {
    var s := LoadCollection(cache, provider, names[0]);
    if i == 0 {
      LoadAllKeepsEntries(s.cache, provider, names[1..]);
    } else {
      LoadAllRecords(s.cache, provider, names[1..], i - 1);
    }
  }

  /**
   Property names every ordinary JavaScript object inherits from
   `Object.prototype`. Reading one of them from the plain `{}` that backs the
   cache yields a function (or, for `__proto__`, an object), which is truthy.
   */
  const PrototypeNames: set<string> := {
    "constructor", "hasOwnProperty", "isPrototypeOf", "propertyIsEnumerable",
    "toString", "toLocaleString", "valueOf", "__proto__",
    "__defineGetter__", "__defineSetter__", "__lookupGetter__", "__lookupSetter__"
  }

  /** What `loadCollection` as written can return: an inherited member is returned as if it were a dataset. */
  datatype Returned<D> = Dataset(dataset: D) | Inherited(member: string) | Undefined | Thrown

  /**
   `loadCollection` as written, where `_collections[name]` also sees the
   inherited members of `Object.prototype`. Such a name is neither `false`
   nor an own entry, yet it is truthy, so it is returned without consulting
   the provider.
   */
  function LoadCollectionAsWritten<D(==)>(cache: Cache<D>, provider: string -> Source<D>, name: string): (r: (Cache<D>, Returned<D>, bool))
    ensures name !in cache && name in PrototypeNames ==> r == (cache, Inherited(name), false)
    ensures name !in PrototypeNames ==> r.2 == LoadCollection(cache, provider, name).consulted
    ensures name !in PrototypeNames ==> r.0 == LoadCollection(cache, provider, name).cache
    ensures name !in PrototypeNames ==> AgreesWith(r.1, LoadCollection(cache, provider, name).result)
  {
    if name in cache then
      match cache[name]
      case NotFound => (cache, Undefined, false)
      case Loaded(d) => (cache, Dataset(d), false)
    else if name in PrototypeNames then (cache, Inherited(name), false)
    else
      match provider(name)
      case NoPackage => (cache[name := NotFound], Undefined, true)
      case Parsed(d) => (cache[name := Loaded(d)], Dataset(d), true)
      case Unreadable => (cache, Thrown, true)
  }

  /** An as-written return value matches a lookup result. */
  predicate AgreesWith<D(==)>(r: Returned<D>, l: Lookup<D>) {
    match l
    case Hit(d) => r == Dataset(d)
    case Miss => r == Undefined
    case Fault => r == Thrown
  }

  /**
   The discrepancy: with an empty cache and a provider that has a `toString`
   collection, the code as written returns `Object.prototype.toString` and
   never asks the provider, while an own-key lookup loads the dataset.
   */
  lemma PrototypeNameSkipsProvider<D>(d: D)
    ensures var provider := (n: string) => if n == "toString" then Parsed(d) else NoPackage;
            var empty: Cache<D> := map[];
            LoadCollectionAsWritten(empty, provider, "toString") == (empty, Inherited("toString"), false)
            && LoadCollection(empty, provider, "toString") == Step(map["toString" := Loaded(d)], Hit(d), true)
  {
    assert "toString" in PrototypeNames;
  }
}
