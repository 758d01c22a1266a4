/**
 The icons preset's single rule, end to end: a class name is matched against
 `^i-(\w+)-(.+)$`, the collection is loaded through the cache, the icon is
 rendered to SVG markup, inlined, base64-encoded into a data URL and turned
 into the declarations of the chosen mode. The icon library's
 `getIconData` and `iconToSVG` are parameters, as is the provider behind
 `loadCollection`.
 */
module IconRule {
  import opened Wrappers
  import opened Text
  import Reference
  import opened CollectionStore
  import Svg
  import Inline
  import opened Css

  /** The preset options; `scaleText` is the scale as JavaScript renders it in `${scale}`. */
  datatype Options = Options(scaleText: string, mode: Mode)

  /** `scale = 1`, `mode = 'auto'`. */
  const DefaultOptions: Options := Options("1", Auto)

  /**
   The foreign collaborators: the provider behind `loadCollection`,
   `getIconData(iconSet, id, true)` and `iconToSVG(iconData, customisations)`
   with the customisations reduced to the size text.
   */
  datatype Env<!D, !I> = Env(
    provider: string -> Source<D>,
    getIconData: (D, string) -> Option<I>,
    iconToSvg: (I, string) -> Svg.SvgParts)

  /** What the rule hands back to the rule engine: no match, declarations, or a thrown exception. */
  datatype Outcome = NoMatch | Declared(decls: seq<Decl>) | Threw

  /** The cache after one rule invocation, its outcome, and whether the provider was consulted. */
  datatype Resolution<D> = Resolution(cache: Cache<D>, outcome: Outcome, consulted: bool)

  /** `searchForIcon`: the collection step and, when the icon exists, its SVG markup. */
  function SearchForIcon<D(==), I>(env: Env<D, I>, cache: Cache<D>, collection: string, id: string, scaleText: string)
    : (r: (Step<D>, Option<string>))
    ensures r.0 == LoadCollection(cache, env.provider, collection)
    ensures r.1.Some? ==> r.0.result.Hit? && env.getIconData(r.0.result.dataset, id).Some?
    // Found markup is never the empty string, so `if (!svg) return` fires only for `undefined`.
    ensures r.1.Some? ==> |r.1.value| > 0
  {
    var step := LoadCollection(cache, env.provider, collection);
    if !step.result.Hit? then (step, None)
    else
      match env.getIconData(step.result.dataset, id)
      case None => (step, None)
      case Some(icon) =>
        (step, Some(Svg.Serialize(env.iconToSvg(icon, Size(scaleText)))))
  }

  /** Lines after `searchForIcon` succeeds: inline, choose the mode, build the declarations. */
  function Emit(opts: Options, svg: string): (ds: seq<Decl>)
    ensures Properties(ds) == MaskProperties || Properties(ds) == BackgroundProperties
    ensures Distinct(Properties(ds))
    ensures |ds| >= 5
  {
    var inline := Inline.InlineSvg(svg);
    var mode := ChooseMode(opts.mode, inline);
    Declarations(mode, DataUrl(Payload(inline)), opts.scaleText)
  }

  /** One invocation of the rule on a class name. */
  function ResolveToken<D(==), I>(env: Env<D, I>, opts: Options, cache: Cache<D>, token: string): (r: Resolution<D>)
    // A class name that does not match the pattern never reaches the rule body.
    ensures Reference.Parse(token).None? ==> r == Resolution(cache, NoMatch, false)
    // The cache only grows, and only at the referenced collection.
    ensures Extends(cache, r.cache)
    ensures Reference.Parse(token).Some? ==> r.cache.Keys <= cache.Keys + {Reference.Parse(token).value.collection}
    // The provider is consulted only for an untried collection, and an exception is the provider's.
    ensures r.consulted ==> Reference.Parse(token).Some? && Reference.Parse(token).value.collection !in cache
    ensures r.outcome == Threw <==>
      Reference.Parse(token).Some? && Reference.Parse(token).value.collection !in cache
      && env.provider(Reference.Parse(token).value.collection).Unreadable?
    // A match always carries a full declaration list, never an empty one.
    ensures r.outcome.Declared? ==> |r.outcome.decls| >= 5
  {
    match Reference.Parse(token)
    case None => Resolution(cache, NoMatch, false)
    case Some(ref) =>
      var (step, svg) := SearchForIcon(env, cache, ref.collection, ref.icon, opts.scaleText);
      var outcome :=
        if step.result.Fault? then Threw
        else if svg.None? then NoMatch
        else Declared(Emit(opts, svg.value));
      Resolution(step.cache, outcome, step.consulted)
  }

  /** What a collection name resolves to from a given cache. */
  function Resolves<D(==), I>(env: Env<D, I>, cache: Cache<D>, name: string): Lookup<D> {
    LoadCollection(cache, env.provider, name).result
  }

  /** An unavailable collection gives no match: `undefined`, never an empty object. */
  lemma NoMatchWithoutCollection<D, I>(env: Env<D, I>, opts: Options, cache: Cache<D>, ref: Reference.IconRef)
    requires Reference.WellFormed(ref)
    requires Resolves(env, cache, ref.collection) == Miss
    ensures ResolveToken(env, opts, cache, Reference.Token(ref)).outcome == NoMatch
  {
    Reference.ParseToken(ref);
  }

  /** A collection without the icon gives no match. */
  lemma NoMatchWithoutIcon<D, I>(env: Env<D, I>, opts: Options, cache: Cache<D>, ref: Reference.IconRef, d: D)
    requires Reference.WellFormed(ref)
    requires Resolves(env, cache, ref.collection) == Hit(d)
    requires env.getIconData(d, ref.icon).None?
    ensures ResolveToken(env, opts, cache, Reference.Token(ref)).outcome == NoMatch
  {
    Reference.ParseToken(ref);
  }

  /** A found icon gives the declarations emitted for its markup, rendered at `${scale}em`. */
  lemma FoundIconEmits<D, I>(env: Env<D, I>, opts: Options, cache: Cache<D>, ref: Reference.IconRef, d: D, icon: I)
    requires Reference.WellFormed(ref)
    requires Resolves(env, cache, ref.collection) == Hit(d)
    requires env.getIconData(d, ref.icon) == Some(icon)
    ensures ResolveToken(env, opts, cache, Reference.Token(ref)).outcome
            == Declared(Emit(opts, Svg.Serialize(env.iconToSvg(icon, Size(opts.scaleText)))))
  {
    Reference.ParseToken(ref);
  }

  /**
   A found icon gives the declarations of the chosen mode; its markup is
   rendered at `${scale}em`, the size the declarations also use for
   height and width.
   */
  lemma MatchWithIcon<D, I>(env: Env<D, I>, opts: Options, cache: Cache<D>, ref: Reference.IconRef, d: D, icon: I)
    requires Reference.WellFormed(ref)
    requires Resolves(env, cache, ref.collection) == Hit(d)
    requires env.getIconData(d, ref.icon) == Some(icon)
    ensures var r := ResolveToken(env, opts, cache, Reference.Token(ref));
            var svg := Svg.Serialize(env.iconToSvg(icon, Size(opts.scaleText)));
            && r.outcome == Declared(Emit(opts, svg))
            && ValueOf(r.outcome.decls, "height") == ValueOf(r.outcome.decls, "width") == Some(Size(opts.scaleText))
  {
    FoundIconEmits(env, opts, cache, ref, d, icon);
    var svg := Svg.Serialize(env.iconToSvg(icon, Size(opts.scaleText)));
    var inline := Inline.InlineSvg(svg);
    DeclarationValues(ChooseMode(opts.mode, inline), DataUrl(Payload(inline)), opts.scaleText);
  }

  /** Serialised markup always has an opening tag for the namespace injection to follow. */
  lemma SerializedHasOpenTag(parts: Svg.SvgParts)
    ensures OccursIn(Inline.OpenTag, Svg.Serialize(parts))
  {
    assert OccursAt(Svg.Serialize(parts), Inline.OpenTag, 0);
  }

  /** An explicit mode is kept; `auto` means the mask exactly when the markup mentions `currentColor`. */
  lemma EmitMode(opts: Options, svg: string)
    ensures var inline := Inline.InlineSvg(svg);
            var mode := if opts.mode == Auto then (if OccursIn(CurrentColor, svg) then Mask else BackgroundImg) else opts.mode;
            Emit(opts, svg) == Declarations(mode, DataUrl(Payload(inline)), opts.scaleText)
  {
    AutoModeFollowsMarkup(svg);
  }

  /**
   The data URL's payload decodes to the inlined markup, which has no
   double quote and names the SVG namespace.
   */
  lemma InlinedPayload(parts: Svg.SvgParts)
    ensures var inline := Inline.InlineSvg(Svg.Serialize(parts));
            && '"' !in inline && OccursIn(Inline.SvgNamespace, inline)
            && Base64.Decode(Payload(inline)) == Some(Utf8.Encode(inline))
            && Utf8.Decode(Utf8.Encode(inline)) == Some(inline)
  {
    var svg := Svg.Serialize(parts);
    SerializedHasOpenTag(parts);
    var inline := Inline.InlineSvg(svg);
    assert '"' !in inline && OccursIn(Inline.SvgNamespace, inline);
    PayloadRoundTrip(inline);
  }

  /**
   The data URL the declarations carry, in `--un-icon` for the mask and in
   `background` otherwise, holds between its fixed prefix and `")` a payload
   that decodes to the inlined markup.
   */
  lemma EmittedUrlDecodes(opts: Options, svg: string)
    ensures var inline := Inline.InlineSvg(svg);
            var ds := Emit(opts, svg);
            var mode := ChooseMode(opts.mode, inline);
            var url := DataUrl(Payload(inline));
            && (mode == Mask ==> ValueOf(ds, "--un-icon") == Some(url))
            && (mode == BackgroundImg ==> ValueOf(ds, "background") == Some(url + " no-repeat"))
            && url[|DataUrlPrefix|..|url| - 2] == Payload(inline)
            && Base64.Decode(Payload(inline)) == Some(Utf8.Encode(inline))
            && Utf8.Decode(Utf8.Encode(inline)) == Some(inline)
  {
    var inline := Inline.InlineSvg(svg);
    DeclarationValues(ChooseMode(opts.mode, inline), DataUrl(Payload(inline)), opts.scaleText);
    PayloadRoundTrip(inline);
  }

  /** How one invocation moves the cache: exactly as `loadCollection` for the referenced collection. */
  lemma ResolveTokenStep<D, I>(env: Env<D, I>, opts: Options, cache: Cache<D>, token: string)
    ensures var r := ResolveToken(env, opts, cache, token);
            match Reference.Parse(token)
            case None => r.cache == cache && !r.consulted
            case Some(ref) =>
              var s := LoadCollection(cache, env.provider, ref.collection);
              r.cache == s.cache && r.consulted == s.consulted && (s.result == Miss ==> r.outcome == NoMatch)
  {
  }

  /** The collection name a class name refers to, when it matches. */
  function CollectionOf(token: string): string {
    match Reference.Parse(token)
    case None => ""
    case Some(ref) => ref.collection
  }

  /** The collection names of the matching class names, in order. */
  function Collections(tokens: seq<string>): (names: seq<string>)
    ensures |names| <= |tokens|
  {
    if |tokens| == 0 then []
    else if Reference.Parse(tokens[0]).Some? then [CollectionOf(tokens[0])] + Collections(tokens[1..])
    else Collections(tokens[1..])
  }

  /**
   The rule applied to a sequence of class names, sharing one cache: the
   final cache, the outcome for each name, and the collections the provider
   was consulted for.
   */
  function ResolveAll<D(==), I>(env: Env<D, I>, opts: Options, cache: Cache<D>, tokens: seq<string>)
    : (r: (Cache<D>, seq<Outcome>, seq<string>))
    ensures |r.1| == |tokens|
    // A class name the pattern rejects gets no match, wherever it comes in the run.
    ensures forall i :: 0 <= i < |tokens| && Reference.Parse(tokens[i]).None? ==> r.1[i] == NoMatch
    // The shared cache only grows, and only at collections the class names refer to.
    ensures Extends(cache, r.0)
    ensures forall k :: k in r.0 ==> k in cache || k in Collections(tokens)
    decreases |tokens|
  {
    if |tokens| == 0 then (cache, [], [])
    else
      var s := ResolveToken(env, opts, cache, tokens[0]);
      var (c, outcomes, log) := ResolveAll(env, opts, s.cache, tokens[1..]);
      (c, [s.outcome] + outcomes, if s.consulted then [CollectionOf(tokens[0])] + log else log)
  }

  /** Running the rule over class names touches the cache exactly as loading their collections in order does. */
  lemma {:induction false} ResolveAllLoads<D, I>(env: Env<D, I>, opts: Options, cache: Cache<D>, tokens: seq<string>)
    ensures var r := ResolveAll(env, opts, cache, tokens);
            (r.0, r.2) == LoadAll(cache, env.provider, Collections(tokens))
    decreases |tokens|
  {
    if |tokens| > 0 {
      var s := ResolveToken(env, opts, cache, tokens[0]);
      ResolveAllLoads(env, opts, s.cache, tokens[1..]);
      if Reference.Parse(tokens[0]).Some? {
        assert Collections(tokens)[1..] == Collections(tokens[1..]);
      }
    }
  }

  /** Each collection is looked up at most once over a whole run, unless its lookup throws. */
  lemma OneLookupPerCollection<D, I>(env: Env<D, I>, opts: Options, cache: Cache<D>, tokens: seq<string>, name: string)
    requires !env.provider(name).Unreadable?
    ensures multiset(ResolveAll(env, opts, cache, tokens).2)[name] <= (if name in cache then 0 else 1)
  {
    ResolveAllLoads(env, opts, cache, tokens);
    AtMostOneLookup(cache, env.provider, Collections(tokens), name);
  }

  /** The first outcome of a run is that of the first class name; the rest continue from its cache. */
  lemma ResolveAllUnfold<D, I>(env: Env<D, I>, opts: Options, cache: Cache<D>, tokens: seq<string>)
    requires |tokens| > 0
    ensures var s := ResolveToken(env, opts, cache, tokens[0]);
            && ResolveAll(env, opts, cache, tokens).1[0] == s.outcome
            && ResolveAll(env, opts, cache, tokens).1[1..] == ResolveAll(env, opts, s.cache, tokens[1..]).1
  {
  }

  /** A collection that is missing stays missing after any invocation. */
  lemma MissingStaysMissing<D, I>(env: Env<D, I>, opts: Options, cache: Cache<D>, token: string, name: string)
    requires if name in cache then cache[name] == NotFound else env.provider(name) == NoPackage
    ensures var c := ResolveToken(env, opts, cache, token).cache;
            if name in c then c[name] == NotFound else env.provider(name) == NoPackage
  {
    ResolveTokenStep(env, opts, cache, token);
  }

  /** Once a collection is missing, every later class name of that collection gets no match. */
  lemma {:induction false} MissingCollectionNeverMatches<D, I>(
    env: Env<D, I>, opts: Options, cache: Cache<D>, tokens: seq<string>, i: nat, ref: Reference.IconRef)
    requires i < |tokens| && Reference.Parse(tokens[i]) == Some(ref)
    requires if ref.collection in cache then cache[ref.collection] == NotFound else env.provider(ref.collection) == NoPackage
    ensures ResolveAll(env, opts, cache, tokens).1[i] == NoMatch
    decreases i
  {
    var s := ResolveToken(env, opts, cache, tokens[0]);
    ResolveAllUnfold(env, opts, cache, tokens);
    if i == 0 {
      ResolveTokenStep(env, opts, cache, tokens[0]);
    } else {
      MissingStaysMissing(env, opts, cache, tokens[0], ref.collection);
      assert tokens[1..][i - 1] == tokens[i];
      MissingCollectionNeverMatches(env, opts, s.cache, tokens[1..], i - 1, ref);
    }
  }
}
