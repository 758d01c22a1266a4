# UnoCSS icons preset, modelled in Dafny

This project models the core of the UnoCSS icons preset
(`packages/preset-icons/src/index.ts`). The preset contributes a single rule.
A class name such as `i-carbon-sun` is matched against `^i-(\w+)-(.+)$`.
The collection `carbon` is then loaded through a process-wide cache, and the
icon `sun` is rendered to SVG markup. The markup is inlined: double quotes
become single quotes, and the SVG namespace is added when it is missing. The
inlined markup is base64-encoded into a `data:` URL. Last, the URL is turned
into CSS declarations: a mask coloured by `currentColor`, or a background
image. In the default `auto` mode the choice depends on whether the markup
mentions `currentColor`.

Modules, one per stage:

- `Reference` (`reference.dfy`) is the rule pattern, written out as a parser.
  It is proved to match exactly the class names `i-<word>-<line>`: the
  collection must be `\w+`, and the icon must not contain a line terminator.
  Every such name is split in only one way.
- `CollectionStore` (`collections.dfy`) is the `_collections` cache and
  `loadCollection`. The package resolver, the file read and `JSON.parse`
  together form the *provider*, a parameter that answers one of three ways:
  no package, a parsed dataset, or a thrown exception. It also holds the
  as-written model behind the finding below.
- `Svg` (`svg.dfy`) is the string assembly in `searchForIcon`. It comes with
  a reader that proves nothing is lost.
- `Text` (`text.dfy`) holds substring search and the first-occurrence
  `replace` of JavaScript strings.
- `Inline` (`inline.dfy`) is quote swapping and namespace injection.
- `Utf8` (`utf8.dfy`) and `Base64` (`base64.dfy`, section 4 of RFC 4648) are
  the `Buffer` conversions behind the data URL. Each has a decoder that proves
  the encoding is lossless.
- `Css` (`css.dfy`) is mode choice and the two declaration lists.
- `IconRule` (`rule.dfy`) is the rule end to end, for one class name and for
  a sequence of class names that share the cache.
- `Scenarios` (`scenarios.dfy`) gives worked examples with a one-collection
  provider.
- `Wrappers` and `Bytes` are small support modules: `Option` and the byte
  type.

The icon library's `getIconData` and `iconToSVG` are parameters (`IconRule.Env`).
The model states what the preset does with whatever they return.

## Model

| member | source | states |
|---|---|---|
| Reference.Parse | packages/preset-icons/src/index.ts:57 | a match gives a collection made of `\w` characters and a non-empty icon free of line terminators, which together spell the class name back |
| Reference.ParseToken | packages/preset-icons/src/index.ts:57 | every such pair of groups is what the pattern captures from its class name; `\w` excludes `-`, so the split is unique |
| Reference.ParseMatchesExactly | packages/preset-icons/src/index.ts:57 | the pattern matches a class name if and only if the name is `i-`, a word, `-`, then a line, for some pair of groups |
| Reference.WordPrefixLength | packages/preset-icons/src/index.ts:57 | `\w+` is greedy: the collection group runs to the first non-word character |
| CollectionStore.LoadCollection | packages/preset-icons/src/index.ts:16-33 | a cached name answers from the cache without a lookup, `false` as undefined; an untried name is looked up; no package records `false`; a parsed dataset is recorded and returned; a throw records nothing; no existing entry ever changes, and only the entry for `name` can be added |
| CollectionStore.LoadTwice | packages/preset-icons/src/index.ts:17-21 | after a call that did not throw, a second call for the same name makes no lookup, returns the same answer and leaves the cache alone |
| CollectionStore.LoadAllKeepsEntries | packages/preset-icons/src/index.ts:14-33 | over any sequence of calls, every cached entry survives unchanged |
| CollectionStore.CachedNeverConsulted | packages/preset-icons/src/index.ts:17-21 | a name that is already cached is never looked up by any later call |
| CollectionStore.AtMostOneLookup | packages/preset-icons/src/index.ts:16-33 | any sequence of calls looks a name up at most once, and not at all if it was cached to begin with, unless that lookup throws |
| CollectionStore.LoadAllRecords | packages/preset-icons/src/index.ts:23-31 | after a sequence of calls, every name in it is cached unless its lookup throws |
| CollectionStore.LoadAll | packages/preset-icons/src/index.ts:14-33 | a sequence of `loadCollection` calls adds only names of the sequence to the cache, and looks up only names that were not cached when it began |
| CollectionStore.LoadCollectionAsWritten | packages/preset-icons/src/index.ts:14-21 | the plain-object lookup as written: an `Object.prototype` member name that is not an own key is returned without a lookup; every other name behaves exactly like `LoadCollection` |
| CollectionStore.PrototypeNameSkipsProvider | packages/preset-icons/src/index.ts:14-21 | the finding below: with an empty cache, `toString` gets the inherited member back and the provider's dataset is never loaded |
| Text.IndexOf | packages/preset-icons/src/index.ts:62 | `includes` holds exactly when the pattern occurs, and the index found is the first occurrence |
| Text.ReplaceFirst | packages/preset-icons/src/index.ts:63 | `replace` with a string pattern leaves a string without the pattern unchanged; otherwise it rewrites the first occurrence only |
| Svg.Serialize | packages/preset-icons/src/index.ts:47 | the markup opens with `<svg ` and closes with `</svg>` |
| Svg.SerializeRoundTrip | packages/preset-icons/src/index.ts:47 | from the markup, the attributes (in order, with their values) and the body can be read back exactly |
| Svg.BodyOccursInMarkup | packages/preset-icons/src/index.ts:47 | anything that occurs in the icon body also occurs in the markup |
| Inline.ReplaceQuotes | packages/preset-icons/src/index.ts:61 | the global replace keeps the length, turns each `"` into `'` and keeps every other character in place |
| Inline.ReplaceQuotesRemovesAll | packages/preset-icons/src/index.ts:61 | no double quote is left |
| Inline.ReplaceQuotesIdempotent | packages/preset-icons/src/index.ts:61 | replacing twice is the same as replacing once |
| Inline.ReplaceQuotesKeepsPattern | packages/preset-icons/src/index.ts:61-62 | a pattern with no quote of either kind occurs after the replace exactly when it occurred before |
| Inline.InlineSvg | packages/preset-icons/src/index.ts:61-63 | the inlined markup has no double quote, and it names the namespace URL whenever the markup has an opening `<svg ` |
| Inline.InjectNamespace | packages/preset-icons/src/index.ts:62-63 | markup that already names the URL is kept; otherwise the first `<svg ` gets the attribute; on quote-free markup with an opening tag the result names the URL and stays quote-free |
| Inline.InlineKeepsPresentNamespace | packages/preset-icons/src/index.ts:62 | when the URL is already present, only the quotes change |
| Inline.InlineWithoutOpenTag | packages/preset-icons/src/index.ts:62-63 | with neither the URL nor `<svg `, only the quotes change and the URL stays absent |
| Inline.InlineInjectsAtFirstTag | packages/preset-icons/src/index.ts:62-63 | with the URL absent, the namespace attribute is written right after the first `<svg ` and nowhere else |
| Inline.InlineKeepsPattern | packages/preset-icons/src/index.ts:61-63 | inlining neither creates nor destroys a pattern that has no quote or space and does not occur in the injected attribute |
| Utf8.EncodeChar | packages/preset-icons/src/index.ts:69 | a character becomes one to four bytes; it is one byte exactly for ASCII, and every byte after the first is a continuation byte |
| Utf8.DecodeEncode | packages/preset-icons/src/index.ts:69 | decoding the UTF-8 bytes of the markup gives the markup back |
| Base64.EncodeLength | packages/preset-icons/src/index.ts:69 | the encoding has four characters for every started group of three bytes |
| Base64.EncodeUsesAlphabet | packages/preset-icons/src/index.ts:69 | the encoding uses only the 64-character alphabet and `=` |
| Base64.DecodeEncode | packages/preset-icons/src/index.ts:69 | decoding the encoding gives the bytes back, padding included |
| Css.ChooseMode | packages/preset-icons/src/index.ts:65-67 | an explicit mode is kept; `auto` becomes `mask` if and only if the markup contains `currentColor`, and `background-img` otherwise |
| Css.AutoModeFollowsMarkup | packages/preset-icons/src/index.ts:61-67 | inlining cannot add or hide `currentColor`, so `auto` turns on the markup before inlining as well |
| Css.PayloadRoundTrip | packages/preset-icons/src/index.ts:69 | the data URL's payload decodes, through base64 and then UTF-8, to exactly the inlined markup |
| Css.Payload | packages/preset-icons/src/index.ts:69 | the base64 payload is whole four-character groups of the alphabet and `=`, so it holds no `"` or `)` that could end the URL |
| Css.DataUrl | packages/preset-icons/src/index.ts:69 | the URL is `url("data:image/svg+xml;base64,`, then exactly the payload, then `")` |
| Css.ValueOf | packages/preset-icons/src/index.ts:71-92 | a property has a value exactly when it is declared, and the value is that of a declaration of it |
| Css.Declarations | packages/preset-icons/src/index.ts:71-92 | mask mode declares the eight mask properties and background mode the five background properties, in source order, with no property twice |
| Css.DeclarationValues | packages/preset-icons/src/index.ts:73-91 | height and width are both `${scale}em`; mask mode puts the URL in `--un-icon`, uses `var(--un-icon) no-repeat` for both masks and colours with `currentColor`; background mode puts `<url> no-repeat` in `background` on a transparent colour |
| IconRule.SearchForIcon | packages/preset-icons/src/index.ts:35-49 | the collection goes through the own-key `loadCollection` (see Left out); markup is returned only for a loaded collection that has the icon, and it is never empty |
| IconRule.Emit | packages/preset-icons/src/index.ts:61-92 | the declarations after a found icon are exactly the mask list or the background list, with no property twice |
| IconRule.ResolveToken | packages/preset-icons/src/index.ts:57-59 | with the own-key lookup (see Left out): a non-matching class name changes nothing; the cache only grows, and only at the referenced collection; a lookup happens only for an untried collection; the rule throws exactly when that lookup throws; a match has at least five declarations |
| IconRule.NoMatchWithoutCollection | packages/preset-icons/src/index.ts:36-38 | a collection that is not available gives no match |
| IconRule.NoMatchWithoutIcon | packages/preset-icons/src/index.ts:40-48 | a collection without the icon gives no match |
| IconRule.FoundIconEmits | packages/preset-icons/src/index.ts:40-47 | a found icon gives the declarations emitted for its markup, rendered at `${scale}em` |
| IconRule.MatchWithIcon | packages/preset-icons/src/index.ts:42-92 | a found icon is rendered at `${scale}em`, and its declarations give height and width that same size |
| IconRule.SerializedHasOpenTag | packages/preset-icons/src/index.ts:47-63 | serialised markup always has the `<svg ` the namespace injection looks for |
| IconRule.EmitMode | packages/preset-icons/src/index.ts:65-92 | the declarations are those of the configured mode, or in `auto` mode those of `mask` exactly when the markup mentions `currentColor` |
| IconRule.InlinedPayload | packages/preset-icons/src/index.ts:47-69 | for rendered markup, the encoded payload has no double quote, names the SVG namespace and decodes back to the inlined markup |
| IconRule.EmittedUrlDecodes | packages/preset-icons/src/index.ts:61-91 | the URL the declarations carry, in `--un-icon` for the mask and in `background` otherwise, holds between its prefix and `")` a payload that decodes to the inlined markup |
| IconRule.ResolveTokenStep | packages/preset-icons/src/index.ts:57-59 | one invocation moves the cache exactly as `loadCollection` does for the referenced collection, and a missing collection gives no match |
| IconRule.ResolveAll | packages/preset-icons/src/index.ts:14-59 | over class names sharing the cache: one outcome per name, no match for every name the pattern rejects, and a cache that only grows, at referenced collections |
| IconRule.ResolveAllLoads | packages/preset-icons/src/index.ts:16-58 | running the rule over class names leaves the cache, and makes the lookups, exactly as loading their collections in order does |
| IconRule.OneLookupPerCollection | packages/preset-icons/src/index.ts:14-58 | over a whole run, each collection is looked up at most once, unless its lookup throws |
| IconRule.MissingStaysMissing | packages/preset-icons/src/index.ts:29-31 | a collection recorded as `false`, or one the provider lacks, stays that way after any invocation |
| IconRule.MissingCollectionNeverMatches | packages/preset-icons/src/index.ts:17-38 | every class name of a missing collection gets no match, wherever it comes in a run |
| Scenarios.DemoResolves | packages/preset-icons/src/index.ts:51-92 | with the default options, `i-demo-home` loads `demo` once and gives the declarations emitted for its markup |
| Scenarios.PlainIconIsBackground | packages/preset-icons/src/index.ts:84-91 | an icon without `currentColor` gets a background image with a transparent colour, sized `1em` |
| Scenarios.TintedIconIsMask | packages/preset-icons/src/index.ts:71-82 | an icon painted with `currentColor` gets mask declarations coloured by `currentColor` |
| Scenarios.MissingTwice | packages/preset-icons/src/index.ts:29-38 | a class name whose collection has no package, used twice, gives no match both times and one lookup |
| Scenarios.UnknownCollectionLookedUpOnce | packages/preset-icons/src/index.ts:29-38 | `i-doesnotexist-x`, used twice, gives no match both times and looks `doesnotexist` up once |

## Left out

- File system and module resolution. `resolveModule`, `fs.readFileSync` and
  `JSON.parse` are folded into the provider parameter of `CollectionStore`:
  no package, a parsed dataset, or a thrown exception.
- The icon library. `getIconData`, `iconToSVG` and
  `DefaultIconCustomizations` are not part of this model; they are the
  parameters of `IconRule.Env`. The customisations reach `iconToSVG` only as
  the size text `${scale}em`.
- Number formatting. The `scale` option is kept as the text JavaScript prints
  for it (`Options.scaleText`), so `${scale}` is not modelled.
- UTF-16 strings. A character here is a Unicode scalar value. Lone surrogates,
  which `Buffer.from` would turn into U+FFFD, cannot occur.
- Attribute order. The order `Object.entries` gives (integer-like keys first)
  is the order of the attribute sequence the icon library returns.
- Falsy JSON datasets. A parsed dataset is taken to be an object, hence
  truthy. A collection file holding `0`, `""` or `null` is stored and
  returned, so its first call already gives no match (`if (!iconSet)
  return`). On every later call the stored value is neither `false` nor
  truthy, so the package is resolved and read again. The one-lookup
  guarantee of `CollectionStore.AtMostOneLookup` therefore does not hold for
  such a collection; the model does not represent falsy datasets.
- Exceptions. A throw from the read or the parse ends the rule invocation as
  `Outcome.Threw`. What the rule engine does with it is outside the preset.
- Concurrency. The code is single-threaded, and the cache lives for the whole
  process.
- Utf8.Decode accepts over-long forms. It serves only to state the inverse
  of the encoder, which never writes them.
- Inline.InlineSvg guarantees the namespace URL only for markup that has an
  opening `<svg `; without one, `replace` finds nothing and the URL stays
  absent (`Inline.InlineWithoutOpenTag`). Markup produced by `searchForIcon`
  always has one (`IconRule.InlinedPayload`).
- Svg.SerializeRoundTrip requires attribute names without `=` and not
  starting with `>`, and values without `"`. The source writes names and
  values verbatim, without escaping, so other attributes cannot always be
  read back: `<svg >a="b">c</svg>` reads as no attributes and the body
  `a="b">c`.
- Caching of failures. The code caches `false` only when no package
  resolves. An exception from `readFileSync` or `JSON.parse` propagates and
  caches nothing, so the next call tries again. See
  `CollectionStore.LoadCollection` and the proviso in
  `CollectionStore.AtMostOneLookup`.
- IconRule.SearchForIcon / IconRule.ResolveToken are modelled over the
  intended own-key lookup `CollectionStore.LoadCollection`, not over the
  plain-object lookup as written. The twelve names of
  `CollectionStore.PrototypeNames` (`toString`, `constructor`, `__proto__`
  and the rest) are all `\w+`, so class names such as `i-toString-x` reach
  `loadCollection`. As written, such a name that is not yet cached returns
  the inherited member without a lookup and records nothing
  (`CollectionStore.LoadCollectionAsWritten`). The model instead looks it up
  and records the outcome, as for any other name. See the finding below.

## Findings

| source | as written | input that shows it | evidently intended | confidence | as-written member | corrected member |
|---|---|---|---|---|---|---|
| packages/preset-icons/src/index.ts:14-21 | `_collections` is a plain `{}`. `_collections[name]` therefore also finds the members every object inherits from `Object.prototype`, and those are truthy | class name `i-toString-x` with an empty cache: `loadCollection('toString')` returns `Object.prototype.toString` and never resolves `@iconify-json/toString` | a name that has not been tried yet is looked up, so own keys only (`Object.create(null)` or a `Map`) | medium, not executed | CollectionStore.PrototypeNameSkipsProvider | CollectionStore.LoadCollection |
