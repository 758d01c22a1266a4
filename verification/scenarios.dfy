/**
 Worked examples of the rule with a one-collection provider: a plain icon
 resolves to background-image declarations, an icon that paints with
 `currentColor` resolves to mask declarations, and an unknown collection
 gives no match twice while being looked up once.
 */
module Scenarios {
  import opened Wrappers
  import opened Text
  import Reference
  import opened CollectionStore
  import opened Svg
  import opened Css
  import opened IconRule

  const PlainBody: string := "<path d=\"M0 0\"/>"
  const TintedBody: string := "<path fill=\"currentColor\" d=\"M0 0\"/>"

  /** A provider with one collection `demo` holding one icon `home` drawn by `body`, sized by the requested size. */
  function DemoEnv(body: string): Env<int, int> {
    Env(
      (name: string) => if name == "demo" then Parsed(0) else NoPackage,
      (d: int, id: string) => if id == "home" then Some(1) else None,
      (icon: int, size: string) => SvgParts([Attr("width", size), Attr("height", size)], body))
  }

  const DemoHome: Reference.IconRef := Reference.IconRef("demo", "home")

  /** The markup the demo icon renders to at `1em`. */
  function DemoMarkup(body: string): string {
    Serialize(SvgParts([Attr("width", "1em"), Attr("height", "1em")], body))
  }

  lemma DemoHomeParses()
    ensures Reference.WellFormed(DemoHome) && Reference.Token(DemoHome) == "i-demo-home"
  {
  }

  lemma SizeOne()
    ensures Size("1") == "1em"
  {
  }

  /** What the demo collaborators answer. */
  lemma DemoEnvAnswers(body: string)
    ensures Resolves(DemoEnv(body), map[], "demo") == Hit(0)
    ensures DemoEnv(body).getIconData(0, "home") == Some(1)
    ensures Serialize(DemoEnv(body).iconToSvg(1, Size(DefaultOptions.scaleText))) == DemoMarkup(body)
  {
    SizeOne();
  }

  /** With the default options the demo icon resolves to the declarations emitted for its markup. */
  lemma DemoResolves(body: string)
    ensures var r := ResolveToken(DemoEnv(body), DefaultOptions, map[], "i-demo-home");
            && r.consulted && r.cache == map["demo" := Loaded(0)]
            && r.outcome == Declared(Emit(DefaultOptions, DemoMarkup(body)))
  {
    var env := DemoEnv(body);
    var r := ResolveToken(env, DefaultOptions, map[], "i-demo-home");
    DemoHomeParses();
    assert r.outcome == Declared(Emit(DefaultOptions, DemoMarkup(body))) by {
      DemoEnvAnswers(body);
      FoundIconEmits(env, DefaultOptions, map[], DemoHome, 0, 1);
    }
    assert r.consulted && r.cache == map["demo" := Loaded(0)] by {
      Reference.ParseToken(DemoHome);
      ResolveTokenStep(env, DefaultOptions, map[], "i-demo-home");
      assert LoadCollection(map[], env.provider, "demo").cache == map["demo" := Loaded(0)];
    }
  }

  lemma PlainMarkupUntinted()
    ensures !OccursIn(CurrentColor, DemoMarkup(PlainBody))
  {
    var svg := DemoMarkup(PlainBody);
    var attrs := RenderAttrs([Attr("width", "1em"), Attr("height", "1em")]);
    assert attrs == RenderAttr(Attr("width", "1em")) + " " + RenderAttr(Attr("height", "1em"));
    assert 'C' !in attrs;
    assert svg == "<svg " + attrs + ">" + PlainBody + "</svg>";
    assert 'C' !in PlainBody;
    MissingCharExcludes(CurrentColor, svg, 'C');
  }

  lemma TintedBodyTinted()
    ensures OccursAt(TintedBody, CurrentColor, 12)
  {
    assert TintedBody == "<path fill=\"" + CurrentColor + "\" d=\"M0 0\"/>";
    OccursBetween("<path fill=\"", CurrentColor, "\" d=\"M0 0\"/>");
  }

  lemma TintedMarkupTinted()
    ensures OccursIn(CurrentColor, DemoMarkup(TintedBody))
  {
    TintedBodyTinted();
    BodyOccursInMarkup(SvgParts([Attr("width", "1em"), Attr("height", "1em")], TintedBody), CurrentColor, 12);
  }

  /** `i-demo-home` with the default options: background image, transparent background, 1em square. */
  lemma PlainIconIsBackground()
    ensures var r := ResolveToken(DemoEnv(PlainBody), DefaultOptions, map[], "i-demo-home");
            && r.consulted && r.cache == map["demo" := Loaded(0)]
            && r.outcome.Declared?
            && ValueOf(r.outcome.decls, "background-color") == Some("transparent")
            && ValueOf(r.outcome.decls, "height") == Some("1em")
            && ValueOf(r.outcome.decls, "width") == Some("1em")
  {
    DemoResolves(PlainBody);
    var svg := DemoMarkup(PlainBody);
    PlainMarkupUntinted();
    EmitMode(DefaultOptions, svg);
    DeclarationValues(BackgroundImg, DataUrl(Payload(Inline.InlineSvg(svg))), "1");
    SizeOne();
  }

  /** The same icon painted with `currentColor`: mask declarations coloured by `currentColor`. */
  lemma TintedIconIsMask()
    ensures var r := ResolveToken(DemoEnv(TintedBody), DefaultOptions, map[], "i-demo-home");
            && r.outcome.Declared?
            && ValueOf(r.outcome.decls, "background-color") == Some("currentColor")
            && ValueOf(r.outcome.decls, "mask") == Some("var(--un-icon) no-repeat")
            && ValueOf(r.outcome.decls, "-webkit-mask") == Some("var(--un-icon) no-repeat")
  {
    DemoResolves(TintedBody);
    var svg := DemoMarkup(TintedBody);
    TintedMarkupTinted();
    EmitMode(DefaultOptions, svg);
    DeclarationValues(Mask, DataUrl(Payload(Inline.InlineSvg(svg))), "1");
  }

  const Unknown: string := "i-doesnotexist-x"

  lemma UnknownParses()
    ensures Reference.Parse(Unknown) == Some(Reference.IconRef("doesnotexist", "x"))
  {
    var ref := Reference.IconRef("doesnotexist", "x");
    assert Reference.WellFormed(ref);
    assert Reference.Token(ref) == Unknown;
    Reference.ParseToken(ref);
  }

  /** Two calls for a collection the provider does not have: no match twice, one lookup. */
  lemma MissingTwice<D, I>(env: Env<D, I>, token: string, ref: Reference.IconRef)
    requires Reference.Parse(token) == Some(ref)
    requires env.provider(ref.collection) == NoPackage
    ensures var r := ResolveAll(env, DefaultOptions, map[], [token, token]);
            && r.1 == [NoMatch, NoMatch]
            && r.2 == [ref.collection]
  {
    var tokens := [token, token];
    MissingCollectionNeverMatches(env, DefaultOptions, map[], tokens, 0, ref);
    MissingCollectionNeverMatches(env, DefaultOptions, map[], tokens, 1, ref);
    ResolveAllLoads(env, DefaultOptions, map[], tokens);
    assert Collections(tokens) == [ref.collection, ref.collection] by {
      assert tokens[1..] == [token];
    }
    var s := LoadCollection(map[], env.provider, ref.collection);
    assert [ref.collection, ref.collection][1..] == [ref.collection];
    assert LoadAll(s.cache, env.provider, [ref.collection]).1 == [];
  }

  /** An unknown collection: no match on both calls, and a single provider lookup. */
  lemma UnknownCollectionLookedUpOnce()
    ensures var r := ResolveAll(DemoEnv(PlainBody), DefaultOptions, map[], [Unknown, Unknown]);
            && r.1 == [NoMatch, NoMatch]
            && r.2 == ["doesnotexist"]
  {
    UnknownParses();
    MissingTwice(DemoEnv(PlainBody), Unknown, Reference.IconRef("doesnotexist", "x"));
  }
}
