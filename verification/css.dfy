/**
 Mode selection and CSS emission in the rule callback: `auto` turns into
 `mask` exactly when the inlined markup mentions `currentColor`, and each
 mode yields a fixed list of declarations around the data URL and the size.
 */
module Css {
  import opened Wrappers
  import opened Text
  import Inline
  import Utf8
  import Base64

  /** The `mode` option. */
  datatype Mode = Mask | BackgroundImg | Auto

  /** One CSS declaration, one entry of the returned object in insertion order. */
  datatype Decl = Decl(property: string, value: string)

  const CurrentColor: string := "currentColor"

  /** The mode used for one icon: an explicit mode as configured, `auto` decided by the markup. */
  function ChooseMode(configured: Mode, markup: string): (m: Mode)
    ensures m != Auto
    ensures configured != Auto ==> m == configured
    ensures configured == Auto ==> (m == Mask <==> OccursIn(CurrentColor, markup))
  {
    if configured != Auto then configured
    else if Includes(markup, CurrentColor) then Mask
    else BackgroundImg
  }

  /** `${scale}em`, from the scale as JavaScript renders it. */
  function Size(scaleText: string): string {
    scaleText + "em"
  }

  /** Base64 of the UTF-8 bytes of the markup (`Buffer.from(s, 'utf-8').toString('base64')`). */
  function Payload(markup: string): (p: string)
    // Whole groups of alphabet characters: never a quote or a parenthesis that could end the URL.
    ensures |p| % 4 == 0
    ensures forall i :: 0 <= i < |p| ==> Base64.IsEncodingChar(p[i])
    ensures '"' !in p && ')' !in p
  {
    Base64.EncodeUsesAlphabet(Utf8.Encode(markup));
    Base64.Encode(Utf8.Encode(markup))
  }

  /** What the data URL opens with, up to the payload. */
  const DataUrlPrefix: string := "url(\"data:image/svg+xml;base64,"

  /** `url("data:image/svg+xml;base64,<payload>")`. */
  function DataUrl(payload: string): (url: string)
    ensures |url| == |DataUrlPrefix| + |payload| + 2
    ensures url[..|DataUrlPrefix|] == DataUrlPrefix && url[|url| - 2..] == "\")"
    ensures url[|DataUrlPrefix|..|url| - 2] == payload
  {
    DataUrlPrefix + payload + "\")"
  }

  /** The payload decodes back to exactly the markup it was made from. */
  lemma PayloadRoundTrip(markup: string)
    ensures Base64.Decode(Payload(markup)) == Some(Utf8.Encode(markup))
    ensures Utf8.Decode(Base64.Decode(Payload(markup)).value) == Some(markup)
  {
    Base64.DecodeEncode(Utf8.Encode(markup));
    Utf8.DecodeEncode(markup);
  }

  const MaskProperties: seq<string> :=
    ["--un-icon", "-webkit-mask", "-webkit-mask-size", "mask", "mask-size", "background-color", "height", "width"]

  const BackgroundProperties: seq<string> :=
    ["background", "background-size", "background-color", "height", "width"]

  function Properties(ds: seq<Decl>): (ps: seq<string>)
    ensures |ps| == |ds|
    ensures forall i :: 0 <= i < |ds| ==> ps[i] == ds[i].property
  {
    if |ds| == 0 then [] else [ds[0].property] + Properties(ds[1..])
  }

  /** The value of the first declaration of `property`, as reading the returned object. */
  function ValueOf(ds: seq<Decl>, property: string): (r: Option<string>)
    ensures r.Some? <==> property in Properties(ds)
    ensures r.Some? ==> exists i :: 0 <= i < |ds| && ds[i] == Decl(property, r.value)
  {
    if |ds| == 0 then None
    else if ds[0].property == property then Some(ds[0].value)
    else ValueOf(ds[1..], property)
  }

  /** No property is declared twice, so the list is the object the rule returns. */
  predicate Distinct(ps: seq<string>) {
    forall i, j :: 0 <= i < j < |ps| ==> ps[i] != ps[j]
  }

  /** In a list without repeated properties, `ValueOf` finds the one declaration of a property. */
  lemma {:induction false} ValueOfAt(ds: seq<Decl>, i: nat)
    requires i < |ds| && Distinct(Properties(ds))
    ensures ValueOf(ds, ds[i].property) == Some(ds[i].value)
  {
    if i > 0 {
      assert Properties(ds)[0] != Properties(ds)[i];
      assert Distinct(Properties(ds[1..])) by {
        forall j, k | 0 <= j < k < |ds| - 1 ensures Properties(ds[1..])[j] != Properties(ds[1..])[k] {
          assert Properties(ds)[j + 1] != Properties(ds)[k + 1];
        }
      }
      ValueOfAt(ds[1..], i - 1);
    }
  }

  lemma PropertyListsDistinct()
    ensures Distinct(MaskProperties) && Distinct(BackgroundProperties)
  {
  }

  /** The declarations the rule returns for a resolved mode. */
  function Declarations(mode: Mode, url: string, scaleText: string): (ds: seq<Decl>)
    requires mode != Auto
    ensures Properties(ds) == (if mode == Mask then MaskProperties else BackgroundProperties)
    ensures Distinct(Properties(ds))
  {
    PropertyListsDistinct();
    if mode == Mask then
      [ Decl("--un-icon", url),
        Decl("-webkit-mask", "var(--un-icon) no-repeat"),
        Decl("-webkit-mask-size", "100% 100%"),
        Decl("mask", "var(--un-icon) no-repeat"),
        Decl("mask-size", "100% 100%"),
        Decl("background-color", CurrentColor),
        Decl("height", Size(scaleText)),
        Decl("width", Size(scaleText)) ]
    else
      [ Decl("background", url + " no-repeat"),
        Decl("background-size", "100% 100%"),
        Decl("background-color", "transparent"),
        Decl("height", Size(scaleText)),
        Decl("width", Size(scaleText)) ]
  }

  /** What each mode's declarations say: the size twice, the colour, and where the data URL goes. */
  lemma DeclarationValues(mode: Mode, url: string, scaleText: string)
    requires mode != Auto
    ensures var ds := Declarations(mode, url, scaleText);
      && ValueOf(ds, "height") == ValueOf(ds, "width") == Some(Size(scaleText))
      && (mode == Mask ==> ValueOf(ds, "background-color") == Some(CurrentColor))
      && (mode == Mask ==> ValueOf(ds, "--un-icon") == Some(url))
      && (mode == Mask ==> ValueOf(ds, "mask") == ValueOf(ds, "-webkit-mask") == Some("var(--un-icon) no-repeat"))
      && (mode == BackgroundImg ==> ValueOf(ds, "background-color") == Some("transparent"))
      && (mode == BackgroundImg ==> ValueOf(ds, "background") == Some(url + " no-repeat"))
  {
    var ds := Declarations(mode, url, scaleText);
    if mode == Mask {
      ValueOfAt(ds, 0);
      ValueOfAt(ds, 1);
      ValueOfAt(ds, 3);
      ValueOfAt(ds, 5);
      ValueOfAt(ds, 6);
      ValueOfAt(ds, 7);
    } else {
      ValueOfAt(ds, 0);
      ValueOfAt(ds, 2);
      ValueOfAt(ds, 3);
      ValueOfAt(ds, 4);
    }
  }

  /** The injected namespace attribute never contains the marker, so inlining cannot fake or hide it. */
  lemma MarkerNotInjected()
    ensures !OccursIn(CurrentColor, Inline.NamespaceAttr)
  {
    assert CurrentColor[7] == 'C';
    assert 'C' !in Inline.NamespaceAttr;
    MissingCharExcludes(CurrentColor, Inline.NamespaceAttr, 'C');
  }

  /** `auto` picks the mask exactly when the markup before inlining mentions `currentColor`. */
  lemma AutoModeFollowsMarkup(svg: string)
    ensures ChooseMode(Auto, Inline.InlineSvg(svg)) == Mask <==> OccursIn(CurrentColor, svg)
  {
    MarkerNotInjected();
    Inline.InlineKeepsPattern(CurrentColor, svg);
  }
}
