/**
 SVG string assembly in `searchForIcon`: the attribute list computed by the
 icon library is written as `<svg k1="v1" k2="v2">body</svg>`, attributes in
 the order `Object.entries` yields them and separated by single spaces. A
 reader for that shape comes with an inverse lemma showing nothing is lost.
 */
module Svg {
  import opened Wrappers
  import Text

  /** One attribute, as one entry of `Object.entries(attributes)`. */
  datatype Attr = Attr(name: string, value: string)

  /** What the icon library renders for one icon: attributes and inner markup. */
  datatype SvgParts = SvgParts(attributes: seq<Attr>, body: string)

  /** `${name}="${value}"`. */
  function RenderAttr(a: Attr): string {
    a.name + "=\"" + a.value + "\""
  }

  /** The rendered attributes joined with single spaces (`.join(' ')`). */
  function RenderAttrs(attrs: seq<Attr>): string
    decreases |attrs|
  {
    if |attrs| == 0 then ""
    else if |attrs| == 1 then RenderAttr(attrs[0])
    else RenderAttr(attrs[0]) + " " + RenderAttrs(attrs[1..])
  }

  /** The SVG markup returned by `searchForIcon` for a found icon. */
  function Serialize(p: SvgParts): (svg: string)
    ensures |svg| >= 12
    ensures svg[..5] == "<svg "
    ensures svg[|svg| - 6..] == "</svg>"
  {
    "<svg " + RenderAttrs(p.attributes) + ">" + p.body + "</svg>"
  }

  /** An attribute the reader can recover: the name has no `=`, the value no `"`. */
  predicate ReadableAttr(a: Attr) {
    '=' !in a.name && '"' !in a.value && (|a.name| > 0 ==> a.name[0] != '>')
  }

  predicate ReadableAttrs(attrs: seq<Attr>) {
    forall i :: 0 <= i < |attrs| ==> ReadableAttr(attrs[i])
  }

  /** Splits `s` at the first occurrence of `c`. */
  function SplitAt(s: string, c: char): (r: Option<(string, string)>)
    ensures r.Some? ==> c !in r.value.0 && s == r.value.0 + [c] + r.value.1
    ensures r.None? ==> c !in s
  {
    if |s| == 0 then None
    else if s[0] == c then Some(([], s[1..]))
    else
      match SplitAt(s[1..], c)
      case None => None
      case Some(p) => Some(([s[0]] + p.0, p.1))
  }

  /** Reads `name="value"` off the front of `t`. */
  function ReadAttr(t: string): (r: Option<(Attr, string)>)
    ensures r.Some? ==> t == RenderAttr(r.value.0) + r.value.1
  {
    match SplitAt(t, '=')
    case None => None
    case Some(p) =>
      if |p.1| == 0 || p.1[0] != '"' then None
      else
        match SplitAt(p.1[1..], '"')
        case None => None
        case Some(q) =>
          ReadAttrShape(t, p.0, p.1, q.0, q.1);
          Some((Attr(p.0, q.0), q.1))
  }

  lemma ReadAttrShape(t: string, name: string, afterEq: string, value: string, rest: string)
    requires t == name + ['='] + afterEq
    requires |afterEq| > 0 && afterEq[0] == '"'
    requires afterEq[1..] == value + ['"'] + rest
    ensures t == RenderAttr(Attr(name, value)) + rest
  {
    assert afterEq == "\"" + afterEq[1..];
  }

  /** Reads one or more space-separated attributes followed by `>`; returns them and what follows `>`. */
  function ReadAttrList(t: string): (r: Option<(seq<Attr>, string)>)
    decreases |t|
  {
    match ReadAttr(t)
    case None => None
    case Some(p) =>
      var rest := p.1;
      if |rest| == 0 then None
      else if rest[0] == '>' then Some(([p.0], rest[1..]))
      else if rest[0] == ' ' then
        match ReadAttrList(rest[1..])
        case None => None
        case Some(q) => Some(([p.0] + q.0, q.1))
      else None
  }

  /** Reads markup of the shape `Serialize` produces. */
  function Deserialize(svg: string): (r: Option<SvgParts>)
  {
    if |svg| < 11 || svg[..5] != "<svg " || svg[|svg| - 6..] != "</svg>" then None
    else
      var inner := svg[5..|svg| - 6];
      if |inner| > 0 && inner[0] == '>' then Some(SvgParts([], inner[1..]))
      else
        match ReadAttrList(inner)
        case None => None
        case Some(q) => Some(SvgParts(q.0, q.1))
  }

  lemma {:induction false} SplitAtFirst(a: string, c: char, b: string)
    requires c !in a
    ensures SplitAt(a + [c] + b, c) == Some((a, b))
  {
    if |a| > 0 {
      assert (a + [c] + b)[1..] == a[1..] + [c] + b;
      SplitAtFirst(a[1..], c, b);
      assert [a[0]] + a[1..] == a;
    }
  }

  lemma ReadAttrRender(a: Attr, rest: string)
    requires ReadableAttr(a)
    ensures ReadAttr(RenderAttr(a) + rest) == Some((a, rest))
  {
    var t := RenderAttr(a) + rest;
    assert t == a.name + ['='] + ("\"" + a.value + "\"" + rest);
    SplitAtFirst(a.name, '=', "\"" + a.value + "\"" + rest);
    var after := "\"" + a.value + "\"" + rest;
    assert after[1..] == a.value + ['"'] + rest;
    SplitAtFirst(a.value, '"', rest);
  }

  lemma {:induction false} ReadAttrListRender(attrs: seq<Attr>, body: string)
    requires |attrs| > 0 && ReadableAttrs(attrs)
    ensures ReadAttrList(RenderAttrs(attrs) + ">" + body) == Some((attrs, body))
    decreases |attrs|
  {
    var t := RenderAttrs(attrs) + ">" + body;
    if |attrs| == 1 {
      assert t == RenderAttr(attrs[0]) + (">" + body);
      ReadAttrRender(attrs[0], ">" + body);
      assert (">" + body)[1..] == body;
      assert [attrs[0]] == attrs;
    } else {
      var tail := RenderAttrs(attrs[1..]) + ">" + body;
      assert t == RenderAttr(attrs[0]) + (" " + tail);
      ReadAttrRender(attrs[0], " " + tail);
      assert (" " + tail)[1..] == tail;
      assert ReadableAttrs(attrs[1..]) by {
        forall i | 0 <= i < |attrs| - 1 ensures ReadableAttr(attrs[1..][i]) {
          assert attrs[1..][i] == attrs[i + 1];
        }
      }
      ReadAttrListRender(attrs[1..], body);
      assert [attrs[0]] + attrs[1..] == attrs;
    }
  }

  /** Rendered readable attributes never start with `>`. */
  lemma RenderAttrsHead(attrs: seq<Attr>)
    requires |attrs| > 0 && ReadableAttr(attrs[0])
    ensures |RenderAttrs(attrs)| > 0 && RenderAttrs(attrs)[0] != '>'
  {
    var a := attrs[0];
    var r := RenderAttr(a);
    assert r[..|a.name|] == a.name;
    assert r[|a.name|] == '=';
    if |attrs| > 1 {
      assert RenderAttrs(attrs)[0] == r[0];
    }
  }

  /** Serialisation loses nothing: the attributes, in order, and the body can be read back. */
  lemma SerializeRoundTrip(p: SvgParts)
    requires ReadableAttrs(p.attributes)
    ensures Deserialize(Serialize(p)) == Some(p)
  {
    var svg := Serialize(p);
    var inner := RenderAttrs(p.attributes) + ">" + p.body;
    assert svg == "<svg " + inner + "</svg>";
    assert svg[5..|svg| - 6] == inner;
    if |p.attributes| == 0 {
      assert inner == ">" + p.body;
      assert inner[1..] == p.body;
    } else {
      ReadAttrListRender(p.attributes, p.body);
      assert ReadableAttr(p.attributes[0]);
      RenderAttrsHead(p.attributes);
      assert inner[0] == RenderAttrs(p.attributes)[0];
    }
  }

  /** Whatever occurs in the body occurs in the serialised markup. */
  lemma BodyOccursInMarkup(p: SvgParts, pat: string, j: nat)
    requires Text.OccursAt(p.body, pat, j)
    ensures Text.OccursIn(pat, Serialize(p))
  {
    var pre := "<svg " + RenderAttrs(p.attributes) + ">";
    var svg := Serialize(p);
    assert svg == pre + p.body + "</svg>";
    forall k | |pre| + j <= k < |pre| + j + |pat| ensures svg[k] == p.body[k - (|pre| + j) + j] { }
    Text.OccursAtTransfer(p.body, j, svg, |pre| + j, pat);
  }
}
