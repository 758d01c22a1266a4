/**
 Inlining of the SVG markup in the rule callback: every `"` becomes `'` so
 the markup can sit inside a double-quoted CSS string, and when the SVG
 namespace URL appears nowhere, `xmlns='http://www.w3.org/2000/svg'` is
 written right after the first `<svg `.
 */
module Inline {
  import opened Text

  const SvgNamespace: string := "http://www.w3.org/2000/svg"
  const OpenTag: string := "<svg "
  /** The attribute the rule injects, with its trailing space. */
  const NamespaceAttr: string := "xmlns='" + SvgNamespace + "' "
  const OpenTagWithNamespace: string := OpenTag + NamespaceAttr

  function SwapQuote(c: char): char {
    if c == '"' then '\'' else c
  }

  /** `s.replace(/"/g, '\'')`. */
  function ReplaceQuotes(s: string): (r: string)
    ensures |r| == |s|
    ensures forall i :: 0 <= i < |s| ==> r[i] == SwapQuote(s[i])
  {
    if |s| == 0 then ""
    else [SwapQuote(s[0])] + ReplaceQuotes(s[1..])
  }

  /** After quote replacement no double quote is left. */
  lemma ReplaceQuotesRemovesAll(s: string)
    ensures '"' !in ReplaceQuotes(s)
  {
    var r := ReplaceQuotes(s);
    forall i | 0 <= i < |r| ensures r[i] != '"' { }
  }

  /** Replacing quotes twice is replacing them once. */
  lemma ReplaceQuotesIdempotent(s: string)
    ensures ReplaceQuotes(ReplaceQuotes(s)) == ReplaceQuotes(s)
  {
  }

  /** At any one index, quote replacement keeps exactly the occurrences of a quote-free pattern. */
  lemma ReplaceQuotesKeepsAt(pat: string, s: string, j: nat)
    requires '"' !in pat && '\'' !in pat
    ensures OccursAt(ReplaceQuotes(s), pat, j) <==> OccursAt(s, pat, j)
  {
    var r := ReplaceQuotes(s);
    if OccursAt(s, pat, j) {
      forall k | j <= k < j + |pat| ensures r[k] == s[k - j + j] {
        assert s[j..j + |pat|][k - j] == s[k];
      }
      OccursAtTransfer(s, j, r, j, pat);
    }
    if OccursAt(r, pat, j) {
      forall k | j <= k < j + |pat| ensures s[k] == r[k - j + j] {
        assert r[j..j + |pat|][k - j] == r[k];
      }
      OccursAtTransfer(r, j, s, j, pat);
    }
  }

  /** Quote replacement neither creates nor destroys a pattern that holds no quote of either kind. */
  lemma ReplaceQuotesKeepsPattern(pat: string, s: string)
    requires '"' !in pat && '\'' !in pat
    ensures OccursIn(pat, ReplaceQuotes(s)) <==> OccursIn(pat, s)
  {
    if OccursIn(pat, s) {
      var j: nat :| OccursAt(s, pat, j);
      ReplaceQuotesKeepsAt(pat, s, j);
    }
    if OccursIn(pat, ReplaceQuotes(s)) {
      var j: nat :| OccursAt(ReplaceQuotes(s), pat, j);
      ReplaceQuotesKeepsAt(pat, s, j);
    }
  }

  /** The namespace injection of the rule, applied to already quote-free markup. */
  function InjectNamespace(s: string): (r: string)
    ensures OccursIn(SvgNamespace, s) ==> r == s
    ensures !OccursIn(SvgNamespace, s) ==> r == ReplaceFirst(s, OpenTag, OpenTagWithNamespace)
    // On quote-free markup with an opening tag, the result names the namespace and stays quote-free.
    ensures '"' !in s && (OccursIn(OpenTag, s) || OccursIn(SvgNamespace, s)) ==> OccursIn(SvgNamespace, r) && '"' !in r
  {
    InjectedShape(s);
    if Includes(s, SvgNamespace) then s
    else ReplaceFirst(s, OpenTag, OpenTagWithNamespace)
  }

  /** The markup the rule base64-encodes: quotes swapped, namespace ensured. */
  function InlineSvg(svg: string): (r: string)
    ensures '"' !in r
    ensures OccursIn(OpenTag, svg) ==> OccursIn(SvgNamespace, r)
  {
    var q := ReplaceQuotes(svg);
    ReplaceQuotesRemovesAll(svg);
    ReplaceQuotesKeepsPattern(OpenTag, svg);
    InjectNamespace(q)
  }

  /** The URL already present: only the quotes change. */
  lemma InlineKeepsPresentNamespace(svg: string)
    requires OccursIn(SvgNamespace, svg)
    ensures InlineSvg(svg) == ReplaceQuotes(svg)
  {
    ReplaceQuotesKeepsPattern(SvgNamespace, svg);
  }

  /** Neither the URL nor an opening tag: `replace` finds nothing, so the URL stays missing. */
  lemma InlineWithoutOpenTag(svg: string)
    requires !OccursIn(SvgNamespace, svg) && !OccursIn(OpenTag, svg)
    ensures InlineSvg(svg) == ReplaceQuotes(svg)
    ensures !OccursIn(SvgNamespace, InlineSvg(svg))
  {
    ReplaceQuotesKeepsPattern(SvgNamespace, svg);
    ReplaceQuotesKeepsPattern(OpenTag, svg);
  }

  /** The URL absent: the first `<svg ` and nothing else gains the namespace attribute. */
  lemma InlineInjectsAtFirstTag(svg: string)
    requires !OccursIn(SvgNamespace, svg) && OccursIn(OpenTag, svg)
    ensures exists i: nat :: OccursAt(svg, OpenTag, i) && (forall j: nat :: j < i ==> !OccursAt(svg, OpenTag, j))
              && InlineSvg(svg) == ReplaceQuotes(svg)[..i] + OpenTagWithNamespace + ReplaceQuotes(svg)[i + |OpenTag|..]
  {
    var q := ReplaceQuotes(svg);
    InlineSplicesFirstTag(svg);
    var i := IndexOf(q, OpenTag).value;
    QuotesAgreeOnTag(svg);
    assert OccursAt(svg, OpenTag, i);
    assert forall j: nat :: j < i ==> !OccursAt(svg, OpenTag, j);
  }

  /** The splice happens at the first `<svg ` of the quote-swapped markup. */
  lemma InlineSplicesFirstTag(svg: string)
    requires !OccursIn(SvgNamespace, svg) && OccursIn(OpenTag, svg)
    ensures IndexOf(ReplaceQuotes(svg), OpenTag).Some?
    ensures var q := ReplaceQuotes(svg);
            var i := IndexOf(q, OpenTag).value;
            InlineSvg(svg) == q[..i] + OpenTagWithNamespace + q[i + |OpenTag|..]
  {
    var q := ReplaceQuotes(svg);
    ReplaceQuotesKeepsPattern(OpenTag, svg);
    ReplaceQuotesRemovesAll(svg);
    ReplaceQuotesKeepsPattern(SvgNamespace, svg);
    InjectedShape(q);
  }

  /** The injected tag carries the namespace URL at index 12 and no double quote. */
  lemma OpenTagWithNamespaceFacts()
    ensures OccursAt(OpenTagWithNamespace, SvgNamespace, 12)
    ensures '"' !in OpenTagWithNamespace
  {
    var pre := OpenTag + "xmlns='";
    assert OpenTagWithNamespace == pre + SvgNamespace + "' ";
    OccursBetween(pre, SvgNamespace, "' ");
    assert '"' !in pre && '"' !in SvgNamespace && '"' !in "' ";
  }

  /** Writing the injected tag at `i` puts the namespace URL at `i + 12`. */
  lemma SpliceHasNamespace(pre: string, post: string)
    ensures OccursAt(pre + OpenTagWithNamespace + post, SvgNamespace, |pre| + 12)
  {
    var r := pre + OpenTagWithNamespace + post;
    var i := |pre|;
    OpenTagWithNamespaceFacts();
    forall k | i + 12 <= k < i + 12 + |SvgNamespace|
      ensures r[k] == OpenTagWithNamespace[k - (i + 12) + 12] { }
    OccursAtTransfer(OpenTagWithNamespace, 12, r, i + 12, SvgNamespace);
  }

  /** Where the injection lands, and that it brings the URL and no double quote. */
  lemma InjectedShape(q: string)
    ensures '"' !in q && OccursIn(OpenTag, q) ==>
            var i := IndexOf(q, OpenTag).value;
            var r := ReplaceFirst(q, OpenTag, OpenTagWithNamespace);
            && r == q[..i] + OpenTagWithNamespace + q[i + |OpenTag|..]
            && OccursIn(SvgNamespace, r) && '"' !in r
  {
    if '"' in q || !OccursIn(OpenTag, q) {
      return;
    }
    var i := IndexOf(q, OpenTag).value;
    var pre, post := q[..i], q[i + |OpenTag|..];
    SpliceHasNamespace(pre, post);
    OpenTagWithNamespaceFacts();
    assert '"' !in pre && '"' !in post;
  }

  /** The first `<svg ` sits at the same index before and after quote replacement. */
  lemma QuotesAgreeOnTag(svg: string)
    ensures forall j: nat :: OccursAt(ReplaceQuotes(svg), OpenTag, j) <==> OccursAt(svg, OpenTag, j)
  {
    forall j: nat ensures OccursAt(ReplaceQuotes(svg), OpenTag, j) <==> OccursAt(svg, OpenTag, j) {
      ReplaceQuotesKeepsAt(OpenTag, svg, j);
    }
  }

  /** Splicing the namespace attribute in after an opening tag keeps the occurrences of `pat`. */
  lemma SpliceKeepsPattern(q: string, i: nat, pat: string)
    requires OccursAt(q, OpenTag, i)
    requires ' ' !in pat && !OccursIn(pat, NamespaceAttr)
    ensures OccursIn(pat, q[..i] + OpenTagWithNamespace + q[i + |OpenTag|..]) <==> OccursIn(pat, q)
  {
    var a, b := q[..i + |OpenTag|], q[i + |OpenTag|..];
    assert a == q[..i] + OpenTag by {
      assert q[i..i + |OpenTag|] == OpenTag;
    }
    assert q[..i] + OpenTagWithNamespace + b == a + NamespaceAttr + b;
    assert a + b == q;
    InsertAfterSeparator(a, NamespaceAttr, b, pat, ' ');
  }

  /**
   Inlining neither creates nor destroys a pattern that holds no quote and
   no space and does not occur in the injected attribute: searching the
   inlined markup is the same as searching the original.
   */
  lemma InlineKeepsPattern(pat: string, svg: string)
    requires '"' !in pat && '\'' !in pat && ' ' !in pat
    requires !OccursIn(pat, NamespaceAttr)
    ensures OccursIn(pat, InlineSvg(svg)) <==> OccursIn(pat, svg)
  {
    var q := ReplaceQuotes(svg);
    ReplaceQuotesKeepsPattern(pat, svg);
    ReplaceQuotesRemovesAll(svg);
    if !OccursIn(SvgNamespace, q) && OccursIn(OpenTag, q) {
      InjectedShape(q);
      SpliceKeepsPattern(q, IndexOf(q, OpenTag).value, pat);
    }
  }
}
