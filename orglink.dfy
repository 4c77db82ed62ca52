/** Org-mode link markup `[[url][text]]` and its HTML anchor form
    (feed-render.py, `parse_link` and `html_link`). */
module OrgLink {
  import opened Wrappers
  import opened PyStr

  /** The record `parse_link` returns: `{'url': ..., 'text': ...}`. */
  datatype Link = Link(url: string, text: string)

  /** `parse_link(line)`: slices the line between the first `[[` and the first `][`
      for the url, and between the first `][` and the first `]]` for the text.
      A missing delimiter makes `find` answer -1, which Python's slicing then reads
      as a bound counted from the end: the result is always some (possibly empty)
      run of the line, never an error. */
  function ParseLink(line: string): (l: Link)
    ensures Bound(Find(line, "[[") + 2, |line|) + |l.url| <= |line|
    ensures l.url == line[Bound(Find(line, "[[") + 2, |line|)..Bound(Find(line, "[[") + 2, |line|) + |l.url|]
    ensures Bound(Find(line, "][") + 2, |line|) + |l.text| <= |line|
    ensures l.text == line[Bound(Find(line, "][") + 2, |line|)..Bound(Find(line, "][") + 2, |line|) + |l.text|]
  {
    Link(Slice(line, Find(line, "[[") + 2, Find(line, "][")),
         Slice(line, Find(line, "][") + 2, Find(line, "]]")))
  }

  /** When the three delimiters appear in order without overlapping, the url and text
      are exactly the runs between them. */
  lemma ParseLinkWellFormed(line: string)
    requires 0 <= Find(line, "[[")
    requires Find(line, "[[") + 2 <= Find(line, "][")
    requires Find(line, "][") + 2 <= Find(line, "]]")
    ensures ParseLink(line).url == line[Find(line, "[[") + 2..Find(line, "][")]
    ensures ParseLink(line).text == line[Find(line, "][") + 2..Find(line, "]]")]
  {
  }

  /** A line with none of the delimiters yields the line without its first and last
      character, for the url and for the text alike. */
  lemma ParseLinkNoDelimiters(line: string)
    requires !Contains(line, "[[") && !Contains(line, "][") && !Contains(line, "]]")
    ensures ParseLink(line).url == ParseLink(line).text == Slice(line, 1, -1)
    ensures |line| >= 2 ==> ParseLink(line).url == line[1..|line| - 1]
    ensures |line| <= 2 ==> ParseLink(line) == Link("", "")
  {
  }

  /** The blank line parses to an empty url and an empty text. */
  lemma ParseBlankLine()
    ensures ParseLink("") == Link("", "")
  {
    assert !OccursAt("", "[[", 0) && !OccursAt("", "][", 0) && !OccursAt("", "]]", 0);
  }

  /** Org link markup for a url and a text. */
  function Markup(url: string, text: string): (m: string)
    ensures |m| == |url| + |text| + 6
  {
    "[[" + url + "][" + text + "]]"
  }

  /** A two-character delimiter is first found at `p` when no earlier pair of characters spells it. */
  lemma FindPairAt(s: string, sub: string, p: nat)
    requires |sub| == 2 && p + 2 <= |s| && s[p] == sub[0] && s[p + 1] == sub[1]
    requires forall i :: 0 <= i < p ==> s[i] != sub[0] || s[i + 1] != sub[1]
    ensures Find(s, sub) == p
  {
    assert s[p..p + 2] == sub;
    forall i | 0 <= i < p
      ensures !OccursAt(s, sub, i)
    {
      assert s[i..i + 2][0] == s[i] && s[i..i + 2][1] == s[i + 1];
    }
    FindAt(s, sub, p);
  }

  /** Where the three delimiters of the markup are first found. */
  lemma MarkupDelimiters(url: string, text: string)
    requires ']' !in url && ']' !in text
    ensures Find(Markup(url, text), "[[") == 0
    ensures Find(Markup(url, text), "][") == 2 + |url|
    ensures Find(Markup(url, text), "]]") == 4 + |url| + |text|
  {
    var m := Markup(url, text);
    var j, k := 2 + |url|, 4 + |url| + |text|;
    assert m[0] == m[1] == '[' && m[j] == ']' && m[j + 1] == '[' && m[k] == m[k + 1] == ']';
    assert forall i :: 2 <= i < j ==> m[i] == url[i - 2];
    assert forall i :: j + 2 <= i < k ==> m[i] == text[i - j - 2];
    FindPairAt(m, "[[", 0);
    FindPairAt(m, "][", j);
    FindPairAt(m, "]]", k);
  }

  /** Parsing is the inverse of writing the markup, for urls and texts without `]`. */
  lemma ParseMarkup(url: string, text: string)
    requires ']' !in url && ']' !in text
    ensures ParseLink(Markup(url, text)) == Link(url, text)
  {
    var m := Markup(url, text);
    MarkupDelimiters(url, text);
    var j, k := 2 + |url|, 4 + |url| + |text|;
    assert m[2..j] == url;
    assert m[j + 2..k] == text;
  }

  /** `parse_link` on `[[http://example.com/x][Example Link]]` gives back that url and text. */
  lemma ParseLinkExample()
    ensures ParseLink("[[http://example.com/x][Example Link]]") == Link("http://example.com/x", "Example Link")
  {
    assert Markup("http://example.com/x", "Example Link") == "[[http://example.com/x][Example Link]]";
    ParseMarkup("http://example.com/x", "Example Link");
  }

  const AnchorOpen: string := "<a href=\""
  const AnchorMid: string := "\">"
  const AnchorClose: string := "</a>"

  /** `html_link(url, text)`: the anchor tag `<a href="url">text</a>`. */
  function HtmlLink(url: string, text: string): (a: string)
    ensures |a| == |url| + |text| + 15
    ensures AnchorOpen <= a && a[|a| - 4..] == AnchorClose
  {
    AnchorOpen + url + AnchorMid + text + AnchorClose
  }

  /** Reads an anchor tag back: the url runs up to the first `">`. */
  function ReadAnchor(a: string): (r: Option<Link>)
    ensures r.Some? ==> |a| >= 15 && |r.value.url| + |r.value.text| + 15 == |a|
  {
    if |a| < 15 || a[..9] != AnchorOpen || a[|a| - 4..] != AnchorClose then None
    else
      var inner := a[9..|a| - 4];
      var q := Find(inner, AnchorMid);
      if q < 0 then None else Some(Link(inner[..q], inner[q + 2..]))
  }

  /** An anchor built from a url without `"` reads back as the url and text it was built from. */
  lemma ReadHtmlLink(url: string, text: string)
    requires '"' !in url
    ensures ReadAnchor(HtmlLink(url, text)) == Some(Link(url, text))
  {
    var a := HtmlLink(url, text);
    var inner := a[9..|a| - 4];
    assert inner == url + AnchorMid + text;
    assert OccursAt(inner, AnchorMid, |url|);
    forall i | 0 <= i < |url|
      ensures !OccursAt(inner, AnchorMid, i)
    {
      assert inner[i] == url[i];
    }
    FindAt(inner, AnchorMid, |url|);
    assert inner[..|url|] == url;
    assert inner[|url| + 2..] == text;
  }
}
