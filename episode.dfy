/** One outline entry turned into one feed item: the body of the per-episode
    loop of feed-render.py, as pure functions of the entry and the configuration. */
module Episode {
  import opened Wrappers
  import opened PyStr
  import opened OrgLink

  /** An outline node as the outline parser hands it over: heading, property
      drawer, raw body text and child nodes, in document order. */
  datatype Entry = Entry(heading: string, properties: map<string, string>, body: string, children: seq<Entry>)

  /** The calendar part of the datetime `strptime` yields. */
  datatype Date = Date(day: nat, month: nat, year: nat)

  /** The configuration values the loop reads: `itunes:author`, `itunes:image`,
      `itunes:explicit` and the `item` section. */
  datatype ItemConfig = ItemConfig(dateFormat: string, episodeDigits: int, mimeType: string, episodeType: string)
  datatype Config = Config(author: string, image: string, explicit: string, item: ItemConfig)

  /** The field values of the feed objects built for one episode. */
  datatype Guid = Guid(value: string, isPermaLink: bool)
  datatype Enclosure = Enclosure(url: string, length: string, mimeType: string)
  datatype ITunesItem = ITunesItem(author: string, image: string, duration: string, explicit: string,
                                   episode: string, episodeType: string, subtitle: string, summary: string)
  datatype Item = Item(title: string, description: string, guid: Guid, pubDate: Date,
                       enclosure: Enclosure, itunes: ITunesItem)

  /** What aborts the run: `next` on an exhausted body, a date line that does not
      match the format, a missing property or section. */
  datatype Error = StopIteration | DateParseError(line: string, format: string) | KeyError(key: string)

  // ---------------------------------------------------------------- title

  /** The title as written: `find(': ')` is compared with -1 the wrong way round,
      so a heading with `": "` is kept whole and one without loses its first character. */
  function Title(heading: string): (t: string)
    ensures Contains(heading, ": ") ==> t == heading
    ensures !Contains(heading, ": ") ==> t == if heading == [] then [] else heading[1..]
  {
    var prefixEnd := Find(heading, ": ");
    if prefixEnd == -1 then Slice(heading, prefixEnd + 2, |heading|) else heading
  }

  // ---------------------------------------------------------------- GUID

  /** `%d` and `%m`: two digits, zero padded. */
  function Pad2(n: nat): string
  {
    RJust(NatStr(n), 2, '0')
  }

  /** `strftime(date, '%d%m%Y')`. */
  function FormatDate(d: Date): string
  {
    Pad2(d.day) + Pad2(d.month) + NatStr(d.year)
  }

  /** A date whose `%d%m%Y` form takes exactly two, two and four digits. */
  predicate Formattable(d: Date)
  {
    d.day <= 99 && d.month <= 99 && 1000 <= d.year <= 9999
  }

  predicate AllDigits(s: string)
  {
    forall k :: 0 <= k < |s| ==> IsDigit(s[k])
  }

  /** Reads a `DDMMYYYY` string back into a date. */
  function ReadDate(s: string): (r: Option<Date>)
    ensures r.Some? ==> r.value.day <= 99 && r.value.month <= 99 && r.value.year <= 9999
  {
    if |s| == 8 && AllDigits(s) then
      assert AllDigits(s[..2]) && AllDigits(s[2..4]) && AllDigits(s[4..]);
      DigitsValueBound(s[..2]);
      DigitsValueBound(s[2..4]);
      DigitsValueBound(s[4..]);
      assert Pow10(2) == 100 && Pow10(4) == 10000;
      Some(Date(DigitsValue(s[..2]), DigitsValue(s[2..4]), DigitsValue(s[4..])))
    else None
  }

  lemma {:induction false} DigitsValueBound(s: string)
    requires AllDigits(s)
    ensures DigitsValue(s) < Pow10(|s|)
  {
    if s != [] {
      DigitsValueBound(s[..|s| - 1]);
    }
  }

  function Pow10(n: nat): nat
  {
    if n == 0 then 1 else 10 * Pow10(n - 1)
  }

  /** Two digits read back as the number they pad. */
  lemma Pad2Value(n: nat)
    requires n <= 99
    ensures |Pad2(n)| == 2 && AllDigits(Pad2(n)) && DigitsValue(Pad2(n)) == n
  {
    NatStrLength(n);
    NatStrValue(n);
    var p := Pad2(n);
    if n < 10 {
      assert p == "0" + NatStr(n);
      assert p[..1] == "0";
    }
  }

  /** The `%d%m%Y` form of a formattable date is eight digits that read back as the date. */
  lemma ReadFormatDate(d: Date)
    requires Formattable(d)
    ensures |FormatDate(d)| == 8
    ensures ReadDate(FormatDate(d)) == Some(d)
  {
    Pad2Value(d.day);
    Pad2Value(d.month);
    NatStrLength(d.year);
    NatStrValue(d.year);
    var s := FormatDate(d);
    assert s[..2] == Pad2(d.day);
    assert s[2..4] == Pad2(d.month);
    assert s[4..] == NatStr(d.year);
    assert AllDigits(s);
  }

  /** The GUID text `e<INDEX right-justified with '0' to episode-digits>-<DDMMYYYY>`. */
  function GuidString(index: string, digits: int, d: Date): string
  {
    "e" + RJust(index, digits, '0') + "-" + FormatDate(d)
  }

  /** Where the parts of a text `e<p>-<f>` sit. */
  lemma FramedParts(g: string, p: string, f: string)
    requires g == "e" + p + "-" + f
    ensures && |g| == 2 + |p| + |f|
            && g[0] == 'e' && g[1..1 + |p|] == p && g[1 + |p|] == '-' && g[2 + |p|..] == f
  {
    assert g[1..1 + |p|] == p;
    assert g[2 + |p|..] == f;
  }

  /** In `e<p>-<f>`, a field `p` made of zeros followed by `index` puts `index` just
      before the `-` and zeros between it and the `e`. */
  lemma FramedIndex(g: string, p: string, index: string, f: string)
    requires g == "e" + p + "-" + f
    requires |index| <= |p| && p[|p| - |index|..] == index
    requires forall k :: 0 <= k < |p| - |index| ==> p[k] == '0'
    ensures g[1 + |p| - |index|..1 + |p|] == index
    ensures forall k :: 1 <= k < 1 + |p| - |index| ==> g[k] == '0'
  {
    var w := |p|;
    FramedParts(g, p, f);
    assert g[1 + w - |index|..1 + w] == g[1..1 + w][w - |index|..];
    forall k | 1 <= k < 1 + w - |index|
      ensures g[k] == '0'
    {
      assert g[k] == g[1..1 + w][k - 1];
    }
  }

  /** The padded index sits between `e` and `-`: it is `max(|index|, digits)` long,
      ends with the index itself and starts with nothing but zeros (none when the index
      is already `digits` long or longer). */
  lemma GuidShape(index: string, digits: int, d: Date)
    ensures var g := GuidString(index, digits, d);
            var w := if |index| >= digits then |index| else digits;
            && g[0] == 'e'
            && 1 + w + 1 <= |g| && g[1 + w] == '-'
            && g[1 + w - |index|..1 + w] == index
            && (forall k :: 1 <= k < 1 + w - |index| ==> g[k] == '0')
  {
    var p := RJust(index, digits, '0');
    var f := FormatDate(d);
    var g := GuidString(index, digits, d);
    FramedParts(g, p, f);
    FramedIndex(g, p, index, f);
  }

  /** With a four-digit year the date adds eight characters after the `-`. */
  lemma GuidLength(index: string, digits: int, d: Date)
    requires Formattable(d)
    ensures |GuidString(index, digits, d)| == (if |index| >= digits then |index| else digits) + 10
  {
    ReadFormatDate(d);
  }

  /** The GUID of episode 7 with three episode digits, published on 5 January 2024. */
  lemma GuidExample()
    ensures GuidString("7", 3, Date(5, 1, 2024)) == "e007-05012024"
  {
    assert RJust("7", 3, '0') == "007";
    assert NatStr(5) == "5" && NatStr(1) == "1";
    assert NatStr(2024) == "2024";
    assert Pad2(5) == "05" && Pad2(1) == "01";
  }

  /** The GUID determines the publication date: equal GUIDs of formattable dates have
      equal dates (and so two entries can only collide on a date they share). */
  lemma GuidDeterminesDate(i1: string, w1: int, d1: Date, i2: string, w2: int, d2: Date)
    requires Formattable(d1) && Formattable(d2)
    requires GuidString(i1, w1, d1) == GuidString(i2, w2, d2)
    ensures d1 == d2
  {
    ReadFormatDate(d1);
    ReadFormatDate(d2);
    var g := GuidString(i1, w1, d1);
    assert g[|g| - 8..] == FormatDate(d1);
    assert GuidString(i2, w2, d2)[|g| - 8..] == FormatDate(d2);
  }

  /** INDEX is used as text, so differently written indexes can share a GUID:
      `7` and `007` agree once padded to three digits. */
  lemma GuidPaddingCollision(d: Date)
    ensures GuidString("7", 3, d) == GuidString("007", 3, d)
  {
    assert RJust("7", 3, '0') == "007";
    RJustWide("007", 3, '0');
  }

  // ---------------------------------------------------------------- sections and links

  /** `{sub.heading: sub.get_body() for sub in children}`: the children in order, each
      one's heading mapped to its body, a later child overwriting an earlier one. */
  function Sections(children: seq<Entry>): map<string, string>
  {
    if children == [] then map[]
    else
      var n := |children| - 1;
      Sections(children[..n])[children[n].heading := children[n].body]
  }

  /** The keys are exactly the child headings. */
  lemma {:induction false} SectionsKeys(children: seq<Entry>)
    ensures Sections(children).Keys == set i | 0 <= i < |children| :: children[i].heading
  {
    if children != [] {
      var n := |children| - 1;
      SectionsKeys(children[..n]);
      var before := set i | 0 <= i < n :: children[..n][i].heading;
      var all := set i | 0 <= i < |children| :: children[i].heading;
      assert forall i :: 0 <= i < n ==> children[..n][i] == children[i];
      assert all == before + {children[n].heading} by {
        forall h | h in all
          ensures h in before + {children[n].heading}
        {
          var i :| 0 <= i < |children| && children[i].heading == h;
          if i < n {
            assert children[..n][i].heading == h;
          }
        }
      }
    }
  }

  /** A heading maps to the body of its last child: a later child overwrites an earlier one. */
  lemma {:induction false} SectionsLastWins(children: seq<Entry>, i: nat)
    requires i < |children|
    requires forall j :: i < j < |children| ==> children[j].heading != children[i].heading
    ensures children[i].heading in Sections(children)
    ensures Sections(children)[children[i].heading] == children[i].body
  {
    var n := |children| - 1;
    if i < n {
      assert children[..n][i] == children[i];
      SectionsLastWins(children[..n], i);
    }
  }

  /** The child section with the given heading exists. */
  predicate HasSection(e: Entry, name: string)
  {
    exists i :: 0 <= i < |e.children| && e.children[i].heading == name
  }

  /** A section is present exactly when some child carries its heading. */
  lemma SectionPresent(e: Entry, name: string)
    ensures name in Sections(e.children) <==> HasSection(e, name)
  {
    SectionsKeys(e.children);
    if HasSection(e, name) {
      var i :| 0 <= i < |e.children| && e.children[i].heading == name;
      assert e.children[i].heading in set k | 0 <= k < |e.children| :: e.children[k].heading;
    }
  }

  /** `[parse_link(line) for line in section.splitlines()]`. */
  function LinksOf(section: string): seq<Link>
  {
    var lines := SplitLines(section);
    seq(|lines|, i requires 0 <= i < |lines| => ParseLink(lines[i]))
  }

  /** One link per line of the section, in order, blank lines included
      (a blank line gives an empty url and text). */
  lemma LinksPerLine(ls: seq<string>)
    requires |ls| >= 1 && ls[|ls| - 1] != []
    requires forall k :: 0 <= k < |ls| ==> '\n' !in ls[k]
    ensures |LinksOf(Join("\n", ls))| == |ls|
    ensures forall k :: 0 <= k < |ls| ==> LinksOf(Join("\n", ls))[k] == ParseLink(ls[k])
    ensures forall k :: 0 <= k < |ls| && ls[k] == [] ==> LinksOf(Join("\n", ls))[k] == Link("", "")
  {
    SplitLinesOfJoin(ls);
    ParseBlankLine();
  }

  /** The same for a section whose last line is ended by a break, as a raw section body
      usually is; its last line may then be blank, and gives an empty link. */
  lemma LinksPerLineEnded(ls: seq<string>)
    requires |ls| >= 1
    requires forall k :: 0 <= k < |ls| ==> '\n' !in ls[k]
    ensures |LinksOf(Join("\n", ls) + "\n")| == |ls|
    ensures forall k :: 0 <= k < |ls| ==> LinksOf(Join("\n", ls) + "\n")[k] == ParseLink(ls[k])
    ensures forall k :: 0 <= k < |ls| && ls[k] == [] ==> LinksOf(Join("\n", ls) + "\n")[k] == Link("", "")
  {
    SplitLinesOfJoinEnded(ls);
    ParseBlankLine();
  }

  /** An empty section gives no links. */
  lemma LinksOfEmpty()
    ensures LinksOf("") == []
  {
  }

  /** A run of a break-free text has no break. */
  lemma NoBreakInRun(s: string, lo: nat, hi: nat)
    requires lo <= hi <= |s| && '\n' !in s
    ensures '\n' !in s[lo..hi]
  {
    forall k | 0 <= k < hi - lo
      ensures s[lo..hi][k] != '\n'
    {
      assert s[lo..hi][k] == s[lo + k];
    }
  }

  /** The links parsed from a section have no line break in their url or text. */
  lemma LinksOfOneLine(section: string)
    ensures forall i :: 0 <= i < |LinksOf(section)| ==>
              '\n' !in LinksOf(section)[i].url && '\n' !in LinksOf(section)[i].text
  {
    var lines := SplitLines(section);
    forall i | 0 <= i < |lines|
      ensures '\n' !in ParseLink(lines[i]).url && '\n' !in ParseLink(lines[i]).text
    {
      var line := lines[i];
      var l := ParseLink(line);
      var a, b := Bound(Find(line, "[[") + 2, |line|), Bound(Find(line, "][") + 2, |line|);
      NoBreakInRun(line, a, a + |l.url|);
      NoBreakInRun(line, b, b + |l.text|);
    }
  }

  // ---------------------------------------------------------------- summary, subtitle, description

  const LinksHeader: string := "\nLinks:\n"

  /** `text + ' - ' + url`. */
  function LinkLine(l: Link): string
  {
    l.text + " - " + l.url
  }

  function LinkLines(links: seq<Link>): seq<string>
  {
    seq(|links|, i requires 0 <= i < |links| => LinkLine(links[i]))
  }

  /** The plain-text summary: the notes, a `Links:` line and one `text - url` line per link. */
  function Summary(notes: string, links: seq<Link>): string
  {
    notes + LinksHeader + Join("\n", LinkLines(links))
  }

  /** `sep.join(a + b)` for non-empty `a` and `b` puts one separator between the two joins. */
  lemma {:induction false} JoinAppend(sep: string, a: seq<string>, b: seq<string>)
    requires |a| >= 1 && |b| >= 1
    ensures Join(sep, a + b) == Join(sep, a) + sep + Join(sep, b)
  {
    if |a| > 1 {
      assert (a + b)[1..] == a[1..] + b;
      JoinAppend(sep, a[1..], b);
    } else {
      assert (a + b)[1..] == b;
    }
  }

  /** No `text - url` line holds a line break when no url or text does, and none is empty. */
  lemma LinkLinesOneLine(links: seq<Link>)
    requires forall i :: 0 <= i < |links| ==> '\n' !in links[i].url && '\n' !in links[i].text
    ensures forall i :: 0 <= i < |LinkLines(links)| ==> '\n' !in LinkLines(links)[i] && LinkLines(links)[i] != []
  {
    var ll := LinkLines(links);
    forall i | 0 <= i < |ll|
      ensures '\n' !in ll[i] && ll[i] != []
    {
      assert ll[i] == links[i].text + " - " + links[i].url;
      assert |ll[i]| >= 3;
    }
  }

  /** The summary is the join, with line breaks, of the note lines, `Links:` and the link lines
      (or an empty last line when there are no links). */
  lemma SummaryAsJoin(notes: string, links: seq<Link>)
    ensures var tail := if links == [] then [""] else LinkLines(links);
            Summary(notes, links) == Join("\n", SplitOn(notes, '\n') + ["Links:"] + tail)
  {
    var tail := if links == [] then [""] else LinkLines(links);
    var rest := Join("\n", LinkLines(links));
    assert Join("\n", tail) == rest by {
      if links == [] {
        assert Join("\n", tail) == "" == rest;
      }
    }
    JoinSplit(notes, '\n');
    JoinAround("\n", SplitOn(notes, '\n'), "Links:", tail);
    Regroup(notes, "\n", "Links:", rest, LinksHeader);
  }

  /** `a + sep + m + sep + t` read with the middle `sep + m + sep` as one piece. */
  lemma Regroup(a: string, sep: string, m: string, t: string, middle: string)
    requires middle == sep + m + sep
    ensures a + sep + m + sep + t == a + middle + t
  {
  }

  /** Joining around one middle element puts a separator on each side of it. */
  lemma JoinAround(sep: string, head: seq<string>, mid: string, tail: seq<string>)
    requires |head| >= 1 && |tail| >= 1
    ensures Join(sep, head + [mid] + tail) == Join(sep, head) + sep + mid + sep + Join(sep, tail)
  {
    assert Join(sep, [mid]) == mid;
    JoinAppend(sep, head, [mid]);
    JoinAppend(sep, head + [mid], tail);
  }

  /** The summary's lines are the lines of the notes, then `Links:`, then exactly one
      `text - url` line per link, in order. */
  lemma SummaryLines(notes: string, links: seq<Link>)
    requires forall i :: 0 <= i < |links| ==> '\n' !in links[i].url && '\n' !in links[i].text
    ensures SplitLines(Summary(notes, links)) == SplitOn(notes, '\n') + ["Links:"] + LinkLines(links)
  {
    var head := SplitOn(notes, '\n') + ["Links:"];
    var ll := LinkLines(links);
    LinkLinesOneLine(links);
    SummaryAsJoin(notes, links);
    if links == [] {
      var xs := head + [""];
      JoinDropLast("\n", xs);
      assert xs[..|xs| - 1] == head == head + ll;
      assert Summary(notes, links) == Join("\n", head) + "\n";
      assert forall k :: 0 <= k < |head| ==> '\n' !in head[k];
      SplitLinesOfJoinEnded(head);
    } else {
      SplitLinesOfJoin(head + ll);
    }
  }

  /** The first line of the notes: what comes before their first line break. */
  function FirstNoteLine(notes: string): (l: string)
    ensures l <= notes && '\n' !in l
    ensures l == notes || (|l| < |notes| && notes[|l|] == '\n')
    ensures '\n' !in notes ==> l == notes
  {
    var parts := SplitOn(notes, '\n');
    JoinSplit(notes, '\n');
    JoinStartsWithFirst("\n", parts);
    SplitOnNoSeparator(notes, '\n');
    assert |parts| == 1 ==> notes == parts[0];
    assert |parts| > 1 ==> notes == parts[0] + "\n" + Join("\n", parts[1..]);
    parts[0]
  }

  /** `summary.splitlines()[0][:255]`: the first line of the notes cut to 255 characters;
      a break-free prefix of the summary, and the notes' own first 255 characters when
      the notes are a single line. */
  function Subtitle(notes: string, links: seq<Link>): (t: string)
    ensures |t| <= 255 && '\n' !in t
    ensures t <= Summary(notes, links)
    ensures t == FirstNoteLine(notes)[..if |FirstNoteLine(notes)| < 255 then |FirstNoteLine(notes)| else 255]
    ensures '\n' !in notes ==> t == notes[..if |notes| < 255 then |notes| else 255]
  {
    var s := Summary(notes, links);
    FirstLine(s);
    assert s == notes + ['\n'] + ("Links:\n" + Join("\n", LinkLines(links)));
    SplitFirstPiece(notes, "Links:\n" + Join("\n", LinkLines(links)), '\n');
    var first := FirstNoteLine(notes);
    assert first <= s;
    Slice(SplitLines(s)[0], 0, 255)
  }

  /** `<li>` + `html_link(**link)` + `</li>`. */
  function ListItem(l: Link): string
  {
    "<li>" + HtmlLink(l.url, l.text) + "</li>"
  }

  function ListItems(links: seq<Link>): seq<string>
  {
    seq(|links|, i requires 0 <= i < |links| => ListItem(links[i]))
  }

  /** What comes before the url and after the text of a list entry. */
  const ItemOpen: string := "<li>" + AnchorOpen
  const ItemClose: string := AnchorClose + "</li>"

  /** A list entry is the url and text framed by the list-entry and anchor markup. */
  lemma ListItemParts(l: Link, rest: string)
    ensures ListItem(l) + rest == ItemOpen + l.url + AnchorMid + l.text + ItemClose + rest
  {
  }

  /** A text that starts with `prefix` and `sub`, where `prefix` never holds the first
      character of `sub`, has its first `sub` right after `prefix`. */
  lemma FindAfterFree(s: string, prefix: string, sub: string, rest: string)
    requires |sub| >= 1 && sub[0] !in prefix
    requires s == prefix + sub + rest
    ensures Find(s, sub) == |prefix|
  {
    assert s[|prefix|..|prefix| + |sub|] == sub;
    forall j | 0 <= j < |prefix|
      ensures !OccursAt(s, sub, j)
    {
      assert s[j] == prefix[j];
      if j + |sub| <= |s| {
        assert s[j..j + |sub|][0] == s[j];
      }
    }
    FindAt(s, sub, |prefix|);
  }

  /** Reads one list entry `<li><a href="url">text</a></li>` off the front of a text:
      the url runs to the first `">`, the text to the first `</a></li>` after it. */
  function ReadListItem(s: string): (r: Option<(Link, string)>)
    ensures r.Some? ==> |r.value.1| < |s|
  {
    if |s| < |ItemOpen| || s[..|ItemOpen|] != ItemOpen then None
    else
      var r := s[|ItemOpen|..];
      var q := Find(r, AnchorMid);
      if q < 0 then None
      else
        var r2 := r[q + |AnchorMid|..];
        var p := Find(r2, ItemClose);
        if p < 0 then None
        else Some((Link(r[..q], r2[..p]), r2[p + |ItemClose|..]))
  }

  /** Reads a whole run of list entries back into links. */
  function ReadListItems(s: string): Option<seq<Link>>
    decreases |s|
  {
    if s == [] then Some([])
    else
      match ReadListItem(s)
      case None => None
      case Some((l, rest)) =>
        match ReadListItems(rest)
        case None => None
        case Some(ls) => Some([l] + ls)
  }

  /** A link whose url has no `"` and whose text has no `<` can be read back from its list entry. */
  predicate Readable(l: Link)
  {
    '"' !in l.url && '<' !in l.text
  }

  /** A framed url and text, followed by anything, read back as that link and that remainder. */
  lemma ReadFramed(s: string, url: string, text: string, rest: string)
    requires AnchorMid[0] !in url && ItemClose[0] !in text
    requires s == ItemOpen + (url + AnchorMid + (text + ItemClose + rest))
    ensures ReadListItem(s) == Some((Link(url, text), rest))
  {
    var r := s[|ItemOpen|..];
    assert s[..|ItemOpen|] == ItemOpen;
    assert r == url + AnchorMid + (text + ItemClose + rest);
    FindAfterFree(r, url, AnchorMid, text + ItemClose + rest);
    var r2 := r[|url| + |AnchorMid|..];
    assert r2 == text + ItemClose + rest;
    FindAfterFree(r2, text, ItemClose, rest);
    assert r[..|url|] == url;
    assert r2[..|text|] == text;
    assert r2[|text| + |ItemClose|..] == rest;
  }

  /** One list entry, followed by anything, reads back as its link and that remainder. */
  lemma ReadListItemOf(l: Link, rest: string)
    requires Readable(l)
    ensures ReadListItem(ListItem(l) + rest) == Some((l, rest))
  {
    ListItemParts(l, rest);
    assert AnchorMid[0] == '"' && ItemClose[0] == '<';
    var s := ListItem(l) + rest;
    assert s == ItemOpen + (l.url + AnchorMid + (l.text + ItemClose + rest));
    ReadFramed(s, l.url, l.text, rest);
  }

  /** `''.join` of non-empty pieces is the first piece followed by the join of the rest. */
  lemma JoinEmptyFirst(xs: seq<string>)
    requires |xs| >= 1
    ensures Join("", xs) == xs[0] + Join("", xs[1..])
  {
    if |xs| == 1 {
      assert xs[0] + [] == xs[0];
    }
  }

  /** A text that starts with a readable entry reads back as that entry's link
      followed by what the rest reads back as. */
  lemma ReadListItemsStep(s: string, l: Link, rest: string, ls: seq<Link>)
    requires ReadListItem(s) == Some((l, rest)) && ReadListItems(rest) == Some(ls)
    ensures ReadListItems(s) == Some([l] + ls)
  {
    assert s != [];
  }

  /** The joined list entries read back as exactly the links, in order. */
  lemma {:induction false} ReadListItemsOf(links: seq<Link>)
    requires forall i :: 0 <= i < |links| ==> Readable(links[i])
    ensures ReadListItems(Join("", ListItems(links))) == Some(links)
  {
    if links != [] {
      var items := ListItems(links);
      var rest := Join("", ListItems(links[1..]));
      assert items[1..] == ListItems(links[1..]);
      JoinEmptyFirst(items);
      assert Join("", items) == ListItem(links[0]) + rest;
      ReadListItemOf(links[0], rest);
      ReadListItemsOf(links[1..]);
      ReadListItemsStep(Join("", items), links[0], rest, links[1..]);
      assert [links[0]] + links[1..] == links;
    }
  }

  const CdataOpen: string := "<![CDATA[<ul>"
  const CdataClose: string := "</ul>]]>"

  /** The HTML description: the notes, the `Links:` header and a CDATA-wrapped list
      with one anchor per link. */
  function Description(notes: string, links: seq<Link>): string
  {
    notes + LinksHeader + CdataOpen + Join("", ListItems(links)) + CdataClose
  }

  /** Total length of the urls and texts of some links. */
  function LinkChars(links: seq<Link>): nat
  {
    if links == [] then 0 else |links[0].url| + |links[0].text| + LinkChars(links[1..])
  }

  lemma {:induction false} ListItemsLength(links: seq<Link>)
    ensures SumLen(ListItems(links)) == LinkChars(links) + 24 * |links|
  {
    if links != [] {
      assert ListItems(links)[1..] == ListItems(links[1..]);
      ListItemsLength(links[1..]);
    }
  }

  /** The description is the notes and header (shared with the summary), the CDATA
      wrapper, and 24 characters of markup around each link's url and text. */
  lemma DescriptionShape(notes: string, links: seq<Link>)
    ensures notes + LinksHeader <= Description(notes, links)
    ensures notes + LinksHeader <= Summary(notes, links)
    ensures |Description(notes, links)| == |notes| + 29 + LinkChars(links) + 24 * |links|
    ensures Description(notes, links)[|Description(notes, links)| - 8..] == CdataClose
  {
    ConcatLength(ListItems(links));
    ListItemsLength(links);
  }

  /** The HTML list inside the description's CDATA wrapper reads back as exactly the
      links, in order, when no url holds `"` and no text holds `<`. */
  lemma DescriptionLinks(notes: string, links: seq<Link>)
    requires forall i :: 0 <= i < |links| ==> Readable(links[i])
    ensures var d := Description(notes, links);
            var lo := |notes| + |LinksHeader| + |CdataOpen|;
            && lo + |CdataClose| <= |d|
            && ReadListItems(d[lo..|d| - |CdataClose|]) == Some(links)
  {
    var d := Description(notes, links);
    var list := Join("", ListItems(links));
    var lo := |notes| + |LinksHeader| + |CdataOpen|;
    assert d == (notes + LinksHeader + CdataOpen) + list + CdataClose;
    assert d[lo..|d| - |CdataClose|] == list;
    ReadListItemsOf(links);
  }

  // ---------------------------------------------------------------- the item

  /** What the rest of the loop body does once the date line and the enclosure line
      have been taken from the body. */
  function ItemFrom(e: Entry, conf: Config, pubDate: Date, enclosureLine: string): Result<Item, Error>
  {
    var title := Title(e.heading);
    var fileUrl := ParseLink(enclosureLine).url;
    if "INDEX" !in e.properties then Failure(KeyError("INDEX"))
    else
      var index := e.properties["INDEX"];
      var guid := GuidString(index, conf.item.episodeDigits, pubDate);
      var sections := Sections(e.children);
      if "Links" !in sections then Failure(KeyError("Links"))
      else
        var links := LinksOf(sections["Links"]);
        if "Notes" !in sections then Failure(KeyError("Notes"))
        else
          var notes := sections["Notes"];
          if "DURATION" !in e.properties then Failure(KeyError("DURATION"))
          else if "BYTELENGTH" !in e.properties then Failure(KeyError("BYTELENGTH"))
          else
            Success(Item(
              title,
              Description(notes, links),
              Guid(guid, false),
              pubDate,
              Enclosure(fileUrl, e.properties["BYTELENGTH"], conf.item.mimeType),
              ITunesItem(conf.author, conf.image, e.properties["DURATION"], conf.explicit,
                         index, conf.item.episodeType, Subtitle(notes, links), Summary(notes, links))))
  }

  /** Everything one entry needs for its item to be built. */
  predicate Complete(e: Entry, conf: Config, strptime: (string, string) -> Option<Date>)
  {
    var lines := SplitLines(e.body);
    && |lines| >= 2 && strptime(lines[0], conf.item.dateFormat).Some?
    && "INDEX" in e.properties && "DURATION" in e.properties && "BYTELENGTH" in e.properties
    && HasSection(e, "Links") && HasSection(e, "Notes")
  }

  /** One loop iteration: the item for one top-level entry, or the error that aborts
      the run. The first body line is the date, the second holds the enclosure link. */
  function EntryItem(e: Entry, conf: Config, strptime: (string, string) -> Option<Date>): Result<Item, Error>
  {
    var lines := SplitLines(e.body);
    if |lines| == 0 then Failure(StopIteration)
    else
      match strptime(lines[0], conf.item.dateFormat)
      case None => Failure(DateParseError(lines[0], conf.item.dateFormat))
      case Some(pubDate) =>
        if |lines| == 1 then Failure(StopIteration)
        else ItemFrom(e, conf, pubDate, lines[1])
  }

  /** An entry yields an item exactly when it is complete; the item then carries the
      title derived from the heading, the date parsed from the first body line, the GUID
      of INDEX and that date, the url of the link on the second body line, the properties
      verbatim, and a subtitle of at most 255 characters that is a break-free prefix of
      the summary. */
  lemma EntryItemSpec(e: Entry, conf: Config, strptime: (string, string) -> Option<Date>)
    ensures EntryItem(e, conf, strptime).Success? <==> Complete(e, conf, strptime)
    ensures EntryItem(e, conf, strptime).Success? ==>
              var item := EntryItem(e, conf, strptime).value;
              var lines := SplitLines(e.body);
              && item.title == Title(e.heading)
              && item.pubDate == strptime(lines[0], conf.item.dateFormat).value
              && item.guid == Guid(GuidString(e.properties["INDEX"], conf.item.episodeDigits, item.pubDate), false)
              && item.enclosure == Enclosure(ParseLink(lines[1]).url, e.properties["BYTELENGTH"], conf.item.mimeType)
              && item.itunes.episode == e.properties["INDEX"]
              && item.itunes.duration == e.properties["DURATION"]
              && |item.itunes.subtitle| <= 255 && '\n' !in item.itunes.subtitle
              && item.itunes.subtitle <= item.itunes.summary
  {
    SectionPresent(e, "Links");
    SectionPresent(e, "Notes");
  }

  /** A built item is the record lines 47-68 assemble: the iTunes block takes author,
      artwork, explicit flag and episode type from the configuration, DURATION and INDEX
      from the properties, and the subtitle and summary of the `Notes` and `Links`
      sections; the description is built from the same two sections. */
  lemma EntryItemRecord(e: Entry, conf: Config, strptime: (string, string) -> Option<Date>)
    requires EntryItem(e, conf, strptime).Success?
    ensures var item := EntryItem(e, conf, strptime).value;
            var lines := SplitLines(e.body);
            var sections := Sections(e.children);
            var notes := sections["Notes"];
            var links := LinksOf(sections["Links"]);
            var pubDate := strptime(lines[0], conf.item.dateFormat).value;
            item == Item(
              Title(e.heading),
              Description(notes, links),
              Guid(GuidString(e.properties["INDEX"], conf.item.episodeDigits, pubDate), false),
              pubDate,
              Enclosure(ParseLink(lines[1]).url, e.properties["BYTELENGTH"], conf.item.mimeType),
              ITunesItem(conf.author, conf.image, e.properties["DURATION"], conf.explicit,
                         e.properties["INDEX"], conf.item.episodeType,
                         Subtitle(notes, links), Summary(notes, links)))
  {
    var lines := SplitLines(e.body);
    var pubDate := strptime(lines[0], conf.item.dateFormat).value;
    assert EntryItem(e, conf, strptime) == ItemFrom(e, conf, pubDate, lines[1]);
  }

  /** The run is aborted with the error of the first requirement the entry misses,
      in the order the loop body meets them. */
  lemma EntryItemErrors(e: Entry, conf: Config, strptime: (string, string) -> Option<Date>)
    ensures var lines := SplitLines(e.body);
            var r := EntryItem(e, conf, strptime);
            && (|lines| == 0 ==> r == Failure(StopIteration))
            && (|lines| >= 1 && strptime(lines[0], conf.item.dateFormat).None? ==>
                  r == Failure(DateParseError(lines[0], conf.item.dateFormat)))
            && (|lines| == 1 && strptime(lines[0], conf.item.dateFormat).Some? ==> r == Failure(StopIteration))
            && (|lines| >= 2 && strptime(lines[0], conf.item.dateFormat).Some? ==>
                  && ("INDEX" !in e.properties ==> r == Failure(KeyError("INDEX")))
                  && ("INDEX" in e.properties && !HasSection(e, "Links") ==> r == Failure(KeyError("Links")))
                  && ("INDEX" in e.properties && HasSection(e, "Links") && !HasSection(e, "Notes") ==>
                        r == Failure(KeyError("Notes")))
                  && (("INDEX" in e.properties && HasSection(e, "Links") && HasSection(e, "Notes")
                       && "DURATION" !in e.properties) ==> r == Failure(KeyError("DURATION")))
                  && (("INDEX" in e.properties && HasSection(e, "Links") && HasSection(e, "Notes")
                       && "DURATION" in e.properties && "BYTELENGTH" !in e.properties) ==> r == Failure(KeyError("BYTELENGTH"))))
  {
    SectionPresent(e, "Links");
    SectionPresent(e, "Notes");
  }

  /** The summary and description of a built item: the summary's lines are the notes'
      lines, `Links:` and one line per line of the `Links` section; the description
      starts with the same notes and header, and its list reads back as those links
      whenever no url holds `"` and no text holds `<`. */
  lemma EntryItemText(e: Entry, conf: Config, strptime: (string, string) -> Option<Date>)
    requires EntryItem(e, conf, strptime).Success?
    ensures var item := EntryItem(e, conf, strptime).value;
            var sections := Sections(e.children);
            var links := LinksOf(sections["Links"]);
            var lo := |sections["Notes"]| + |LinksHeader| + |CdataOpen|;
            && |links| == |SplitLines(sections["Links"])|
            && SplitLines(item.itunes.summary) == SplitOn(sections["Notes"], '\n') + ["Links:"] + LinkLines(links)
            && sections["Notes"] + LinksHeader <= item.description
            && |item.description| == |sections["Notes"]| + 29 + LinkChars(links) + 24 * |links|
            && ((forall i :: 0 <= i < |links| ==> Readable(links[i])) ==>
                  ReadListItems(item.description[lo..|item.description| - |CdataClose|]) == Some(links))
  {
    SectionPresent(e, "Links");
    SectionPresent(e, "Notes");
    var sections := Sections(e.children);
    var links := LinksOf(sections["Links"]);
    LinksOfOneLine(sections["Links"]);
    SummaryLines(sections["Notes"], links);
    DescriptionShape(sections["Notes"], links);
    if forall i :: 0 <= i < |links| ==> Readable(links[i]) {
      DescriptionLinks(sections["Notes"], links);
    }
  }
}
