# feed-render core in Dafny

This project models the part of `feed-render.py` that turns an Org-mode outline of
podcast episodes into RSS items. Each top-level outline entry is one episode. The
model covers:

- `parse_link`: pulls the url and text out of `[[url][text]]` markup.
- `html_link`: builds an HTML anchor.
- The loop body. It derives the title from the heading. It takes the publication
  date from the first body line and the enclosure link from the second. It builds
  the GUID `e<INDEX padded>-<DDMMYYYY>` and maps child headings to child bodies. It
  parses one link per line of the `Links` section. It builds the plain-text summary,
  the subtitle and the HTML description, then assembles the item and its iTunes
  extension fields.
- The loop: one item per entry, appended in outline order. The first entry that
  cannot be built aborts the run.

Modules:

- `Wrappers`: `Option` and `Result`.
- `PyStr`: the Python string behaviour the script relies on. That is `find`, slicing
  (negative bounds counted from the end, bounds clamped), `splitlines`, `join`,
  `rjust`, and `str` of a natural number.
- `OrgLink`: `parse_link` and `html_link`. Each has a partner definition: `Markup`
  writes org links, `ReadAnchor` reads anchors back.
- `Episode`: the per-entry computation as pure functions. `EntryItem` gives the item
  or the error that aborts the run.
- `Render`: the imperative side.
  - `LineCursor` is the iterator over the body's lines (`iter(...splitlines())`
    with `next`).
  - `BuildItem` is the loop body written against that cursor. It is proved equal
    to `EntryItem`.
  - `RenderItems` is the loop that appends items. It is proved equal to
    `CollectAll(Outcomes(...))`, the "all items in order or the first error"
    specification.

Behaviour of the code that the model keeps as written:

- **Title.** A heading that contains `": "` is kept whole. A heading without it
  loses its first character, because `find` returns -1 and the slice then starts at
  index 1. No prefix is stripped in either case.
- **Links section.** Every line is parsed, blank lines included. A blank line
  gives a link with an empty url and an empty text.
- **Missing link delimiters.** `parse_link` raises no error when a delimiter is
  missing: Python's slicing reads the -1 from `find` as a bound counted from the
  end of the line. `ParseLinkNoDelimiters` states what comes out.
- **INDEX.** The property is text, and `str()` of it is the same text. The GUID
  pads that text, so `7` and `007` give the same GUID (`GuidPaddingCollision`).
- **Errors.** They are Python's: `StopIteration` when the body has fewer than two
  lines, a date-parse error, and `KeyError` for `INDEX`, `Links`, `Notes`,
  `DURATION` and `BYTELENGTH`. `EntryItemErrors` lists them in the order the loop
  body meets them.

## Model

| member | source | states |
|---|---|---|
| PyStr.Find | feed-render.py:9-10 | `find` gives the least index where the substring occurs. It gives -1 exactly when the substring does not occur. |
| PyStr.Bound | feed-render.py:9-10 | A slice bound lies in [0, n]. A bound in range is kept. A negative bound within reach counts from the end. A bound above `n` becomes `n`, and one below `-n` becomes 0. |
| PyStr.Slice | feed-render.py:9-10 | A slice is the run of the string that starts at the normalised start bound. Its length is the distance between the two bounds, or 0 when they cross. |
| PyStr.SplitLines | feed-render.py:30 | No line that `splitlines` yields contains a line break. There are no lines exactly when the text is empty. |
| PyStr.SplitLinesJoin | feed-render.py:30 | `splitlines` loses nothing but a final line break: joining the lines with `\n` and adding that break back gives the text. |
| PyStr.SplitLinesOfJoin | feed-render.py:38 | Break-free lines whose last line is non-empty, joined with `\n`, split back into the same lines. |
| PyStr.SplitLinesOfJoinEnded | feed-render.py:38 | Any non-empty list of break-free lines, joined with `\n` and ended by a final break, splits back into the same lines: the final break adds no empty line. |
| PyStr.FirstLine | feed-render.py:42 | A non-empty text has a first line. That line is a prefix of the text and is the piece before the first break. |
| PyStr.RJust | feed-render.py:34 | `rjust` gives `max(len, width)` characters. It ends with the original string and pads only with the fill character. |
| PyStr.RJustWide | feed-render.py:34 | A string already `width` long or longer is not changed by `rjust`. |
| PyStr.NatStr | feed-render.py:35 | `str(n)` (the year of `%Y`) is at least one character long and made only of decimal digits. `NatStrValue` and `NatStrLength` state its value and width. |
| PyStr.Join | feed-render.py:39-45 | `sep.join(xs)`, with no contract of its own. `JoinSplit`, `SplitLinesJoin` and `SummaryLines` state that splitting undoes it, and `ReadListItemsOf` that the `''.join` of list entries reads back. |
| PyStr.NatStrValue | feed-render.py:35 | The decimal digits of a number read back as that number. |
| OrgLink.ParseLink | feed-render.py:7-11 | The url and the text are runs of the line. Each starts two past the first `[[` (for the url) or the first `][` (for the text), with Python's bound normalisation. |
| OrgLink.ParseLinkWellFormed | feed-render.py:7-11 | When `[[`, `][` and `]]` occur in order, the url is exactly the text between the first two and the text exactly the text between the last two. |
| OrgLink.ParseLinkNoDelimiters | feed-render.py:9-10 | A line with no delimiter gives, for both url and text, the line without its first and last character. Lines of two characters or fewer give empty strings. No error is raised. |
| OrgLink.ParseBlankLine | feed-render.py:7-11 | A blank line parses to an empty url and an empty text. |
| OrgLink.ParseMarkup | feed-render.py:7-11 | Parsing `[[url][text]]` gives back url and text when neither contains `]`. |
| OrgLink.ParseLinkExample | feed-render.py:7-11 | `[[http://example.com/x][Example Link]]` parses to that url and that text. |
| OrgLink.HtmlLink | feed-render.py:14-16 | The anchor starts with `<a href="`, ends with `</a>`, and is 15 characters longer than url and text together. |
| OrgLink.ReadHtmlLink | feed-render.py:14-16 | An anchor built from a url without `"` reads back as exactly that url and that text. |
| Episode.Title | feed-render.py:28-29 | A heading containing `": "` is the title unchanged. Any other heading loses its first character. |
| Episode.FormatDate | feed-render.py:35 | `strftime(pubdate, '%d%m%Y')`: zero-padded day, zero-padded month, year. `ReadFormatDate` states that it reads back as the date. |
| Episode.ReadFormatDate | feed-render.py:35 | The `%d%m%Y` form of a date with a four-digit year is eight digits that read back as the same day, month and year. |
| Episode.GuidString | feed-render.py:34-35 | The GUID text: `e`, INDEX right-justified with zeros to `episode-digits`, `-`, the date. Its shape, length, example value and determinacy are stated by `GuidShape`, `GuidLength`, `GuidExample` and `GuidDeterminesDate`. |
| Episode.GuidShape | feed-render.py:34-35 | The GUID starts with `e`. Next come `max(len(INDEX), episode-digits)` characters: zeros, then INDEX itself. Then comes `-`. |
| Episode.GuidLength | feed-render.py:34-35 | With a four-digit year, the GUID is the padded index plus 10 characters. |
| Episode.GuidExample | feed-render.py:34-35 | INDEX `7`, three digits and 5 January 2024 give `e007-05012024`. |
| Episode.GuidDeterminesDate | feed-render.py:34-35 | Equal GUIDs imply equal publication dates (four-digit years). |
| Episode.GuidPaddingCollision | feed-render.py:33-35 | INDEX `7` and INDEX `007` give the same GUID on the same date with three digits. |
| Episode.Sections | feed-render.py:36-37 | The `{heading: body}` map built over the children in order. `SectionsKeys` and `SectionsLastWins` state its keys and values. |
| Episode.SectionsKeys | feed-render.py:36-37 | The section map's keys are exactly the child headings. |
| Episode.SectionsLastWins | feed-render.py:36-37 | A heading maps to the body of its last child: a later child overwrites an earlier one. |
| Episode.SectionPresent | feed-render.py:36-41 | Looking up `Links` or `Notes` succeeds exactly when some child has that heading. |
| Episode.LinksOf | feed-render.py:38 | `parse_link` applied to each line of the section. `LinksPerLine` and `LinksOfOneLine` state its length, order and contents. |
| Episode.LinksPerLine | feed-render.py:38 | There is one link per line of the section, in order. Each is `parse_link` of its line, and a blank line gives an empty link. |
| Episode.LinksPerLineEnded | feed-render.py:38 | The same for a section whose text ends in a line break: one link per line, in order, each `parse_link` of its line, and a blank line gives an empty link. |
| Episode.LinksOfEmpty | feed-render.py:38 | An empty section gives no links. |
| Episode.LinksOfOneLine | feed-render.py:38 | No parsed url or text contains a line break. |
| Episode.Summary | feed-render.py:39-41 | The notes, `\nLinks:\n`, and the `text - url` lines joined with `\n`. `SummaryLines` states how its lines read back. |
| Episode.SummaryLines | feed-render.py:39-41 | The summary's lines are the note lines, then `Links:`, then one `text - url` line per link, in order. |
| Episode.FirstNoteLine | feed-render.py:42 | The first note line is a break-free prefix of the notes. It is either the whole notes or is followed in them by a line break, so it runs exactly to the first break. It is the whole notes when they have no break. |
| Episode.Subtitle | feed-render.py:42 | The subtitle has at most 255 characters and no line break. It is a prefix of the summary and equals the first note line cut to 255 characters, which is the notes' first 255 characters when the notes are one line. |
| Episode.Description | feed-render.py:43-45 | The notes, `\nLinks:\n`, and the `<li>` anchors joined inside `<![CDATA[<ul>` … `</ul>]]>`. `DescriptionShape` and `DescriptionLinks` state its frame, length and read-back. |
| Episode.ReadListItemOf | feed-render.py:43 | A list entry `<li><a href="url">text</a></li>` followed by any text reads back as its link and that remainder, when the url has no `"` and the text no `<`. |
| Episode.ReadListItemsOf | feed-render.py:43-45 | The `''.join` of the list entries reads back as exactly the links, in order, when no url has `"` and no text has `<`. |
| Episode.DescriptionLinks | feed-render.py:43-45 | The text between `<![CDATA[<ul>` and `</ul>]]>` in the description reads back as exactly the links, in order, when no url has `"` and no text has `<`. |
| Episode.DescriptionShape | feed-render.py:43-45 | The description starts with the notes and `\nLinks:\n`, as the summary does. It ends with `</ul>]]>`. Its length is the notes, plus 29 characters of wrapper, plus each link's url and text with 24 characters of markup. |
| Episode.ItemFrom | feed-render.py:33-68 | The rest of the loop body once both body lines are taken: lookups of INDEX, Links, Notes, DURATION and BYTELENGTH in that order, then the item record. `EntryItemSpec`, `EntryItemRecord`, `EntryItemErrors` and `EntryItemText` state its results. |
| Episode.EntryItem | feed-render.py:28-68 | One loop iteration: the item for an entry, or the error that aborts the run. `EntryItemSpec`, `EntryItemErrors` and `EntryItemText` state when each happens and what the item holds. |
| Episode.EntryItemSpec | feed-render.py:27-68 | An entry gives an item exactly when the body has two lines, the date parses, and the three properties and both sections exist. The item then has the title, the date, the GUID, the enclosure url of line 2, the verbatim properties, and a subtitle of at most 255 break-free characters that prefixes the summary. |
| Episode.EntryItemRecord | feed-render.py:33-68 | A built item is exactly the record of: the title; the description of the `Notes` and `Links` sections; the GUID of INDEX and the date, not a permalink; the date; the enclosure of the line-2 url, BYTELENGTH and the configured MIME type; and the iTunes block of the configured author, image, explicit flag and episode type, DURATION, INDEX, and the subtitle and summary of the two sections. |
| Episode.EntryItemErrors | feed-render.py:30-65 | The error is the first one met in order: StopIteration, date-parse error, then KeyError for INDEX, Links, Notes, DURATION and BYTELENGTH. |
| Episode.EntryItemText | feed-render.py:36-45 | A built item has one link per line of its `Links` section. Its summary lines are the note lines, `Links:` and one `text - url` line per link. Its description starts with the notes and header and has the length of the notes plus 29 plus 24 per link plus the urls and texts. The description's list reads back as exactly the links when no url has `"` and no text has `<`. |
| Render.LineCursor.constructor | feed-render.py:30 | The cursor starts at the first of the body's `splitlines`. |
| Render.LineCursor.Next | feed-render.py:31-32 | `next` hands out the first remaining line and advances. It gives StopIteration when no line remains. |
| Render.BuildItem | feed-render.py:28-68 | Building an item through the line cursor gives exactly `EntryItem`: the same item or the same error. |
| Render.CollectAllSpec | feed-render.py:26-70 | Collecting results succeeds exactly when every result does, keeping every value at its position. Otherwise it reports the first failure's error. |
| Render.RenderedItems | feed-render.py:26-70 | The run succeeds exactly when every entry gives an item, and then has one item per entry in outline order. Otherwise it fails with the first failing entry's error, all earlier entries having succeeded. |
| Render.RenderItems | feed-render.py:26-70 | The append loop computes the collected outcomes of all entries: the items in order, or the first error. |

## Left out

- Loading the YAML configuration file and the outline (feed-render.py:19-24) is file I/O. The model takes the configuration values and the top-level entries as parameters.
- Orgparse's own parsing and `get_body(format='raw')` are not part of this model. An entry is given as heading, properties, raw body and children.
- `datetime.strptime` is a parameter (`strptime`): a function from a line and the date format to an optional date. Format parsing is not modelled.
- The date keeps only day, month and year. The time of day in `pubdate` is not modelled, and `%d%m%Y` does not use it.
- `%Y` for years outside 1000-9999 is written as the plain decimal number. The length and read-back lemmas assume a four-digit year.
- `splitlines` is modelled for `\n` breaks only. Python also breaks on `\r`, `\r\n`, `\v`, `\f` and other separators.
- rfeed's `Item`, `Guid`, `Enclosure` and `iTunesItem` objects are modelled as records of the constructor arguments the loop passes. `EntryItemRecord` pins every one of those arguments. The classes' own behaviour, and RSS serialisation (`feed.rss()`), are not modelled.
- The channel-level iTunes block and the feed record (feed-render.py:72-91) are not modelled. This includes the fact that only the first of `itunes:categories` is used (line 79) and `lastBuildDate = datetime.now()`.
- Writing the feed file and printing the message (feed-render.py:93-96) are I/O.
- Configuration keys are fields of `Config`, so a missing configuration key (a `KeyError` on `conf[...]`) is not modelled.
