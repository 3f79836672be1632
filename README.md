# static-purity, modelled in Dafny

static-purity is a one-file static blog generator. It reads the markdown posts in
`md/`, renames any file whose name has spaces, and sorts the names in reverse order.
The title is the name with its first nine characters cut off, which suggests post
names that start with an eight-digit date and a dash (`YYYYMMDD-`); reverse order
then puts the newest post first. Each
post becomes a page: the newest is `index.html`, every other post is
`html/<name>.html`. The pages are chained by PREV and NEXT links that `create_html`
fills into an html skeleton. Finally `create_archive` writes `archive.md`, listing
the posts grouped by year, and renders it as `archive.html`.

This project models the core of that pipeline:

- `builtins.dfy` (module `Builtins`) states the Python built-ins the core relies
  on. These are slices with clamped and negative bounds, list subscripts with
  negative indices and `IndexError`, `list.index`, `str.replace`, `str.title` and
  string order.
- `names.dfy` (module `Names`) covers what is derived from one file name: the
  sanitised name and the directory rename loop, the md filter, the dot-file test,
  the html page name, the display title and the archive group. It also holds the
  name of the seed document that is created when `md/` is empty.
- `navigation.dfy` (module `Navigation`) models `create_html` and `md_to_html`:
  - the four independent `if`s that bind PREV/NEXT, where a later branch overrides
    an earlier one;
  - the failure at the last entry;
  - the output path, the `../` prefix and the placeholder filling;
  - the rendering pass, as a method proved against a recursive specification.

  Links are resolved against the site layout, which lets the model prove where
  each link leads.
- `archive.dfy` (module `Archive`) models `create_archive`. The loop that writes
  `archive.md` is a method proved against an `Outline` function. Lemmas state
  which entries the archive lists and how its groups are laid out. The file also
  covers the archive page's links.

Failures are values: a `Result` holds either the value or the Python exception
(`IndexError`, or an `UnboundLocalError` when no branch bound the page's html).

The seed post the program writes is dated with dashes (`%Y-%m-%d`). The title
drops exactly nine characters (`name[9:-3]`), so a dashed name such as
`2020-01-26-hello-world.md` gets the title "6 Hello World" (`Names.DashedHelloWorld`),
while the compact name `20200126-hello-world.md` gets "Hello World"
(`Names.TitleOfDatedName`).

## Model

| member | source | states |
|---|---|---|
| Builtins.At | static-purity.py:169 | a list subscript succeeds exactly for -len <= i < len; negative indices count from the end, anything else raises IndexError |
| Builtins.IndexOf | static-purity.py:161 | `list.index` returns a position holding the name, and no earlier position holds it |
| Builtins.IndexOfDistinct | static-purity.py:161 | in a listing without duplicates, `list.index` of the entry at p is p |
| Builtins.ReplaceChar | static-purity.py:132 | replacing one character by another keeps the length and maps each position independently |
| Builtins.TitleCaseAt | static-purity.py:154 | `str.title` keeps the length, upper-cases a letter not preceded by a letter, lower-cases one that is, and keeps every other character |
| Names.Sanitize | static-purity.py:132 | the new name has the same length, a hyphen wherever the old name had a space, the old character elsewhere, and no space left |
| Names.SanitizeIdempotent | static-purity.py:132 | sanitising an already sanitised name changes nothing |
| Names.SanitizeFilenames | static-purity.py:128-132 | after the rename loop the directory holds exactly the sanitised names of the listing, none with a space (a rename onto an existing name replaces it) |
| Names.IsMd | static-purity.py:150 | an entry is rendered exactly when it has at least two characters and ends in "md" |
| Names.IsHidden | static-purity.py:237 | an entry is skipped by the archive exactly when it starts with '.' |
| Names.HtmlName | static-purity.py:225 | the page name is the entry name without its last two characters, followed by "html" |
| Names.GroupKey | static-purity.py:238 | the archive group is the first four characters of the name, or the whole name if it is shorter |
| Names.Slug | static-purity.py:154 | the title source is the name without its first nine and last three characters, and is empty for names shorter than twelve |
| Names.Title | static-purity.py:154 | the title has the slug's length; each hyphen becomes a space, and each letter is upper-cased when it starts a run of letters and lower-cased otherwise |
| Names.TitleOfDatedName | static-purity.py:154 | "20200126-hello-world.md" has the title "Hello World" |
| Names.DashedHelloWorld | static-purity.py:154 | "2020-01-26-hello-world.md" has the title "6 Hello World": the nine-character cut keeps the last digit of a dashed date |
| Names.DotFileSortsLast | static-purity.py:97 | in a reverse-sorted listing that holds a dot-file, where every md name starts above '.', the last entry is not an md file |
| Names.TemplateName | static-purity.py:137 | the seed document named with the dashed date is 22 characters long, and its archive group is the year |
| Names.TemplateTitleKeepsDigit | static-purity.py:137 | the title of that seed document is the last digit of the day followed by " Template" |
| Names.IntendedTemplateName | static-purity.py:137 | the seed document named with a compact date is 20 characters long, and its group is the year |
| Names.IntendedTemplateTitle | static-purity.py:154 | the compact-date seed document has the title "Template" |
| Navigation.NavLinks | static-purity.py:161-211 | the links bound after the four `if`s: failure exactly at the last entry of a listing of two or more (IndexError for two, unbound html for more); a closed form for every other position, including the override by the second-to-last branch |
| Navigation.Place | static-purity.py:159-225 | a page fails exactly when its links fail; the index page is written to ./index.html with no prefix, every other page to ./html/ plus its html name with prefix "../"; the md source path is the prefix, then "md/", then the name |
| Navigation.CreateHtml | static-purity.py:158-229 | rendering a name fails exactly when `list.index` puts it last in a listing of two or more, with the fault by length; otherwise the page is written to the output path of that position |
| Navigation.MdToHtml | static-purity.py:148-155 | the rendering loop writes exactly the pages, and stops at exactly the fault, given by the specification RunFrom; in a listing without duplicates its pages are, in order, the CreateHtml pages of the positions MdPositions lists, each at its own output path, and it faults exactly when the last entry is md in a listing of two or more |
| Navigation.MdPositionsExact | static-purity.py:148-150 | MdPositions lists, in increasing order, every position from i on that the pass renders (an md entry that is not a failing last entry) and no other |
| Navigation.RunFromPages | static-purity.py:148-155 | in a listing without duplicates, the pass from position i on writes, one by one, the CreateHtml page of each position MdPositions lists, at that position's output path |
| Navigation.PassOutcome | static-purity.py:148-155 | whatever the whole pass writes and raises: in a listing without duplicates, the pages of the MdPositions positions in order, and a fault exactly when the last entry is md in a listing of two or more (IndexError for two entries, an unbound variable for more) |
| Navigation.RunFromOutcome | static-purity.py:148-155 | from position i on, the pass faults exactly when the last entry is md in a listing of two or more, and the number of pages it writes is the number of md entries from i on, less one when that failing last entry is among them |
| Navigation.BuildOutcome | static-purity.py:148-155 | the whole pass succeeds exactly when the listing has at most one entry or its last entry is not md; it then writes as many pages as there are md entries, and otherwise one fewer (which pages: RunFromPages) |
| Navigation.WrittenAt | static-purity.py:222-225 | the output path, followed from the site root, is index.html for position 0 and html/ plus the html name for the others |
| Navigation.NextReachesFollowing | static-purity.py:168-199 | with three or more entries, the NEXT link of every page before the second-to-last leads to the next page's file |
| Navigation.PrevReachesPreceding | static-purity.py:178-205 | with four or more entries, the PREV link of every page from the second to the second-to-last leads to the previous page's file |
| Navigation.LinkedChain | static-purity.py:162-205 | with four or more entries, consecutive pages link to each other in both directions |
| Navigation.PenultimateReachesArchive | static-purity.py:200-210 | the second-to-last page's NEXT leads to archive.html |
| Navigation.IndexPrevWithTwoEntries | static-purity.py:200-205 | one post followed by .DS_Store: the index page gets a PREV link to ".DS_Stohtml" |
| Navigation.SecondPrevWithThreeEntries | static-purity.py:178-205 | with three entries, the second page's PREV leads to html/ plus the first entry's html name, which is not index.html where that entry is written |
| Navigation.IntendedLinks | static-purity.py:162-210 | the corrected links up to the last rendered page: no PREV exactly on the index page, and NEXT to the archive on the last page |
| Navigation.IntendedChain | static-purity.py:162-205 | under the corrected links, consecutive pages link to each other in both directions, for any listing length and any last page |
| Navigation.IntendedNext | static-purity.py:168-199 | under the corrected links, every NEXT before the last page leads to the next page's file |
| Navigation.IntendedPrev | static-purity.py:178-205 | under the corrected links, every PREV after the index page leads to the previous page's file |
| Navigation.IntendedReachesArchive | static-purity.py:200-210 | under the corrected links, the last page's NEXT leads to archive.html |
| Navigation.IntendedAgrees | static-purity.py:161-211 | for one entry, and for four or more up to the second-to-last, the source's links are the corrected ones |
| Archive.Text | static-purity.py:235-246 | archive.md has one line per outline entry, each the text of that entry |
| Archive.Outline | static-purity.py:232-246 | the outline exists exactly for a non-empty listing, and it starts with the heading of the first entry's group |
| Archive.CreateArchive | static-purity.py:232-246 | the loop fails exactly on an empty listing; otherwise it writes exactly the lines of the outline |
| Archive.ContinueItems | static-purity.py:236-246 | from any group, the loop writes one item per entry that is not a dot-file, in listing order |
| Archive.ArchiveItems | static-purity.py:232-246 | archive.md lists every entry that is not a dot-file exactly once, in listing order |
| Archive.ContinueGroups | static-purity.py:238-246 | within the loop, each item belongs to the group in force above it, and each heading starts a new group with an item of that group directly below |
| Archive.ArchiveGroups | static-purity.py:232-246 | in archive.md, after the first line, each item belongs to the group of the nearest heading above it, and each heading names a new group and stands directly above an item of it |
| Archive.ArchiveExample | static-purity.py:232-246 | two posts of 2021, one of 2020 and a trailing .DS_Store give the headings 2021 and 2020 with the posts under them in order |
| Archive.ArchiveLinks | static-purity.py:252-258 | archive.html's links exist exactly for a non-empty listing; PREV goes to ./html/ plus the html name of list[-2] (list[0] for one entry), and NEXT is the unlinked label |
| Archive.ArchivePage | static-purity.py:252-272 | archive.html is produced exactly for a non-empty listing and is written to ./archive.html |
| Archive.ArchivePrevReachesLastPage | static-purity.py:252-254 | with three or more entries, the archive's PREV leads to the page of list[-2], the last one rendered when a dot-file sorts last |
| Archive.ArchivePrevMissesIndex | static-purity.py:252-254 | with one or two entries, the archive's PREV leads to html/ plus the first entry's html name, which is not index.html where that entry is written |
| Archive.IntendedArchiveLinks | static-purity.py:252-258 | the corrected archive links: PREV is ./index.html exactly when the last rendered page is the index page, and NEXT is unlinked |
| Archive.IntendedArchiveReachesLastPage | static-purity.py:252-254 | under the corrected links, the archive's PREV leads to the last rendered page's file |

## Left out

- The file system (`os.listdir`, `os.rename`, `open`, `os.mkdir`) is not modelled directly. A directory is a listing or a set of names, and a written page is a `PageFile` value.
- The markdown converter is replaced by parameters: `bodies[i]` is the converted text of entry i, and `content` is the converted archive.md.
- The command line, the interactive prompt for missing files, the directory bootstrap and the timing output are not modelled.
- The clock is replaced by parameters: the date in the seed document's name is given as year, month and day strings.
- Sorting is not modelled; the listing is an input. `Names.DotFileSortsLast` states what reverse sorting implies about a trailing dot-file.
- The css, html-skeleton and index-markdown constants are not modelled; the skeleton halves are a `Templates` parameter.
- Navigation.Resolve: link resolution is simplified to the two directories the site uses, the root and html/. A `..` at the root stays at the root, as browsers do.
- Builtins.TitleCase: only ASCII letters are cased. Python also cases other Unicode letters, which the model treats as non-letters.
- Navigation.CreateHtml: the contract states where a page goes and when it fails. The page text is FillTop and FillBottom applied to Place's values, and only the body says so.
- Archive.ArchivePage: the contract states the output path and when the page exists. The page text is given by the body only.
- Navigation.IntendedLinks: NEXT to the archive is stated only for the last page. The converse would need file names without '/'.
- Navigation.MdToHtml: which pages are written, and the fault in closed form, are stated for listings without duplicate names, as a directory listing is. With duplicates `list.index` places a page at the first occurrence of its name, and only RunFrom says what is written.
- Navigation.MdToHtml: an exception ends the pass. Pages written before it stay written; the archive step after it is not reached, and the model does not show that.

## Findings

| source | as written | input that shows it | evidently intended | confidence | as-written member | corrected member |
|---|---|---|---|---|---|---|
| static-purity.py:200-205 | with two entries, the second-to-last branch also matches the index page and rebinds its PREV to the html name of list[-1] | ["20200101-first.md", ".DS_Store"] | the index page has no PREV link | high, not executed | Navigation.IndexPrevWithTwoEntries | Navigation.IntendedLinks |
| static-purity.py:178-205 | with three entries, the second page's PREV is its neighbour's html name under html/, a file that is never written, because the first entry is written to index.html | ["20200103-c.md", "20200102-b.md", ".DS_Store"] | PREV leads to ../index.html | high, not executed | Navigation.SecondPrevWithThreeEntries | Navigation.IntendedPrev |
| static-purity.py:178-212 | when the last entry is an md file and the listing has two or more entries, rendering it raises: IndexError for two entries, an unbound html variable for more | ["20200102-b.md", "20200101-a.md"] | the oldest post is rendered, with NEXT to the archive | high, not executed | Navigation.BuildOutcome | Navigation.IntendedReachesArchive |
| static-purity.py:252-254 | with one or two entries, the archive's PREV leads to html/ plus the first entry's html name, which is never written | ["20200101-a.md", ".DS_Store"] | PREV leads to ./index.html | high, not executed | Archive.ArchivePrevMissesIndex | Archive.IntendedArchiveReachesLastPage |
| static-purity.py:137 | the seed document is named with the dashed date `%Y-%m-%d`, so the nine-character title slice leaves a digit of the day in its title | year "2020", month "01", day "26" gives the title "6 Template" | the title "Template" | medium, not executed | Names.TemplateTitleKeepsDigit | Names.IntendedTemplateTitle |
