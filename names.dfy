/**
 * What the generator derives from a single file name of the `md/`
 * directory: the sanitised name it is renamed to, whether it is rendered,
 * its display title, the name of its html page and its archive group.
 */
module Names {
  import opened Builtins

  // ------------------------------------------------------------------
  // sanitize_filenames
  // ------------------------------------------------------------------

  /** The name a file is renamed to: every space becomes a hyphen. */
  function Sanitize(name: string): (r: string)
    ensures |r| == |name|
    ensures forall i :: 0 <= i < |name| ==> r[i] == if name[i] == ' ' then '-' else name[i]
    ensures ' ' !in r
  {
    ReplaceChar(name, ' ', '-');
    Replace(name, " ", "-")
  }

  /** Sanitising a sanitised name changes nothing. */
  lemma SanitizeIdempotent(name: string)
    ensures Sanitize(Sanitize(name)) == Sanitize(name)
  {
  }

  /** The names a listing holds. */
  function NameSet(listing: seq<string>): set<string> {
    set name | name in listing
  }

  /** The names a listing holds once every one of them is sanitised. */
  function SanitizedSet(listing: seq<string>): (r: set<string>)
    ensures forall name :: name in r ==> ' ' !in name
  {
    set name | name in listing :: Sanitize(name)
  }

  /**
   * The rename loop over a directory listing. The directory is the set of
   * its names; a rename onto an existing name replaces that file, as
   * `os.rename` does, so two names that sanitise alike leave one file.
   */
  method SanitizeFilenames(listing: seq<string>) returns (dir: set<string>)
    requires Distinct(listing)
    ensures dir == SanitizedSet(listing)
    ensures forall name :: name in dir ==> ' ' !in name
  {
    dir := NameSet(listing);
    assert listing[..0] == [] && listing[0..] == listing;
    for i := 0 to |listing|
      invariant dir == SanitizedSet(listing[..i]) + NameSet(listing[i..])
    {
      RenameStep(listing, i);
      dir := dir - {listing[i]} + {Sanitize(listing[i])};
    }
    assert listing[..|listing|] == listing;
  }

  /** One rename moves one name from the unprocessed part to the sanitised part. */
  lemma RenameStep(listing: seq<string>, i: nat)
    requires Distinct(listing) && i < |listing|
    ensures var name := listing[i];
      (SanitizedSet(listing[..i]) + NameSet(listing[i..])) - {name} + {Sanitize(name)}
      == SanitizedSet(listing[..i + 1]) + NameSet(listing[i + 1..])
  {
    var name := listing[i];
    assert listing[..i + 1] == listing[..i] + [name];
    assert SanitizedSet(listing[..i + 1]) == SanitizedSet(listing[..i]) + {Sanitize(name)};
    assert listing[i..] == [name] + listing[i + 1..];
    assert NameSet(listing[i..]) == {name} + NameSet(listing[i + 1..]);
    assert name !in NameSet(listing[i + 1..]) by {
      forall j | i + 1 <= j < |listing| ensures listing[j] != name { }
    }
    if Sanitize(name) != name {
      assert ' ' in name;
      assert name !in SanitizedSet(listing[..i]);
    }
  }

  // ------------------------------------------------------------------
  // Which names are rendered, hidden, and what they become
  // ------------------------------------------------------------------

  /** `md_file[-2:] == 'md'`: the filter md_to_html applies before rendering. */
  predicate IsMd(name: string)
    ensures IsMd(name) <==> |name| >= 2 && name[|name| - 2..] == "md"
  {
    Slice(name, -2, |name|) == "md"
  }

  /** `str(md_file).startswith('.')`: the entries the archive skips. */
  predicate IsHidden(name: string)
    ensures IsHidden(name) <==> |name| > 0 && name[0] == '.'
  {
    StartsWith(name, ".")
  }

  /** `name[:-2] + 'html'`: the file name of the page rendered from `name`. */
  function HtmlName(name: string): (r: string)
    ensures |name| >= 2 ==> r == name[..|name| - 2] + "html"
    ensures |name| < 2 ==> r == "html"
  {
    Slice(name, 0, -2) + "html"
  }

  /** `name[:4]`: the archive group of an entry, the year of a dated name. */
  function GroupKey(name: string): (r: string)
    ensures r == name[..if |name| < 4 then |name| else 4]
  {
    Slice(name, 0, 4)
  }

  /** `name[9:-3]`: the part of the name between a `YYYYMMDD-` prefix and a `.md` suffix. */
  function Slug(name: string): (r: string)
    ensures |name| >= 12 ==> r == name[9..|name| - 3]
    ensures |name| < 12 ==> r == []
  {
    Slice(name, 9, -3)
  }

  /**
   * `name[9:-3].title().replace('-', ' ')`: the display title. Position by
   * position it is the slug with each hyphen turned into a space, each
   * letter that starts a run of letters upper-cased and every other letter
   * lower-cased.
   */
  function Title(name: string): (r: string)
    ensures |r| == |Slug(name)|
    ensures forall i :: 0 <= i < |r| ==>
      r[i] == if Slug(name)[i] == '-' then ' '
              else TitleChar(AfterLetter(Slug(name), i), Slug(name)[i])
  {
    DisplayTitleAt(Slug(name));
    Replace(TitleCase(Slug(name)), "-", " ")
  }

  lemma DisplayTitleAt(s: string)
    ensures |Replace(TitleCase(s), "-", " ")| == |s|
    ensures forall i :: 0 <= i < |s| ==>
      Replace(TitleCase(s), "-", " ")[i] == if s[i] == '-' then ' '
              else TitleChar(AfterLetter(s, i), s[i])
  {
    var t := TitleCase(s);
    TitleCaseAt(s);
    ReplaceChar(t, '-', ' ');
    forall i | 0 <= i < |s|
      ensures Replace(t, "-", " ")[i] == if s[i] == '-' then ' ' else TitleChar(AfterLetter(s, i), s[i])
    {
      assert t[i] == TitleChar(AfterLetter(s, i), s[i]);
      assert Replace(t, "-", " ")[i] == if t[i] == '-' then ' ' else t[i];
      assert (t[i] == '-') == (s[i] == '-');
    }
  }

  /** The title of a post named with a compact date, as in `20200126-hello-world.md`. */
  lemma TitleOfDatedName()
    ensures Title("20200126-hello-world.md") == "Hello World"
  {
    var name := "20200126-hello-world.md";
    assert name[9..20] == "hello-world";
    assert Slug(name) == "hello-world";
    HelloWorldTitle(Title(name));
  }

  lemma HelloWorldTitle(t: string)
    requires |t| == 11
    requires forall i :: 0 <= i < 11 ==>
      t[i] == if "hello-world"[i] == '-' then ' ' else TitleChar(AfterLetter("hello-world", i), "hello-world"[i])
    ensures t == "Hello World"
  {
  }

  /**
   * The nine-character cut assumes an eight-digit date and a dash: a name
   * dated with dashes, as in `2020-01-26-hello-world.md`, keeps the last
   * digit of its day in the title.
   */
  lemma DashedHelloWorld()
    ensures Title("2020-01-26-hello-world.md") == "6 Hello World"
  {
    var name := "2020-01-26-hello-world.md";
    assert name[9..22] == "6-hello-world";
    assert Slug(name) == "6-hello-world";
    DashedHelloWorldTitle(Title(name));
  }

  lemma DashedHelloWorldTitle(t: string)
    requires |t| == 13
    requires forall i :: 0 <= i < 13 ==>
      t[i] == if "6-hello-world"[i] == '-' then ' ' else TitleChar(AfterLetter("6-hello-world", i), "6-hello-world"[i])
    ensures t == "6 Hello World"
  {
  }

  // ------------------------------------------------------------------
  // Ordering: `sorted(os.listdir('./md/'), reverse=True)`
  // ------------------------------------------------------------------

  predicate SortedDescending(listing: seq<string>) {
    forall i, j :: 0 <= i < j < |listing| ==> !Below(listing[i], listing[j])
  }

  /**
   * Reverse sorting puts a dot-file after every name that starts above '.'
   * (a digit, say): when the listing holds one and every md name starts
   * above '.', the last entry is not an md file.
   */
  lemma DotFileSortsLast(listing: seq<string>, k: nat)
    requires SortedDescending(listing)
    requires k < |listing| && IsHidden(listing[k])
    requires forall i :: 0 <= i < |listing| && IsMd(listing[i]) ==> '.' < listing[i][0]
    ensures !IsMd(listing[|listing| - 1])
  {
  }

  // ------------------------------------------------------------------
  // The seed document of an empty md/ directory
  // ------------------------------------------------------------------

  predicate IsDigit(c: char) { '0' <= c <= '9' }

  predicate IsDigits(s: string, n: nat) {
    |s| == n && forall i :: 0 <= i < n ==> IsDigit(s[i])
  }

  /**
   * `'./md/' + TODAY + '-Template.md'` with TODAY formatted as `%Y-%m-%d`:
   * the file created when md/ holds no markdown.
   */
  function TemplateName(year: string, month: string, day: string): (r: string)
    requires IsDigits(year, 4) && IsDigits(month, 2) && IsDigits(day, 2)
    ensures |r| == 22 && GroupKey(r) == year
  {
    year + "-" + month + "-" + day + "-Template.md"
  }

  /**
   * The title of that file keeps the last digit of the day: the title slice
   * drops nine characters, a `YYYYMMDD-` prefix, but the dashed date and
   * its hyphen take eleven.
   */
  lemma TemplateTitleKeepsDigit(year: string, month: string, day: string)
    requires IsDigits(year, 4) && IsDigits(month, 2) && IsDigits(day, 2)
    ensures Title(TemplateName(year, month, day)) == [day[1]] + " Template"
  {
    var name := TemplateName(year, month, day);
    assert Slug(name) == [day[1]] + "-Template";
    DigitTemplateTitle(Title(name), day[1]);
  }

  lemma DigitTemplateTitle(t: string, d: char)
    requires IsDigit(d)
    requires |t| == 10
    requires forall i :: 0 <= i < 10 ==>
      t[i] == if ([d] + "-Template")[i] == '-' then ' ' else TitleChar(AfterLetter([d] + "-Template", i), ([d] + "-Template")[i])
    ensures t == [d] + " Template"
  {
  }

  /** The same seed document named with the compact `%Y%m%d` date the title slice expects. */
  function IntendedTemplateName(year: string, month: string, day: string): (r: string)
    requires IsDigits(year, 4) && IsDigits(month, 2) && IsDigits(day, 2)
    ensures |r| == 20 && GroupKey(r) == year
  {
    year + month + day + "-Template.md"
  }

  lemma IntendedTemplateTitle(year: string, month: string, day: string)
    requires IsDigits(year, 4) && IsDigits(month, 2) && IsDigits(day, 2)
    ensures Title(IntendedTemplateName(year, month, day)) == "Template"
  {
    var name := IntendedTemplateName(year, month, day);
    assert Slug(name) == "Template";
    var t := Title(name);
    assert |t| == 8;
    assert t[0] == 'T' && t[1] == 'e';
  }
}
