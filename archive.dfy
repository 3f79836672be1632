/**
 * create_archive: archive.md lists every entry that is not a dot-file,
 * under a heading for its group (the first four characters of its name),
 * and archive.html wraps that list in the page skeleton with its own
 * navigation.
 */
module Archive {
  import opened Builtins
  import opened Names
  import opened Navigation

  /** One line of archive.md: a group heading, or an entry under it. */
  datatype Entry = Header(key: string) | Item(name: string)

  /** The text of a line, without its newline. */
  function Line(e: Entry): string {
    match e
    case Header(key) => "  * " + key
    case Item(name) => "    * [" + Title(name) + "](../html/" + HtmlName(name) + ")"
  }

  /** The lines as written to archive.md. */
  function Text(es: seq<Entry>): (r: seq<string>)
    ensures |r| == |es|
    ensures forall i :: 0 <= i < |es| ==> r[i] == Line(es[i])
  {
    if es == [] then [] else [Line(es[0])] + Text(es[1..])
  }

  lemma TextAppend(a: seq<Entry>, b: seq<Entry>)
    ensures Text(a + b) == Text(a) + Text(b)
  {
    assert forall i :: 0 <= i < |a + b| ==> Text(a + b)[i] == (Text(a) + Text(b))[i];
  }

  // ------------------------------------------------------------------
  // The lines, as a function of the listing
  // ------------------------------------------------------------------

  /**
   * The lines the loop writes for the entries `rest` while `group` is the
   * current group: dot-files write nothing, an entry of the current group
   * writes its item, any other entry opens its own group first.
   */
  function Continue(group: string, rest: seq<string>): seq<Entry>
    decreases |rest|
  {
    if rest == [] then []
    else if IsHidden(rest[0]) then Continue(group, rest[1..])
    else if group == GroupKey(rest[0]) then [Item(rest[0])] + Continue(group, rest[1..])
    else [Header(GroupKey(rest[0])), Item(rest[0])] + Continue(GroupKey(rest[0]), rest[1..])
  }

  /** Continue, unfolded once at position i of a listing. */
  lemma ContinueStep(group: string, list: seq<string>, i: nat)
    requires i < |list|
    ensures var x := list[i];
      Continue(group, list[i..]) ==
        if IsHidden(x) then Continue(group, list[i + 1..])
        else if group == GroupKey(x) then [Item(x)] + Continue(group, list[i + 1..])
        else [Header(GroupKey(x)), Item(x)] + Continue(GroupKey(x), list[i + 1..])
  {
    assert list[i..][1..] == list[i + 1..];
  }

  /** archive.md: the heading of the first entry's group, then the loop over every entry. */
  function Outline(list: seq<string>): (r: Result<seq<Entry>>)
    ensures r.Ok? <==> list != []
    ensures r.Ok? ==> r.value != [] && r.value[0] == Header(GroupKey(list[0]))
  {
    var first :- At(list, 0);
    Ok([Header(GroupKey(first))] + Continue(GroupKey(first), list))
  }

  /**
   * The pass that writes archive.md, line by line; `group` is the current
   * group. An empty listing raises on `list[0]`.
   */
  method CreateArchive(list: seq<string>) returns (r: Result<seq<string>>)
    ensures r.Ok? <==> list != []
    ensures r.Ok? ==> r.value == Text(Outline(list).value)
  {
    if |list| == 0 {
      return Err(IndexError);
    }
    var group := GroupKey(list[0]);
    var lines := [Line(Header(group))];
    ghost var written := [Header(group)];
    assert list[0..] == list;
    for i := 0 to |list|
      invariant written + Continue(group, list[i..]) == Outline(list).value
      invariant lines == Text(written)
    {
      var name := list[i];
      ContinueStep(group, list, i);
      if !IsHidden(name) {
        if group == GroupKey(name) {
          TextAppend(written, [Item(name)]);
          lines := lines + [Line(Item(name))];
          written := written + [Item(name)];
        } else {
          var idx := IndexOf(list, name);
          group := GroupKey(list[idx]);
          TextAppend(written, [Header(group), Item(name)]);
          lines := lines + [Line(Header(group)), Line(Item(name))];
          written := written + [Header(group), Item(name)];
        }
      }
    }
    assert list[|list|..] == [];
    return Ok(lines);
  }

  // ------------------------------------------------------------------
  // What the lines say
  // ------------------------------------------------------------------

  /** The entries that are not dot-files, in listing order. */
  function Visible(list: seq<string>): seq<string> {
    if list == [] then [] else (if IsHidden(list[0]) then [] else [list[0]]) + Visible(list[1..])
  }

  /** The entries the item lines name, in order. */
  function ItemNames(es: seq<Entry>): seq<string> {
    if es == [] then [] else (if es[0].Item? then [es[0].name] else []) + ItemNames(es[1..])
  }

  /** The group in force after the lines `es`, when `g` was in force before them. */
  function GroupAfter(g: string, es: seq<Entry>): string
    decreases |es|
  {
    if es == [] then g else GroupAfter(if es[0].Header? then es[0].key else g, es[1..])
  }

  lemma {:induction false} ContinueItems(group: string, rest: seq<string>)
    ensures ItemNames(Continue(group, rest)) == Visible(rest)
    decreases |rest|
  {
    if rest != [] {
      var x, tail := rest[0], rest[1..];
      if IsHidden(x) {
        ContinueItems(group, tail);
      } else if group == GroupKey(x) {
        ContinueItems(group, tail);
        var c := Continue(group, tail);
        assert ([Item(x)] + c)[1..] == c;
      } else {
        ContinueItems(GroupKey(x), tail);
        var c := Continue(GroupKey(x), tail);
        assert ([Header(GroupKey(x)), Item(x)] + c)[1..] == [Item(x)] + c;
        assert ([Item(x)] + c)[1..] == c;
      }
    }
  }

  /** Each entry that is not a dot-file has exactly one item line, in listing order. */
  lemma ArchiveItems(list: seq<string>)
    requires list != []
    ensures ItemNames(Outline(list).value) == Visible(list)
  {
    var g := GroupKey(list[0]);
    ContinueItems(g, list);
    assert ([Header(g)] + Continue(g, list))[1..] == Continue(g, list);
  }

  lemma {:induction false} ContinueGroups(g: string, rest: seq<string>, k: nat)
    requires k < |Continue(g, rest)|
    ensures var es := Continue(g, rest);
      && (es[k].Item? ==> GroupKey(es[k].name) == GroupAfter(g, es[..k]))
      && (es[k].Header? ==>
            && k + 1 < |es| && es[k + 1].Item?
            && GroupKey(es[k + 1].name) == es[k].key
            && es[k].key != GroupAfter(g, es[..k]))
    decreases |rest|
  {
    var x, tail := rest[0], rest[1..];
    if IsHidden(x) {
      ContinueGroups(g, tail, k);
    } else if g == GroupKey(x) {
      var c := Continue(g, tail);
      var es := [Item(x)] + c;
      if k > 0 {
        ContinueGroups(g, tail, k - 1);
        assert es[..k] == [Item(x)] + c[..k - 1];
        assert ([Item(x)] + c[..k - 1])[1..] == c[..k - 1];
      }
    } else {
      var key := GroupKey(x);
      var c := Continue(key, tail);
      var es := [Header(key), Item(x)] + c;
      assert es[..0] == [];
      if k == 1 {
        assert es[..1] == [Header(key)];
        assert [Header(key)][1..] == [];
      } else if k >= 2 {
        ContinueGroups(key, tail, k - 2);
        assert es[..k] == [Header(key), Item(x)] + c[..k - 2];
        assert ([Header(key), Item(x)] + c[..k - 2])[1..] == [Item(x)] + c[..k - 2];
        assert ([Item(x)] + c[..k - 2])[1..] == c[..k - 2];
      }
    }
  }

  /**
   * Reading archive.md top to bottom: every item line sits under the heading
   * of its own group, and every heading after the first stands directly
   * above an item of its group, where the group changes.
   */
  lemma ArchiveGroups(list: seq<string>, k: nat)
    requires list != [] && 0 < k < |Outline(list).value|
    ensures var o := Outline(list).value;
      && (o[k].Item? ==> GroupKey(o[k].name) == GroupAfter("", o[..k]))
      && (o[k].Header? ==>
            && k + 1 < |o| && o[k + 1].Item?
            && GroupKey(o[k + 1].name) == o[k].key
            && o[k].key != GroupAfter("", o[..k]))
  {
    var g := GroupKey(list[0]);
    var c := Continue(g, list);
    ContinueGroups(g, list, k - 1);
    assert Outline(list).value[..k] == [Header(g)] + c[..k - 1];
    assert ([Header(g)] + c[..k - 1])[1..] == c[..k - 1];
  }

  /** Two posts of 2021 and one of 2020, then a dot-file: two groups, in listing order. */
  lemma ArchiveExample()
    ensures Outline(["20210301-c.md", "20210115-b.md", "20201231-a.md", ".DS_Store"])
      == Ok([Header("2021"), Item("20210301-c.md"), Item("20210115-b.md"), Header("2020"), Item("20201231-a.md")])
  {
    var list := ["20210301-c.md", "20210115-b.md", "20201231-a.md", ".DS_Store"];
    assert GroupKey(list[0]) == "2021" && GroupKey(list[1]) == "2021" && GroupKey(list[2]) == "2020";
    assert IsHidden(list[3]) && !IsHidden(list[0]) && !IsHidden(list[1]) && !IsHidden(list[2]);
    assert Continue("2020", list[3..]) == [] by { assert list[3..][1..] == []; }
    assert Continue("2021", list[2..]) == [Header("2020"), Item(list[2])] by { assert list[2..][1..] == list[3..]; }
    assert Continue("2021", list[1..]) == [Item(list[1]), Header("2020"), Item(list[2])] by { assert list[1..][1..] == list[2..]; }
    assert Continue("2021", list) == [Item(list[0]), Item(list[1]), Header("2020"), Item(list[2])] by { assert list[1..] == list[1..]; }
    assert Outline(list) == Ok([Header("2021")] + Continue("2021", list));
    assert [Header("2021")] + Continue("2021", list) == [Header("2021"), Item(list[0]), Item(list[1]), Header("2020"), Item(list[2])];
    assert list[0] == "20210301-c.md" && list[1] == "20210115-b.md" && list[2] == "20201231-a.md";
  }

  // ------------------------------------------------------------------
  // archive.html
  // ------------------------------------------------------------------

  /** The PREV/NEXT values of archive.html: PREV goes to the page of list[-2], NEXT is the bare label. */
  function ArchiveLinks(list: seq<string>): (r: Result<Links>)
    ensures r.Ok? <==> list != []
    ensures |list| >= 2 ==> r == Ok(Links(LinkTo("./html/" + HtmlName(list[|list| - 2])), Unlinked))
    ensures |list| == 1 ==> r == Ok(Links(LinkTo("./html/" + HtmlName(list[0])), Unlinked))
  {
    var before :- At(list, |list| - 2);
    Ok(Links(LinkTo("./html/" + HtmlName(before)), Unlinked))
  }

  /** archive.html: `content` is archive.md converted to html. */
  function ArchivePage(t: Templates, list: seq<string>, content: string): (r: Result<PageFile>)
    ensures r.Ok? <==> list != []
    ensures r.Ok? ==> r.value.path == "./archive.html"
  {
    var links :- ArchiveLinks(list);
    Ok(PageFile("./archive.html",
      FillTop(t.before, links, "./", "Archive") + content + FillBottom(t.after, links, "./archive.md")))
  }

  /** With three or more entries the archive's PREV leads to the last rendered page, that of list[-2]. */
  lemma ArchivePrevReachesLastPage(list: seq<string>)
    requires |list| >= 3 && NoSlash(list)
    ensures Reaches(0, ArchiveLinks(list).value.prev, Written(list, |list| - 2))
  {
    ReachesDotHtml(list[|list| - 2]);
  }

  /**
   * With one or two entries the archive's PREV leads to html/ plus the html
   * name of the first entry, which is written to index.html instead.
   */
  lemma ArchivePrevMissesIndex(list: seq<string>)
    requires 1 <= |list| <= 2 && NoSlash(list)
    ensures Reaches(0, ArchiveLinks(list).value.prev, "html/" + HtmlName(list[0]))
    ensures "html/" + HtmlName(list[0]) != Written(list, 0)
  {
    ReachesDotHtml(list[0]);
    assert ("html/" + HtmlName(list[0]))[0] == 'h';
    assert "index.html"[0] == 'i';
  }

  /**
   * The archive's PREV as intended: the last rendered page `last`, which is
   * index.html when that is the only page.
   */
  function IntendedArchiveLinks(list: seq<string>, last: nat): (r: Links)
    requires last < |list|
    ensures r.next == Unlinked
    ensures last == 0 <==> r.prev == LinkTo("./index.html")
  {
    var prev := if last == 0 then "./index.html" else "./html/" + HtmlName(list[last]);
    assert ("./html/" + HtmlName(list[last]))[2] == 'h';
    Links(LinkTo(prev), Unlinked)
  }

  lemma IntendedArchiveReachesLastPage(list: seq<string>, last: nat)
    requires last < |list| && NoSlash(list)
    ensures Reaches(0, IntendedArchiveLinks(list, last).prev, Written(list, last))
  {
    if last == 0 {
      DotResolves(0, "index.html");
    } else {
      ReachesDotHtml(list[last]);
    }
  }
}
