/**
 * create_html and md_to_html. For a position of the reverse-sorted listing:
 * the file its page is written to, the relative prefix of its site links,
 * the values put in place of {{PREV_LINK}} and {{NEXT_LINK}}, and the page
 * text; then the pass that renders every md entry in listing order, and
 * where the links lead once a browser resolves them.
 */
module Navigation {
  import opened Builtins
  import opened Names

  const ProjectName: string := "static-purity"
  const Author: string := "James Evans"
  const Copyright: string := ""

  /** A navigation value: the bare label, or the label wrapped in a link. */
  datatype Nav = Unlinked | LinkTo(href: string)

  datatype Links = Links(prev: Nav, next: Nav)

  function Anchor(href: string, text: string): string {
    "<a href=\"" + href + "\">" + text + "</a>"
  }

  /** The text substituted for {{PREV_LINK}}. */
  function PrevMarkup(n: Nav): string {
    match n
    case Unlinked => "←prev"
    case LinkTo(href) => Anchor(href, "←prev")
  }

  /** The text substituted for {{NEXT_LINK}}. */
  function NextMarkup(n: Nav): string {
    match n
    case Unlinked => "next→"
    case LinkTo(href) => Anchor(href, "next→")
  }

  // ------------------------------------------------------------------
  // The four branches of create_html, each as written
  // ------------------------------------------------------------------

  /** The newest entry, which becomes the index page. */
  function NewestBranch(list: seq<string>, idx: int): Result<Links> {
    if |list| > 1 then
      var next :- At(list, idx + 1);
      Ok(Links(Unlinked, LinkTo("./html/" + HtmlName(next))))
    else
      Ok(Links(Unlinked, LinkTo("../archive.html")))
  }

  /** The second entry, whose PREV goes back to the index page. */
  function SecondBranch(list: seq<string>, idx: int): Result<Links> {
    var next :- At(list, idx + 1);
    Ok(Links(LinkTo("../index.html"), LinkTo(HtmlName(next))))
  }

  /** An entry strictly between the second and the second-to-last. */
  function MiddleBranch(list: seq<string>, idx: int): Result<Links> {
    var prev :- At(list, idx - 1);
    var next :- At(list, idx + 1);
    Ok(Links(LinkTo(HtmlName(prev)), LinkTo(HtmlName(next))))
  }

  /** The second-to-last entry, whose NEXT goes to the archive. */
  function PenultimateBranch(list: seq<string>, idx: int): Result<Links> {
    var prev :- At(list, idx - 1);
    Ok(Links(LinkTo(HtmlName(prev)), LinkTo("../archive.html")))
  }

  /**
   * One `if` of create_html: when it is taken, the branch rebinds the links
   * or raises; when it is not, whatever was bound stays bound.
   */
  function Step(bound: Result<Option<Links>>, taken: bool, branch: Result<Links>): Result<Option<Links>> {
    match bound
    case Err(f) => Err(f)
    case Ok(current) =>
      if !taken then Ok(current)
      else match branch
        case Err(f) => Err(f)
        case Ok(links) => Ok(Some(links))
  }

  /**
   * The PREV/NEXT values of the entry at position idx. The four branches are
   * independent `if`s, so a later one that matches rebinds what an earlier
   * one set; when none matches, the template variable is unbound when it is
   * next read. Closed forms, by position:
   */
  function NavLinks(list: seq<string>, idx: nat): (r: Result<Links>)
    requires idx < |list|
    // only the last entry of a listing of two or more fails
    ensures r.Err? <==> |list| >= 2 && idx == |list| - 1
    ensures |list| == 2 && idx == 1 ==> r == Err(IndexError)
    ensures |list| >= 3 && idx == |list| - 1 ==> r == Err(UnboundLocal)
    // the index page
    ensures |list| == 1 ==> r == Ok(Links(Unlinked, LinkTo("../archive.html")))
    ensures |list| >= 3 && idx == 0 ==> r == Ok(Links(Unlinked, LinkTo("./html/" + HtmlName(list[1]))))
    // the second page, when it is not also second-to-last
    ensures |list| >= 4 && idx == 1 ==> r == Ok(Links(LinkTo("../index.html"), LinkTo(HtmlName(list[2]))))
    // the pages in between
    ensures 1 < idx < |list| - 2 ==>
      r == Ok(Links(LinkTo(HtmlName(list[idx - 1])), LinkTo(HtmlName(list[idx + 1]))))
    // the second-to-last page overrides the rest; for idx == 0, list[-1] is the last entry
    ensures idx == |list| - 2 ==>
      r == Ok(Links(LinkTo(HtmlName(list[if idx == 0 then |list| - 1 else idx - 1])), LinkTo("../archive.html")))
  {
    var n := |list|;
    var bound0 := Step(Ok(None), idx == 0, NewestBranch(list, idx));
    var bound1 := Step(bound0, idx == 1, SecondBranch(list, idx));
    var bound2 := Step(bound1, 1 < idx < n - 2, MiddleBranch(list, idx));
    var bound3 := Step(bound2, idx == n - 2, PenultimateBranch(list, idx));
    match bound3
    case Err(f) => Err(f)
    case Ok(None) => Err(UnboundLocal)
    case Ok(Some(links)) => Ok(links)
  }

  // ------------------------------------------------------------------
  // Placement and page text
  // ------------------------------------------------------------------

  /** `dir_depth`: 0 for the index page at the root, 1 for pages under html/. */
  function DirDepth(idx: nat): nat {
    if idx == 0 then 0 else 1
  }

  /** The file the page is written to. */
  function OutputPath(name: string, idx: nat): string {
    if idx == 0 then "./index.html" else "./html/" + HtmlName(name)
  }

  /** Where a page goes and the values its placeholders receive, the title aside. */
  datatype Placement = Placement(path: string, prefix: string, links: Links, mdSource: string)

  function Place(list: seq<string>, idx: nat): (r: Result<Placement>)
    requires idx < |list|
    ensures r.Ok? <==> NavLinks(list, idx).Ok?
    ensures r.Err? ==> r.fault == NavLinks(list, idx).fault
    ensures r.Ok? ==> r.value.links == NavLinks(list, idx).value
    ensures r.Ok? && idx == 0 ==> r.value.path == "./index.html" && r.value.prefix == ""
    ensures r.Ok? && idx > 0 ==> r.value.path == "./html/" + HtmlName(list[idx]) && r.value.prefix == "../"
    ensures r.Ok? ==> r.value.mdSource == r.value.prefix + "md/" + list[idx]
  {
    var links :- NavLinks(list, idx);
    var prefix := Repeat("../", DirDepth(idx));
    assert Repeat("../", 1) == "../" + Repeat("../", 0);
    Ok(Placement(OutputPath(list[idx], idx), prefix, links, prefix + "md/" + list[idx]))
  }

  /** The two halves of the page skeleton, held as opaque text. */
  datatype Templates = Templates(before: string, after: string)

  /**
   * The top half with its placeholders replaced in the order the source
   * replaces them; `prefix` leads the css, index, archive and about paths.
   */
  function FillTop(t: string, links: Links, prefix: string, title: string): string {
    var s0 := Replace(t, "{{PREV_LINK}}", PrevMarkup(links.prev));
    var s1 := Replace(s0, "{{NEXT_LINK}}", NextMarkup(links.next));
    var s2 := Replace(s1, "{{PATH_TO_CSS}}", prefix + "css/styles.css");
    var s3 := Replace(s2, "{{PATH_TO_INDEX}}", prefix + "index.html");
    var s4 := Replace(s3, "{{PATH_TO_ARCHIVE}}", prefix + "archive.html");
    var s5 := Replace(s4, "{{PATH_TO_ABOUT}}", prefix + "about.html");
    var s6 := Replace(s5, "{{PROJECT_NAME}}", ProjectName);
    var s7 := Replace(s6, "{{TITLE}}", title);
    Replace(s7, "{{AUTHOR}}", Author)
  }

  /** The bottom half with its placeholders replaced in the source's order. */
  function FillBottom(t: string, links: Links, mdSource: string): string {
    var s0 := Replace(t, "{{PREV_LINK}}", PrevMarkup(links.prev));
    var s1 := Replace(s0, "{{NEXT_LINK}}", NextMarkup(links.next));
    var s2 := Replace(s1, "{{COPYRIGHT}}", Copyright);
    Replace(s2, "{{MD_SOURCE}}", mdSource)
  }

  datatype PageFile = PageFile(path: string, html: string)

  /**
   * The page for `name`: its position is looked up with `list.index`, and it
   * is written to index.html exactly when that position is 0.
   */
  function CreateHtml(t: Templates, list: seq<string>, name: string, title: string, content: string): (r: Result<PageFile>)
    requires name in list
    ensures r.Ok? <==> !(|list| >= 2 && IndexOf(list, name) == |list| - 1)
    ensures r.Err? ==> r.fault == if |list| == 2 then IndexError else UnboundLocal
    ensures r.Ok? ==> r.value.path == OutputPath(name, IndexOf(list, name))
  {
    var idx := IndexOf(list, name);
    var place :- Place(list, idx);
    Ok(PageFile(place.path,
      FillTop(t.before, place.links, place.prefix, title) + content + FillBottom(t.after, place.links, place.mdSource)))
  }

  // ------------------------------------------------------------------
  // md_to_html
  // ------------------------------------------------------------------

  /**
   * What the rendering pass writes from position i on, and the fault that
   * stops it, if any. Pages written before a fault stay written.
   */
  function RunFrom(t: Templates, list: seq<string>, bodies: seq<string>, i: nat): (seq<PageFile>, Option<Fault>)
    requires |bodies| == |list| && i <= |list|
    decreases |list| - i, 1
  {
    if i == |list| then ([], None) else EntryStep(t, list, bodies, i)
  }

  /** What the pass does at entry i and after it: skip it, stop on its fault, or write its page and go on. */
  function EntryStep(t: Templates, list: seq<string>, bodies: seq<string>, i: nat): (seq<PageFile>, Option<Fault>)
    requires |bodies| == |list| && i < |list|
    decreases |list| - i, 0
  {
    if !IsMd(list[i]) then RunFrom(t, list, bodies, i + 1)
    else
      match CreateHtml(t, list, list[i], Title(list[i]), bodies[i])
      case Err(f) => ([], Some(f))
      case Ok(page) =>
        var rest := RunFrom(t, list, bodies, i + 1);
        ([page] + rest.0, rest.1)
  }

  /**
   * The rendering pass: every md entry, in listing order, becomes a page;
   * `bodies[i]` is the converted markdown of entry i. In a listing without
   * duplicate names (a directory listing), the pages are those of the
   * positions MdPositions lists, one by one, and the pass stops exactly when
   * the last entry is md in a listing of two or more.
   */
  method MdToHtml(t: Templates, list: seq<string>, bodies: seq<string>) returns (written: seq<PageFile>, fault: Option<Fault>)
    requires |bodies| == |list|
    ensures (written, fault) == RunFrom(t, list, bodies, 0)
    ensures Distinct(list) ==> PagesAt(t, list, bodies, written, MdPositions(list, 0))
    ensures Distinct(list) ==>
      fault == if LastFails(list) then Some(if |list| == 2 then IndexError else UnboundLocal) else None
  {
    written := [];
    fault := None;
    var i := 0;
    while i < |list| && fault.None?
      invariant i <= |list|
      invariant fault.None? ==>
        written + RunFrom(t, list, bodies, i).0 == RunFrom(t, list, bodies, 0).0 &&
        RunFrom(t, list, bodies, i).1 == RunFrom(t, list, bodies, 0).1
      invariant fault.Some? ==> (written, fault) == RunFrom(t, list, bodies, 0)
    {
      var name := list[i];
      if IsMd(name) {
        var page := CreateHtml(t, list, name, Title(name), bodies[i]);
        RenderStep(t, list, bodies, i, page);
        if page.Err? {
          // the exception leaves the loop at once: nothing after it is written
          assert written + [] == written;
          fault := Some(page.fault);
        } else {
          ghost var rest := RunFrom(t, list, bodies, i + 1).0;
          AppendAssoc(written, [page.value], rest);
          written := written + [page.value];
          assert written + rest == RunFrom(t, list, bodies, 0).0;
        }
      } else {
        SkipStep(t, list, bodies, i);
      }
      i := i + 1;
      if fault.None? {
        assert written + RunFrom(t, list, bodies, i).0 == RunFrom(t, list, bodies, 0).0;
      }
    }
    if fault.None? {
      assert RunFrom(t, list, bodies, i) == ([], None);
      assert written + [] == written;
    }
    PassOutcome(t, list, bodies, written, fault);
  }

  lemma AppendAssoc<T>(a: seq<T>, b: seq<T>, c: seq<T>)
    ensures a + (b + c) == (a + b) + c
  {
  }

  /** The pass skips an entry that is not md. */
  lemma SkipStep(t: Templates, list: seq<string>, bodies: seq<string>, i: nat)
    requires |bodies| == |list| && i < |list| && !IsMd(list[i])
    ensures RunFrom(t, list, bodies, i) == RunFrom(t, list, bodies, i + 1)
  {
  }

  /** At an md entry the pass stops on a fault, or writes `page` and goes on. */
  lemma RenderStep(t: Templates, list: seq<string>, bodies: seq<string>, i: nat, page: Result<PageFile>)
    requires |bodies| == |list| && i < |list| && IsMd(list[i])
    requires page == CreateHtml(t, list, list[i], Title(list[i]), bodies[i])
    ensures page.Err? ==> RunFrom(t, list, bodies, i) == ([], Some(page.fault))
    ensures page.Ok? ==>
      RunFrom(t, list, bodies, i) == ([page.value] + RunFrom(t, list, bodies, i + 1).0, RunFrom(t, list, bodies, i + 1).1)
  {
  }

  /** What the whole pass, from position 0, writes and raises in a listing without duplicates. */
  lemma PassOutcome(t: Templates, list: seq<string>, bodies: seq<string>, written: seq<PageFile>, fault: Option<Fault>)
    requires |bodies| == |list| && (written, fault) == RunFrom(t, list, bodies, 0)
    ensures Distinct(list) ==> PagesAt(t, list, bodies, written, MdPositions(list, 0))
    ensures Distinct(list) ==>
      fault == if LastFails(list) then Some(if |list| == 2 then IndexError else UnboundLocal) else None
  {
    if Distinct(list) {
      RunFromPages(t, list, bodies, 0);
      RunFromOutcome(t, list, bodies, 0);
    }
  }

  /** Whether the pass renders the entry at position j: it is md, and it is not the last entry the pass stops on. */
  predicate Rendered(list: seq<string>, j: nat)
    requires j < |list|
  {
    IsMd(list[j]) && !(LastFails(list) && j == |list| - 1)
  }

  /** The positions from i on whose entries the pass renders, in listing order. */
  function MdPositions(list: seq<string>, i: nat): (ps: seq<nat>)
    requires i <= |list|
    ensures forall k :: 0 <= k < |ps| ==> i <= ps[k] < |list|
    decreases |list| - i
  {
    if i == |list| then []
    else if Rendered(list, i) then [i] + MdPositions(list, i + 1)
    else MdPositions(list, i + 1)
  }

  /** MdPositions lists, in increasing order, exactly the positions from i on that the pass renders. */
  lemma MdPositionsExact(list: seq<string>, i: nat)
    requires i <= |list|
    ensures var ps := MdPositions(list, i);
      && (forall k :: 0 <= k < |ps| ==> Rendered(list, ps[k]))
      && (forall k, l :: 0 <= k < l < |ps| ==> ps[k] < ps[l])
      && (forall j :: i <= j < |list| && Rendered(list, j) ==> j in ps)
  {
    MdPositionsRendered(list, i);
    MdPositionsIncreasing(list, i);
    MdPositionsComplete(list, i);
  }

  lemma {:induction false} MdPositionsRendered(list: seq<string>, i: nat)
    requires i <= |list|
    ensures forall k :: 0 <= k < |MdPositions(list, i)| ==> Rendered(list, MdPositions(list, i)[k])
    decreases |list| - i
  {
    if i < |list| {
      MdPositionsRendered(list, i + 1);
      var rest := MdPositions(list, i + 1);
      if Rendered(list, i) {
        assert MdPositions(list, i) == [i] + rest;
        forall k | 0 < k < |rest| + 1
          ensures ([i] + rest)[k] == rest[k - 1]
        {
        }
      }
    }
  }

  lemma {:induction false} MdPositionsIncreasing(list: seq<string>, i: nat)
    requires i <= |list|
    ensures forall k, l :: 0 <= k < l < |MdPositions(list, i)| ==> MdPositions(list, i)[k] < MdPositions(list, i)[l]
    decreases |list| - i
  {
    if i < |list| {
      MdPositionsIncreasing(list, i + 1);
      var rest := MdPositions(list, i + 1);
      if Rendered(list, i) {
        assert MdPositions(list, i) == [i] + rest;
        forall k | 0 < k < |rest| + 1
          ensures ([i] + rest)[k] == rest[k - 1]
        {
        }
      }
    }
  }

  lemma {:induction false} MdPositionsComplete(list: seq<string>, i: nat)
    requires i <= |list|
    ensures forall j :: i <= j < |list| && Rendered(list, j) ==> j in MdPositions(list, i)
    decreases |list| - i
  {
    if i < |list| {
      MdPositionsComplete(list, i + 1);
      if Rendered(list, i) {
        assert MdPositions(list, i) == [i] + MdPositions(list, i + 1);
      }
    }
  }

  /** What CreateHtml makes, one by one, for the entries at positions `ps`. */
  function Renderings(t: Templates, list: seq<string>, bodies: seq<string>, ps: seq<nat>): (rs: seq<Result<PageFile>>)
    requires |bodies| == |list|
    requires forall k :: 0 <= k < |ps| ==> ps[k] < |list|
    ensures |rs| == |ps|
    decreases |ps|, 1
  {
    if ps == [] then [] else RenderFirst(t, list, bodies, ps)
  }

  /** The rendering of the first position in `ps`, then those of the others. */
  function RenderFirst(t: Templates, list: seq<string>, bodies: seq<string>, ps: seq<nat>): (rs: seq<Result<PageFile>>)
    requires |bodies| == |list| && ps != []
    requires forall k :: 0 <= k < |ps| ==> ps[k] < |list|
    ensures |rs| == |ps|
    decreases |ps|, 0
  {
    [CreateHtml(t, list, list[ps[0]], Title(list[ps[0]]), bodies[ps[0]])] + Renderings(t, list, bodies, ps[1..])
  }

  /** Each page as a successful result. */
  function Successes(pages: seq<PageFile>): (rs: seq<Result<PageFile>>)
    ensures |rs| == |pages|
  {
    if pages == [] then [] else [Ok(pages[0])] + Successes(pages[1..])
  }

  /** `pages` are, one by one, the pages CreateHtml makes for the entries at positions `ps`, each at its position's output path. */
  predicate PagesAt(t: Templates, list: seq<string>, bodies: seq<string>, pages: seq<PageFile>, ps: seq<nat>)
    requires |bodies| == |list|
  {
    && (forall k :: 0 <= k < |ps| ==> ps[k] < |list|)
    && Renderings(t, list, bodies, ps) == Successes(pages)
    && (forall k :: 0 <= k < |ps| && k < |pages| ==> pages[k].path == OutputPath(list[ps[k]], ps[k]))
  }

  /** Putting one more rendered position in front keeps PagesAt. */
  lemma PagesAtCons(t: Templates, list: seq<string>, bodies: seq<string>, page: PageFile, pages: seq<PageFile>, i: nat, ps: seq<nat>)
    requires |bodies| == |list| && i < |list|
    requires CreateHtml(t, list, list[i], Title(list[i]), bodies[i]) == Ok(page) && page.path == OutputPath(list[i], i)
    requires PagesAt(t, list, bodies, pages, ps)
    ensures PagesAt(t, list, bodies, [page] + pages, [i] + ps)
  {
    assert ([i] + ps)[1..] == ps;
    assert ([page] + pages)[1..] == pages;
    forall k | 0 < k < |ps| + 1
      ensures ([i] + ps)[k] == ps[k - 1] && ([page] + pages)[k] == pages[k - 1]
    {
    }
  }

  /**
   * In a listing without duplicates, the pass from position i on writes, in
   * order, the page of every position MdPositions lists, each at the output
   * path of its own position.
   */
  lemma {:induction false} RunFromPages(t: Templates, list: seq<string>, bodies: seq<string>, i: nat)
    requires |bodies| == |list| && i <= |list| && Distinct(list)
    ensures PagesAt(t, list, bodies, RunFrom(t, list, bodies, i).0, MdPositions(list, i))
    decreases |list| - i
  {
    if i < |list| {
      RunFromPages(t, list, bodies, i + 1);
      var name := list[i];
      if !IsMd(name) {
        SkipStep(t, list, bodies, i);
      } else {
        IndexOfDistinct(list, i);
        var page := CreateHtml(t, list, name, Title(name), bodies[i]);
        RenderStep(t, list, bodies, i, page);
        if !Rendered(list, i) {
          assert page.Err?;
        } else {
          assert page.Ok?;
          assert MdPositions(list, i) == [i] + MdPositions(list, i + 1);
          PagesAtCons(t, list, bodies, page.value, RunFrom(t, list, bodies, i + 1).0, i, MdPositions(list, i + 1));
        }
      }
    }
  }

  /** How many entries of a listing are md files. */
  function MdCount(list: seq<string>): nat {
    if list == [] then 0 else (if IsMd(list[0]) then 1 else 0) + MdCount(list[1..])
  }

  /** Whether rendering stops at the last entry: it is md and the listing has two or more entries. */
  predicate LastFails(list: seq<string>) {
    |list| >= 2 && IsMd(list[|list| - 1])
  }

  lemma {:induction false} RunFromOutcome(t: Templates, list: seq<string>, bodies: seq<string>, i: nat)
    requires |bodies| == |list| && i <= |list| && Distinct(list)
    ensures RunFrom(t, list, bodies, i).1 ==
      if LastFails(list) && i < |list| then Some(if |list| == 2 then IndexError else UnboundLocal) else None
    ensures |RunFrom(t, list, bodies, i).0| ==
      MdCount(list[i..]) - if LastFails(list) && i < |list| then 1 else 0
    decreases |list| - i
  {
    if i < |list| {
      assert list[i..] == [list[i]] + list[i + 1..];
      RunFromOutcome(t, list, bodies, i + 1);
      if IsMd(list[i]) {
        IndexOfDistinct(list, i);
        if i == |list| - 1 {
          assert list[i + 1..] == [];
        }
      }
    } else {
      assert list[i..] == [];
    }
  }

  /**
   * md_to_html renders every md entry exactly when the listing has at most
   * one entry or ends with an entry that is not md (a dot-file such as
   * .DS_Store); otherwise it renders all but the last and stops there.
   */
  lemma BuildOutcome(t: Templates, list: seq<string>, bodies: seq<string>)
    requires |bodies| == |list| && Distinct(list)
    ensures RunFrom(t, list, bodies, 0).1.None? <==> |list| <= 1 || !IsMd(list[|list| - 1])
    ensures RunFrom(t, list, bodies, 0).1.None? ==> |RunFrom(t, list, bodies, 0).0| == MdCount(list)
    ensures RunFrom(t, list, bodies, 0).1.Some? ==> |RunFrom(t, list, bodies, 0).0| == MdCount(list) - 1
  {
    RunFromOutcome(t, list, bodies, 0);
    assert list[0..] == list;
  }

  // ------------------------------------------------------------------
  // Where the links lead
  // ------------------------------------------------------------------

  /**
   * The path, from the site root, that a browser fetches when it follows
   * `href` on a page at depth 0 (the root) or 1 (html/); `..` at the root
   * stays at the root.
   */
  function Resolve(depth: nat, href: string): string {
    var here := if depth == 0 then "" else "html/";
    if |href| >= 2 && href[0] == '.' && href[1] == '/' then here + href[2..]
    else if |href| >= 3 && href[0] == '.' && href[1] == '.' && href[2] == '/' then href[3..]
    else here + href
  }

  /** The file, from the site root, that holds the page of position p. */
  function Written(list: seq<string>, p: nat): string
    requires p < |list|
  {
    if p == 0 then "index.html" else "html/" + HtmlName(list[p])
  }

  predicate Reaches(depth: nat, nav: Nav, target: string) {
    nav.LinkTo? && Resolve(depth, nav.href) == target
  }

  /** File names never hold a '/'. */
  predicate NoSlash(list: seq<string>) {
    forall i :: 0 <= i < |list| ==> '/' !in list[i]
  }

  /** A page name is followed relative to the page's own directory. */
  lemma HtmlNameResolves(depth: nat, name: string)
    requires '/' !in name
    ensures Resolve(depth, HtmlName(name)) == (if depth == 0 then "" else "html/") + HtmlName(name)
  {
  }

  /** A `./` link is followed relative to the page's own directory. */
  lemma DotResolves(depth: nat, rest: string)
    ensures Resolve(depth, "./" + rest) == (if depth == 0 then "" else "html/") + rest
  {
  }

  /** A `../` link leads to the site root, from either depth. */
  lemma ParentResolves(depth: nat, rest: string)
    ensures Resolve(depth, "../" + rest) == rest
  {
  }

  /** The page of position p is written where OutputPath, followed from the root, leads. */
  lemma WrittenAt(list: seq<string>, p: nat)
    requires p < |list|
    ensures Resolve(0, OutputPath(list[p], p)) == Written(list, p)
  {
    if p == 0 {
      DotResolves(0, "index.html");
    } else {
      DotResolves(0, "html/" + HtmlName(list[p]));
      assert "./html/" + HtmlName(list[p]) == "./" + ("html/" + HtmlName(list[p]));
    }
  }

  /** A bare page name leads to that page in the linking page's own directory. */
  lemma ReachesPage(depth: nat, name: string)
    requires '/' !in name
    ensures Reaches(depth, LinkTo(HtmlName(name)), (if depth == 0 then "" else "html/") + HtmlName(name))
  {
  }

  /** `./html/` plus a page name, followed from the root, leads to that page under html/. */
  lemma ReachesDotHtml(name: string)
    ensures Reaches(0, LinkTo("./html/" + HtmlName(name)), "html/" + HtmlName(name))
  {
  }

  /** With three or more entries, every page but the last two links NEXT to the page after it. */
  lemma NextReachesFollowing(list: seq<string>, p: nat)
    requires NoSlash(list) && |list| >= 3 && p + 2 < |list|
    ensures NavLinks(list, p).Ok?
    ensures Reaches(DirDepth(p), NavLinks(list, p).value.next, Written(list, p + 1))
  {
    if p == 0 {
      ReachesDotHtml(list[1]);
    } else {
      ReachesPage(1, list[p + 1]);
    }
  }

  /** With four or more entries, every page from the second to the second-to-last links PREV to the page before it. */
  lemma PrevReachesPreceding(list: seq<string>, p: nat)
    requires NoSlash(list) && |list| >= 4 && p + 2 < |list|
    ensures NavLinks(list, p + 1).Ok?
    ensures Reaches(DirDepth(p + 1), NavLinks(list, p + 1).value.prev, Written(list, p))
  {
    if p == 0 {
      assert NavLinks(list, 1).value.prev == LinkTo("../index.html");
      ParentResolves(1, "index.html");
    } else {
      assert NavLinks(list, p + 1).value.prev == LinkTo(HtmlName(list[p]));
      ReachesPage(1, list[p]);
    }
  }

  /**
   * With four or more entries, every rendered page's NEXT leads to the page
   * after it and that page's PREV leads back.
   */
  lemma LinkedChain(list: seq<string>, p: nat)
    requires NoSlash(list) && |list| >= 4 && p + 2 < |list|
    ensures NavLinks(list, p).Ok? && NavLinks(list, p + 1).Ok?
    ensures Reaches(DirDepth(p), NavLinks(list, p).value.next, Written(list, p + 1))
    ensures Reaches(DirDepth(p + 1), NavLinks(list, p + 1).value.prev, Written(list, p))
  {
    NextReachesFollowing(list, p);
    PrevReachesPreceding(list, p);
  }

  /** The second-to-last page's NEXT leads to the archive page. */
  lemma PenultimateReachesArchive(list: seq<string>)
    requires |list| >= 2
    ensures NavLinks(list, |list| - 2).Ok?
    ensures Reaches(DirDepth(|list| - 2), NavLinks(list, |list| - 2).value.next, "archive.html")
  {
  }

  // ------------------------------------------------------------------
  // Short listings, and the links the branches aim at
  // ------------------------------------------------------------------

  /**
   * One post and a trailing .DS_Store: the second-to-last branch rebinds the
   * index page's links, and its PREV becomes a link to the html name of
   * list[-1], the dot-file.
   */
  lemma IndexPrevWithTwoEntries()
    ensures NavLinks(["20200101-first.md", ".DS_Store"], 0)
      == Ok(Links(LinkTo(".DS_Stohtml"), LinkTo("../archive.html")))
  {
    assert ".DS_Store"[..7] == ".DS_Sto";
    assert HtmlName(".DS_Store") == ".DS_Stohtml";
  }

  /**
   * Three entries: the second page is also second-to-last, so its PREV is
   * the html name of the first entry under html/, a file never written,
   * since the first entry is written to index.html.
   */
  lemma SecondPrevWithThreeEntries(list: seq<string>)
    requires |list| == 3 && NoSlash(list)
    ensures NavLinks(list, 1).Ok?
    ensures Reaches(1, NavLinks(list, 1).value.prev, "html/" + HtmlName(list[0]))
    ensures "html/" + HtmlName(list[0]) != Written(list, 0)
  {
    HtmlNameResolves(1, list[0]);
    assert ("html/" + HtmlName(list[0]))[0] == 'h';
    assert "index.html"[0] == 'i';
  }

  /**
   * The last position that gets a page when a non-md entry (a dot-file such
   * as .DS_Store) sorts last; 0 for a one-entry listing.
   */
  function LastPage(n: nat): nat
    requires n >= 1
  {
    if n == 1 then 0 else n - 2
  }

  /**
   * The links the branches evidently aim at, for pages 0 to `last`: no PREV
   * on the index page, the index page as PREV of the second page, the
   * archive as NEXT of the last page, neighbours otherwise. `last` is
   * LastPage(|list|) when a dot-file sorts last and |list| - 1 when every
   * entry is rendered.
   */
  function IntendedLinks(list: seq<string>, last: nat, idx: nat): (r: Links)
    requires last < |list| && idx <= last
    ensures idx == 0 <==> r.prev.Unlinked?
    ensures idx == last ==> r.next == LinkTo("../archive.html")
  {
    var prev :=
      if idx == 0 then Unlinked
      else if idx == 1 then LinkTo("../index.html")
      else LinkTo(HtmlName(list[idx - 1]));
    var next :=
      if idx == last then LinkTo("../archive.html")
      else if idx == 0 then LinkTo("./html/" + HtmlName(list[1]))
      else LinkTo(HtmlName(list[idx + 1]));
    Links(prev, next)
  }

  /** The intended links chain every rendered page to the next. */
  lemma IntendedChain(list: seq<string>, last: nat, p: nat)
    requires NoSlash(list) && last < |list| && p + 1 <= last
    ensures Reaches(DirDepth(p), IntendedLinks(list, last, p).next, Written(list, p + 1))
    ensures Reaches(DirDepth(p + 1), IntendedLinks(list, last, p + 1).prev, Written(list, p))
  {
    IntendedNext(list, last, p);
    IntendedPrev(list, last, p);
  }

  lemma IntendedNext(list: seq<string>, last: nat, p: nat)
    requires NoSlash(list) && last < |list| && p + 1 <= last
    ensures Reaches(DirDepth(p), IntendedLinks(list, last, p).next, Written(list, p + 1))
  {
    if p == 0 {
      ReachesDotHtml(list[1]);
    } else {
      ReachesPage(1, list[p + 1]);
    }
  }

  lemma IntendedPrev(list: seq<string>, last: nat, p: nat)
    requires NoSlash(list) && last < |list| && p + 1 <= last
    ensures Reaches(DirDepth(p + 1), IntendedLinks(list, last, p + 1).prev, Written(list, p))
  {
    if p == 0 {
      ParentResolves(1, "index.html");
    } else {
      ReachesPage(1, list[p]);
    }
  }

  /** The intended links of the last page lead to the archive. */
  lemma IntendedReachesArchive(list: seq<string>, last: nat)
    requires last < |list|
    ensures Reaches(DirDepth(last), IntendedLinks(list, last, last).next, "archive.html")
  {
    ParentResolves(DirDepth(last), "archive.html");
  }

  /**
   * The source already produces the intended links, up to the page before a
   * trailing dot-file, for one entry and for four or more.
   */
  lemma IntendedAgrees(list: seq<string>, p: nat)
    requires |list| == 1 || (|list| >= 4 && p <= |list| - 2)
    requires p <= LastPage(|list|)
    ensures NavLinks(list, p) == Ok(IntendedLinks(list, LastPage(|list|), p))
  {
  }
}
