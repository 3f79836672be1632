/**
 * The Python built-ins the site generator leans on, stated over Dafny
 * strings and sequences: slicing with clamped and negative bounds, list
 * subscripts with negative indices, `list.index`, `str.replace`,
 * `str.title` (ASCII letters only) and the code-point order `sorted` uses.
 */
module Builtins {

  /** The exceptions the modelled code can raise. */
  datatype Fault =
    | IndexError    // a list subscript outside the list
    | UnboundLocal  // a local variable read before any branch assigned it

  datatype Option<+T> = None | Some(value: T)

  /** A computation that either yields a value or raises a Fault. */
  datatype Result<+T> = Ok(value: T) | Err(fault: Fault) {
    predicate IsFailure() { Err? }
    function PropagateFailure<U>(): Result<U> requires Err? { Err(fault) }
    function Extract(): T requires Ok? { value }
  }

  // ------------------------------------------------------------------
  // Slicing and subscripts
  // ------------------------------------------------------------------

  /** How CPython turns a slice bound into a position of a sequence of length n. */
  function SliceBound(i: int, n: nat): (b: nat)
    ensures b <= n
  {
    if i < 0 then (if i + n < 0 then 0 else i + n)
    else if i > n then n
    else i
  }

  /** `s[i:j]`: out-of-range bounds are clamped, negative ones count from the end. */
  function Slice(s: string, i: int, j: int): (r: string)
    ensures |r| <= |s|
  {
    var a, b := SliceBound(i, |s|), SliceBound(j, |s|);
    if a < b then s[a..b] else []
  }

  /** `lst[i]` on a list: a negative i counts from the end, anything else out of range raises. */
  function At(lst: seq<string>, i: int): (r: Result<string>)
    ensures r.Ok? <==> -|lst| <= i < |lst|
    ensures 0 <= i < |lst| ==> r == Ok(lst[i])
    ensures -|lst| <= i < 0 ==> r == Ok(lst[|lst| + i])
  {
    if 0 <= i < |lst| then Ok(lst[i])
    else if -|lst| <= i < 0 then Ok(lst[|lst| + i])
    else Err(IndexError)
  }

  /** `lst.index(x)`: the first position holding x. */
  function IndexOf(lst: seq<string>, x: string): (k: nat)
    requires x in lst
    ensures k < |lst| && lst[k] == x
    ensures forall j :: 0 <= j < k ==> lst[j] != x
  {
    if lst[0] == x then 0 else 1 + IndexOf(lst[1..], x)
  }

  /** No name occurs twice, as in a directory listing. */
  predicate Distinct(lst: seq<string>) {
    forall i, j :: 0 <= i < j < |lst| ==> lst[i] != lst[j]
  }

  lemma IndexOfDistinct(lst: seq<string>, p: nat)
    requires Distinct(lst) && p < |lst|
    ensures IndexOf(lst, lst[p]) == p
  {
  }

  predicate StartsWith(s: string, prefix: string) {
    |prefix| <= |s| && s[..|prefix|] == prefix
  }

  /** `s * k` for a string and a count. */
  function Repeat(s: string, k: nat): (r: string)
    ensures |r| == |s| * k
  {
    if k == 0 then [] else s + Repeat(s, k - 1)
  }

  // ------------------------------------------------------------------
  // str.replace
  // ------------------------------------------------------------------

  /** `s.replace(pat, rep)`: every non-overlapping occurrence, scanning left to right. */
  function Replace(s: string, pat: string, rep: string): string
    requires pat != []
    decreases |s|
  {
    if |s| < |pat| then s
    else if s[..|pat|] == pat then rep + Replace(s[|pat|..], pat, rep)
    else [s[0]] + Replace(s[1..], pat, rep)
  }

  /** Replacing one character by another maps the string character by character. */
  lemma {:induction false} ReplaceChar(s: string, a: char, b: char)
    ensures |Replace(s, [a], [b])| == |s|
    ensures forall i :: 0 <= i < |s| ==>
      Replace(s, [a], [b])[i] == if s[i] == a then b else s[i]
  {
    if s != [] {
      ReplaceChar(s[1..], a, b);
      var tail := Replace(s[1..], [a], [b]);
      assert s[..1] == [s[0]];
      assert Replace(s, [a], [b]) == [if s[0] == a then b else s[0]] + tail;
    }
  }

  // ------------------------------------------------------------------
  // str.title over ASCII
  // ------------------------------------------------------------------

  predicate IsUpper(c: char) { 'A' <= c <= 'Z' }
  predicate IsLower(c: char) { 'a' <= c <= 'z' }
  predicate IsLetter(c: char) { IsUpper(c) || IsLower(c) }

  function ToUpper(c: char): (u: char)
    ensures IsLetter(c) ==> IsUpper(u)
  {
    if IsLower(c) then (c as int - 32) as char else c
  }

  function ToLower(c: char): (l: char)
    ensures IsLetter(c) ==> IsLower(l)
  {
    if IsUpper(c) then (c as int + 32) as char else c
  }

  /**
   * CPython's title-casing loop: `prevCased` says whether the character
   * before `s` was a letter; a letter after a letter is lowered, any other
   * letter is raised, and a non-letter clears the flag.
   */
  function TitleFrom(prevCased: bool, s: string): string
    decreases s
  {
    if s == [] then []
    else if IsUpper(s[0]) then
      [if prevCased then ToLower(s[0]) else s[0]] + TitleFrom(true, s[1..])
    else if IsLower(s[0]) then
      [if prevCased then s[0] else ToUpper(s[0])] + TitleFrom(true, s[1..])
    else
      [s[0]] + TitleFrom(false, s[1..])
  }

  /** `s.title()` */
  function TitleCase(s: string): string {
    TitleFrom(false, s)
  }

  /** What title-casing makes of c, given whether the character before it is a letter. */
  function TitleChar(afterLetter: bool, c: char): char {
    if !IsLetter(c) then c else if afterLetter then ToLower(c) else ToUpper(c)
  }

  /** Whether the character before position i of s is a letter. */
  predicate AfterLetter(s: string, i: int)
    requires 0 <= i <= |s|
  {
    i > 0 && IsLetter(s[i - 1])
  }

  lemma {:induction false} TitleFromAt(prevCased: bool, s: string)
    ensures |TitleFrom(prevCased, s)| == |s|
    ensures forall i :: 0 <= i < |s| ==>
      TitleFrom(prevCased, s)[i] == TitleChar(if i == 0 then prevCased else IsLetter(s[i - 1]), s[i])
    decreases s
  {
    if s != [] {
      TitleFromAt(IsLetter(s[0]), s[1..]);
      assert TitleFrom(prevCased, s) == [TitleChar(prevCased, s[0])] + TitleFrom(IsLetter(s[0]), s[1..]);
    }
  }

  /**
   * Title-casing leaves the length alone, upper-cases every letter that does
   * not follow a letter, lower-cases every letter that does, and keeps every
   * other character.
   */
  lemma TitleCaseAt(s: string)
    ensures |TitleCase(s)| == |s|
    ensures forall i :: 0 <= i < |s| ==>
      TitleCase(s)[i] == TitleChar(AfterLetter(s, i), s[i])
  {
    TitleFromAt(false, s);
    forall i | 0 <= i < |s|
      ensures TitleCase(s)[i] == TitleChar(AfterLetter(s, i), s[i])
    {
      assert TitleCase(s)[i] == TitleChar(if i == 0 then false else IsLetter(s[i - 1]), s[i]);
    }
  }

  // ------------------------------------------------------------------
  // String order
  // ------------------------------------------------------------------

  /** `a < b` on Python strings: lexicographic by code point. */
  predicate Below(a: string, b: string) {
    if a == [] then b != []
    else b != [] && (a[0] < b[0] || (a[0] == b[0] && Below(a[1..], b[1..])))
  }
}
