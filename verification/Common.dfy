/**
  Scanning primitives shared by the block and inline parsers.

  The helper class these come from is not part of this model. Each helper is
  given here the behaviour its name and call sites imply, and the README says
  which of them are assumptions:
  - `IndexOf` / `IndexOfText`: first occurrence in `[from, to)`, else -1; a
    text match must end at or before `to`;
  - `IsWhiteSpace`: space, tab, carriage return and line feed;
  - `FindNextWhiteSpace`: first whitespace in `[from, to)`, else the length of
    the text (or -1);
  - the quote-prefix skipper and the inline-children parser are parameters,
    constrained only by what the callers rely on.
 */
module Common {
  import opened Elements

  datatype Option<+T> = None | Some(value: T)

  /** Whitespace as the cell trimmer and the superscript parser see it. */
  predicate IsWhiteSpace(c: char) {
    c == ' ' || c == '\t' || c == '\r' || c == '\n'
  }

  /** Index of the first `c` in `s[from..to]`, or -1 when there is none. */
  function IndexOf(s: string, c: char, from: nat, to: nat): (r: int)
    requires to <= |s|
    ensures r == -1 || from <= r < to
    ensures r != -1 ==> s[r] == c
    decreases if from < to then to - from else 0
  {
    if from >= to then -1
    else if s[from] == c then from
    else IndexOf(s, c, from + 1, to)
  }

  /** `IndexOf` finds the first `c`, and finds none only when there is none. */
  lemma {:induction false} IndexOfIsFirst(s: string, c: char, from: nat, to: nat)
    requires to <= |s|
    ensures IndexOf(s, c, from, to) != -1 ==> forall i :: from <= i < IndexOf(s, c, from, to) ==> s[i] != c
    ensures IndexOf(s, c, from, to) == -1 <==> (forall i :: from <= i < to ==> s[i] != c)
    decreases if from < to then to - from else 0
  {
    if from < to && s[from] != c {
      IndexOfIsFirst(s, c, from + 1, to);
    }
  }

  /** The first `c` in the range is what `IndexOf` returns. */
  lemma IndexOfFinds(s: string, c: char, from: nat, to: nat, k: nat)
    requires from <= k < to <= |s|
    requires s[k] == c
    requires forall i :: from <= i < k ==> s[i] != c
    ensures IndexOf(s, c, from, to) == k
  {
    IndexOfIsFirst(s, c, from, to);
  }

  /** Searching from `from` or from a later `mid` is the same when `c` does not occur in between. */
  lemma {:induction false} IndexOfSkip(s: string, c: char, from: nat, mid: nat, to: nat)
    requires from <= mid <= to <= |s|
    requires forall i :: from <= i < mid ==> s[i] != c
    ensures IndexOf(s, c, from, to) == IndexOf(s, c, mid, to)
    decreases mid - from
  {
    if from < mid {
      IndexOfSkip(s, c, from + 1, mid, to);
    }
  }

  /** True when `pattern` occurs in `s` at `i` and ends at or before `to`. */
  predicate OccursAt(s: string, pattern: string, i: nat, to: nat)
    requires to <= |s|
  {
    i + |pattern| <= to && s[i..i + |pattern|] == pattern
  }

  /**
    Index of the first occurrence of `pattern` that starts at or after `from`
    and ends at or before `to`, or -1 when there is none.
   */
  function IndexOfText(s: string, pattern: string, from: nat, to: nat): (r: int)
    requires to <= |s|
    ensures r == -1 || (from <= r && OccursAt(s, pattern, r, to))
    decreases if from < to then to - from else 0
  {
    if from + |pattern| > to then -1
    else if s[from..from + |pattern|] == pattern then from
    else IndexOfText(s, pattern, from + 1, to)
  }

  /** `IndexOfText` finds the first occurrence, and finds none only when there is none. */
  lemma {:induction false} IndexOfTextIsFirst(s: string, pattern: string, from: nat, to: nat)
    requires to <= |s|
    ensures IndexOfText(s, pattern, from, to) != -1 ==>
              forall i :: from <= i < IndexOfText(s, pattern, from, to) ==> !OccursAt(s, pattern, i, to)
    ensures IndexOfText(s, pattern, from, to) == -1 <==> (forall i :: from <= i ==> !OccursAt(s, pattern, i, to))
    decreases if from < to then to - from else 0
  {
    if from + |pattern| <= to && s[from..from + |pattern|] != pattern {
      IndexOfTextIsFirst(s, pattern, from + 1, to);
    }
  }

  /**
    Index of the first whitespace character in `s[from..to]`; when there is
    none, the length of `s` if `ifNotFoundReturnLength` is set, else -1.
   */
  function FindNextWhiteSpace(s: string, from: nat, to: nat, ifNotFoundReturnLength: bool): (r: int)
    requires to <= |s|
    ensures from <= r < to ==> IsWhiteSpace(s[r])
    ensures !(from <= r < to) ==> r == (if ifNotFoundReturnLength then |s| else -1)
    decreases if from < to then to - from else 0
  {
    if from >= to then (if ifNotFoundReturnLength then |s| else -1)
    else if IsWhiteSpace(s[from]) then from
    else FindNextWhiteSpace(s, from + 1, to, ifNotFoundReturnLength)
  }

  /**
    `FindNextWhiteSpace` finds the first whitespace character, and reports
    none only when the range holds none.
   */
  lemma {:induction false} FindNextWhiteSpaceIsFirst(s: string, from: nat, to: nat, ifNotFoundReturnLength: bool)
    requires to <= |s|
    ensures var r := FindNextWhiteSpace(s, from, to, ifNotFoundReturnLength);
            && ((from <= r < to) ==> forall i :: from <= i < r ==> !IsWhiteSpace(s[i]))
            && (!(from <= r < to) <==> (forall i :: from <= i < to ==> !IsWhiteSpace(s[i])))
    decreases if from < to then to - from else 0
  {
    if from < to && !IsWhiteSpace(s[from]) {
      FindNextWhiteSpaceIsFirst(s, from + 1, to, ifNotFoundReturnLength);
    }
  }

  /**
    The quote-prefix skipper: given the text, a start, a window end and the
    quote depth, where the line's content begins. It never moves backwards
    and never moves past the end of the window; on an empty or inverted
    window it stays where it is.
   */
  type QuoteSkipper = skip: (string, nat, nat, nat) -> nat
    | forall md: string, start: nat, end: nat, depth: nat :: start <= skip(md, start, end, depth) <= (if start <= end then end else start)
    witness StayPut

  /** A skipper that skips nothing, as on a line outside any quote. */
  function StayPut(md: string, start: nat, end: nat, depth: nat): nat {
    start
  }

  /** The inline-sequence parser applied to a range `[start, end)` of the text. */
  type InlineChildParser = (string, nat, nat) -> seq<Inline>

  /** A matched inline element and the range `[start, end)` it consumed. */
  datatype InlineParseResult = InlineParseResult(parsedElement: Inline, start: nat, end: nat)

  /** The parser an inline trigger character dispatches to. */
  datatype InlineParseMethod = Code | Superscript

  /** One entry of the trigger-character table. */
  datatype InlineTripCharHelper = InlineTripCharHelper(firstChar: char, parseMethod: InlineParseMethod)

  /** The caller-owned list that the inline parsers register their triggers in. */
  class TripCharList {
    var Items: seq<InlineTripCharHelper>

    constructor ()
      ensures Items == []
    {
      Items := [];
    }

    method Add(helper: InlineTripCharHelper)
      modifies this
      ensures Items == old(Items) + [helper]
    {
      Items := Items + [helper];
    }
  }
}
