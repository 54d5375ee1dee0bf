/**
  Inline code spans: text between backticks, shown in a fixed-width font.

  A span opens with one backtick and closes at the next one, or -- when it
  opens with two -- closes at the next pair, so that a single backtick can
  appear inside. The captured text loses the spaces, tabs and line breaks
  at its ends.
 */
module CodeInlines {
  import opened Common
  import opened Elements

  /** The characters trimmed from both ends of a code span's text. */
  predicate IsCodeTrimChar(c: char) {
    c == ' ' || c == '\t' || c == '\r' || c == '\n'
  }

  /** The first index at or after `i` that does not hold a trim character, or `|s|`. */
  function FirstKept(s: string, i: nat): (k: nat)
    requires i <= |s|
    ensures i <= k <= |s|
    ensures k < |s| ==> !IsCodeTrimChar(s[k])
    decreases |s| - i
  {
    if i < |s| && IsCodeTrimChar(s[i]) then FirstKept(s, i + 1) else i
  }

  /** One past the last index before `j` and from `i` on that does not hold a trim character, or `i`. */
  function LastKept(s: string, i: nat, j: nat): (k: nat)
    requires i <= j <= |s|
    ensures i <= k <= j
    ensures i < k ==> !IsCodeTrimChar(s[k - 1])
    decreases j - i
  {
    if i < j && IsCodeTrimChar(s[j - 1]) then LastKept(s, i, j - 1) else j
  }

  /** `s` without the trim characters at either end. */
  function TrimCode(s: string): (t: string)
    ensures |t| > 0 ==> !IsCodeTrimChar(t[0]) && !IsCodeTrimChar(t[|t| - 1])
  {
    var i := FirstKept(s, 0);
    s[i..LastKept(s, i, |s|)]
  }

  /** True when `s` neither starts nor ends with a trim character. */
  predicate IsTrimmedCode(s: string) {
    |s| > 0 ==> !IsCodeTrimChar(s[0]) && !IsCodeTrimChar(s[|s| - 1])
  }

  /** Only trim characters are skipped at the start. */
  lemma {:induction false} FirstKeptSkipsTrimChars(s: string, i: nat)
    requires i <= |s|
    ensures forall k :: i <= k < FirstKept(s, i) ==> IsCodeTrimChar(s[k])
    decreases |s| - i
  {
    if i < |s| && IsCodeTrimChar(s[i]) {
      FirstKeptSkipsTrimChars(s, i + 1);
    }
  }

  /** Only trim characters are skipped at the end. */
  lemma {:induction false} LastKeptSkipsTrimChars(s: string, i: nat, j: nat)
    requires i <= j <= |s|
    ensures forall k :: LastKept(s, i, j) <= k < j ==> IsCodeTrimChar(s[k])
    decreases j - i
  {
    if i < j && IsCodeTrimChar(s[j - 1]) {
      LastKeptSkipsTrimChars(s, i, j - 1);
    }
  }

  /**
    Trimming keeps the middle of the text: the result is `s[i..j]`, and
    everything outside it is a trim character.
   */
  lemma TrimCodeKeepsMiddle(s: string)
    ensures var i := FirstKept(s, 0);
            var j := LastKept(s, i, |s|);
            && TrimCode(s) == s[i..j]
            && (forall k :: 0 <= k < i ==> IsCodeTrimChar(s[k]))
            && (forall k :: j <= k < |s| ==> IsCodeTrimChar(s[k]))
  {
    var i := FirstKept(s, 0);
    FirstKeptSkipsTrimChars(s, 0);
    LastKeptSkipsTrimChars(s, i, |s|);
  }

  /** Text already trimmed is left as it is, so trimming twice is trimming once. */
  lemma TrimCodeIdempotent(s: string)
    ensures IsTrimmedCode(s) ==> TrimCode(s) == s
    ensures TrimCode(TrimCode(s)) == TrimCode(s)
  {
    var t := TrimCode(s);
    assert FirstKept(t, 0) == 0;
    assert LastKept(t, 0, |t|) == |t|;
    assert t[0..|t|] == t;
    if IsTrimmedCode(s) {
      assert FirstKept(s, 0) == 0;
      assert LastKept(s, 0, |s|) == |s|;
      assert s[0..|s|] == s;
    }
  }

  /**
    Attempts to parse a code span at `start`; `None` when there is none.
    Two opening backticks select the double form, which closes at the next
    "``" that ends inside the window; otherwise the span closes at the next
    backtick. The span must hold at least one character.
   */
  function Parse(markdown: string, start: nat, maxEnd: nat): (r: Option<InlineParseResult>)
    requires start <= maxEnd <= |markdown|
    ensures r.Some? ==> r.value.start == start < r.value.end <= maxEnd
    ensures r.Some? ==> r.value.parsedElement.Code? && IsTrimmedCode(r.value.parsedElement.text)
  {
    if start == maxEnd || markdown[start] != '`' then None
    else if start + 1 < maxEnd && markdown[start + 1] == '`' then
      // The double-backtick form.
      var innerStart := start + 2;
      var innerEnd := IndexOfText(markdown, "``", innerStart, maxEnd);
      if innerEnd == -1 || innerStart == innerEnd then None
      else Some(InlineParseResult(Inline.Code(TrimCode(markdown[innerStart..innerEnd])), start, innerEnd + 2))
    else
      // The single-backtick form.
      var innerStart := start + 1;
      var innerEnd := IndexOf(markdown, '`', innerStart, maxEnd);
      if innerEnd == -1 || innerStart == innerEnd then None
      else Some(InlineParseResult(Inline.Code(TrimCode(markdown[innerStart..innerEnd])), start, innerEnd + 1))
  }

  /** The text of a code span as Markdown. */
  function ToString(text: string): (md: string)
    ensures |md| == |text| + 2 && md[0] == '`' && md[|md| - 1] == '`'
    ensures md[1..|md| - 1] == text
  {
    "`" + text + "`"
  }

  /** Registers the backtick as the trigger of the code-span parser. */
  method AddTripChars(tripCharHelpers: TripCharList)
    modifies tripCharHelpers
    ensures tripCharHelpers.Items == old(tripCharHelpers.Items) + [InlineTripCharHelper('`', InlineParseMethod.Code)]
  {
    tripCharHelpers.Add(InlineTripCharHelper('`', InlineParseMethod.Code));
  }

  // ---------------------------------------------------------------------
  // Facts about code spans

  /**
    No span starts anywhere but at a backtick inside the window.
   */
  lemma NoSpanWithoutBacktick(markdown: string, start: nat, maxEnd: nat)
    requires start <= maxEnd <= |markdown|
    ensures start == maxEnd || markdown[start] != '`' ==> Parse(markdown, start, maxEnd) == None
  {
  }

  /**
    The single form: after one opening backtick, the span closes at the
    first backtick `k` after it, and the span is taken exactly when that
    backtick lies inside the window and is not the very next character.
    Its text holds no backtick.
   */
  lemma SingleBacktickSpan(markdown: string, start: nat, maxEnd: nat)
    requires start < maxEnd <= |markdown|
    requires markdown[start] == '`'
    requires start + 1 == maxEnd || markdown[start + 1] != '`'
    ensures var k := IndexOf(markdown, '`', start + 1, maxEnd);
            && (Parse(markdown, start, maxEnd).Some? <==> k != -1)
            && (k != -1 ==>
                  && start + 1 < k
                  && Parse(markdown, start, maxEnd) == Some(InlineParseResult(Inline.Code(TrimCode(markdown[start + 1..k])), start, k + 1))
                  && forall i :: start < i < k ==> markdown[i] != '`')
  {
    IndexOfIsFirst(markdown, '`', start + 1, maxEnd);
  }

  /**
    The double form: after two opening backticks, the span closes at the
    first "``" that starts at or after `start + 2` and ends inside the
    window, and is taken exactly when there is one that does not start
    right away.
   */
  lemma DoubleBacktickSpan(markdown: string, start: nat, maxEnd: nat)
    requires start + 1 < maxEnd <= |markdown|
    requires markdown[start] == '`' && markdown[start + 1] == '`'
    ensures var k := IndexOfText(markdown, "``", start + 2, maxEnd);
            && (Parse(markdown, start, maxEnd).Some? <==> k != -1 && k != start + 2)
            && (k != -1 && k != start + 2 ==>
                  Parse(markdown, start, maxEnd) == Some(InlineParseResult(Inline.Code(TrimCode(markdown[start + 2..k])), start, k + 2)))
  {
  }

  /**
    Rendering and parsing agree: a text with no backtick, not empty and
    not starting or ending with a trim character, parses back from its
    rendering as the same code span, covering all of it.
   */
  lemma RoundTrip(text: string)
    requires |text| > 0 && IsTrimmedCode(text)
    requires forall i :: 0 <= i < |text| ==> text[i] != '`'
    ensures var md := ToString(text);
            Parse(md, 0, |md|) == Some(InlineParseResult(Inline.Code(text), 0, |md|))
  {
    var md := ToString(text);
    forall i | 1 <= i < |md| - 1
      ensures md[i] != '`'
    {
      assert md[i] == text[i - 1];
    }
    assert md[0] == '`' && md[|md| - 1] == '`';
    IndexOfFinds(md, '`', 1, |md|, |md| - 1);
    SingleBacktickSpan(md, 0, |md|);
    assert md[1..|md| - 1] == text;
    TrimCodeIdempotent(text);
  }

  /** "`a`" is a code span with text "a". */
  lemma SingleExample(md: string)
    requires md == "`a`"
    ensures Parse(md, 0, |md|) == Some(InlineParseResult(Inline.Code("a"), 0, 3))
  {
    assert md == ToString("a");
    RoundTrip("a");
  }

  /** In "``a`b``" the first closing pair starts at 5. */
  lemma DoubleExampleCloser(md: string)
    requires md == "``a`b``"
    ensures IndexOfText(md, "``", 2, 7) == 5
  {
    assert md[2] == 'a' && md[3] == '`' && md[4] == 'b' && md[5] == '`' && md[6] == '`';
    assert md[5..7] == "``";
    assert IndexOfText(md, "``", 5, 7) == 5;
    assert md[4..6] != "``";
    assert IndexOfText(md, "``", 4, 7) == 5;
    assert md[3..5] != "``";
    assert IndexOfText(md, "``", 3, 7) == 5;
    assert md[2..4] != "``";
  }

  /** "``a`b``" is a code span with text "a`b": one backtick may appear inside the double form. */
  lemma DoubleExample(md: string)
    requires md == "``a`b``"
    ensures Parse(md, 0, |md|) == Some(InlineParseResult(Inline.Code("a`b"), 0, 7))
  {
    DoubleExampleCloser(md);
    DoubleBacktickSpan(md, 0, 7);
    assert md[2..5] == "a`b";
    TrimCodeIdempotent("a`b");
  }

  /** "``" alone is no code span: it holds no character. */
  lemma EmptyExample(md: string)
    requires md == "``"
    ensures Parse(md, 0, |md|) == None
  {
  }

  /** A span holding only spaces is taken, and its text trims to nothing: "` `" gives "". */
  lemma BlankExample(md: string)
    requires md == "` `"
    ensures Parse(md, 0, |md|) == Some(InlineParseResult(Inline.Code(""), 0, 3))
  {
    assert IndexOf(md, '`', 1, 3) == 2;
    assert md[1..2] == " ";
  }
}
