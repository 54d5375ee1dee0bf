/**
  Superscript spans: a caret followed either by a parenthesised run of
  inline elements, "^(...)", or by a bare word, "^word", that runs to the
  next whitespace character.

  The inline elements inside are parsed by the inline-sequence parser, which
  is not part of this model: it is the parameter `parseChildren`.
 */
module SuperscriptInlines {
  import opened Common
  import opened Elements

  /**
    Attempts to parse a superscript span at `start`; `None` when there is
    none. After "^(" the span runs to the first ')' inside the window; a
    missing ')' means no span. Otherwise the span is the bare word after the
    caret, up to the next whitespace character -- and when the window holds
    none, up to the end of the whole text; a whitespace character right
    after the caret means no span.
   */
  function Parse(markdown: string, start: nat, maxEnd: nat, parseChildren: InlineChildParser): (r: Option<InlineParseResult>)
    requires start <= maxEnd <= |markdown|
    ensures r.Some? ==> r.value.start == start < r.value.end <= |markdown|
    ensures r.Some? ==> r.value.parsedElement.Superscript?
  {
    if start == maxEnd || markdown[start] != '^' then None
    else if start + 1 < maxEnd && markdown[start + 1] == '(' then
      // The parenthesised form.
      var innerStart := start + 2;
      var innerEnd := IndexOf(markdown, ')', innerStart, maxEnd);
      if innerEnd == -1 then None
      else Some(InlineParseResult(Inline.Superscript(parseChildren(markdown, innerStart, innerEnd)), start, innerEnd + 1))
    else
      // The bare form.
      var innerStart := start + 1;
      var innerEnd := FindNextWhiteSpace(markdown, innerStart, maxEnd, true);
      if innerEnd == innerStart then None
      else Some(InlineParseResult(Inline.Superscript(parseChildren(markdown, innerStart, innerEnd)), start, innerEnd))
  }

  /** The rendered children, one after the other. */
  function Join(inlines: seq<Inline>, render: Inline -> string): string {
    if |inlines| == 0 then "" else Join(inlines[..|inlines| - 1], render) + render(inlines[|inlines| - 1])
  }

  /**
    A superscript span as Markdown: always the parenthesised form, whichever
    form it was parsed from. `render` gives the text of each child.
   */
  function ToString(inlines: seq<Inline>, render: Inline -> string): (md: string)
    ensures |md| >= 3 && md[..2] == "^(" && md[|md| - 1] == ')'
    ensures md[2..|md| - 1] == Join(inlines, render)
  {
    "^(" + Join(inlines, render) + ")"
  }

  /** Registers the caret as the trigger of the superscript parser. */
  method AddTripChars(tripCharHelpers: TripCharList)
    modifies tripCharHelpers
    ensures tripCharHelpers.Items == old(tripCharHelpers.Items) + [InlineTripCharHelper('^', InlineParseMethod.Superscript)]
  {
    tripCharHelpers.Add(InlineTripCharHelper('^', InlineParseMethod.Superscript));
  }

  // ---------------------------------------------------------------------
  // Facts about superscript spans

  /** No span starts anywhere but at a caret inside the window. */
  lemma NoSpanWithoutCaret(markdown: string, start: nat, maxEnd: nat, parseChildren: InlineChildParser)
    requires start <= maxEnd <= |markdown|
    ensures start == maxEnd || markdown[start] != '^' ==> Parse(markdown, start, maxEnd, parseChildren) == None
  {
  }

  /**
    The parenthesised form: the span is taken exactly when a ')' follows
    inside the window; its children are parsed from between "^(" and the
    first such ')', which it consumes, so that range holds no ')' -- nested
    parentheses close early -- and may be empty.
   */
  lemma ParenthesisedForm(markdown: string, start: nat, maxEnd: nat, parseChildren: InlineChildParser)
    requires start + 1 < maxEnd <= |markdown|
    requires markdown[start] == '^' && markdown[start + 1] == '('
    ensures var k := IndexOf(markdown, ')', start + 2, maxEnd);
            && (Parse(markdown, start, maxEnd, parseChildren).Some? <==> k != -1)
            && (k != -1 ==>
                  && k < maxEnd
                  && Parse(markdown, start, maxEnd, parseChildren) ==
                       Some(InlineParseResult(Inline.Superscript(parseChildren(markdown, start + 2, k)), start, k + 1))
                  && forall i :: start + 2 <= i < k ==> markdown[i] != ')')
  {
    IndexOfIsFirst(markdown, ')', start + 2, maxEnd);
  }

  /**
    The bare form: the span is taken exactly when the caret is not
    followed by whitespace (nor, at the end of the window, by the end of the
    text); its children are parsed from after the caret to the next
    whitespace character, which is not consumed, and hold no whitespace
    inside the window.
   */
  lemma BareForm(markdown: string, start: nat, maxEnd: nat, parseChildren: InlineChildParser)
    requires start < maxEnd <= |markdown|
    requires markdown[start] == '^'
    requires start + 1 == maxEnd || markdown[start + 1] != '('
    ensures var w := FindNextWhiteSpace(markdown, start + 1, maxEnd, true);
            && (start + 1 < maxEnd ==> (Parse(markdown, start, maxEnd, parseChildren) == None <==> IsWhiteSpace(markdown[start + 1])))
            && (start + 1 == maxEnd ==> (Parse(markdown, start, maxEnd, parseChildren) == None <==> |markdown| == maxEnd))
            && (w != start + 1 ==>
                  && Parse(markdown, start, maxEnd, parseChildren) ==
                       Some(InlineParseResult(Inline.Superscript(parseChildren(markdown, start + 1, w)), start, w))
                  && (w < maxEnd ==> IsWhiteSpace(markdown[w]))
                  && forall i :: start + 1 <= i < w && i < maxEnd ==> !IsWhiteSpace(markdown[i]))
  {
    FindNextWhiteSpaceIsFirst(markdown, start + 1, maxEnd, true);
  }

  /**
    A bare word that reaches the end of the window is not cut there: the
    span runs on to the end of the whole text, past the window.
   */
  lemma BareFormRunsPastWindow(markdown: string, start: nat, maxEnd: nat, parseChildren: InlineChildParser)
    requires start < maxEnd <= |markdown|
    requires markdown[start] == '^'
    requires start + 1 == maxEnd || markdown[start + 1] != '('
    requires forall i :: start + 1 <= i < maxEnd ==> !IsWhiteSpace(markdown[i])
    requires start + 1 < |markdown|
    ensures Parse(markdown, start, maxEnd, parseChildren) ==
              Some(InlineParseResult(Inline.Superscript(parseChildren(markdown, start + 1, |markdown|)), start, |markdown|))
  {
    FindNextWhiteSpaceIsFirst(markdown, start + 1, maxEnd, true);
  }

  /** With the window "^a" of the text "^ab", the span ends at 3, past the window's end 2. */
  lemma PastWindowExample(md: string, parseChildren: InlineChildParser)
    requires md == "^ab"
    ensures Parse(md, 0, 2, parseChildren) == Some(InlineParseResult(Inline.Superscript(parseChildren(md, 1, 3)), 0, 3))
  {
    BareFormRunsPastWindow(md, 0, 2, parseChildren);
  }

  /**
    Rendering and parsing agree: when the rendered children hold no ')',
    the rendering parses back as one parenthesised span covering all of it,
    whose children are parsed from exactly the rendered children.
   */
  lemma RoundTrip(inlines: seq<Inline>, render: Inline -> string, parseChildren: InlineChildParser)
    requires forall i :: 0 <= i < |Join(inlines, render)| ==> Join(inlines, render)[i] != ')'
    ensures var md := ToString(inlines, render);
            && md[2..|md| - 1] == Join(inlines, render)
            && Parse(md, 0, |md|, parseChildren) ==
                 Some(InlineParseResult(Inline.Superscript(parseChildren(md, 2, |md| - 1)), 0, |md|))
  {
    var c := Join(inlines, render);
    var md := ToString(inlines, render);
    forall i | 2 <= i < |md| - 1
      ensures md[i] != ')'
    {
      assert md[i] == c[i - 2];
    }
    assert md[|md| - 1] == ')';
    IndexOfFinds(md, ')', 2, |md|, |md| - 1);
  }

  /** "^(a b)" is one span whose children are parsed from "a b". */
  lemma ParenthesisedExample(md: string, parseChildren: InlineChildParser)
    requires md == "^(a b)"
    ensures Parse(md, 0, |md|, parseChildren) == Some(InlineParseResult(Inline.Superscript(parseChildren(md, 2, 5)), 0, 6))
  {
    assert IndexOf(md, ')', 2, 6) == 5;
  }

  /** "^word rest" is a span over "word" that stops before the space. */
  lemma BareExample(md: string, parseChildren: InlineChildParser)
    requires md == "^word rest"
    ensures Parse(md, 0, |md|, parseChildren) == Some(InlineParseResult(Inline.Superscript(parseChildren(md, 1, 5)), 0, 5))
  {
    assert FindNextWhiteSpace(md, 1, 10, true) == 5;
  }

  /** "^ x" is no span: a space follows the caret. */
  lemma SpaceAfterCaretExample(md: string, parseChildren: InlineChildParser)
    requires md == "^ x"
    ensures Parse(md, 0, |md|, parseChildren) == None
  {
  }

  /** "^()" is a span with an empty range of children. */
  lemma EmptyParenthesesExample(md: string, parseChildren: InlineChildParser)
    requires md == "^()"
    ensures Parse(md, 0, |md|, parseChildren) == Some(InlineParseResult(Inline.Superscript(parseChildren(md, 2, 2)), 0, 3))
  {
  }

  /** In "^((a))" the first ')' closes the span: its children come from "(a", and the last ')' is left over. */
  lemma NestedParenthesesExample(md: string, parseChildren: InlineChildParser)
    requires md == "^((a))"
    ensures Parse(md, 0, |md|, parseChildren) == Some(InlineParseResult(Inline.Superscript(parseChildren(md, 2, 4)), 0, 5))
  {
    assert IndexOf(md, ')', 2, 6) == 4;
  }
}
