/** What stands behind "<!", "<?" and "</": which declarations are doctypes or CDATA sections, and where they end. */
module HtmlDeclarations {
  import opened Utf8
  import opened HtmlTokens
  import opened HtmlAttributes
  import opened HtmlNames
  import opened HtmlRoundTrip

  /** The data goes from here up to the next ">", which is read, too, or up to the end of the input. */
  ghost predicate UpToAngle(s: Bytes, from: int, l: Look) {
    && 0 <= l.data.start == from <= l.data.end <= |s|
    && (forall k :: from <= k < l.data.end ==> s[k] != '>' as int)
    && if l.data.end == |s| then l.end == |s| && l.err
       else s[l.data.end] == '>' as int && l.end == l.data.end + 1 && !l.err
  }

  lemma AngleIsFound(s: Bytes, l: Look)
    requires Inside(s, l) && !l.err
    ensures UpToAngle(s, l.end, UntilAngle(s, l))
  {
  }

  /** A word of small letters stands at q, in either case. */
  ghost predicate WordAt(s: Bytes, q: nat, word: Bytes) {
    q + |word| <= |s| && LowerAll(s[q..q + |word|]) == word
  }

  /** The input ends in the middle of the word. */
  ghost predicate WordCut(s: Bytes, q: nat, word: Bytes) {
    q <= |s| < q + |word| && LowerAll(s[q..]) == word[..|s| - q]
  }

  lemma MatchedIs(s: Bytes, q: nat, word: Bytes)
    requires q <= |s| && forall k :: 0 <= k < |word| ==> 0x61 <= word[k] <= 0x7A
    ensures Matched(s, q, word) == |word| <==> WordAt(s, q, word)
    ensures Matched(s, q, word) < |word| && q + Matched(s, q, word) == |s| <==> WordCut(s, q, word)
  {
    var k := Matched(s, q, word);
    if k < |word| && q + k < |s| {
      if q + |word| <= |s| {
        assert LowerAll(s[q..q + |word|])[k] == Lower(s[q + k]);
      } else {
        assert LowerAll(s[q..])[k] == Lower(s[q + k]);
      }
    }
    if k == |word| {
      assert LowerAll(s[q..q + |word|]) == word;
    } else if q + k == |s| {
      assert LowerAll(s[q..]) == word[..|s| - q];
    }
  }

  lemma SameIs(s: Bytes, q: nat, word: Bytes)
    requires q <= |s|
    ensures Same(s, q, word) == |word| <==> At(s, q, word)
    ensures Same(s, q, word) < |word| && q + Same(s, q, word) == |s| <==> |s| < q + |word| && s[q..] <= word
  {
    var k := Same(s, q, word);
    if k < |word| && q + k < |s| {
      if q + |word| <= |s| {
        assert s[q..q + |word|][k] == s[q + k];
      } else {
        assert s[q..][k] == s[q + k];
      }
    }
    if k == |word| {
      assert s[q..q + |word|] == word;
    } else if q + k == |s| {
      assert s[q..] == word[..|s| - q];
    }
  }

  // ----- CDATA sections -----

  /** "]]>" */
  predicate ClosesAt(s: Bytes, k: nat) {
    k + 3 <= |s| && s[k] == ']' as int && s[k + 1] == ']' as int && s[k + 2] == '>' as int
  }

  /** The body of a section that starts at b ends in front of the first "]]>", or with the input. */
  ghost predicate SectionEnds(s: Bytes, b: nat, from: nat, data: int, end: int, err: bool) {
    && b <= data && (forall k: nat :: from <= k < data ==> !ClosesAt(s, k))
    && if err then data == end == |s| else ClosesAt(s, data) && end == data + 3
  }

  /** The brackets counted at q stand directly in front of it. */
  ghost predicate Bracketed(s: Bytes, b: nat, q: nat, n: nat) {
    && b + n <= q <= |s| && (forall k :: q - n <= k < q ==> s[k] == ']' as int)
    && (b + n < q ==> s[q - n - 1] != ']' as int)
  }

  lemma {:induction false} CdataIsFirst(s: Bytes, b: nat, q: nat, n: nat)
    requires Bracketed(s, b, q, n)
    ensures var (data, end, err) := CdataBody(s, q, n);
      SectionEnds(s, b, if n <= 2 then q - n else q - 2, data, end, err)
    decreases |s| - q
  {
    if q < |s| && !(s[q] == GT && n >= 2) {
      CdataIsFirst(s, b, q + 1, if s[q] == BRACKET then n + 1 else 0);
    }
  }

  // ----- declarations -----

  ghost predicate SaysDoctype(s: Bytes, q: nat) {
    WordAt(s, q, Ascii("doctype"))
  }

  ghost predicate SaysCdata(s: Bytes, q: nat) {
    At(s, q, Ascii("[CDATA["))
  }

  ghost predicate CutDoctype(s: Bytes, q: nat) {
    WordCut(s, q, Ascii("doctype"))
  }

  ghost predicate CutCdata(s: Bytes, q: nat) {
    q <= |s| < q + 7 && s[q..] <= Ascii("[CDATA[")
  }

  /** The data of a doctype: what stands behind the word and white space, up to ">". */
  ghost predicate DoctypeIs(s: Bytes, q: nat, l: Look) {
    && q + 7 <= l.data.start <= |s| && (forall k :: q + 7 <= k < l.data.start ==> s[k] in SPACES)
    && (l.data.start < |s| ==> s[l.data.start] !in SPACES) && UpToAngle(s, l.data.start, l)
  }

  lemma DoctypeMeans(s: Bytes, l: Look)
    requires Inside(s, l) && !l.err && l.data.start == l.end
    ensures var q, r := l.end, Doctype(s, l);
      && (r.0 <==> SaysDoctype(s, q)) && (r.0 ==> DoctypeIs(s, q, r.1))
      && (!r.0 && CutDoctype(s, q) ==> r.1.end == |s| && r.1.err)
      && (!r.0 && !CutDoctype(s, q) ==> r.1 == l)
  {
    hide WordAt, WordCut, UpToAngle, UntilAngle, Matched;
    DoctypeLetters();
    MatchedIs(s, l.end, DOCTYPE);
    if Matched(s, l.end, DOCTYPE) == 7 {
      var q := Skip(s, l.end + 7);
      if q < |s| {
        AngleIsFound(s, l.(end := q));
      } else {
        NothingLeft(s, l);
      }
    }
  }

  lemma DoctypeLetters()
    ensures DOCTYPE == Ascii("doctype") && |DOCTYPE| == 7
    ensures forall k :: 0 <= k < |DOCTYPE| ==> 0x61 <= DOCTYPE[k] <= 0x7A
  {
  }

  lemma NothingLeft(s: Bytes, l: Look)
    ensures UpToAngle(s, |s|, l.(data := Span(|s|, |s|), end := |s|, err := true))
  {
  }

  /** A section's data goes up to the first "]]>", or to the end of the input. */
  ghost predicate SectionIs(s: Bytes, q: nat, l: Look) {
    l.data.start == q + 7 && SectionEnds(s, q + 7, q + 7, l.data.end, l.end, l.err)
  }

  lemma CdataMeans(s: Bytes, l: Look)
    requires Inside(s, l) && !l.err && l.data.start == l.end
    ensures var q, r := l.end, CdataSection(s, l);
      && (r.0 <==> SaysCdata(s, q)) && (r.0 ==> SectionIs(s, q, r.1))
      && (!r.0 && CutCdata(s, q) ==> r.1.end == |s| && r.1.err)
      && (!r.0 && !CutCdata(s, q) ==> r.1 == l)
  {
    hide At, SectionEnds, CdataBody, Same;
    CdataLetters();
    SameIs(s, l.end, CDATA);
    if Same(s, l.end, CDATA) == 7 {
      CdataIsFirst(s, l.end + 7, l.end + 7, 0);
    }
  }

  lemma CdataLetters()
    ensures CDATA == Ascii("[CDATA[") && |CDATA| == 7
  {
  }

  /** A declaration that is read as a comment. */
  ghost predicate CommentIs(s: Bytes, q: nat, r: State) {
    r.tt == CommentToken && UpToAngle(s, q, r.look)
  }

  /**
   * A declaration that does not begin with two dashes is a doctype exactly if it begins with the word, in either case;
   * a CDATA section if it begins with "[CDATA[", as it stands, where sections are allowed; and a comment otherwise. If
   * the input ends within the word or the bracket, nothing of them is data.
   */
  lemma DeclarationIs(s: Bytes, st: State, p: nat)
    requires ReadyAt(s, st, p) && p + 4 <= |s| && s[p] == '<' as int && s[p + 1] == '!' as int
    requires !(s[p + 2] == '-' as int && s[p + 3] == '-' as int)
    ensures var q, r := p + 2, Next(s, st);
      && (r.tt == DoctypeToken <==> SaysDoctype(s, q)) && (SaysDoctype(s, q) ==> DoctypeIs(s, q, r.look))
      && (r.tt == TextToken <==> st.allowCDATA && SaysCdata(s, q))
      && (r.tt == TextToken ==> SectionIs(s, q, r.look) && r.convertNUL && !r.textIsRaw)
      && (CutDoctype(s, q) || (st.allowCDATA && CutCdata(s, q)) ==> CommentIs(s, |s|, r))
      && (r.tt == CommentToken && !CutDoctype(s, q) && !(st.allowCDATA && CutCdata(s, q)) ==> CommentIs(s, q, r))
  {
    hide Next, Doctype, CdataSection, UntilAngle, UpToAngle, DoctypeIs, SectionIs, SaysDoctype, SaysCdata, CutDoctype,
         CutCdata;
    var l := st.look.(start := p, end := p + 2, data := Span(p, p));
    NextDeclares(s, st, p);
    var l0 := l.(data := Span(p + 2, p));
    assert Markup(s, l, st.allowCDATA) == Declaration(s, l0, st.allowCDATA);
    Apart(s, p + 2);
    DoctypeMeans(s, l0);
    var (isDoctype, l1) := Doctype(s, l0);
    if !isDoctype {
      if l1.err {
        AtTheEnd(s, l1);
      } else if st.allowCDATA {
        CdataMeans(s, l0);
        var (isCdata, l2) := CdataSection(s, l0);
        if !isCdata {
          if l2.err {
            EndFound(s, l2);
          } else {
            AngleIsFound(s, l2);
          }
        }
      } else {
        AngleIsFound(s, l1);
      }
    }
  }

  lemma EndFound(s: Bytes, l: Look)
    requires Inside(s, l) && l.end == |s|
    ensures UpToAngle(s, |s|, UntilAngle(s, l))
  {
  }

  lemma AtTheEnd(s: Bytes, l: Look)
    requires Inside(s, l) && l.end == |s| && l.err
    ensures UpToAngle(s, |s|, UntilAngle(s, l))
    ensures !CdataSection(s, l).0 && UpToAngle(s, |s|, UntilAngle(s, CdataSection(s, l).1))
  {
  }

  /** No text says two of these. */
  lemma Apart(s: Bytes, q: nat)
    requires q < |s|
    ensures SaysDoctype(s, q) || CutDoctype(s, q) ==> !SaysCdata(s, q) && !CutCdata(s, q)
    ensures !(SaysDoctype(s, q) && CutDoctype(s, q)) && !(SaysCdata(s, q) && CutCdata(s, q))
  {
    hide LowerAll;
    if SaysDoctype(s, q) {
      assert LowerAll(s[q..q + 7])[0] == Lower(s[q]);
    } else if CutDoctype(s, q) {
      assert LowerAll(s[q..])[0] == Lower(s[q]);
    }
  }

  /** "<!" at the end of the input, or with one byte behind it, is a comment of what is left. */
  lemma DeclarationCut(s: Bytes, st: State, p: nat)
    requires ReadyAt(s, st, p) && p + 2 <= |s| < p + 4 && s[p] == '<' as int && s[p + 1] == '!' as int
    ensures var r := Next(s, st);
      r.tt == CommentToken && r.look.data == Span(p + 2, |s|) && r.look.end == |s| && r.look.err
  {
    hide Next;
    NextDeclares(s, st, p);
  }

  /** A comment that is no declaration, behind "<?" or behind "</" and neither a letter nor ">", goes up to ">". */
  lemma BogusIs(s: Bytes, st: State, p: nat)
    requires ReadyAt(s, st, p) && p + 1 < |s| && s[p] == '<' as int
    ensures s[p + 1] == '?' as int ==> CommentIs(s, p + 1, Next(s, st))
    ensures s[p + 1] == '/' as int && p + 2 < |s| && !IsLetter(s[p + 2]) && s[p + 2] != '>' as int ==>
      CommentIs(s, p + 2, Next(s, st))
  {
    hide Next, Tag, StartTag, Markup, UntilAngle, UpToAngle, WellFormed;
    if s[p + 1] == QUESTION {
      NextOpens(s, st);
      AngleIsFound(s, st.look.(start := p, end := p + 1, data := Span(p, p)));
    } else if s[p + 1] == SLASH && p + 2 < |s| && !IsLetter(s[p + 2]) && s[p + 2] != GT {
      NextOpens(s, st);
      AngleIsFound(s, st.look.(start := p, end := p + 2, data := Span(p, p)));
    }
  }
}
