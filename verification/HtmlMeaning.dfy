/** Where raw text, scripts, comments and plain text end, said without the state machines that find it. */
module HtmlMeaning {
  import opened Utf8
  import opened HtmlTokens

  predicate Letter(c: Byte, w: Byte) {
    Lower(c) == w || c == w
  }

  /** An end tag of the element begins at e. */
  ghost predicate EndTagAt(s: Bytes, e: int, tag: Bytes) {
    && 0 <= e && e + 2 + |tag| < |s| && s[e] == LT && s[e + 1] == SLASH
    && (forall i :: e + 2 <= i < e + 2 + |tag| ==> Letter(s[i], tag[i - e - 2]))
    && s[e + 2 + |tag|] in NAME_STOPS
  }

  lemma RawEndTagFinds(s: Bytes, p: nat, tag: Bytes)
    requires 2 <= p <= |s| && s[p - 2] == LT && s[p - 1] == SLASH
    ensures RawEndTag(s, p, tag).yes <==> EndTagAt(s, p - 2, tag)
  {
    hide Matched;
    var k := Matched(s, p, tag);
    assert k == |tag| || p + k == |s| || !Letter(s[p + k], tag[k]);
    forall i | p <= i < p + k ensures Letter(s[i], tag[i - p]) {
      assert s[i] == s[p + (i - p)];
    }
  }

  /** Raw text ends at the end of the input or in front of an end tag of its element. */
  lemma {:induction false} RawTextEnds(s: Bytes, p: nat, tag: Bytes)
    requires p <= |s|
    ensures var (e, err) := RawText(s, p, tag); if err then e == |s| else p <= e && EndTagAt(s, e, tag)
    decreases |s| - p
  {
    hide EndTagAt, RawEndTag;
    var o := TagOpen(s, p);
    if !o.err && !o.yes {
      RawTextEnds(s, o.end, tag);
    } else if o.yes {
      RawEndTagFinds(s, o.end, tag);
      var f := RawEndTag(s, o.end, tag);
      if !f.yes && !f.err {
        RawTextEnds(s, f.end, tag);
      }
    }
  }

  // ----- which end tag closes raw text -----

  /** How many "<" stand directly in front of e, from p on. */
  function Run(s: Bytes, p: nat, e: nat): (n: nat)
    requires p <= e <= |s|
    ensures n <= e - p && (forall k :: e - n <= k < e ==> s[k] == LT) && (n < e - p ==> s[e - n - 1] != LT)
    decreases e - p
  {
    if p < e && s[e - 1] == LT then 1 + Run(s, p, e - 1) else 0
  }

  /** An end tag with an even number of "<" directly in front of it: the byte behind a "<" is not looked at again, so
      the last of an odd number hides the tag's own. */
  ghost predicate Stops(s: Bytes, p: nat, e: nat, tag: Bytes)
    requires p <= e <= |s|
  {
    EndTagAt(s, e, tag) && Run(s, p, e) % 2 == 0
  }

  /** What stands in front of e from q on decides as much as what stands there from p on. */
  lemma RunFrom(s: Bytes, p: nat, q: nat, e: nat)
    requires p <= q <= e <= |s| && (p < q ==> s[q - 1] != LT || (q == p + 2 && s[p] == LT))
    ensures Run(s, p, e) % 2 == Run(s, q, e) % 2
  {
    var m, n := Run(s, p, e), Run(s, q, e);
    if p < q {
      if n < e - q {
        assert s[e - n - 1] != LT;
        assert m == n;
      } else if s[q - 1] != LT {
        assert m == n;
      } else {
        assert m == n + 2;
      }
    }
  }

  lemma NoEndTag(s: Bytes, k: nat, tag: Bytes)
    ensures k + 1 >= |s| || s[k] != LT || s[k + 1] != SLASH ==> !EndTagAt(s, k, tag)
  {
  }

  lemma MatchedAt(s: Bytes, p: nat, word: Bytes, i: nat)
    requires p <= |s| && i < Matched(s, p, word)
    ensures Lower(s[p + i]) == word[i] || s[p + i] == word[i]
  {
  }

  /** What readRawEndTag reads in vain holds no "<". */
  lemma TagPart(s: Bytes, p: nat, k: nat, tag: Bytes)
    requires p + 2 <= |s| && s[p + 1] == SLASH && forall j :: 0 <= j < |tag| ==> 0x61 <= tag[j] <= 0x7A
    requires !RawEndTag(s, p + 2, tag).yes && p < k < RawEndTag(s, p + 2, tag).end
    ensures s[k] != LT
  {
    hide Matched;
    if k > p + 1 {
      MatchedAt(s, p + 2, tag, k - p - 2);
    }
  }

  /** A round of the loop that finds no "</" passes no such end tag by. */
  lemma RoundSkips(s: Bytes, p: nat, k: nat, tag: Bytes)
    requires p <= k <= |s| && !TagOpen(s, p).yes
    ensures var q := TagOpen(s, p).end; Stops(s, p, k, tag) <==> q <= k && Stops(s, q, k, tag)
  {
    hide EndTagAt;
    NoEndTag(s, k, tag);
    if k < |s| && TagOpen(s, p).end <= k {
      RunFrom(s, p, TagOpen(s, p).end, k);
    } else if k == p + 1 {
      assert Run(s, p, p) == 0;
      assert Run(s, p, k) == if s[p] == LT then 1 + Run(s, p, p) else 0;
    }
  }

  /** Nor does one that finds the "</" of something else. */
  lemma TagSkips(s: Bytes, p: nat, k: nat, tag: Bytes)
    requires p <= k <= |s| && TagOpen(s, p).yes && !RawEndTag(s, p + 2, tag).yes
    requires forall j :: 0 <= j < |tag| ==> 0x61 <= tag[j] <= 0x7A
    ensures var q := RawEndTag(s, p + 2, tag).end; Stops(s, p, k, tag) <==> q <= k && Stops(s, q, k, tag)
  {
    hide EndTagAt, RawEndTag;
    var q := RawEndTag(s, p + 2, tag).end;
    NoEndTag(s, k, tag);
    RawEndTagFinds(s, p + 2, tag);
    if q <= k {
      TagPart(s, p, q - 1, tag);
      RunFrom(s, p, q, k);
    } else if p < k {
      TagPart(s, p, k, tag);
    }
  }

  /** Raw text stops in front of the first such end tag, and at the end of the input if there is none. */
  lemma {:induction false} RawTextIsFirst(s: Bytes, p: nat, tag: Bytes)
    requires p <= |s| && forall k :: 0 <= k < |tag| ==> 0x61 <= tag[k] <= 0x7A
    ensures var (e, err) := RawText(s, p, tag);
      && (if err then e == |s| && !Stops(s, p, e, tag) else p <= e && Stops(s, p, e, tag))
      && forall k: nat :: p <= k < e ==> !Stops(s, p, k, tag)
    decreases |s| - p
  {
    hide RawEndTag, EndTagAt, Stops, TagOpen;
    var (e, err) := RawText(s, p, tag);
    var o := TagOpen(s, p);
    NotAtEnd(s, p, tag);
    if !o.yes {
      if !o.err {
        RawTextIsFirst(s, o.end, tag);
      }
      forall k: nat | p <= k <= e ensures Stops(s, p, k, tag) <==> o.end <= k && Stops(s, o.end, k, tag) {
        RoundSkips(s, p, k, tag);
      }
    } else {
      var f := RawEndTag(s, o.end, tag);
      if f.yes {
        FoundStops(s, p, tag);
      } else {
        if !f.err {
          RawTextIsFirst(s, f.end, tag);
        }
        forall k: nat | p <= k <= e ensures Stops(s, p, k, tag) <==> f.end <= k && Stops(s, f.end, k, tag) {
          TagSkips(s, p, k, tag);
        }
      }
    }
  }

  lemma NotAtEnd(s: Bytes, p: nat, tag: Bytes)
    requires p <= |s|
    ensures !Stops(s, p, |s|, tag)
  {
  }

  lemma FoundStops(s: Bytes, p: nat, tag: Bytes)
    requires p <= |s| && TagOpen(s, p).yes && RawEndTag(s, p + 2, tag).yes
    ensures Stops(s, p, p, tag)
  {
    RawEndTagFinds(s, p + 2, tag);
  }

  const HIDDEN: Bytes := [LT, LT, SLASH, 0x78, 0x6D, 0x70, GT]

  /** In "<</xmp>" the end tag is not seen. */
  lemma EndTagIsHidden()
    ensures EndTagAt(HIDDEN, 1, XMP) && RawText(HIDDEN, 0, XMP) == (|HIDDEN|, true)
  {
    RawTextIsFirst(HIDDEN, 0, XMP);
    assert Run(HIDDEN, 0, 1) == 1 + Run(HIDDEN, 0, 0);
  }

  // ----- scripts -----

  /** The part of a tag that a label of readScript has behind it. */
  ghost predicate Behind(s: Bytes, p: nat, q: ScriptState) {
    && Read(q) <= p <= |s|
    && (Read(q) == 1 ==> s[p - 1] == LT)
    && (Read(q) == 2 ==> s[p - 2] == LT && s[p - 1] == SLASH)
  }

  lemma BehindKept(s: Bytes, p: nat, q: ScriptState)
    requires Behind(s, p, q) && Script1(s, p, q).Goto?
    ensures Behind(s, Script1(s, p, q).end, Script1(s, p, q).state)
  {
    hide RawEndTag, Matched, NAME_STOPS;
  }

  /** A script ends at the end of the input or in front of a script end tag. */
  lemma {:induction false} ScriptEnds(s: Bytes, p: nat, q: ScriptState)
    requires Behind(s, p, q)
    ensures var (e, err) := Script(s, p, q); if err then e == |s| else p <= e + Read(q) && EndTagAt(s, e, SCRIPT)
    decreases |s| - p, Rank(q)
  {
    hide EndTagAt, RawEndTag;
    match Script1(s, p, q)
    case Return(end, err) =>
      if !err {
        ScriptReturns(s, p, q);
      }
    case Goto(state, end) =>
      BehindKept(s, p, q);
      ScriptEnds(s, end, state);
  }

  lemma ScriptReturns(s: Bytes, p: nat, q: ScriptState)
    requires Behind(s, p, q) && Script1(s, p, q).Return? && !Script1(s, p, q).err
    ensures EndTagAt(s, Script1(s, p, q).end, SCRIPT)
  {
    hide EndTagAt, RawEndTag;
    RawEndTagFinds(s, p, SCRIPT);
  }

  lemma ScriptStep(s: Bytes, p: nat, q: ScriptState, state: ScriptState, end: nat)
    requires Read(q) <= p <= |s| && Script1(s, p, q) == Goto(state, end)
    ensures Read(state) <= end <= |s| && Script(s, p, q) == Script(s, end, state)
  {
  }

  /** The label that reads escaped text at m, where the dashes since b count. */
  function EscapedAt(s: Bytes, b: nat, m: nat): ScriptState
    requires b <= m <= |s|
  {
    if m == b || s[m - 1] != DASH then Escaped
    else if m == b + 1 || s[m - 2] != DASH then EscapedDash
    else EscapedDashDash
  }

  /** From p to m there is no "<", and no ">" behind two dashes that stand at b or later. */
  ghost predicate StaysEscaped(s: Bytes, b: nat, p: nat, m: nat)
    requires b <= p <= m <= |s|
  {
    && (forall k :: p <= k < m ==> s[k] != LT)
    && (forall k :: p <= k < m && s[k] == GT ==> EscapedAt(s, b, k) != EscapedDashDash)
  }

  lemma {:induction false} EscapedRuns(s: Bytes, b: nat, p: nat, m: nat)
    requires b <= p <= m <= |s| && StaysEscaped(s, b, p, m)
    ensures Script(s, p, EscapedAt(s, b, p)) == Script(s, m, EscapedAt(s, b, m))
    decreases m - p
  {
    hide Script;
    if p < m {
      assert s[p] == GT ==> EscapedAt(s, b, p) != EscapedDashDash;
      ScriptStep(s, p, EscapedAt(s, b, p), EscapedAt(s, b, p + 1), p + 1);
      EscapedRuns(s, b, p + 1, m);
    }
  }

  predicate CommentAt(s: Bytes, p: nat) {
    p + 4 <= |s| && s[p] == LT && s[p + 1] == BANG && s[p + 2] == DASH && s[p + 3] == DASH
  }

  lemma CommentOpens(s: Bytes, p: nat)
    requires CommentAt(s, p)
    ensures EscapedAt(s, p + 2, p + 4) == EscapedDashDash
    ensures Script(s, p, Data) == Script(s, p + 4, EscapedDashDash)
  {
    hide Script;
    ScriptBang(s, p);
  }

  /** What the first "<" behind "<!--" leads to, if no "-->" comes before it: to the check for an end tag, to the check
      for another script tag, or back to plain script data. */
  lemma ScriptFallsBack(s: Bytes, p: nat, m: nat)
    requires p + 4 <= m < |s| && CommentAt(s, p) && StaysEscaped(s, p + 2, p + 4, m) && s[m] == LT
    ensures Script(s, p, Data) ==
      if m + 1 == |s| then (|s|, true)
      else if s[m + 1] == SLASH then Script(s, m + 2, EscapedEndTagOpen)
      else if IsLetter(s[m + 1]) then Script(s, m + 1, DoubleEscapeStart)
      else Script(s, m + 1, Data)
  {
    hide Script, StaysEscaped;
    CommentOpens(s, p);
    EscapedRuns(s, p + 2, p + 4, m);
    ScriptStep(s, m, EscapedAt(s, p + 2, m), EscapedLessThanSign, m + 1);
    AtLessThan(s, m + 1);
  }

  lemma AtLessThan(s: Bytes, p: nat)
    requires 1 <= p <= |s| && s[p - 1] == LT
    ensures Script(s, p, EscapedLessThanSign) ==
      if p == |s| then (|s|, true)
      else if s[p] == SLASH then Script(s, p + 1, EscapedEndTagOpen)
      else if IsLetter(s[p]) then Script(s, p, DoubleEscapeStart)
      else Script(s, p, Data)
  {
  }

  lemma ScriptStops(s: Bytes, p: nat, q: ScriptState, end: nat, err: bool)
    requires Read(q) <= p <= |s| && Script1(s, p, q) == Return(end, err)
    ensures Script(s, p, q) == (end, err)
  {
  }

  /** Behind "<" there may be an end tag, a comment or anything else. */
  lemma {:induction false} ScriptAtLessThan(s: Bytes, p: nat)
    requires p < |s| && s[p] == LT && forall k :: p <= k < Script(s, p, Data).0 ==> !CommentAt(s, k)
    ensures FirstEndTag(s, p, Script(s, p, Data))
    decreases |s| - p, 0
  {
    hide Script, EndTagAt, CommentAt;
    ScriptStep(s, p, Data, LessThanSign, p + 1);
    if p + 1 < |s| && s[p + 1] == SLASH {
      ScriptAtEndTag(s, p);
    } else {
      NoEndTag(s, p, SCRIPT);
      if p + 1 == |s| {
        ScriptStops(s, p + 1, LessThanSign, |s|, true);
      } else if s[p + 1] == BANG {
        ScriptAtBang(s, p);
      } else {
        ScriptStep(s, p + 1, LessThanSign, Data, p + 1);
        ScriptIsFirst(s, p + 1);
      }
    }
  }

  /** What "<!" leads to in plain script data. */
  lemma ScriptBang(s: Bytes, p: nat)
    requires p + 1 < |s| && s[p] == LT && s[p + 1] == BANG
    ensures p + 2 <= Script(s, p, Data).0
    ensures Script(s, p, Data) ==
      if p + 2 == |s| || (s[p + 2] == DASH && p + 3 == |s|) then (|s|, true)
      else if s[p + 2] != DASH then Script(s, p + 2, Data)
      else if s[p + 3] != DASH then Script(s, p + 3, Data)
      else Script(s, p + 4, EscapedDashDash)
  {
    hide Script;
    ScriptStep(s, p, Data, LessThanSign, p + 1);
    ScriptStep(s, p + 1, LessThanSign, EscapeStart, p + 2);
    if p + 2 == |s| {
      ScriptStops(s, p + 2, EscapeStart, |s|, true);
    } else if s[p + 2] != DASH {
      ScriptStep(s, p + 2, EscapeStart, Data, p + 2);
    } else {
      ScriptStep(s, p + 2, EscapeStart, EscapeStartDash, p + 3);
      if p + 3 == |s| {
        ScriptStops(s, p + 3, EscapeStartDash, |s|, true);
      } else if s[p + 3] != DASH {
        ScriptStep(s, p + 3, EscapeStartDash, Data, p + 3);
      } else {
        ScriptStep(s, p + 3, EscapeStartDash, EscapedDashDash, p + 4);
      }
    }
  }

  lemma {:induction false} ScriptAtBang(s: Bytes, p: nat)
    requires p + 1 < |s| && s[p] == LT && s[p + 1] == BANG
    requires forall k :: p <= k < Script(s, p, Data).0 ==> !CommentAt(s, k)
    ensures FirstEndTag(s, p, Script(s, p, Data))
    decreases |s| - p - 1, 1
  {
    hide Script, EndTagAt, NAME_STOPS;
    NoEndTag(s, p, SCRIPT);
    NoEndTag(s, p + 1, SCRIPT);
    NoEndTag(s, p + 2, SCRIPT);
    ScriptBang(s, p);
    assert !CommentAt(s, p);
    if p + 2 < |s| && s[p + 2] != DASH {
      ScriptIsFirst(s, p + 2);
    } else if p + 3 < |s| {
      ScriptIsFirst(s, p + 3);
    }
  }

  lemma {:induction false} ScriptAtEndTag(s: Bytes, p: nat)
    requires p + 1 < |s| && s[p] == LT && s[p + 1] == SLASH
    requires forall k :: p <= k < Script(s, p, Data).0 ==> !CommentAt(s, k)
    ensures FirstEndTag(s, p, Script(s, p, Data))
    decreases |s| - p - 1, 1
  {
    hide Script, RawEndTag, EndTagAt, CommentAt;
    var f := RawEndTag(s, p + 2, SCRIPT);
    RawEndTagFinds(s, p + 2, SCRIPT);
    ScriptStep(s, p, Data, LessThanSign, p + 1);
    ScriptStep(s, p + 1, LessThanSign, EndTagOpen, p + 2);
    if f.yes {
      ScriptStops(s, p + 2, EndTagOpen, p, false);
    } else {
      forall k | p < k < f.end ensures !EndTagAt(s, k, SCRIPT) {
        TagPart(s, p, k, SCRIPT);
        NoEndTag(s, k, SCRIPT);
      }
      if f.err {
        ScriptStops(s, p + 2, EndTagOpen, |s|, true);
      } else {
        ScriptStep(s, p + 2, EndTagOpen, Data, f.end);
        ScriptIsFirst(s, f.end);
      }
    }
  }

  /** The first script end tag from p on is where a script ends, and the end of the input if there is none. */
  ghost predicate FirstEndTag(s: Bytes, p: nat, r: (nat, bool)) {
    && (if r.1 then r.0 == |s| else p <= r.0 && EndTagAt(s, r.0, SCRIPT))
    && forall k :: p <= k < r.0 ==> !EndTagAt(s, k, SCRIPT)
  }

  /** A script without "<!--" ends in front of its first end tag. */
  lemma {:induction false} ScriptIsFirst(s: Bytes, p: nat)
    requires p <= |s| && forall k :: p <= k < Script(s, p, Data).0 ==> !CommentAt(s, k)
    ensures FirstEndTag(s, p, Script(s, p, Data))
    decreases |s| - p, 1
  {
    hide Script, EndTagAt, CommentAt;
    if p == |s| {
      ScriptStops(s, p, Data, p, true);
    } else if s[p] == LT {
      ScriptAtLessThan(s, p);
    } else {
      ScriptStep(s, p, Data, Data, p + 1);
      NoEndTag(s, p, SCRIPT);
      ScriptIsFirst(s, p + 1);
    }
  }

  /** What holds no "<" is passed by in plain script data. */
  lemma {:induction false} DataSkips(s: Bytes, p: nat, e: nat)
    requires p <= e <= |s| && forall k :: p <= k < e ==> s[k] != LT
    ensures Script(s, p, Data) == Script(s, e, Data)
    decreases e - p
  {
    if p < e {
      DataSkips(s, p + 1, e);
    }
  }

  /** "<!--<<script></script>" */
  const FALLEN: Bytes := [LT, BANG, DASH, DASH, LT] + [LT] + SCRIPT + [GT] + [LT, SLASH] + SCRIPT + [GT]

  lemma FallenIs()
    ensures |FALLEN| == 22
    ensures FALLEN[0] == LT && FALLEN[1] == BANG && FALLEN[2] == DASH && FALLEN[3] == DASH && FALLEN[4] == LT
    ensures FALLEN[5] == LT && FALLEN[12] == GT && FALLEN[13] == LT && FALLEN[14] == SLASH && FALLEN[21] == GT
    ensures forall k :: 0 <= k < 6 ==> FALLEN[6 + k] == SCRIPT[k] && FALLEN[15 + k] == SCRIPT[k]
  {
  }

  lemma FallenMatches()
    ensures Matched(FALLEN, 6, SCRIPT) == Matched(FALLEN, 15, SCRIPT) == |SCRIPT|
    ensures EndTagAt(FALLEN, 13, SCRIPT)
  {
    hide Matched;
    FallenIs();
    forall i | 15 <= i < 21 ensures Letter(FALLEN[i], SCRIPT[i - 15]) {
      assert FALLEN[15 + (i - 15)] == SCRIPT[i - 15];
    }
  }

  /** In "<!--<<script></script>" the second "<" leads back to plain data, so that the end tag closes the script. */
  lemma FallenCloses()
    ensures Script(FALLEN, 0, Data) == (13, false)
  {
    hide Script, Matched, RawEndTag, NAME_STOPS;
    FallenIs();
    FallenMatches();
    ScriptFallsBack(FALLEN, 0, 4);
    ScriptStep(FALLEN, 5, Data, LessThanSign, 6);
    assert FALLEN[6 + 0] == SCRIPT[0];
    ScriptStep(FALLEN, 6, LessThanSign, Data, 6);
    forall k | 6 <= k < 13 ensures FALLEN[k] != LT {
      assert k < 12 ==> FALLEN[6 + (k - 6)] == SCRIPT[k - 6];
    }
    DataSkips(FALLEN, 6, 13);
    ScriptStep(FALLEN, 13, Data, LessThanSign, 14);
    ScriptStep(FALLEN, 14, LessThanSign, EndTagOpen, 15);
    ScriptCloses(FALLEN, 15, EndTagOpen);
  }

  lemma ScriptCloses(s: Bytes, p: nat, q: ScriptState)
    requires 2 <= p <= |s| && EndTagAt(s, p - 2, SCRIPT) && (q == EndTagOpen || q == EscapedEndTagOpen)
    ensures Script(s, p, q) == (p - 2, false)
  {
    hide RawEndTag;
    RawEndTagFinds(s, p, SCRIPT);
  }

  /** Had it stayed in escaped text, "<script>" would have hidden that end tag. */
  lemma EscapedWouldNot()
    ensures Script(FALLEN, 5, Escaped) == (|FALLEN|, true)
  {
    hide Script, Matched, RawEndTag;
    FallenIs();
    FallenMatches();
    assert FALLEN[6 + 0] == SCRIPT[0];
    ScriptStep(FALLEN, 5, Escaped, EscapedLessThanSign, 6);
    ScriptStep(FALLEN, 6, EscapedLessThanSign, DoubleEscapeStart, 6);
    ScriptStep(FALLEN, 6, DoubleEscapeStart, DoubleEscaped, 13);
    ScriptStep(FALLEN, 13, DoubleEscaped, DoubleEscapedLessThanSign, 14);
    ScriptStep(FALLEN, 14, DoubleEscapedLessThanSign, DoubleEscapeEnd, 15);
    RawEndTagFinds(FALLEN, 15, SCRIPT);
    ScriptStep(FALLEN, 15, DoubleEscapeEnd, Escaped, 22);
    AtEnd(FALLEN, Escaped);
  }

  lemma AtEnd(s: Bytes, q: ScriptState)
    requires Read(q) <= |s| && !ReadsTag(q)
    ensures Script(s, |s|, q) == (|s|, true)
  {
  }

  /** The text in front of q ends in "-->" or "--!>". */
  ghost predicate CommentClosed(s: Bytes, q: int) {
    && 3 <= q <= |s| && s[q - 1] == GT
    && (s[q - 3] == s[q - 2] == DASH || (4 <= q && s[q - 4] == s[q - 3] == DASH && s[q - 2] == BANG))
  }

  /** A comment that is not cut off ends behind a comment's end, and its data does not reach into that. */
  lemma {:induction false} CommentEnds(s: Bytes, q: nat, dashes: nat)
    requires dashes <= q <= |s| && forall k :: q - dashes <= k < q ==> s[k] == DASH
    ensures var (d, e, err) := CommentEnd(s, q, dashes); !err ==> CommentClosed(s, e) && d <= e - 3
    decreases |s| - q
  {
    match Comment1(s, q, dashes)
    case Close(_, _, _) =>
    case More(end, n) => CommentEnds(s, end, n);
  }

  /** How many dashes directly in front of k count; those of the opening do, but not one directly behind the "!" of a
      "--!" that closes nothing, as that byte is not looked at again. */
  function Dashes(s: Bytes, p: nat, k: nat): nat
    requires p <= k <= |s|
    decreases k
  {
    if k == p then 2
    else if s[k - 1] != DASH || (p + 2 <= k && s[k - 2] == BANG && Dashes(s, p, k - 2) >= 2) then 0
    else 1 + Dashes(s, p, k - 1)
  }

  /** The comment that starts at p may end in front of e: behind "-->" or "--!>". */
  ghost predicate Closes(s: Bytes, p: nat, e: nat)
    requires p <= |s|
  {
    && p < e <= |s| && s[e - 1] == GT
    && (Dashes(s, p, e - 1) >= 2 || (p + 2 <= e && s[e - 2] == BANG && Dashes(s, p, e - 2) >= 2))
  }

  /** What the loop of readComment keeps: the dashes counted are those that count, and no "--!" was passed by. */
  ghost predicate Counted(s: Bytes, p: nat, q: nat, dashes: nat)
    requires p <= q <= |s|
  {
    dashes == Dashes(s, p, q) && (p < q && s[q - 1] == BANG ==> Dashes(s, p, q - 1) < 2)
  }

  lemma DashStep(s: Bytes, p: nat, q: nat)
    requires p <= q < |s| && Counted(s, p, q, Dashes(s, p, q))
    ensures s[q] == DASH ==> Counted(s, p, q + 1, Dashes(s, p, q) + 1)
    ensures s[q] != DASH ==> Dashes(s, p, q + 1) == 0
    ensures s[q] != DASH && (s[q] == BANG ==> Dashes(s, p, q) < 2) ==> Counted(s, p, q + 1, 0)
    ensures s[q] == BANG && Dashes(s, p, q) >= 2 && q + 1 < |s| ==> Counted(s, p, q + 2, 0)
    ensures Closes(s, p, q + 1) <==> s[q] == GT && Dashes(s, p, q) >= 2
    ensures s[q] == BANG && q + 2 <= |s| ==> (Closes(s, p, q + 2) <==> s[q + 1] == GT && Dashes(s, p, q) >= 2)
  {
    if q + 1 < |s| && s[q] == BANG {
      assert Dashes(s, p, q + 1) == 0;
    }
  }

  /** A comment ends behind the first such end, with the data in front of it, and at the end of the input if there is
      none, where up to two dashes are dropped. */
  lemma {:induction false} CommentIsFirst(s: Bytes, p: nat, q: nat, dashes: nat)
    requires p <= q <= |s| && Counted(s, p, q, dashes)
    ensures var (d, e, err) := CommentEnd(s, q, dashes);
      && (if err then e == |s| && (q < e ==> !Closes(s, p, e)) else q < e && Closes(s, p, e))
      && (forall k: nat :: q < k < e ==> !Closes(s, p, k))
      && d == if err then |s| - (if Dashes(s, p, |s|) > 2 then 2 else Dashes(s, p, |s|))
              else if Dashes(s, p, e - 1) >= 2 then e - 3 else e - 4
    decreases |s| - q
  {
    hide Dashes, Closes;
    assert dashes == Dashes(s, p, q);
    if q < |s| {
      DashStep(s, p, q);
      hide Counted;
      match Comment1(s, q, dashes)
      case Close(_, _, _) =>
      case More(end, n) => CommentIsFirst(s, p, end, n);
    }
  }

  const SKIPPED: Bytes := [BANG, DASH, DASH, GT]

  /** In "<!--!-->" the comment does not end: the dash behind the "!" is not counted. */
  lemma EndIsSkipped()
    ensures CommentEnd(SKIPPED, 0, 2) == (4, 4, true)
  {
    assert Dashes(SKIPPED, 0, 1) == 0 && Dashes(SKIPPED, 0, 2) == 0 && Dashes(SKIPPED, 0, 3) == 1;
    assert !Closes(SKIPPED, 0, 1) && !Closes(SKIPPED, 0, 2) && !Closes(SKIPPED, 0, 3) && !Closes(SKIPPED, 0, 4);
    CommentIsFirst(SKIPPED, 0, 0, 2);
  }

  /** Where no raw text is due, text is everything up to the first place where a tag, comment or declaration opens. */
  lemma TextRunsToTag(s: Bytes, st: State)
    requires Inside(s, st.look) && !st.look.err && st.rawTag == [] && st.look.end < |s| && !OpensAt(s, st.look.end)
    ensures var r := Next(s, st);
      && r.tt == TextToken && r.look.data == Span(r.look.start, r.look.end) && r.look.start < r.look.end
      && (r.look.end < |s| ==> OpensAt(s, r.look.end))
      && forall k: nat :: r.look.start <= k < r.look.end ==> !OpensAt(s, k)
  {
    hide Opened;
  }

  /** Where one opens, a token starts, of a kind that the byte behind the "<" decides. */
  lemma TagIsRead(s: Bytes, st: State)
    requires Inside(s, st.look) && !st.look.err && st.rawTag == [] && OpensAt(s, st.look.end)
    ensures var p, r := st.look.end, Next(s, st);
      && r.look.start == p
      && (IsLetter(s[p + 1]) ==> r.tt in {StartTagToken, SelfClosingTagToken, ErrorToken} && StartTagIs(s, p, r))
      && (s[p + 1] == SLASH ==> EndTagIs(s, p, r))
      && (s[p + 1] == BANG ==>
            r.tt in {CommentToken, DoctypeToken, TextToken} && (r.tt == TextToken ==> st.allowCDATA))
      && (s[p + 1] == QUESTION ==> r.tt == CommentToken && r.look.data.start == p + 1)
  {
    hide Opened;
    var p := st.look.end;
    OpenedKinds(s, st.(look := st.look.(start := p, end := p + 2, data := Span(p, p)),
                       textIsRaw := false, convertNUL := false));
  }

  /** A start tag is cut off, or ends behind a ">"; its name goes up to white space, "/" or ">", and if it is one of
      those of raw text, in any case, then raw text is due. */
  ghost predicate StartTagIs(s: Bytes, p: nat, r: State) {
    if r.look.err then r.tt == ErrorToken && r.look.end == |s|
    else
      && p + 2 < r.look.end <= |s| && s[r.look.end - 1] == GT
      && r.tt == (if s[r.look.end - 2] == SLASH then SelfClosingTagToken else StartTagToken)
      && NameIs(s, p + 1, r.look.data)
      && r.rawTag == if LowerAll(s[p + 1..r.look.data.end]) in RAW_TAGS then LowerAll(s[p + 1..r.look.data.end]) else []
  }

  ghost predicate NameIs(s: Bytes, p: nat, name: Span) {
    && name.start == p < name.end < |s| && s[name.end] in NAME_STOPS
    && forall k :: p < k < name.end ==> s[k] !in NAME_STOPS
  }

  /** Behind "</": a letter opens an end tag without attributes, ">" makes an empty comment, anything else a comment
      that goes up to ">", and "</" at the end of the input is text. */
  ghost predicate EndTagIs(s: Bytes, p: nat, r: State) {
    if p + 2 >= |s| then r.tt == TextToken && r.look.data == Span(p, p + 2)
    else if s[p + 2] == GT then r.tt == CommentToken && r.look.data == Span(p, p) && r.look.end == p + 3
    else if IsLetter(s[p + 2]) then
      if r.look.err then r.tt == ErrorToken
      else
        && r.tt == EndTagToken && NameIs(s, p + 2, r.look.data) && r.look.attrs == []
        && p + 2 < r.look.end <= |s| && s[r.look.end - 1] == GT
    else
      && r.tt == CommentToken && r.look.data.start == p + 2 <= r.look.data.end <= |s|
      && forall k :: p + 2 <= k < r.look.data.end ==> s[k] != GT
  }

  lemma TagNameIs(s: Bytes, l: Look, saveAttr: bool)
    requires Inside(s, l) && l.start < l.end && !l.err && !Tag(s, l, saveAttr).err
    ensures NameIs(s, l.end - 1, Tag(s, l, saveAttr).data)
  {
    hide Attributes;
  }

  /** What the byte in front of the position opens. */
  lemma OpenedKinds(s: Bytes, st: State)
    requires Inside(s, st.look) && !st.look.err && st.look.data == Span(st.look.start, st.look.start)
    requires st.look.start + 2 == st.look.end && Opens(s[st.look.end - 1]) && st.rawTag == []
    ensures var p, r := st.look.start, Opened(s, st);
      && (IsLetter(s[p + 1]) ==> r.tt in {StartTagToken, SelfClosingTagToken, ErrorToken} && StartTagIs(s, p, r))
      && (s[p + 1] == SLASH ==> EndTagIs(s, p, r))
      && (s[p + 1] == BANG ==>
            r.tt in {CommentToken, DoctypeToken, TextToken} && (r.tt == TextToken ==> st.allowCDATA))
      && (s[p + 1] == QUESTION ==> r.tt == CommentToken && r.look.data.start == p + 1)
  {
    hide StartTag, EndTag, Markup, StartTagIs, EndTagIs, UntilAngle, RAW_TAGS;
    var c := s[st.look.end - 1];
    if IsLetter(c) {
      StartTagKind(s, st);
    } else if c == SLASH {
      EndTagKind(s, st);
    } else if c == BANG {
      MarkupKind(s, st.look, st.allowCDATA);
    }
  }

  lemma MarkupKind(s: Bytes, l: Look, allowCDATA: bool)
    requires Inside(s, l) && !l.err
    ensures Markup(s, l, allowCDATA).0 == TextToken ==> allowCDATA
  {
    hide Comment, Doctype, CdataSection, UntilAngle;
  }

  lemma StartTagKind(s: Bytes, st: State)
    requires Inside(s, st.look) && st.look.start + 2 == st.look.end && !st.look.err && st.rawTag == []
    ensures var r := StartTag(s, st);
      r.tt in {StartTagToken, SelfClosingTagToken, ErrorToken} && StartTagIs(s, st.look.start, r)
  {
    hide Tag, RAW_TAGS, NameIs;
    TagEnd(s, st.look, true);
    if !Tag(s, st.look, true).err {
      TagNameIs(s, st.look, true);
      assert NameIs(s, st.look.start + 1, Tag(s, st.look, true).data);
    }
  }

  lemma EndTagKind(s: Bytes, st: State)
    requires Inside(s, st.look) && st.look.start + 2 == st.look.end && !st.look.err
    requires st.look.data == Span(st.look.start, st.look.start)
    ensures EndTagIs(s, st.look.start, EndTag(s, st))
  {
    hide Tag, NameIs;
    var l, p := st.look, st.look.end;
    if p < |s| && IsLetter(s[p]) {
      var l1 := l.(end := p + 1);
      TagEnd(s, l1, false);
      if !Tag(s, l1, false).err {
        TagNameIs(s, l1, false);
      }
    }
  }
}
