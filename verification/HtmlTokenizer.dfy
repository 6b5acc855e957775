/** The Tokenizer of html/token.go: the same token stream, from a buffer that slides over the input and grows. */
module HtmlTokenizer {
  import opened Utf8
  import opened HtmlEntity
  import opened HtmlReader
  import opened HtmlStream
  import opened HtmlTokens

  function Shift(s: Span, x: int): Span {
    Span(s.start + x, s.end + x)
  }

  function ShiftPair(p: (Span, Span), x: int): (Span, Span) {
    (Shift(p.0, x), Shift(p.1, x))
  }

  function ShiftAll(ps: seq<(Span, Span)>, x: int): (r: seq<(Span, Span)>)
    ensures |r| == |ps|
  {
    seq(|ps|, k requires 0 <= k < |ps| => ShiftPair(ps[k], x))
  }

  lemma ShiftTwice(xs: seq<(Span, Span)>, a: int, b: int)
    ensures ShiftAll(ShiftAll(xs, a), b) == ShiftAll(xs, a + b)
  {
  }

  /** A new tokenizer for an input to be read from p on. */
  function Fresh(p: nat, contextTag: Bytes): State {
    var s := LowerAll(contextTag);
    var here := Span(p, p);
    State(Look(p, p, false, here, here, here, []), 0, ErrorToken, if s in RAW_TAGS then s else [], false, false, false)
  }

  predicate LowerCase(word: Bytes) {
    forall k :: 0 <= k < |word| ==> 0x61 <= word[k] <= 0x7A
  }

  lemma LowerIs(c: Byte, w: Byte)
    requires 0x61 <= w <= 0x7A
    ensures Lower(c) == w || c == w <==> c == w || c == w - 0x20
  {
  }

  lemma RawTagsAreLower(word: Bytes)
    requires word in RAW_TAGS
    ensures LowerCase(word) && word != []
  {
  }

  lemma ScriptIsRaw()
    ensures SCRIPT in RAW_TAGS && LowerCase(SCRIPT)
  {
  }

  lemma DoctypeIsLower()
    ensures LowerCase(DOCTYPE)
  {
  }

  lemma ShiftAt(ps: seq<(Span, Span)>, k: nat, x: int)
    requires k < |ps|
    ensures ShiftAll(ps, x)[k] == ShiftPair(ps[k], x)
  {
  }

  lemma ShiftAppend(ps: seq<(Span, Span)>, k: Span, v: Span, x: int)
    ensures ShiftAll(ps + [(k, v)], x) == ShiftAll(ps, x) + [(Shift(k, x), Shift(v, x))]
  {
  }

  /** The raw text elements that readStartTag compares with a tag's name that begins with c. */
  function RawTagsWith(c: Byte): seq<Bytes> {
    if c == 0x69 then [IFRAME]
    else if c == 0x6E then [NOEMBED, NOFRAMES, NOSCRIPT]
    else if c == 0x70 then [PLAINTEXT]
    else if c == 0x73 then [SCRIPT, STYLE]
    else if c == 0x74 then [TEXTAREA, TITLE]
    else if c == 0x78 then [XMP]
    else []
  }

  lemma RawTagsByLetter(name: Bytes)
    requires name != []
    ensures name in RAW_TAGS <==> name in RawTagsWith(name[0])
  {
    assert IFRAME[0] == 0x69 && NOEMBED[0] == NOFRAMES[0] == NOSCRIPT[0] == 0x6E && PLAINTEXT[0] == 0x70;
    assert SCRIPT[0] == STYLE[0] == 0x73 && TEXTAREA[0] == TITLE[0] == 0x74 && XMP[0] == 0x78;
  }

  predicate IsStart(tt: TokenType) {
    tt == StartTagToken || tt == SelfClosingTagToken
  }

  predicate IsTag(tt: TokenType) {
    tt == StartTagToken || tt == EndTagToken || tt == SelfClosingTagToken
  }

  /** lower of html/escape.go. */
  method LowerInPlace(b: array<Byte>)
    modifies b
    ensures b[..] == LowerAll(old(b[..]))
  {
    var i := 0;
    while i < b.Length
      invariant 0 <= i <= b.Length
      invariant forall k :: 0 <= k < i ==> b[k] == Lower(old(b[k]))
      invariant forall k :: i <= k < b.Length ==> b[k] == old(b[k])
    {
      if 0x41 <= b[i] <= 0x5A {
        b[i] := b[i] + 0x20;
      }
      i := i + 1;
    }
  }

  class Tokenizer {
    const r: Source
    var tt: TokenType
    var err: bool
    var readErr: bool
    var raw: Span
    /** The buffer: its length is the slice's capacity, and len the slice's length. */
    var buf: array<Byte>
    var len: nat
    var data: Span
    var key: Span
    var val: Span
    var attr: seq<(Span, Span)>
    var nAttrReturned: nat
    var rawTag: Bytes
    var textIsRaw: bool
    var convertNUL: bool
    var allowCDATA: bool
    /** Where in the input the buffer begins. */
    ghost var off: int

    /** From one index of the buffer on, its bytes are what the reader handed out. */
    ghost predicate Holds(from: int): (v: bool)
      ensures v ==> 0 <= raw.start + off <= raw.end + off <= |r.input| && raw.end <= len
      ensures v ==> (err ==> raw.end + off == |r.input|)
      reads `raw, `len, `buf, `off, `err, `readErr, `rawTag, r, buf
    {
      && 0 <= raw.start <= raw.end <= len <= buf.Length && 0 < buf.Length
      && 0 <= off + raw.start && off + len == r.pos <= |r.input|
      && raw.start <= from && (forall k :: from <= k < len ==> buf[k] == r.input[off + k])
      && (err ==> readErr && raw.end == len)
      && (readErr ==> r.pos == |r.input|)
      && (rawTag == [] || rawTag in RAW_TAGS)
    }

    /** The current token is still as it was read. */
    ghost predicate Valid(): (v: bool)
      ensures v ==> 0 <= raw.start + off <= raw.end + off <= |r.input| && raw.end <= len
      ensures v ==> (err ==> raw.end + off == |r.input|)
      reads `raw, `len, `buf, `off, `err, `readErr, `rawTag, r, buf
    {
      Holds(raw.start)
    }

    /** Where the tokenizer is in the whole input. */
    ghost function Place(): Look
      reads this
    {
      Look(raw.start + off, raw.end + off, err,
           Shift(data, off), Shift(key, off), Shift(val, off), ShiftAll(attr, off))
    }

    ghost function Now(): State
      reads this
    {
      State(Place(), nAttrReturned, tt, rawTag, textIsRaw, convertNUL, allowCDATA)
    }

    /** NewTokenizerFragment; NewTokenizer passes no context tag. */
    constructor (reader: Source, contextTag: Bytes)
      requires reader.pos <= |reader.input|
      ensures Valid() && fresh(buf) && r == reader
      ensures Now() == Fresh(r.pos, contextTag)
    {
      r := reader;
      buf := new Byte[4096];
      len, raw, data, key, val, attr := 0, Span(0, 0), Span(0, 0), Span(0, 0), Span(0, 0), [];
      nAttrReturned := 0;
      tt, err, readErr, textIsRaw, convertNUL, allowCDATA := ErrorToken, false, false, false, false, false;
      off := reader.pos;
      var s := LowerAll(contextTag);
      rawTag := if s in RAW_TAGS then s else [];
    }

    method MoveSpans(x: int)
      modifies `data, `key, `val, `attr
      ensures data == Shift(old(data), -x) && key == Shift(old(key), -x) && val == Shift(old(val), -x)
      ensures attr == ShiftAll(old(attr), -x)
    {
      var i := 0;
      while i < |attr|
        modifies `attr
        invariant 0 <= i <= |attr| == |old(attr)|
        invariant forall k :: 0 <= k < i ==> attr[k] == ShiftPair(old(attr)[k], -x)
        invariant forall k :: i <= k < |attr| ==> attr[k] == old(attr)[k]
      {
        attr := attr[i := ShiftPair(attr[i], -x)];
        i := i + 1;
      }
      data, key, val := Shift(data, -x), Shift(key, -x), Shift(val, -x);
    }

    /** buf1 of readByte: the d live bytes at the front of a buffer with room for at least one more. */
    method CopyLive(d: nat) returns (buf1: array<Byte>)
      requires Valid() && raw.start + d == raw.end
      modifies buf
      ensures (buf1 == buf || fresh(buf1)) && d < buf1.Length
      ensures forall k :: 0 <= k < d ==> buf1[k] == r.input[off + raw.start + k]
    {
      var c := buf.Length;
      buf1 := buf;
      if 2 * d > c {
        buf1 := new Byte[2 * c];
      }
      forall k | 0 <= k < d {
        buf1[k] := buf[raw.start + k];
      }
    }

    /** Where the spans are in the input is not changed. */
    method ShiftMarks()
      modifies `data, `key, `val, `attr, `off
      ensures off == old(off) + raw.start
      ensures Shift(data, off) == old(Shift(data, off)) && Shift(key, off) == old(Shift(key, off))
      ensures Shift(val, off) == old(Shift(val, off)) && ShiftAll(attr, off) == old(ShiftAll(attr, off))
    {
      ShiftTwice(attr, -raw.start, off + raw.start);
      off := off + raw.start;
      if raw.start != 0 {
        MoveSpans(raw.start);
      }
    }

    /** The slices are cut anew: the buffer is b, with d live bytes at its front. */
    method UseBuffer(b: array<Byte>, d: nat)
      requires 0 <= off && off + d == r.pos <= |r.input| && d < b.Length
      requires (err ==> readErr) && (readErr ==> r.pos == |r.input|) && (rawTag == [] || rawTag in RAW_TAGS)
      requires forall k :: 0 <= k < d ==> b[k] == r.input[off + k]
      modifies `raw, `len, `buf
      ensures Holds(0) && raw == Span(0, d) && len == d && buf == b
    {
      raw, len, buf := Span(0, d), d, b;
    }

    /** The live bytes move to the front of the buffer. */
    method MoveToFront()
      requires Valid() && raw.end == len
      modifies this, buf
      ensures Valid() && (buf == old(buf) || fresh(buf))
      ensures Now() == old(Now()) && raw.start == 0 && raw.end == len < buf.Length && readErr == old(readErr)
    {
      hide Shift, ShiftAll;
      var d := raw.end - raw.start;
      var buf1 := CopyLive(d);
      ShiftMarks();
      UseBuffer(buf1, d);
    }

    /** The refilling half of readByte. */
    method Fill() returns (n: nat)
      requires Valid() && raw.end == len && !readErr
      modifies this, r, buf
      ensures Valid() && (buf == old(buf) || fresh(buf))
      ensures Now() == old(Now()) && raw.end + n == len && (n == 0 ==> readErr)
    {
      hide ShiftAll;
      MoveToFront();
      n, readErr := r.ReadAtLeastOneByte(buf, raw.end);
      len := raw.end + n;
    }

    method ReadByte() returns (c: Byte)
      requires Valid()
      modifies this, r, buf
      ensures Valid() && (buf == old(buf) || fresh(buf))
      ensures Now() == old(Now()).(look := Step(r.input, old(Place())))
      ensures !err ==> old(Place()).end < |r.input| && c == r.input[old(Place()).end]
    {
      hide Shift, ShiftAll;
      if raw.end >= len {
        if readErr {
          err := true;
          return 0;
        }
        var n := Fill();
        if n == 0 {
          err := true;
          return 0;
        }
      }
      c := buf[raw.end];
      raw := raw.(end := raw.end + 1);
    }

    /** The state in terms of the fields, for proofs that hide what it is. */
    lemma See()
      ensures Now() == State(Place(), nAttrReturned, tt, rawTag, textIsRaw, convertNUL, allowCDATA)
      ensures Place().start == raw.start + off && Place().end == raw.end + off && Place().err == err
      ensures Place().data == Span(data.start + off, data.end + off)
    {
    }

    /** z.raw.end -= n */
    method Unread(n: nat)
      requires Valid() && raw.start + n <= raw.end && (n > 0 ==> !err)
      modifies `raw
      ensures Valid() && Now() == old(Now()).(look := old(Place()).(end := old(Place()).end - n))
    {
      raw := raw.(end := raw.end - n);
    }

    /** z.data.start = z.raw.end */
    method StartData()
      requires Valid()
      modifies `data
      ensures Valid()
      ensures Now() == old(Now()).(look := old(Place()).(data := Span(old(Place()).end, old(Place()).data.end)))
    {
      hide ShiftAll;
      data := data.(start := raw.end);
    }

    /** z.data.end = z.raw.end - n */
    method EndData(n: int)
      requires Valid()
      modifies `data
      ensures Valid()
      ensures Now() == old(Now()).(look := old(Place()).(data := Span(old(Place()).data.start, old(Place()).end - n)))
    {
      hide ShiftAll;
      data := data.(end := raw.end - n);
    }

    /** z.raw.end += n, over bytes that have been read before. */
    method Reread(n: nat)
      requires Valid() && raw.end + n <= len && !err
      modifies `raw
      ensures Valid() && Now() == old(Now()).(look := old(Place()).(end := old(Place()).end + n))
    {
      raw := raw.(end := raw.end + n);
    }

    method SkipWhiteSpace()
      requires Valid()
      modifies this, r, buf
      ensures Valid() && (buf == old(buf) || fresh(buf))
      ensures Now() == old(Now()).(look := SkipSpace(r.input, old(Place())))
    {
      hide Valid, ShiftAll, SPACES;
      if err {
        return;
      }
      while true
        invariant Valid() && (buf == old(buf) || fresh(buf)) && !err
        invariant Now() == old(Now()).(look := old(Place()).(end := Place().end))
        invariant Skip(r.input, Place().end) == Skip(r.input, old(Place()).end)
        invariant old(Place()).end <= Place().end
        decreases |r.input| - Place().end
      {
        var c := ReadByte();
        if err {
          return;
        }
        if c !in SPACES {
          Unread(1);
          return;
        }
      }
    }

    /** The loop of readRawEndTag and of scriptDataDoubleEscapeStart: a lower-case word is read in either case. */
    method ReadWord(word: Bytes) returns (yes: bool)
      requires Valid() && !err && LowerCase(word)
      modifies this, r, buf
      ensures Valid() && (buf == old(buf) || fresh(buf))
      ensures var p, k := old(Place()).end, Matched(r.input, old(Place()).end, word);
        && yes == (k == |word|)
        && Now() == old(Now()).(look := old(Place()).(end := p + k, err := !yes && p + k == |r.input|))
    {
      hide Valid, ShiftAll, Matched, Lower;
      ghost var p := Place().end;
      var i := 0;
      while i < |word|
        invariant Valid() && (buf == old(buf) || fresh(buf)) && i <= |word|
        invariant Now() == old(Now()).(look := old(Place()).(end := p + i))
        invariant i <= Matched(r.input, p, word)
      {
        var c := ReadByte();
        if err {
          return false;
        }
        LowerIs(c, word[i]);
        if c != word[i] && c != word[i] - 0x20 {
          Unread(1);
          return false;
        }
        i := i + 1;
      }
      return true;
    }

    /** Whether the raw text ends here; if so, its end tag is left to be read again. */
    method ReadRawEndTag() returns (yes: bool)
      requires Valid() && !err && Place().start + 2 <= Place().end && rawTag in RAW_TAGS
      modifies this, r, buf
      ensures Valid() && (buf == old(buf) || fresh(buf))
      ensures var f := RawEndTag(r.input, old(Place()).end, old(rawTag));
        yes == f.yes && Now() == old(Now()).(look := old(Place()).(end := f.end, err := f.err))
      ensures yes ==> raw.end + 3 + |rawTag| <= len
    {
      hide Valid, ShiftAll, Matched, RAW_TAGS, NAME_STOPS, LowerCase;
      RawTagsAreLower(rawTag);
      var whole := ReadWord(rawTag);
      if !whole {
        return false;
      }
      var c := ReadByte();
      if err {
        return false;
      }
      if c in NAME_STOPS {
        Unread(3 + |rawTag|);
        return true;
      }
      Unread(1);
      return false;
    }

    /** Whether "</" has been read. */
    method ReadTagOpen() returns (yes: bool)
      requires Valid() && !err
      modifies this, r, buf
      ensures Valid() && (buf == old(buf) || fresh(buf))
      ensures var o := TagOpen(r.input, old(Place()).end);
        yes == o.yes && Now() == old(Now()).(look := old(Place()).(end := o.end, err := o.err))
    {
      hide Valid, ShiftAll;
      var c := ReadByte();
      if err || c != LT {
        return false;
      }
      c := ReadByte();
      return !err && c == SLASH;
    }

    method ReadRawText()
      requires Valid() && !err && rawTag in RAW_TAGS
      modifies this, r, buf
      ensures Valid() && (buf == old(buf) || fresh(buf))
      ensures var (end, e) := RawText(r.input, old(Place()).end, old(rawTag));
        Now() == old(Now()).(look := old(Place()).(end := end, err := e))
    {
      hide Valid, Now, Place, TagOpen, RawEndTag, RAW_TAGS;
      See();
      while true
        invariant Valid() && (buf == old(buf) || fresh(buf)) && !err
        invariant Now() == old(Now()).(look := old(Place()).(end := Place().end)) && old(Place()).end <= Place().end
        invariant Place().end <= |r.input|
        invariant RawText(r.input, Place().end, rawTag) == RawText(r.input, old(Place()).end, rawTag)
        decreases |r.input| - Place().end
      {
        See();
        var open := ReadTagOpen();
        See();
        if err {
          return;
        }
        if open {
          var ended := ReadRawEndTag();
          See();
          if ended || err {
            return;
          }
        }
      }
    }

    /** scriptDataEndTagOpen, scriptDataEscapedEndTagOpen and scriptDataDoubleEscapeEnd. */
    method ReadScriptEndTag(q: ScriptState) returns (done: bool, next: ScriptState)
      requires Valid() && !err && Place().start + Read(q) <= Place().end && rawTag == SCRIPT
      requires q in {EndTagOpen, EscapedEndTagOpen, DoubleEscapeEnd}
      modifies this, r, buf
      ensures Valid() && (buf == old(buf) || fresh(buf))
      ensures var s1 := Script1(r.input, old(Place()).end, q);
        && Now() == old(Now()).(look := old(Place()).(end := s1.end, err := s1.Return? && s1.err))
        && done == s1.Return? && (!done ==> next == s1.state)
    {
      hide Valid, ShiftAll, RawEndTag, RAW_TAGS, Fits;
      ScriptIsRaw();
      var ended := ReadRawEndTag();
      if q.DoubleEscapeEnd? {
        if ended {
          Reread(9);
          return false, Escaped;
        }
        return err, DoubleEscaped;
      }
      return ended || err, if q.EndTagOpen? then Data else Escaped;
    }

    /** scriptDataDoubleEscapeStart. */
    method ReadScriptStart() returns (done: bool, next: ScriptState)
      requires Valid() && !err && Place().start + Read(DoubleEscapeStart) <= Place().end && rawTag == SCRIPT
      modifies this, r, buf
      ensures Valid() && (buf == old(buf) || fresh(buf))
      ensures var s1 := Script1(r.input, old(Place()).end, DoubleEscapeStart);
        && Now() == old(Now()).(look := old(Place()).(end := s1.end, err := s1.Return? && s1.err))
        && done == s1.Return? && (!done ==> next == s1.state)
    {
      hide Valid, ShiftAll, Matched, RAW_TAGS, NAME_STOPS, Fits;
      next := Escaped;
      var whole := ReadWord(SCRIPT);
      if err || !whole {
        return err, next;
      }
      var c := ReadByte();
      if err {
        return true, next;
      }
      if c in NAME_STOPS {
        return false, DoubleEscaped;
      }
      Unread(1);
      return false, next;
    }

    /** One label of readScript: whether readScript returns, and which label it goes to otherwise. */
    method ReadScriptLabel(q: ScriptState) returns (done: bool, next: ScriptState)
      requires Valid() && !err && Place().start + Read(q) <= Place().end && rawTag == SCRIPT
      modifies this, r, buf
      ensures Valid() && (buf == old(buf) || fresh(buf))
      ensures var s1 := Script1(r.input, old(Place()).end, q);
        && Now() == old(Now()).(look := old(Place()).(end := s1.end, err := s1.Return? && s1.err))
        && done == s1.Return? && (!done ==> next == s1.state)
    {
      hide Valid, ShiftAll, After, ScriptEnd, ScriptStart, Fits;
      if q in {EndTagOpen, EscapedEndTagOpen, DoubleEscapeEnd} {
        done, next := ReadScriptEndTag(q);
        return;
      }
      if q == DoubleEscapeStart {
        done, next := ReadScriptStart();
        return;
      }
      var c := ReadByte();
      if err {
        return true, q;
      }
      var j := After(q, c);
      if j.reconsume {
        Unread(1);
      }
      return false, j.state;
    }

    method ReadScript()
      requires Valid() && !err && rawTag == SCRIPT
      modifies this, r, buf
      ensures Valid() && (buf == old(buf) || fresh(buf))
      ensures var (end, e) := Script(r.input, old(Place()).end, Data);
        Now() == old(Now()).(look := old(Place()).(end := end, err := e, data := old(Place()).data.(end := end)))
    {
      hide Valid, ShiftAll, Script1;
      var q := Data;
      while true
        invariant Valid() && (buf == old(buf) || fresh(buf)) && !err && Place().start + Read(q) <= Place().end
        invariant Now() == old(Now()).(look := old(Place()).(end := Place().end))
        invariant Script(r.input, Place().end, q) == Script(r.input, old(Place()).end, Data)
        decreases |r.input| - Place().end, Rank(q)
      {
        var done;
        done, q := ReadScriptLabel(q);
        if done {
          data := data.(end := raw.end);
          return;
        }
      }
    }

    /** The part of readRawOrRCDATA for all elements but script. */
    method ReadRCDATA()
      requires Valid() && !err && rawTag in RAW_TAGS
      modifies this, r, buf
      ensures Valid() && (buf == old(buf) || fresh(buf))
      ensures var (end, e) := RawText(r.input, old(Place()).end, old(rawTag));
        var l := old(Place()).(end := end, err := e, data := old(Place()).data.(end := end));
        Now() == old(Now()).(look := l, textIsRaw := old(rawTag) != TEXTAREA && old(rawTag) != TITLE)
    {
      hide Valid, ShiftAll, RawText, RAW_TAGS, TEXTAREA, TITLE;
      ReadRawText();
      data := data.(end := raw.end);
      textIsRaw := rawTag != TEXTAREA && rawTag != TITLE;
    }

    method ReadRawOrRCDATA()
      requires Valid() && !err && rawTag in RAW_TAGS && rawTag != PLAINTEXT
      modifies this, r, buf
      ensures Valid() && (buf == old(buf) || fresh(buf))
      ensures Now() == RawPart(r.input, old(Now()))
    {
      hide Valid, ShiftAll, Script, RawText, RAW_TAGS, SCRIPT, PLAINTEXT, TEXTAREA, TITLE;
      RawTagsAreLower(rawTag);
      if rawTag == SCRIPT {
        ReadScript();
        textIsRaw := true;
      } else {
        ReadRCDATA();
      }
      ClearRawTag();
    }

    /** z.rawTag = "" */
    method ClearRawTag()
      requires Valid()
      modifies `rawTag
      ensures Valid() && Now() == old(Now()).(rawTag := [])
    {
      rawTag := [];
    }

    /** The loop of readUntilCloseAngle, readTagName and the attribute readers: c is the byte that stops it. */
    method ReadUntil(stops: set<Byte>) returns (c: Byte)
      requires Valid()
      modifies this, r, buf
      ensures Valid() && (buf == old(buf) || fresh(buf))
      ensures var p, q := old(Place()).end, Until(r.input, old(Place()).end, stops);
        && Now() == old(Now()).(look := old(Place()).(end := if q == |r.input| then q else q + 1,
                                                      err := q == |r.input|))
        && (!err ==> c == r.input[q])
    {
      hide Valid, ShiftAll;
      ghost var p := Place().end;
      while true
        invariant Valid() && (buf == old(buf) || fresh(buf)) && p <= Place().end
        invariant Now() == old(Now()).(look := old(Place()).(end := Place().end))
        invariant Until(r.input, Place().end, stops) == Until(r.input, p, stops)
        decreases |r.input| - Place().end
      {
        c := ReadByte();
        if err || c in stops {
          return;
        }
      }
    }

    method ReadUntilCloseAngle()
      requires Valid()
      modifies this, r, buf
      ensures Valid() && (buf == old(buf) || fresh(buf))
      ensures Now() == old(Now()).(look := UntilAngle(r.input, old(Place())))
    {
      hide Valid, ShiftAll, Until;
      data := data.(start := raw.end);
      var c := ReadUntil({GT});
      data := data.(end := if err then raw.end else raw.end - 1);
    }

    /** One round of the loop in readComment: whether it returns, and the dash count otherwise. */
    method ReadCommentByte(dashCount: nat) returns (done: bool, n: nat)
      requires Valid() && !err
      modifies this, r, buf
      ensures Valid() && (buf == old(buf) || fresh(buf))
      ensures var l, c := old(Place()), Comment1(r.input, old(Place()).end, dashCount);
        && done == c.Close? && (!done ==> n == c.dashes)
        && Now() == old(Now()).(look := if done then l.(data := l.data.(end := c.data), end := c.end, err := c.err)
                                        else l.(end := c.end))
    {
      hide Valid, ShiftAll;
      n := 0;
      var c := ReadByte();
      if err {
        EndData(if dashCount > 2 then 2 else dashCount);
        return true, n;
      }
      if c == DASH {
        return false, dashCount + 1;
      }
      if c == GT && dashCount >= 2 {
        EndData(3);
        return true, n;
      }
      if c == BANG && dashCount >= 2 {
        done := ReadBehindBang();
      } else {
        done := false;
      }
    }

    /** Behind a "--!": whether the comment is over. */
    method ReadBehindBang() returns (done: bool)
      requires Valid() && !err
      modifies this, r, buf
      ensures Valid() && (buf == old(buf) || fresh(buf))
      ensures var l, p := old(Place()), old(Place()).end;
        && done == (p == |r.input| || r.input[p] == GT)
        && Now() == old(Now()).(look := if p == |r.input| then l.(data := Span(l.data.start, p), err := true)
                                        else if done then l.(data := Span(l.data.start, p - 3), end := p + 1)
                                        else l.(end := p + 1))
    {
      hide Valid, ShiftAll;
      var c := ReadByte();
      if err {
        EndData(0);
        return true;
      }
      if c == GT {
        EndData(4);
        return true;
      }
      return false;
    }

    method ReadCommentBody()
      requires Valid() && !err
      modifies this, r, buf
      ensures Valid() && (buf == old(buf) || fresh(buf))
      ensures var (d, end, e) := CommentEnd(r.input, old(Place()).end, 2);
        Now() == old(Now()).(look := old(Place()).(data := old(Place()).data.(end := d), end := end, err := e))
    {
      hide Valid, ShiftAll, Comment1;
      ghost var l := Place();
      var dashCount := 2;
      while true
        invariant Valid() && (buf == old(buf) || fresh(buf)) && !err
        invariant Now() == old(Now()).(look := l.(end := Place().end)) && l.end <= Place().end
        invariant CommentEnd(r.input, Place().end, dashCount) == CommentEnd(r.input, l.end, 2)
        decreases |r.input| - Place().end
      {
        var done;
        done, dashCount := ReadCommentByte(dashCount);
        if done {
          return;
        }
      }
    }

    method ReadComment()
      requires Valid() && !err
      modifies this, r, buf
      ensures Valid() && (buf == old(buf) || fresh(buf))
      ensures var p := old(Place()).end; var (d, end, e) := Comment(r.input, p);
        Now() == old(Now()).(look := old(Place()).(data := d, end := end, err := e))
    {
      hide Valid, ShiftAll;
      data := data.(start := raw.end);
      ReadCommentBody();
      if data.end < data.start {
        data := data.(end := data.start);
      }
    }

    method ReadDoctype() returns (yes: bool)
      requires Valid() && !err && data.start == raw.end
      modifies this, r, buf
      ensures Valid() && (buf == old(buf) || fresh(buf))
      ensures var (b, l) := Doctype(r.input, old(Place())); yes == b && Now() == old(Now()).(look := l)
    {
      hide Valid, ShiftAll, Matched, Skip, UntilAngle;
      DoctypeIsLower();
      var whole := ReadWord(DOCTYPE);
      if err {
        data := data.(end := raw.end);
        return false;
      }
      if !whole {
        Unread(raw.end - data.start);
        return false;
      }
      ReadDoctypeData();
      return true;
    }

    /** What stands behind the keyword. */
    method ReadDoctypeData()
      requires Valid() && !err
      modifies this, r, buf
      ensures Valid() && (buf == old(buf) || fresh(buf))
      ensures var l, q := old(Place()), Skip(r.input, old(Place()).end);
        Now() == old(Now()).(look := if q == |r.input| then l.(data := Span(q, q), end := q, err := true)
                                     else UntilAngle(r.input, l.(end := q)))
    {
      hide Valid, ShiftAll, Skip, UntilAngle;
      SkipWhiteSpace();
      if err {
        data := Span(raw.end, raw.end);
        return;
      }
      ReadUntilCloseAngle();
    }

    /** The loop of readCDATA over its keyword. */
    method ReadExactly(word: Bytes) returns (yes: bool)
      requires Valid()
      modifies this, r, buf
      ensures Valid() && (buf == old(buf) || fresh(buf))
      ensures var p, k := old(Place()).end, Same(r.input, old(Place()).end, word);
        && yes == (k == |word|)
        && Now() == old(Now()).(look := if yes then old(Place()).(end := p + k)
                                        else if p + k == |r.input| then old(Place()).(end := p + k, err := true)
                                        else old(Place()))
    {
      hide Valid, ShiftAll, Same;
      ghost var p := Place().end;
      var i := 0;
      while i < |word|
        invariant Valid() && (buf == old(buf) || fresh(buf)) && i <= |word|
        invariant Now() == old(Now()).(look := old(Place()).(end := p + i))
        invariant i <= Same(r.input, p, word)
      {
        var c := ReadByte();
        if err {
          return false;
        }
        if c != word[i] {
          Unread(i + 1);
          return false;
        }
        i := i + 1;
      }
      return true;
    }

    method ReadCDATA() returns (yes: bool)
      requires Valid() && (err || data.start == raw.end)
      modifies this, r, buf
      ensures Valid() && (buf == old(buf) || fresh(buf))
      ensures var (b, l) := CdataSection(r.input, old(Place())); yes == b && Now() == old(Now()).(look := l)
    {
      hide Valid, ShiftAll, Same, CdataBody;
      var whole := ReadExactly(CDATA);
      if !whole {
        if err {
          EndData(0);
        }
        return false;
      }
      StartData();
      ReadCdataBody();
      return true;
    }

    /** One round of the loop in readCDATA: whether it returns, and the bracket count otherwise. */
    method ReadCdataByte(brackets: nat) returns (done: bool, n: nat)
      requires Valid() && !err
      modifies this, r, buf
      ensures Valid() && (buf == old(buf) || fresh(buf))
      ensures var l, c := old(Place()), Cdata1(r.input, old(Place()).end, brackets);
        && done == c.Close? && (!done ==> n == c.dashes)
        && Now() == old(Now()).(look := if done then l.(data := l.data.(end := c.data), end := c.end, err := c.err)
                                        else l.(end := c.end))
    {
      hide Valid, ShiftAll;
      n := 0;
      var c := ReadByte();
      if err {
        data := data.(end := raw.end);
        return true, n;
      }
      if c == BRACKET {
        return false, brackets + 1;
      }
      if c == GT && brackets >= 2 {
        data := data.(end := raw.end - 3);
        return true, n;
      }
      return false, n;
    }

    method ReadCdataBody()
      requires Valid() && !err
      modifies this, r, buf
      ensures Valid() && (buf == old(buf) || fresh(buf))
      ensures var (d, end, e) := CdataBody(r.input, old(Place()).end, 0);
        Now() == old(Now()).(look := old(Place()).(data := old(Place()).data.(end := d), end := end, err := e))
    {
      hide Valid, ShiftAll, Cdata1;
      ghost var l := Place();
      var brackets := 0;
      while true
        invariant Valid() && (buf == old(buf) || fresh(buf)) && !err
        invariant Now() == old(Now()).(look := l.(end := Place().end)) && l.end <= Place().end
        invariant CdataBody(r.input, Place().end, brackets) == CdataBody(r.input, l.end, 0)
        decreases |r.input| - Place().end
      {
        var done;
        done, brackets := ReadCdataByte(brackets);
        if done {
          return;
        }
      }
    }

    /** The end of readMarkupDeclaration: a doctype, a CDATA section or a bogus comment. */
    method ReadDeclaration() returns (t: TokenType)
      requires Valid() && !err && data.start == raw.end
      modifies this, r, buf
      ensures Valid() && (buf == old(buf) || fresh(buf))
      ensures var (m, l) := Declaration(r.input, old(Place()), old(allowCDATA));
        t == m && Now() == old(Now()).(look := l, convertNUL := old(convertNUL) || m == TextToken)
    {
      hide Valid, ShiftAll, Doctype, CdataSection, UntilAngle;
      var isDoctype := ReadDoctype();
      if isDoctype {
        return DoctypeToken;
      }
      if allowCDATA {
        var isCdata := ReadCDATA();
        if isCdata {
          convertNUL := true;
          return TextToken;
        }
      }
      ReadUntilCloseAngle();
      return CommentToken;
    }

    /** The loop at the head of readMarkupDeclaration. */
    method ReadTwoBytes() returns (c0: Byte, c1: Byte)
      requires Valid() && !err
      modifies this, r, buf
      ensures Valid() && (buf == old(buf) || fresh(buf))
      ensures var p, two := old(Place()).end, old(Place()).end + 2 <= |r.input|;
        && Now() == old(Now()).(look := old(Place()).(end := if two then p + 2 else |r.input|, err := !two))
        && (two ==> c0 == r.input[p] && c1 == r.input[p + 1])
    {
      hide Valid, ShiftAll;
      c0 := ReadByte();
      c1 := 0;
      if !err {
        c1 := ReadByte();
      }
    }

    method ReadMarkupDeclaration() returns (t: TokenType)
      requires Valid() && !err
      modifies this, r, buf
      ensures Valid() && (buf == old(buf) || fresh(buf))
      ensures var (m, l) := Markup(r.input, old(Place()), old(allowCDATA));
        t == m && Now() == old(Now()).(look := l, convertNUL := old(convertNUL) || m == TextToken)
    {
      hide Valid, Now, Place, Comment, Declaration;
      ghost var l := Place();
      See();
      StartData();
      See();
      var c0, c1 := ReadTwoBytes();
      See();
      if err {
        EndData(0);
        return CommentToken;
      }
      if c0 == DASH && c1 == DASH {
        ReadComment();
        return CommentToken;
      }
      Unread(2);
      See();
      assert Place() == l.(data := l.data.(start := l.end));
      t := ReadDeclaration();
    }

    /** z.data.start = z.raw.end - 1 */
    method StartName()
      requires Valid()
      modifies `data
      ensures Valid()
      ensures Now() == old(Now()).(look := old(Place()).(data := Span(old(Place()).end - 1, old(Place()).data.end)))
    {
      hide ShiftAll;
      data := data.(start := raw.end - 1);
    }

    method ReadTagName()
      requires Valid() && Place().start < Place().end
      modifies this, r, buf
      ensures Valid() && (buf == old(buf) || fresh(buf))
      ensures Now() == old(Now()).(look := Name(r.input, old(Place())))
    {
      hide Valid, Now, Place, Until, NAME_STOPS, SPACES;
      See();
      StartName();
      See();
      var c := ReadUntil(NAME_STOPS);
      See();
      if !err && c in SPACES {
        EndData(1);
      } else {
        if !err {
          Unread(1);
          See();
        }
        EndData(0);
      }
    }

    method ReadTagAttrKey()
      requires Valid()
      modifies this, r, buf
      ensures Valid() && (buf == old(buf) || fresh(buf))
      ensures Now() == old(Now()).(look := AttrKey(r.input, old(Place())))
    {
      hide Valid, Now, Place, Until, KEY_STOPS;
      See();
      StartKey();
      See();
      var c := ReadUntil(KEY_STOPS);
      See();
      if err {
        EndKey(0);
      } else if c == EQ || c == GT {
        Unread(1);
        See();
        EndKey(0);
      } else {
        EndKey(1);
      }
    }

    /** z.pendingAttr[0].start = z.raw.end */
    method StartKey()
      requires Valid()
      modifies `key
      ensures Valid()
      ensures Now() == old(Now()).(look := old(Place()).(key := Span(old(Place()).end, old(Place()).key.end)))
    {
      hide ShiftAll;
      key := key.(start := raw.end);
    }

    /** z.pendingAttr[0].end = z.raw.end - n */
    method EndKey(n: int)
      requires Valid()
      modifies `key
      ensures Valid()
      ensures Now() == old(Now()).(look := old(Place()).(key := Span(old(Place()).key.start, old(Place()).end - n)))
    {
      hide ShiftAll;
      key := key.(end := raw.end - n);
    }

    /** z.pendingAttr[1].start = z.raw.end - n */
    method StartVal(n: int)
      requires Valid()
      modifies `val
      ensures Valid()
      ensures Now() == old(Now()).(look := old(Place()).(val := Span(old(Place()).end - n, old(Place()).val.end)))
    {
      hide ShiftAll;
      val := val.(start := raw.end - n);
    }

    /** z.pendingAttr[1].end = z.raw.end - n */
    method EndVal(n: int)
      requires Valid()
      modifies `val
      ensures Valid()
      ensures Now() == old(Now()).(look := old(Place()).(val := Span(old(Place()).val.start, old(Place()).end - n)))
    {
      hide ShiftAll;
      val := val.(end := raw.end - n);
    }

    method ReadQuoted(quote: Byte)
      requires Valid()
      modifies this, r, buf
      ensures Valid() && (buf == old(buf) || fresh(buf))
      ensures Now() == old(Now()).(look := Quoted(r.input, old(Place()), quote))
    {
      hide Valid, Now, Place, Until;
      See();
      StartVal(0);
      See();
      var c := ReadUntil({quote});
      See();
      EndVal(if err then 0 else 1);
    }

    method ReadBare()
      requires Valid() && Place().start < Place().end
      modifies this, r, buf
      ensures Valid() && (buf == old(buf) || fresh(buf))
      ensures Now() == old(Now()).(look := Bare(r.input, old(Place())))
    {
      hide Valid, Now, Place, Until, VALUE_STOPS;
      See();
      StartVal(1);
      See();
      var c := ReadUntil(VALUE_STOPS);
      See();
      if !err && c == GT {
        Unread(1);
        See();
        EndVal(0);
      } else {
        EndVal(if err then 0 else 1);
      }
    }

    method ReadAttrValue()
      requires Valid() && !err && Place().end < |r.input| && val.start <= val.end <= raw.end
      modifies this, r, buf
      ensures Valid() && (buf == old(buf) || fresh(buf))
      ensures Now() == old(Now()).(look := AttrValue(r.input, old(Place())))
    {
      hide Valid, ShiftAll, Quoted, Bare;
      var quote := ReadByte();
      if quote == GT {
        Unread(1);
      } else if quote == QUOTE || quote == DOUBLE_QUOTE {
        ReadQuoted(quote);
      } else {
        ReadBare();
      }
    }

    /** The part of readTagAttrVal in front of the value: whether it goes on. */
    method ReadEquals() returns (yes: bool)
      requires Valid()
      modifies this, r, buf
      ensures Valid() && (buf == old(buf) || fresh(buf))
      ensures var (b, l) := Equals(r.input, old(Place())); yes == b && Now() == old(Now()).(look := l)
    {
      hide Valid, Now, Place, Skip;
      See();
      SkipWhiteSpace();
      See();
      if err {
        return false;
      }
      yes := ReadSign();
      See();
      if yes {
        SkipWhiteSpace();
        See();
        return !err;
      }
    }

    /** The "=", if there is one. */
    method ReadSign() returns (yes: bool)
      requires Valid() && !err && Place().end < |r.input|
      modifies this, r, buf
      ensures Valid() && (buf == old(buf) || fresh(buf))
      ensures var p := old(Place()).end;
        && yes == (r.input[p] == EQ)
        && Now() == old(Now()).(look := old(Place()).(end := if yes then p + 1 else p))
    {
      hide Valid, ShiftAll;
      var c := ReadByte();
      if err {
        return false;
      }
      if c != EQ {
        Unread(1);
        return false;
      }
      return true;
    }

    method ReadTagAttrVal()
      requires Valid()
      modifies this, r, buf
      ensures Valid() && (buf == old(buf) || fresh(buf))
      ensures Now() == old(Now()).(look := AttrVal(r.input, old(Place())))
    {
      hide Valid, ShiftAll, Equals, AttrValue;
      val := Span(raw.end, raw.end);
      var yes := ReadEquals();
      if yes {
        ReadAttrValue();
      }
    }

    /** One round of the loop in readTag, the first byte of an attribute unread. */
    method ReadAttribute(saveAttr: bool)
      requires Valid() && !err && Place().end < |r.input| && r.input[Place().end] != GT
      modifies this, r, buf
      ensures Valid() && (buf == old(buf) || fresh(buf))
      ensures Now() == old(Now()).(look := Attribute(r.input, old(Place()), saveAttr))
    {
      hide Valid, ShiftAll, AttrKey, AttrVal, SkipSpace, SaveAttr;
      ReadTagAttrKey();
      ReadTagAttrVal();
      SaveAttribute(saveAttr);
      SkipWhiteSpace();
    }

    /** What readTag does with a key and a value that it has read. */
    method SaveAttribute(saveAttr: bool)
      requires Valid()
      modifies `attr
      ensures Valid() && Now() == old(Now()).(look := SaveAttr(old(Place()), saveAttr))
    {
      hide Valid, ShiftAll;
      if saveAttr && key.start != key.end {
        ShiftAppend(attr, key, val, off);
        attr := attr + [(key, val)];
      }
    }

    method ReadTag(saveAttr: bool)
      requires Valid() && !err && Place().start < Place().end
      modifies this, r, buf
      ensures Valid() && (buf == old(buf) || fresh(buf))
      ensures Now() == old(Now()).(look := Tag(r.input, old(Place()), saveAttr), used := 0)
    {
      hide Valid, ShiftAll, Name, SkipSpace, Attributes;
      attr, nAttrReturned := [], 0;
      ReadTagName();
      SkipWhiteSpace();
      if err {
        return;
      }
      ReadAttributes(saveAttr);
    }

    /** One round of the loop in readTag: whether it is the last one. */
    method ReadAttributeOrEnd(saveAttr: bool) returns (last: bool)
      requires Valid() && !err
      modifies this, r, buf
      ensures Valid() && (buf == old(buf) || fresh(buf))
      ensures var (b, l) := Attribute1(r.input, old(Place()), saveAttr); last == b && Now() == old(Now()).(look := l)
    {
      hide Valid, ShiftAll, Attribute;
      var c := ReadByte();
      if err || c == GT {
        return true;
      }
      Unread(1);
      ReadAttribute(saveAttr);
      return err;
    }

    method ReadAttributes(saveAttr: bool)
      requires Valid() && !err
      modifies this, r, buf
      ensures Valid() && (buf == old(buf) || fresh(buf))
      ensures Now() == old(Now()).(look := Attributes(r.input, old(Place()), saveAttr))
    {
      hide Valid, ShiftAll, Attribute1;
      while true
        invariant Valid() && (buf == old(buf) || fresh(buf)) && !err
        invariant Now() == old(Now()).(look := Place())
        invariant Attributes(r.input, Place(), saveAttr) == Attributes(r.input, old(Place()), saveAttr)
        decreases |r.input| - Place().end
      {
        var last := ReadAttributeOrEnd(saveAttr);
        if last {
          return;
        }
      }
    }

    /** The bytes of a span of the current token. */
    method Slice(x: Span) returns (s: Bytes)
      requires Valid() && raw.start <= x.start <= x.end <= raw.end
      ensures s == r.input[x.start + off..x.end + off]
    {
      s := buf[x.start..x.end];
      assert |s| == x.end - x.start;
    }

    method StartTagIn(ss: seq<Bytes>) returns (yes: bool)
      requires Valid() && DataInside(Place())
      ensures yes == (LowerAll(r.input[Place().data.start..Place().data.end]) in ss)
    {
      hide ShiftAll;
      ghost var name := LowerAll(r.input[Place().data.start..Place().data.end]);
      var n := 0;
      while n < |ss|
        invariant 0 <= n <= |ss| && name !in ss[..n]
      {
        var same := StartTagIs(ss[n]);
        if same {
          return true;
        }
        n := n + 1;
      }
      assert ss[..n] == ss;
      return false;
    }

    /** The inner loop of startTagIn. */
    method StartTagIs(s: Bytes) returns (yes: bool)
      requires Valid() && DataInside(Place())
      ensures yes == (LowerAll(r.input[Place().data.start..Place().data.end]) == s)
    {
      hide ShiftAll;
      ghost var name := LowerAll(r.input[Place().data.start..Place().data.end]);
      if data.end - data.start != |s| {
        return false;
      }
      var i := 0;
      while i < |s|
        invariant 0 <= i <= |s| == |name| && name[..i] == s[..i]
      {
        var c := buf[data.start + i];
        if 0x41 <= c <= 0x5A {
          c := c + 0x20;
        }
        assert c == name[i];
        if c != s[i] {
          return false;
        }
        i := i + 1;
      }
      assert name[..i] == name && s[..i] == s;
      return true;
    }

    /** The switch of readStartTag over the first letter of the tag's name. */
    method StartTagIsRaw() returns (yes: bool)
      requires Valid() && DataInside(Place()) && data.start < data.end
      ensures yes == (LowerAll(r.input[Place().data.start..Place().data.end]) in RAW_TAGS)
    {
      hide ShiftAll, RAW_TAGS;
      var c := buf[data.start];
      if 0x41 <= c <= 0x5A {
        c := c + 0x20;
      }
      RawTagsByLetter(LowerAll(r.input[Place().data.start..Place().data.end]));
      yes := StartTagIn(RawTagsWith(c));
    }

    /** The half of readStartTag that flags the next token as raw. */
    method FlagRaw()
      requires Valid() && DataInside(Place()) && data.start < data.end
      modifies `rawTag
      ensures Valid()
      ensures var name := LowerAll(r.input[Place().data.start..Place().data.end]);
        Now() == old(Now()).(rawTag := if name in RAW_TAGS then name else old(rawTag))
    {
      hide Valid, ShiftAll, RAW_TAGS;
      var isRaw := StartTagIsRaw();
      if isRaw {
        var name := Slice(data);
        SetRawTag(LowerAll(name));
      }
    }

    method ReadStartTag() returns (t: TokenType)
      requires Valid() && !err && Place().start + 2 <= Place().end
      modifies this, r, buf
      ensures Valid() && (buf == old(buf) || fresh(buf))
      ensures Now().(tt := t) == StartTag(r.input, old(Now())) && tt == old(tt)
    {
      hide Valid, ShiftAll, Tag, RAW_TAGS;
      ReadTag(true);
      if err {
        return ErrorToken;
      }
      FlagRaw();
      var last := Slice(Span(raw.end - 2, raw.end));
      t := if last[0] == SLASH then SelfClosingTagToken else StartTagToken;
    }

    method SetRawTag(name: Bytes)
      requires Valid() && name in RAW_TAGS
      modifies `rawTag
      ensures Valid() && Now() == old(Now()).(rawTag := name)
    {
      rawTag := name;
    }

    /** A comment that begins with the byte just read. */
    method ReadBogusComment()
      requires Valid() && !err && Place().start < Place().end
      modifies this, r, buf
      ensures Valid() && (buf == old(buf) || fresh(buf))
      ensures Now() == Bogus(r.input, old(Now()))
    {
      hide Valid, ShiftAll, UntilAngle;
      Unread(1);
      ReadUntilCloseAngle();
      tt := CommentToken;
    }

    /** An end tag, the first letter of its name already read. */
    method ReadNamedEndTag()
      requires Valid() && !err && Place().start < Place().end
      modifies this, r, buf
      ensures Valid() && (buf == old(buf) || fresh(buf))
      ensures var l := Tag(r.input, old(Place()), false);
        Now() == old(Now()).(look := l, used := 0, tt := if l.err then ErrorToken else EndTagToken)
    {
      hide Valid, ShiftAll, Tag;
      ReadTag(false);
      tt := if err then ErrorToken else EndTagToken;
    }

    /** The end tag, empty tag or bogus comment of Next, behind "</". */
    method ReadEndTag()
      requires Valid() && !err && Place().start + 2 <= Place().end && data == Span(raw.start, raw.start)
      modifies this, r, buf
      ensures Valid() && (buf == old(buf) || fresh(buf))
      ensures Now() == EndTag(r.input, old(Now()))
    {
      hide Valid, ShiftAll, Tag, Bogus;
      var c := ReadByte();
      if err {
        data := data.(end := raw.end);
        tt := TextToken;
      } else if c == GT {
        tt := CommentToken;
      } else if IsLetter(c) {
        ReadNamedEndTag();
      } else {
        ReadBogusComment();
      }
    }

    /** One round of the loop in Next: the byte behind a "<" that opens something, or 0. */
    method ReadOpening() returns (c: Byte)
      requires Valid() && !err
      modifies this, r, buf
      ensures Valid() && (buf == old(buf) || fresh(buf))
      ensures var o := Opening(r.input, old(Place()).end);
        && Now() == old(Now()).(look := old(Place()).(end := o.end, err := o.err))
        && (!err ==> (c != 0 <==> o.yes) && (o.yes ==> c == r.input[o.end - 1]))
    {
      hide Valid, ShiftAll;
      c := ReadByte();
      if err || c != LT {
        return 0;
      }
      c := ReadByte();
      if err {
        return 0;
      }
      if !Opens(c) {
        Unread(1);
        return 0;
      }
    }

    /** The loop of Next up to the first tag, comment or declaration. */
    method FindTag() returns (c: Byte)
      requires Valid()
      modifies this, r, buf
      ensures Valid() && (buf == old(buf) || fresh(buf))
      ensures var x := TokenStart(r.input, old(Place()).end);
        && Now() == old(Now()).(look := old(Place()).(end := if x == |r.input| then x else x + 2,
                                                      err := x == |r.input|))
        && (!err ==> c == r.input[x + 1])
    {
      hide Valid, ShiftAll, Opening;
      if err {
        return 0;
      }
      while true
        invariant Valid() && (buf == old(buf) || fresh(buf)) && !err
        invariant Now() == old(Now()).(look := old(Place()).(end := Place().end)) && old(Place()).end <= Place().end
        invariant TokenStart(r.input, Place().end) == TokenStart(r.input, old(Place()).end)
        decreases |r.input| - Place().end
      {
        TokenStartStep(r.input, Place().end);
        c := ReadOpening();
        if err || c != 0 {
          return;
        }
      }
    }

    /** The switch of Next, behind the two bytes that open a token. */
    method ReadToken(c: Byte)
      requires Valid() && !err && Place().start + 2 == Place().end && Opens(c) && c == r.input[Place().end - 1]
      requires data == Span(raw.start, raw.start)
      modifies this, r, buf
      ensures Valid() && (buf == old(buf) || fresh(buf))
      ensures Now() == Opened(r.input, old(Now()))
    {
      hide Valid, ShiftAll, StartTag, EndTag, Markup, Bogus;
      if IsLetter(c) {
        var t := ReadStartTag();
        tt := t;
      } else if c == SLASH {
        ReadEndTag();
      } else if c == BANG {
        var t := ReadMarkupDeclaration();
        tt := t;
      } else {
        ReadBogusComment();
      }
    }

    /** The second half of Next. */
    method ReadPlain()
      requires Valid() && raw.start == raw.end && data == Span(raw.start, raw.start)
      modifies this, r, buf
      ensures Valid() && (buf == old(buf) || fresh(buf))
      ensures Now() == Plain(r.input, old(Now()))
    {
      hide Valid, Now, Place, TokenStart, Opened, Opens;
      See();
      var c := FindTag();
      See();
      if err {
        if raw.start < raw.end {
          EndText();
        } else {
          SetType(ErrorToken);
        }
      } else if raw.start < raw.end - 2 {
        Unread(2);
        See();
        EndText();
      } else {
        ReadToken(c);
      }
    }

    method SetType(t: TokenType)
      requires Valid()
      modifies `tt
      ensures Valid() && Now() == old(Now()).(tt := t)
    {
      tt := t;
    }

    /** A text token ends here. */
    method EndText()
      requires Valid()
      modifies `data, `tt
      ensures Valid()
      ensures var l := old(Place());
        Now() == old(Now()).(look := l.(data := Span(l.data.start, l.end)), tt := TextToken)
    {
      hide ShiftAll;
      EndData(0);
      tt := TextToken;
    }

    /** z.raw.start, z.data.start and z.data.end move to z.raw.end. */
    method StartToken()
      requires Holds(raw.end)
      modifies `raw, `data
      ensures Valid() && raw.start == raw.end && data == Span(raw.start, raw.start)
      ensures rawTag == [] || rawTag in RAW_TAGS
      ensures var p := old(Place()).end; Now() == old(Now()).(look := old(Place()).(start := p, data := Span(p, p)))
    {
      raw := Span(raw.end, raw.end);
      data := raw;
    }

    method ReadAll()
      requires Valid()
      modifies this, r, buf
      ensures Valid() && (buf == old(buf) || fresh(buf))
      ensures Now() == old(Now()).(look := old(Place()).(end := |r.input|, err := true))
    {
      hide Valid, ShiftAll;
      while !err
        invariant Valid() && (buf == old(buf) || fresh(buf))
        invariant Now() == old(Now()).(look := old(Place()).(end := Place().end, err := err))
        decreases !err, |r.input| - Place().end
      {
        var c := ReadByte();
      }
    }

    /** The first half of Next, after a start tag whose content is raw text. */
    method ReadRaw()
      requires Valid() && !err && rawTag in RAW_TAGS
      modifies this, r, buf
      ensures Valid() && (buf == old(buf) || fresh(buf))
      ensures Now() == RawPart(r.input, old(Now()))
    {
      hide Valid, ShiftAll, Script, RawText, RAW_TAGS, SCRIPT, PLAINTEXT, TEXTAREA, TITLE;
      RawTagsAreLower(rawTag);
      if rawTag == PLAINTEXT {
        ReadAll();
        data := data.(end := raw.end);
        textIsRaw := true;
      } else {
        ReadRawOrRCDATA();
      }
    }

    /** Next, behind any raw text. */
    method ReadRest()
      requires Valid() && raw.start <= data.start && data.end <= raw.end
      requires data.end <= data.start ==> raw.start == raw.end && data == Span(raw.start, raw.start)
      modifies this, r, buf
      ensures Valid() && (buf == old(buf) || fresh(buf))
      ensures Now() == TextOrPlain(r.input, old(Now()))
    {
      hide Valid, ShiftAll, Plain;
      if data.end > data.start {
        tt := TextToken;
        convertNUL := true;
      } else {
        textIsRaw := false;
        convertNUL := false;
        ReadPlain();
      }
    }

    method Next() returns (t: TokenType)
      requires Holds(raw.end)
      modifies this, r, buf
      ensures Valid() && (buf == old(buf) || fresh(buf))
      ensures Now() == HtmlTokens.Next(r.input, old(Now())) && t == tt
    {
      hide Holds, Valid, ShiftAll, RawPart, TextOrPlain, RAW_TAGS;
      StartToken();
      if err {
        tt := ErrorToken;
        return tt;
      }
      if rawTag != [] {
        ReadRaw();
      }
      ReadRest();
      t := tt;
    }

    /** Raw. */
    method RawBytes() returns (s: Bytes)
      requires Valid()
      ensures s == Raw(r.input, Now())
    {
      s := Slice(raw);
    }

    /** A slice of the buffer as an array of its own. */
    method Cut(x: Span) returns (a: array<Byte>)
      requires Holds(x.start) && x.start <= x.end <= raw.end
      ensures fresh(a) && a.Length == x.end - x.start && a[..] == r.input[x.start + off..x.end + off]
    {
      a := new Byte[x.end - x.start];
      forall i | 0 <= i < a.Length {
        a[i] := buf[x.start + i];
      }
    }

    /** What has been written to the front of a slice goes back to the buffer. */
    method Paste(x: Span, a: array<Byte>)
      requires Holds(x.end) && raw.start <= x.start <= x.end <= raw.end && a.Length <= x.end - x.start && a != buf
      modifies buf
      ensures Holds(x.end)
    {
      forall i | 0 <= i < a.Length {
        buf[x.start + i] := a[i];
      }
    }

    /** convertNewlines(z.buf[x.start:x.end]) */
    method ConvertLines(x: Span) returns (s: Bytes)
      requires Holds(x.start) && x.start <= x.end <= raw.end
      modifies buf
      ensures Holds(x.end) && |s| <= x.end - x.start
      ensures s == Escape.Newlines(r.input[x.start + off..x.end + off])
    {
      hide Escape.Newlines;
      var a := Cut(x);
      var n := Escape.ConvertNewlines(a);
      s := a[..n];
      Paste(x, a);
    }

    /** unescape(s), where s is stored at the front of z.buf[x.start:x.end] */
    method UnescapeSlice(t: Entities, x: Span, s: Bytes, attribute: bool) returns (u: Bytes)
      requires Compact(t) && Holds(x.end) && raw.start <= x.start <= x.end <= raw.end && |s| <= x.end - x.start
      modifies buf
      ensures Holds(x.end) && u == Unescaped(t, s, attribute)
    {
      hide Holds, Unescaped, Compact;
      var a := NewArray(s);
      var n := Unescape(t, a, attribute);
      u := a[..n];
      Paste(x, a);
    }

    method NewArray(s: Bytes) returns (a: array<Byte>)
      ensures fresh(a) && a[..] == s
    {
      a := new Byte[|s|];
      forall i | 0 <= i < |s| {
        a[i] := s[i];
      }
    }

    /** unescape, on a buffer of its own. */
    method UnescapeCopy(t: Entities, s: Bytes) returns (u: Bytes)
      requires Compact(t)
      ensures u == Unescaped(t, s, false)
    {
      hide Unescaped, Compact;
      var a := NewArray(s);
      var n := Unescape(t, a, false);
      u := a[..n];
    }

    /** Text. The buffer behind the current token is left alone. */
    method Text(t: Entities) returns (s: Bytes)
      requires Compact(t) && Valid() && DataInside(Place())
      modifies `data, buf
      ensures Holds(raw.end)
      ensures s == if IsText(tt) then Content(t, r.input, old(Now())) else []
    {
      hide Holds, ShiftAll, Escape.Newlines, Unescaped, Compact, WithoutNuls;
      if !IsText(tt) {
        HoldsLater(raw.start, raw.end);
        return [];
      }
      var x := data;
      HoldsLater(raw.start, x.start);
      data := Span(raw.end, raw.end);
      s := ConvertLines(x);
      if (convertNUL || tt == CommentToken) && 0 in s {
        s := ReplaceNuls(s);
        if !textIsRaw {
          s := UnescapeCopy(t, s);
        }
      } else {
        NoNuls(s);
        if !textIsRaw {
          s := UnescapeSlice(t, x, s, false);
        }
      }
      HoldsLater(x.end, raw.end);
    }

    lemma HoldsLater(from: int, to: int)
      requires Holds(from) && from <= to
      ensures Holds(to)
    {
    }

    /** lower(z.buf[x.start:x.end]) */
    method LowerSlice(x: Span) returns (s: Bytes)
      requires Holds(x.start) && x.start <= x.end <= raw.end
      modifies buf
      ensures Holds(x.end) && s == LowerAll(r.input[x.start + off..x.end + off])
    {
      hide LowerAll;
      var a := Cut(x);
      LowerInPlace(a);
      s := a[..];
      Paste(x, a);
    }

    method TagName() returns (name: Bytes, hasAttr: bool)
      requires Valid() && DataInside(Place())
      modifies `data, buf
      ensures Holds(old(data).end)
      ensures if IsTag(tt) && old(data).start < old(data).end
        then name == LowerAll(Part(r.input, old(Place()).data)) && hasAttr == (nAttrReturned < |attr|)
        else name == [] && !hasAttr
    {
      hide Holds, ShiftAll, LowerAll;
      var x := data;
      HoldsLater(raw.start, x.start);
      if x.start < x.end && IsTag(tt) {
        data := Span(raw.end, raw.end);
        name := LowerSlice(x);
        return name, nAttrReturned < |attr|;
      }
      HoldsLater(x.start, x.end);
      return [], false;
    }

    /** TagAttr has an attribute to return. */
    predicate HasAttr()
      reads `nAttrReturned, `attr, `tt
    {
      nAttrReturned < |attr| && IsStart(tt)
    }

    method TagAttr(t: Entities) returns (key: Bytes, val: Bytes, moreAttr: bool)
      requires Compact(t)
      requires HasAttr() ==>
        Holds(attr[nAttrReturned].0.start) && PairInside(attr[nAttrReturned], raw.start, raw.end)
      modifies `nAttrReturned, buf
      ensures if old(HasAttr())
        then
          && nAttrReturned == old(nAttrReturned) + 1 && Holds(attr[old(nAttrReturned)].1.end)
          && Attr(key, val) == AttrOf(t, r.input, ShiftPair(attr[old(nAttrReturned)], off))
          && moreAttr == (nAttrReturned < |attr|)
        else
          key == val == [] && !moreAttr && nAttrReturned == old(nAttrReturned) && buf[..] == old(buf[..])
    {
      hide Holds, Compact, LowerAll, Unescaped, Escape.Newlines;
      if nAttrReturned < |attr| && IsStart(tt) {
        var x := attr[nAttrReturned];
        nAttrReturned := nAttrReturned + 1;
        key := LowerSlice(x.0);
        HoldsLater(x.0.end, x.1.start);
        val := ConvertLines(x.1);
        val := UnescapeSlice(t, x.1, val, true);
        return key, val, nAttrReturned < |attr|;
      }
      return [], [], false;
    }

    /** The loop of Token over a start tag's attributes. */
    method ReadAttrs(t: Entities, ghost from: int, ghost l: Look) returns (attrs: seq<Attr>)
      requires Compact(t) && IsStart(tt) && nAttrReturned == 0 && Holds(from) && AttrsAre(l, from)
      modifies `nAttrReturned, buf
      ensures Holds(raw.end) && attrs == AttrsFrom(t, r.input, l, 0)
    {
      hide Holds, Compact, AttrOf, ShiftAll, DataInside, SpansInside;
      attrs := [];
      ghost var cursor := from;
      AttrsInBuffer(l, from);
      while nAttrReturned < |attr|
        invariant nAttrReturned <= |attr| && Holds(cursor) && cursor <= raw.end
        invariant nAttrReturned < |attr| ==> cursor <= attr[nAttrReturned].0.start
        invariant attrs + AttrsFrom(t, r.input, l, nAttrReturned) == AttrsFrom(t, r.input, l, 0)
      {
        var n := nAttrReturned;
        HoldsLater(cursor, attr[n].0.start);
        ghost var rest := AttrsFrom(t, r.input, l, n + 1);
        var key, val, more := TagAttr(t);
        ShiftAt(attr, n, off);
        assert attrs + ([Attr(key, val)] + rest) == (attrs + [Attr(key, val)]) + rest;
        attrs := attrs + [Attr(key, val)];
        cursor := attr[n].1.end;
      }
      HoldsLater(cursor, raw.end);
    }

    /** The attributes are those of a place where the token's name ended at from. */
    ghost predicate AttrsAre(l: Look, from: int)
      reads `attr, `off, `raw
    {
      && 0 <= l.start && l.end <= |r.input| && DataInside(l) && SpansInside(l) && (l.err ==> l.end == |r.input|)
      && l.data.end == from + off && l.start == raw.start + off && l.end == raw.end + off
      && l.attrs == ShiftAll(attr, off)
    }

    lemma AttrsInBuffer(l: Look, from: int)
      requires AttrsAre(l, from)
      ensures from <= raw.end
      ensures forall k :: 0 <= k < |attr| ==> PairInside(attr[k], from, raw.end)
      ensures forall j, k :: 0 <= j < k < |attr| ==> attr[j].1.end <= attr[k].0.start
    {
      forall k | 0 <= k < |attr| ensures PairInside(attr[k], from, raw.end) {
        assert l.attrs[k] == ShiftPair(attr[k], off) && PairInside(l.attrs[k], l.data.end, l.end);
      }
      forall j, k | 0 <= j < k < |attr| ensures attr[j].1.end <= attr[k].0.start {
        assert l.attrs[j] == ShiftPair(attr[j], off) && l.attrs[k] == ShiftPair(attr[k], off);
      }
    }

    /** Token. */
    method Token(t: Entities) returns (token: Token)
      requires Compact(t) && Valid() && WellFormed(Now())
      modifies `data, `nAttrReturned, buf
      ensures Holds(raw.end) && token == Meaning(t, r.input, old(Now())) && Forget(Now()) == Forget(old(Now()))
    {
      hide Holds, Valid, Compact, Content, AttrsFrom, ShiftAll, SpansInside, LowerAll;
      if IsText(tt) {
        var text := Text(t);
        return HtmlStream.Token(tt, text, []);
      }
      if tt == ErrorToken {
        ValidHolds();
        return HtmlStream.Token(tt, [], []);
      }
      token := TagToken(t);
    }

    lemma ValidHolds()
      requires Valid()
      ensures Holds(raw.end)
    {
    }

    /** Token, of a tag. */
    method TagToken(t: Entities) returns (token: Token)
      requires Compact(t) && Valid() && WellFormed(Now()) && IsTag(tt)
      modifies `data, `nAttrReturned, buf
      ensures Holds(raw.end) && token == Meaning(t, r.input, old(Now())) && Forget(Now()) == Forget(old(Now()))
    {
      hide Holds, Valid, Compact, Content, AttrsFrom, ShiftAll, SpansInside, LowerAll;
      ghost var l := Place();
      var x := data;
      var name, more := TagName();
      if IsStart(tt) {
        var attrs := ReadAttrs(t, x.end, l);
        return HtmlStream.Token(tt, name, attrs);
      }
      HoldsLater(x.end, raw.end);
      return HtmlStream.Token(tt, name, []);
    }
  }

  /** Next, then Token. */
  method NextToken(z: Tokenizer, t: Entities) returns (token: Token, last: bool)
    requires Compact(t) && z.Holds(z.raw.end)
    modifies z, z.r, z.buf
    ensures z.Holds(z.raw.end) && (z.buf == old(z.buf) || fresh(z.buf))
    ensures old(z.Place()).end <= z.Place().end && (!last ==> old(z.Place()).end < z.Place().end)
    ensures Stream(t, z.r.input, old(z.Now())) == [token] + if last then [] else Stream(t, z.r.input, z.Now())
  {
    hide Compact, Meaning, HtmlTokens.Next, WellFormed, ShiftAll, Forget;
    var tt := z.Next();
    ghost var now := z.Now();
    last := tt == ErrorToken;
    token := z.Token(t);
    if !last {
      SameStream(t, z.r.input, now, z.Now());
    }
  }

  /** Token and Next, over and over, up to the first error token. However the reader hands out its bytes, the result is
      the same. */
  method Tokenize(r: Source, contextTag: Bytes, t: Entities) returns (ts: seq<Token>)
    requires Compact(t) && r.pos <= |r.input|
    modifies r
    ensures ts == Stream(t, r.input, Fresh(old(r.pos), contextTag))
  {
    hide Compact, Stream, ShiftAll;
    var z := new Tokenizer(r, contextTag);
    z.ValidHolds();
    ts := [];
    ghost var goal := Stream(t, r.input, z.Now());
    while true
      invariant fresh(z) && fresh(z.buf) && z.r == r && z.Holds(z.raw.end)
      invariant ts + Stream(t, r.input, z.Now()) == goal
      decreases |r.input| - z.Place().end
    {
      var token, last := NextToken(z, t);
      ts := ts + [token];
      if last {
        return;
      }
    }
  }
}
