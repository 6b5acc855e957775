/**
 * What the tokenizer of html/token.go does to a position in its input, on values: every index is an absolute offset in
 * the whole input, and there is no buffer.
 */
module HtmlTokens {
  import opened Utf8

  datatype TokenType = ErrorToken | TextToken | StartTagToken | EndTagToken | SelfClosingTagToken | CommentToken
                     | DoctypeToken

  datatype Span = Span(start: int, end: int)

  /** Where the tokenizer is in the current token and what it has marked there. */
  datatype Look = Look(start: int, end: int, err: bool, data: Span, key: Span, val: Span, attrs: seq<(Span, Span)>)

  const LT: Byte := 0x3C
  const GT: Byte := 0x3E
  const SLASH: Byte := 0x2F
  const BANG: Byte := 0x21
  const QUESTION: Byte := 0x3F
  const DASH: Byte := 0x2D
  const EQ: Byte := 0x3D
  const QUOTE: Byte := 0x27
  const DOUBLE_QUOTE: Byte := 0x22
  const BRACKET: Byte := 0x5D

  const SPACES: set<Byte> := {0x20, 0x0A, 0x0D, 0x09, 0x0C}
  const NAME_STOPS: set<Byte> := SPACES + {SLASH, GT}
  const KEY_STOPS: set<Byte> := SPACES + {SLASH, EQ, GT}
  const VALUE_STOPS: set<Byte> := SPACES + {GT}

  /** The tokenizer stands inside its input, and has seen the end of it only when it stands there. */
  ghost predicate Inside(s: Bytes, l: Look) {
    0 <= l.start <= l.end <= |s| && (l.err ==> l.end == |s|)
  }

  predicate IsLetter(c: Byte) {
    0x61 <= c <= 0x7A || 0x41 <= c <= 0x5A
  }

  function Lower(c: Byte): Byte {
    if 0x41 <= c <= 0x5A then c + 0x20 else c
  }

  function LowerAll(s: Bytes): (r: Bytes)
    ensures |r| == |s| && forall k :: 0 <= k < |s| ==> r[k] == Lower(s[k])
  {
    seq(|s|, k requires 0 <= k < |s| => Lower(s[k]))
  }

  // ----- scanning -----

  /** The first index at or after p with a byte of the set, or the end of the input. */
  function Until(s: Bytes, p: nat, stops: set<Byte>): (q: nat)
    requires p <= |s|
    ensures p <= q <= |s|
    ensures forall k :: p <= k < q ==> s[k] !in stops
    ensures q < |s| ==> s[q] in stops
    decreases |s| - p
  {
    if p == |s| || s[p] in stops then p else Until(s, p + 1, stops)
  }

  /** The first index at or after p that is not white space, or the end of the input. */
  function Skip(s: Bytes, p: nat): (q: nat)
    requires p <= |s|
    ensures p <= q <= |s|
    ensures forall k :: p <= k < q ==> s[k] in SPACES
    ensures q < |s| ==> s[q] !in SPACES
    decreases |s| - p
  {
    if p == |s| || s[p] !in SPACES then p else Skip(s, p + 1)
  }

  /** How many bytes of a lower-case word the input matches from p on, in either case. */
  function Matched(s: Bytes, p: nat, word: Bytes): (k: nat)
    requires p <= |s|
    ensures k <= |word| && p + k <= |s|
    ensures forall i :: 0 <= i < k ==> Lower(s[p + i]) == word[i] || s[p + i] == word[i]
    ensures k < |word| && p + k < |s| ==> s[p + k] != word[k] && Lower(s[p + k]) != word[k]
    decreases |word|
  {
    if word == [] || p == |s| || (s[p] != word[0] && Lower(s[p]) != word[0]) then 0
    else 1 + Matched(s, p + 1, word[1..])
  }

  /** readByte: one byte further, or the end is noticed. */
  function Step(s: Bytes, l: Look): Look {
    if 0 <= l.end < |s| then l.(end := l.end + 1) else l.(err := true)
  }

  // ----- raw text -----

  datatype Found = Found(yes: bool, end: nat, err: bool)

  /** readRawEndTag behind "</" at p: found puts the tokenizer back before it. */
  function RawEndTag(s: Bytes, p: nat, tag: Bytes): (f: Found)
    requires 2 <= p <= |s|
    ensures f.end <= |s| && (f.err ==> f.end == |s| && !f.yes)
    ensures f.yes ==> f.end == p - 2 && p + |tag| < |s|
    ensures !f.yes ==> p <= f.end
  {
    var k := Matched(s, p, tag);
    if p + k == |s| then Found(false, |s|, true)
    else if k < |tag| then Found(false, p + k, false)
    else if s[p + k] in NAME_STOPS then Found(true, p - 2, false)
    else Found(false, p + k, false)
  }

  /** One round of the loop in readRawOrRCDATA, up to a "</" if there is one at p. */
  function TagOpen(s: Bytes, p: nat): (f: Found)
    requires p <= |s|
    ensures p <= f.end <= |s| && (f.err ==> f.end == |s|) && (!f.err ==> p < f.end)
    ensures f.yes ==> !f.err && f.end == p + 2 && s[p] == LT && s[p + 1] == SLASH
  {
    if p == |s| then Found(false, p, true)
    else if s[p] != LT then Found(false, p + 1, false)
    else if p + 1 == |s| then Found(false, p + 1, true)
    else Found(s[p + 1] == SLASH, p + 2, false)
  }

  /** readRawOrRCDATA: where the raw text ends. */
  function RawText(s: Bytes, p: nat, tag: Bytes): (r: (nat, bool))
    requires p <= |s|
    ensures p <= r.0 <= |s| && (r.1 ==> r.0 == |s|)
    decreases |s| - p
  {
    hide TagOpen, RawEndTag;
    var o := TagOpen(s, p);
    if o.err then (o.end, true)
    else if !o.yes then RawText(s, o.end, tag)
    else
      var f := RawEndTag(s, o.end, tag);
      if f.yes || f.err then (f.end, f.err) else RawText(s, f.end, tag)
  }

  const SCRIPT: Bytes := [0x73, 0x63, 0x72, 0x69, 0x70, 0x74]

  /** The labels of readScript. */
  datatype ScriptState =
    | Data | LessThanSign | EndTagOpen | EscapeStart | EscapeStartDash
    | Escaped | EscapedDash | EscapedDashDash | EscapedLessThanSign | EscapedEndTagOpen
    | DoubleEscapeStart
    | DoubleEscaped | DoubleEscapedDash | DoubleEscapedDashDash | DoubleEscapedLessThanSign | DoubleEscapeEnd

  /** States that may hand the byte they stand at to another state. */
  function Rank(q: ScriptState): nat {
    match q
    case Data | Escaped | DoubleEscaped => 0
    case EscapedLessThanSign => 2
    case _ => 1
  }

  /** One label of readScript: either it returns, or it goes to another label. */
  datatype ScriptStep = Return(end: nat, err: bool) | Goto(state: ScriptState, end: nat)

  /** How much of a tag has been read at least when a label is reached. */
  function Read(q: ScriptState): nat {
    match q
    case EndTagOpen | EscapedEndTagOpen | DoubleEscapeEnd => 2
    case LessThanSign | EscapedLessThanSign | DoubleEscapedLessThanSign => 1
    case _ => 0
  }

  /** The labels that read more than one byte. */
  predicate ReadsTag(q: ScriptState) {
    q == EndTagOpen || q == EscapedEndTagOpen || q == DoubleEscapeStart || q == DoubleEscapeEnd
  }

  datatype Jump = Jump(state: ScriptState, reconsume: bool)

  /** Where a label that reads one byte goes, and whether that byte is read again there. */
  function After(q: ScriptState, c: Byte): (j: Jump)
    requires !ReadsTag(q)
    ensures j.reconsume ==> Rank(j.state) < Rank(q)
    ensures Read(j.state) <= Read(q) + (if j.reconsume then 0 else 1) && Read(j.state) <= 2
  {
    match q
    case Data => Jump(if c == LT then LessThanSign else Data, false)
    case LessThanSign =>
      if c == SLASH then Jump(EndTagOpen, false)
      else if c == BANG then Jump(EscapeStart, false)
      else Jump(Data, true)
    case EscapeStart => if c == DASH then Jump(EscapeStartDash, false) else Jump(Data, true)
    case EscapeStartDash => if c == DASH then Jump(EscapedDashDash, false) else Jump(Data, true)
    case Escaped =>
      Jump(if c == DASH then EscapedDash else if c == LT then EscapedLessThanSign else Escaped, false)
    case EscapedDash =>
      Jump(if c == DASH then EscapedDashDash else if c == LT then EscapedLessThanSign else Escaped, false)
    case EscapedDashDash =>
      Jump(if c == DASH then EscapedDashDash
           else if c == LT then EscapedLessThanSign
           else if c == GT then Data
           else Escaped, false)
    case EscapedLessThanSign =>
      if c == SLASH then Jump(EscapedEndTagOpen, false)
      else if IsLetter(c) then Jump(DoubleEscapeStart, true)
      else Jump(Data, true)
    case DoubleEscaped =>
      Jump(if c == DASH then DoubleEscapedDash else if c == LT then DoubleEscapedLessThanSign else DoubleEscaped, false)
    case DoubleEscapedDash =>
      Jump(if c == DASH then DoubleEscapedDashDash else if c == LT then DoubleEscapedLessThanSign else DoubleEscaped,
           false)
    case DoubleEscapedDashDash =>
      Jump(if c == DASH then DoubleEscapedDashDash
           else if c == LT then DoubleEscapedLessThanSign
           else if c == GT then Data
           else DoubleEscaped, false)
    case DoubleEscapedLessThanSign => if c == SLASH then Jump(DoubleEscapeEnd, false) else Jump(DoubleEscaped, true)
  }

  /** A label returns at the end of the input or before an end tag; otherwise the next label stands further on. */
  ghost predicate Fits(s: Bytes, p: nat, q: ScriptState, r: ScriptStep) {
    match r
    case Return(end, err) => if err then end == |s| else end == p - 2 && (q == EndTagOpen || q == EscapedEndTagOpen)
    case Goto(state, end) =>
      && Read(state) <= end <= |s| && p - Read(q) <= end - Read(state)
      && p <= end && (p < end || Rank(state) < Rank(q))
  }

  /** scriptDataDoubleEscapeStart. */
  function ScriptStart(s: Bytes, p: nat): (r: ScriptStep)
    requires p <= |s|
    ensures Fits(s, p, DoubleEscapeStart, r)
  {
    hide NAME_STOPS, Matched;
    var k := Matched(s, p, SCRIPT);
    if p + k == |s| then Return(|s|, true)
    else if k < |SCRIPT| then Goto(Escaped, p + k)
    else if s[p + k] in NAME_STOPS then Goto(DoubleEscaped, p + k + 1)
    else Goto(Escaped, p + k)
  }

  /** scriptDataEndTagOpen, scriptDataEscapedEndTagOpen and scriptDataDoubleEscapeEnd. */
  function ScriptEnd(s: Bytes, p: nat, q: ScriptState): (r: ScriptStep)
    requires 2 <= p <= |s| && (q == EndTagOpen || q == EscapedEndTagOpen || q == DoubleEscapeEnd)
    ensures Fits(s, p, q, r)
  {
    hide RawEndTag;
    var f := RawEndTag(s, p, SCRIPT);
    if f.err then Return(f.end, true)
    else if q == DoubleEscapeEnd then if f.yes then Goto(Escaped, f.end + 9) else Goto(DoubleEscaped, f.end)
    else if f.yes then Return(f.end, false)
    else Goto(if q == EndTagOpen then Data else Escaped, f.end)
  }

  /** The labels that read one byte. */
  function ScriptByte(s: Bytes, p: nat, q: ScriptState): (r: ScriptStep)
    requires Read(q) <= p <= |s| && !ReadsTag(q)
    ensures Fits(s, p, q, r)
  {
    hide After;
    if p == |s| then Return(p, true)
    else
      var j := After(q, s[p]);
      Goto(j.state, if j.reconsume then p else p + 1)
  }

  function Script1(s: Bytes, p: nat, q: ScriptState): (r: ScriptStep)
    requires Read(q) <= p <= |s|
    ensures Fits(s, p, q, r)
  {
    hide Fits, ScriptStart, ScriptEnd, ScriptByte;
    if q == DoubleEscapeStart then ScriptStart(s, p)
    else if ReadsTag(q) then ScriptEnd(s, p, q)
    else ScriptByte(s, p, q)
  }

  /** readScript from one of its labels on. */
  function Script(s: Bytes, p: nat, q: ScriptState): (r: (nat, bool))
    requires Read(q) <= p <= |s|
    ensures r.0 <= |s| && (r.1 ==> r.0 == |s|)
    ensures p <= r.0 + Read(q)
    decreases |s| - p, Rank(q)
  {
    hide Script1;
    match Script1(s, p, q)
    case Return(end, err) => (end, err)
    case Goto(state, end) => Script(s, end, state)
  }

  // ----- comments and declarations -----

  /** One round of the loop in readComment: the comment's end, or the dashes in a row there; or of one in readCDATA. */
  datatype CommentStep = Close(data: int, end: nat, err: bool) | More(end: nat, dashes: nat)

  function Comment1(s: Bytes, q: nat, dashes: nat): (r: CommentStep)
    requires q <= |s|
    ensures q <= r.end <= |s| && (r.More? ==> q < r.end) && (r.Close? ==> r.data <= r.end && (r.err ==> r.end == |s|))
  {
    if q == |s| then Close(q - if dashes > 2 then 2 else dashes, q, true)
    else if s[q] == DASH then More(q + 1, dashes + 1)
    else if s[q] == GT && dashes >= 2 then Close(q - 2, q + 1, false)
    else if s[q] == BANG && dashes >= 2 then
      if q + 1 == |s| then Close(q + 1, q + 1, true)
      else if s[q + 1] == GT then Close(q - 2, q + 2, false)
      else More(q + 2, 0)
    else More(q + 1, 0)
  }

  /** The loop of readComment: the data's end, the position, and whether the input ended. */
  function CommentEnd(s: Bytes, q: nat, dashes: nat): (r: (int, nat, bool))
    requires q <= |s|
    ensures q <= r.1 <= |s| && (r.2 ==> r.1 == |s|) && r.0 <= r.1
    decreases |s| - q
  {
    hide Comment1;
    match Comment1(s, q, dashes)
    case Close(data, end, err) => (data, end, err)
    case More(end, n) => CommentEnd(s, end, n)
  }

  /** readComment; a comment like "<!-->" has no data. */
  function Comment(s: Bytes, p: nat): (r: (Span, nat, bool))
    requires p <= |s|
    ensures p <= r.1 <= |s| && (r.2 ==> r.1 == |s|) && r.0.start == p <= r.0.end <= r.1
  {
    var (end, q, err) := CommentEnd(s, p, 2);
    (Span(p, if end < p then p else end), q, err)
  }

  /** readUntilCloseAngle. */
  function UntilAngle(s: Bytes, l: Look): (r: Look)
    requires Inside(s, l)
    ensures Further(s, l, r) && r.data.start == l.end <= r.data.end <= r.end
  {
    var q := Until(s, l.end, {GT});
    if q == |s| then l.(data := Span(l.end, q), end := q, err := true)
    else l.(data := Span(l.end, q), end := q + 1)
  }

  /** A later place in the same token. */
  ghost predicate Further(s: Bytes, l: Look, r: Look) {
    Inside(s, l) && Inside(s, r) && l.start == r.start && l.end <= r.end && (l.err ==> r.err)
  }

  const DOCTYPE: Bytes := [0x64, 0x6F, 0x63, 0x74, 0x79, 0x70, 0x65]
  const CDATA: Bytes := [0x5B, 0x43, 0x44, 0x41, 0x54, 0x41, 0x5B]

  /** How many bytes of a word the input matches exactly. */
  function Same(s: Bytes, p: nat, word: Bytes): (k: nat)
    requires p <= |s|
    ensures k <= |word| && p + k <= |s|
    ensures forall i :: 0 <= i < k ==> s[p + i] == word[i]
    ensures k < |word| && p + k < |s| ==> s[p + k] != word[k]
    decreases |word|
  {
    if word == [] || p == |s| || s[p] != word[0] then 0 else 1 + Same(s, p + 1, word[1..])
  }

  /** One round of the loop in readCDATA: the section's end, or the brackets in a row there. */
  function Cdata1(s: Bytes, q: nat, brackets: nat): (r: CommentStep)
    requires q <= |s|
    ensures q <= r.end <= |s| && (r.More? ==> r.end == q + 1 && r.dashes <= brackets + 1)
    ensures r.Close? ==> q - brackets <= r.data <= r.end && (r.err ==> r.end == |s|)
  {
    if q == |s| then Close(q, q, true)
    else if s[q] == BRACKET then More(q + 1, brackets + 1)
    else if s[q] == GT && brackets >= 2 then Close(q - 2, q + 1, false)
    else More(q + 1, 0)
  }

  /** The body of a CDATA section read up to q: the end of its data, the position and whether the input ended. */
  function CdataBody(s: Bytes, q: nat, brackets: nat): (r: (int, nat, bool))
    requires q <= |s|
    ensures q <= r.1 <= |s| && (r.2 ==> r.1 == |s|) && q - brackets <= r.0 <= r.1
    decreases |s| - q
  {
    hide Cdata1;
    match Cdata1(s, q, brackets)
    case Close(data, end, err) => (data, end, err)
    case More(end, n) => CdataBody(s, end, n)
  }

  /** readDoctype: whether it was one; if not, and there is more input, the tokenizer is back where it was. */
  function Doctype(s: Bytes, l: Look): (r: (bool, Look))
    requires Inside(s, l) && l.data.start == l.end
    ensures Further(s, l, r.1) && (!r.0 && !r.1.err ==> r.1.end == l.end && r.1.data.start == l.end)
    ensures r.0 ==> l.end <= r.1.data.start <= r.1.data.end <= r.1.end
  {
    var k := Matched(s, l.end, DOCTYPE);
    if k < |DOCTYPE| then
      if l.end + k == |s| then (false, l.(data := l.data.(end := |s|), end := |s|, err := true)) else (false, l)
    else
      var q := Skip(s, l.end + k);
      if q == |s| then (true, l.(data := Span(q, q), end := q, err := true))
      else (true, UntilAngle(s, l.(end := q)))
  }

  /** readCDATA: whether it was a section; if not, and there is more input, the tokenizer is back where it was. */
  function CdataSection(s: Bytes, l: Look): (r: (bool, Look))
    requires Inside(s, l) && (l.err || l.data.start == l.end)
    ensures Further(s, l, r.1) && (!r.0 && !r.1.err ==> r.1.end == l.end)
    ensures r.0 ==> l.end <= r.1.data.start <= r.1.data.end <= r.1.end
  {
    var k := Same(s, l.end, CDATA);
    if k < |CDATA| then
      if l.end + k == |s| then (false, l.(data := l.data.(end := |s|), end := |s|, err := true)) else (false, l)
    else
      var (end, q, err) := CdataBody(s, l.end + k, 0);
      (true, l.(data := Span(l.end + k, end), end := q, err := err))
  }

  /** A declaration that is no comment. */
  function Declaration(s: Bytes, l: Look, allowCDATA: bool): (r: (TokenType, Look))
    requires Inside(s, l) && !l.err && l.data.start == l.end
    ensures Further(s, l, r.1) && l.end <= r.1.data.start <= r.1.data.end <= r.1.end
    ensures r.0 in {CommentToken, DoctypeToken, TextToken}
  {
    hide Doctype, CdataSection, UntilAngle;
    var (isDoctype, l1) := Doctype(s, l);
    if isDoctype then (DoctypeToken, l1)
    else
      var (isCdata, l2) := if allowCDATA then CdataSection(s, l1) else (false, l1);
      if isCdata then (TextToken, l2) else (CommentToken, UntilAngle(s, l2))
  }

  /** readMarkupDeclaration behind "<!". */
  function Markup(s: Bytes, l: Look, allowCDATA: bool): (r: (TokenType, Look))
    requires Inside(s, l) && !l.err
    ensures Further(s, l, r.1) && l.end <= r.1.data.start <= r.1.data.end <= r.1.end
    ensures r.0 in {CommentToken, DoctypeToken, TextToken}
  {
    hide Comment, Declaration;
    var p := l.end;
    if p + 2 > |s| then (CommentToken, l.(data := Span(p, |s|), end := |s|, err := true))
    else if s[p] == DASH && s[p + 1] == DASH then
      var (data, q, err) := Comment(s, p + 2);
      (CommentToken, l.(data := data, end := q, err := err))
    else Declaration(s, l.(data := l.data.(start := p)), allowCDATA)
  }

  // ----- tags -----

  /** readTagName, the first byte of the name already read. */
  function Name(s: Bytes, l: Look): (r: Look)
    requires Inside(s, l) && l.start < l.end
    ensures Further(s, l, r) && r.data.start == l.end - 1 < r.data.end <= r.end
  {
    var q := Until(s, l.end, NAME_STOPS);
    if q == |s| then l.(data := Span(l.end - 1, q), end := q, err := true)
    else l.(data := Span(l.end - 1, q), end := if s[q] in SPACES then q + 1 else q)
  }

  function AttrKey(s: Bytes, l: Look): (r: Look)
    requires Inside(s, l)
    ensures Further(s, l, r) && r == l.(key := r.key, end := r.end, err := r.err)
    ensures r.key.start == l.end <= r.key.end <= r.end
    ensures l.end < |s| && s[l.end] !in {EQ, GT} ==> l.end < r.end
  {
    var q := Until(s, l.end, KEY_STOPS);
    if q == |s| then l.(key := Span(l.end, q), end := q, err := true)
    else l.(key := Span(l.end, q), end := if s[q] == EQ || s[q] == GT then q else q + 1)
  }

  /** Spaces skipped. */
  function SkipSpace(s: Bytes, l: Look): (r: Look)
    requires Inside(s, l)
    ensures Further(s, l, r) && r == l.(end := r.end, err := r.err) && (r.err <==> r.end == |s|)
  {
    var q := Skip(s, l.end);
    l.(end := q, err := q == |s|)
  }

  /** A value up to its closing quote, the opening one already read. */
  function Quoted(s: Bytes, l: Look, quote: Byte): (r: Look)
    requires Inside(s, l)
    ensures Further(s, l, r) && r == l.(val := r.val, end := r.end, err := r.err)
    ensures r.val.start == l.end <= r.val.end <= r.end
  {
    var e := Until(s, l.end, {quote});
    if e == |s| then l.(val := Span(l.end, e), end := e, err := true)
    else l.(val := Span(l.end, e), end := e + 1)
  }

  /** A value without quotes, its first byte already read. */
  function Bare(s: Bytes, l: Look): (r: Look)
    requires Inside(s, l) && l.start < l.end
    ensures Further(s, l, r) && r == l.(val := r.val, end := r.end, err := r.err)
    ensures r.val.start == l.end - 1 < r.val.end <= r.end
  {
    var e := Until(s, l.end, VALUE_STOPS);
    if e == |s| then l.(val := Span(l.end - 1, e), end := e, err := true)
    else l.(val := Span(l.end - 1, e), end := if s[e] == GT then e else e + 1)
  }

  /** The value behind "=" and white space: quoted, bare, or missing. */
  function AttrValue(s: Bytes, l: Look): (r: Look)
    requires Inside(s, l) && l.end < |s| && !l.err && l.val.start <= l.val.end <= l.end
    ensures Further(s, l, r) && r == l.(val := r.val, end := r.end, err := r.err)
    ensures r.val == l.val || l.end <= r.val.start <= r.val.end <= r.end
  {
    hide Quoted, Bare;
    var c := s[l.end];
    if c == GT then l
    else if c == QUOTE || c == DOUBLE_QUOTE then Quoted(s, l.(end := l.end + 1), c)
    else Bare(s, l.(end := l.end + 1))
  }

  /** The "=" in front of a value and the white space around it; whether anything is left behind it. */
  function Equals(s: Bytes, l: Look): (r: (bool, Look))
    requires Inside(s, l)
    ensures Further(s, l, r.1) && r.1 == l.(end := r.1.end, err := r.1.err) && (r.0 ==> !r.1.err && r.1.end < |s|)
    ensures l.end < |s| && s[l.end] == EQ ==> l.end < r.1.end
  {
    hide Skip;
    var q := Skip(s, l.end);
    if q == |s| then (false, l.(end := q, err := true))
    else if s[q] != EQ then (false, l.(end := q))
    else
      var l1 := SkipSpace(s, l.(end := q + 1));
      (!l1.err, l1)
  }

  function AttrVal(s: Bytes, l: Look): (r: Look)
    requires Inside(s, l)
    ensures Further(s, l, r) && r == l.(val := r.val, end := r.end, err := r.err)
    ensures l.end <= r.val.start <= r.val.end <= r.end
    ensures l.end < |s| && s[l.end] == EQ ==> l.end < r.end
  {
    hide AttrValue, Equals;
    var (yes, l1) := Equals(s, l.(val := Span(l.end, l.end)));
    if yes then AttrValue(s, l1) else l1
  }

  function SaveAttr(l: Look, saveAttr: bool): Look {
    if saveAttr && l.key.start != l.key.end then l.(attrs := l.attrs + [(l.key, l.val)]) else l
  }

  ghost predicate DataInside(l: Look) {
    l.start <= l.data.start <= l.data.end <= l.end
  }

  /** The attributes lie in the token behind its name, one after another, each key in front of its value. */
  ghost predicate SpansInside(l: Look) {
    && (forall k :: 0 <= k < |l.attrs| ==> PairInside(l.attrs[k], l.data.end, l.end))
    && forall j, k :: 0 <= j < k < |l.attrs| ==> l.attrs[j].1.end <= l.attrs[k].0.start
  }

  ghost predicate PairInside(a: (Span, Span), from: int, to: int) {
    from <= a.0.start <= a.0.end <= a.1.start <= a.1.end <= to
  }

  /** One attribute and the white space behind it. */
  function Attribute(s: Bytes, l: Look, saveAttr: bool): (r: Look)
    requires Inside(s, l) && l.end < |s| && s[l.end] != GT
    ensures Further(s, l, r) && l.end < r.end && (r.err <==> r.end == |s|) && r.data == l.data
    ensures !saveAttr ==> r.attrs == l.attrs
    ensures l.data.end <= l.end && SpansInside(l) ==> SpansInside(r)
  {
    SkipSpace(s, SaveAttr(AttrVal(s, AttrKey(s, l)), saveAttr))
  }

  /** One round of the loop in readTag: whether it is the last one. */
  function Attribute1(s: Bytes, l: Look, saveAttr: bool): (r: (bool, Look))
    requires Inside(s, l) && !l.err
    ensures Further(s, l, r.1) && l.end <= r.1.end && r.1.data == l.data && (!r.0 ==> !r.1.err && l.end < r.1.end)
    ensures r.0 && !r.1.err ==> l.end < r.1.end && s[r.1.end - 1] == GT
    ensures !saveAttr ==> r.1.attrs == l.attrs
    ensures l.data.end <= l.end && SpansInside(l) ==> SpansInside(r.1)
  {
    hide Attribute;
    if l.end == |s| then (true, l.(err := true))
    else if s[l.end] == GT then (true, l.(end := l.end + 1))
    else
      var l1 := Attribute(s, l, saveAttr);
      (l1.err, l1)
  }

  /** The loop of readTag over the attributes. */
  function Attributes(s: Bytes, l: Look, saveAttr: bool): (r: Look)
    requires Inside(s, l) && !l.err
    ensures Further(s, l, r) && r.data == l.data
    decreases |s| - l.end
  {
    hide Attribute1, SpansInside;
    var a := Attribute1(s, l, saveAttr);
    if a.0 then a.1 else Attributes(s, a.1, saveAttr)
  }

  lemma {:induction false} AttributesEnd(s: Bytes, l: Look, saveAttr: bool)
    requires Inside(s, l) && !l.err && l.data.end <= l.end && SpansInside(l)
    ensures var r := Attributes(s, l, saveAttr);
      && SpansInside(r) && (!r.err ==> l.end < r.end && s[r.end - 1] == GT)
      && (!saveAttr ==> r.attrs == l.attrs)
    decreases |s| - l.end
  {
    hide Attribute1, SpansInside;
    var a := Attribute1(s, l, saveAttr);
    if !a.0 {
      AttributesEnd(s, a.1, saveAttr);
    }
  }

  /** readTag, the first byte of the name already read. */
  function Tag(s: Bytes, l: Look, saveAttr: bool): (r: Look)
    requires Inside(s, l) && l.start < l.end && !l.err
    ensures Further(s, l, r) && r.data.start == l.end - 1 < r.data.end <= r.end
  {
    hide Attributes, SkipSpace, Name;
    var l1 := SkipSpace(s, Name(s, l.(attrs := [])));
    if l1.err then l1 else Attributes(s, l1, saveAttr)
  }

  /** A tag that is not cut off ends at a ">", and its attributes lie in it. */
  lemma TagEnd(s: Bytes, l: Look, saveAttr: bool)
    requires Inside(s, l) && l.start < l.end && !l.err
    ensures var r := Tag(s, l, saveAttr);
      && SpansInside(r) && (!r.err ==> l.end < r.end && s[r.end - 1] == GT)
      && (!saveAttr ==> r.attrs == [])
  {
    hide Attributes, SkipSpace;
    var l1 := SkipSpace(s, Name(s, l.(attrs := [])));
    if !l1.err {
      AttributesEnd(s, l1, saveAttr);
    }
  }

  const RAW_TAGS: set<Bytes> := {IFRAME, NOEMBED, NOFRAMES, NOSCRIPT, PLAINTEXT, SCRIPT, STYLE, TEXTAREA, TITLE, XMP}
  const IFRAME: Bytes := [0x69, 0x66, 0x72, 0x61, 0x6D, 0x65]
  const NOEMBED: Bytes := [0x6E, 0x6F, 0x65, 0x6D, 0x62, 0x65, 0x64]
  const NOFRAMES: Bytes := [0x6E, 0x6F, 0x66, 0x72, 0x61, 0x6D, 0x65, 0x73]
  const NOSCRIPT: Bytes := [0x6E, 0x6F, 0x73, 0x63, 0x72, 0x69, 0x70, 0x74]
  const PLAINTEXT: Bytes := [0x70, 0x6C, 0x61, 0x69, 0x6E, 0x74, 0x65, 0x78, 0x74]
  const STYLE: Bytes := [0x73, 0x74, 0x79, 0x6C, 0x65]
  const TEXTAREA: Bytes := [0x74, 0x65, 0x78, 0x74, 0x61, 0x72, 0x65, 0x61]
  const TITLE: Bytes := [0x74, 0x69, 0x74, 0x6C, 0x65]
  const XMP: Bytes := [0x78, 0x6D, 0x70]

  // ----- one token -----

  /** The tokenizer: used is how many attributes have been returned. */
  datatype State = State(look: Look, used: nat, tt: TokenType, rawTag: Bytes, textIsRaw: bool, convertNUL: bool,
                         allowCDATA: bool)

  predicate Opens(c: Byte) {
    IsLetter(c) || c == SLASH || c == BANG || c == QUESTION
  }

  /** What is known of a token's spans when it has been read. */
  ghost predicate WellFormed(st: State) {
    && DataInside(st.look)
    && (st.tt in {StartTagToken, SelfClosingTagToken} ==> SpansInside(st.look))
    && (st.tt in {StartTagToken, SelfClosingTagToken, EndTagToken} ==>
          st.used == 0 && st.look.data.start < st.look.data.end)
    && (st.tt == EndTagToken ==> st.look.attrs == [])
  }

  /** One round of the loop in Next: behind a "<" and a byte that opens something with it, or further on. */
  function Opening(s: Bytes, p: nat): (f: Found)
    requires p <= |s|
    ensures p <= f.end <= |s| && (f.err ==> f.end == |s| && !f.yes) && (!f.err ==> p < f.end)
    ensures f.yes ==> f.end == p + 2 && s[p] == LT && Opens(s[p + 1])
  {
    if p == |s| then Found(false, p, true)
    else if s[p] != LT then Found(false, p + 1, false)
    else if p + 1 == |s| then Found(false, p + 1, true)
    else if Opens(s[p + 1]) then Found(true, p + 2, false)
    else Found(false, p + 1, false)
  }

  ghost predicate OpensAt(s: Bytes, k: nat) {
    k + 1 < |s| && s[k] == LT && Opens(s[k + 1])
  }

  /** Where the next tag, comment or declaration starts: at the first "<" with a byte behind it that opens one. */
  function TokenStart(s: Bytes, q: nat): (x: nat)
    requires q <= |s|
    ensures q <= x <= |s|
    ensures x < |s| ==> OpensAt(s, x)
    ensures forall k: nat :: q <= k < x ==> !OpensAt(s, k)
    decreases |s| - q
  {
    if q == |s| then q
    else if s[q] == LT && q + 1 < |s| && Opens(s[q + 1]) then q
    else TokenStart(s, q + 1)
  }

  lemma TokenStartStep(s: Bytes, q: nat)
    requires q <= |s|
    ensures var o := Opening(s, q);
      TokenStart(s, q) == if o.err then |s| else if o.yes then q else TokenStart(s, o.end)
  {
    if q < |s| && s[q] == LT && q + 1 == |s| {
      assert TokenStart(s, q + 1) == |s|;
    }
  }

  /** readStartTag behind "<a". */
  function StartTag(s: Bytes, st: State): (r: State)
    requires Inside(s, st.look) && st.look.start + 2 <= st.look.end && !st.look.err
    ensures Further(s, st.look, r.look) && (r.tt == ErrorToken ==> r.look.err)
    ensures WellFormed(r)
  {
    hide Tag, RAW_TAGS;
    TagEnd(s, st.look, true);
    var l := Tag(s, st.look, true);
    if l.err then st.(look := l, used := 0, tt := ErrorToken)
    else
      var name := LowerAll(s[l.data.start..l.data.end]);
      st.(look := l, used := 0,
          tt := if s[l.end - 2] == SLASH then SelfClosingTagToken else StartTagToken,
          rawTag := if name in RAW_TAGS then name else st.rawTag)
  }

  /** The end tag, empty tag or bogus comment behind "</". */
  function EndTag(s: Bytes, st: State): (r: State)
    requires Inside(s, st.look) && st.look.start + 2 <= st.look.end && !st.look.err
    requires st.look.data == Span(st.look.start, st.look.start)
    ensures Further(s, st.look, r.look) && (r.tt == ErrorToken ==> r.look.err)
    ensures WellFormed(r)
  {
    hide Tag, Bogus;
    var l, p := st.look, st.look.end;
    if p == |s| then st.(look := l.(data := l.data.(end := p), err := true), tt := TextToken)
    else if s[p] == GT then st.(look := l.(end := p + 1), tt := CommentToken)
    else if IsLetter(s[p]) then
      TagEnd(s, l.(end := p + 1), false);
      var l1 := Tag(s, l.(end := p + 1), false);
      st.(look := l1, used := 0, tt := if l1.err then ErrorToken else EndTagToken)
    else Bogus(s, st.(look := l.(end := p + 1)))
  }

  /** The token behind "<!". */
  function Declared(s: Bytes, st: State): (r: State)
    requires Inside(s, st.look) && !st.look.err
    ensures Further(s, st.look, r.look) && r.tt != ErrorToken && WellFormed(r)
  {
    hide Markup;
    var (tt, l) := Markup(s, st.look, st.allowCDATA);
    st.(look := l, tt := tt, convertNUL := st.convertNUL || tt == TextToken)
  }

  /** A comment that begins with the byte just read. */
  function Bogus(s: Bytes, st: State): (r: State)
    requires Inside(s, st.look) && !st.look.err && st.look.start < st.look.end
    ensures Inside(s, r.look) && st.look.start == r.look.start && st.look.end - 1 <= r.look.end && WellFormed(r)
    ensures s[st.look.end - 1] != GT ==> st.look.end <= r.look.end
    ensures r == st.(look := r.look, tt := CommentToken)
  {
    st.(look := UntilAngle(s, st.look.(end := st.look.end - 1)), tt := CommentToken)
  }

  /** What the two bytes in front of the position open. */
  function Opened(s: Bytes, st: State): (r: State)
    requires Inside(s, st.look) && !st.look.err && st.look.data == Span(st.look.start, st.look.start)
    requires st.look.start + 2 == st.look.end && Opens(s[st.look.end - 1])
    ensures Further(s, st.look, r.look) && (r.tt == ErrorToken ==> r.look.err) && WellFormed(r)
  {
    hide StartTag, EndTag, Declared, Bogus, WellFormed;
    var c := s[st.look.end - 1];
    if IsLetter(c) then StartTag(s, st)
    else if c == SLASH then EndTag(s, st)
    else if c == BANG then Declared(s, st)
    else Bogus(s, st)
  }

  /** The second half of Next: text up to the next tag, or that tag. */
  function Plain(s: Bytes, st: State): (r: State)
    requires Inside(s, st.look) && st.look.start == st.look.end && st.look.data == Span(st.look.end, st.look.end)
    ensures Further(s, st.look, r.look)
    ensures WellFormed(r)
    ensures st.look.end < |s| ==> st.look.end < r.look.end
    ensures r.tt != ErrorToken ==> st.look.end < r.look.end
    ensures r.tt == ErrorToken ==> r.look.err
  {
    hide Opened;
    var l := st.look;
    var x := TokenStart(s, l.end);
    if x == |s| then
      var l1 := l.(end := x, err := true);
      if l.start < x then st.(look := l1.(data := l1.data.(end := x)), tt := TextToken)
      else st.(look := l1, tt := ErrorToken)
    else if l.start < x then st.(look := l.(end := x, data := l.data.(end := x)), tt := TextToken)
    else Opened(s, st.(look := l.(end := x + 2)))
  }

  /** The first half of Next, after a start tag whose content is raw text. */
  function RawPart(s: Bytes, st: State): (r: State)
    requires Inside(s, st.look) && !st.look.err && st.rawTag != []
    ensures Further(s, st.look, r.look) && r.look.data == Span(st.look.data.start, r.look.end)
    ensures r == st.(look := r.look, rawTag := r.rawTag, textIsRaw := r.textIsRaw)
  {
    var l := st.look;
    if st.rawTag == PLAINTEXT then
      st.(look := l.(end := |s|, err := true, data := l.data.(end := |s|)), textIsRaw := true)
    else if st.rawTag == SCRIPT then
      var (e, err) := Script(s, l.end, Data);
      st.(look := l.(end := e, err := err, data := l.data.(end := e)), textIsRaw := true, rawTag := [])
    else
      var (e, err) := RawText(s, l.end, st.rawTag);
      st.(look := l.(end := e, err := err, data := l.data.(end := e)),
          textIsRaw := st.rawTag != TEXTAREA && st.rawTag != TITLE, rawTag := [])
  }

  /** Next, behind any raw text. */
  function TextOrPlain(s: Bytes, st: State): (r: State)
    requires Inside(s, st.look) && DataInside(st.look)
    requires st.look.data.end <= st.look.data.start ==>
      st.look.start == st.look.end && st.look.data == Span(st.look.end, st.look.end)
    ensures Further(s, st.look, r.look)
    ensures WellFormed(r)
    ensures r.tt != ErrorToken ==> r.look.start < r.look.end
    ensures r.tt == ErrorToken ==> r.look.err
  {
    hide Plain;
    if st.look.data.end > st.look.data.start then st.(tt := TextToken, convertNUL := true)
    else Plain(s, st.(textIsRaw := false, convertNUL := false))
  }

  function Next(s: Bytes, st: State): (r: State)
    requires Inside(s, st.look)
    ensures Inside(s, r.look) && r.look.start == st.look.end
    ensures r.tt != ErrorToken ==> r.look.start < r.look.end
    ensures r.tt == ErrorToken ==> r.look.err
    ensures WellFormed(r)
  {
    hide RawPart, TextOrPlain;
    var p := st.look.end;
    var st0 := st.(look := st.look.(start := p, data := Span(p, p)));
    if st.look.err then st0.(tt := ErrorToken)
    else TextOrPlain(s, if st.rawTag == [] then st0 else RawPart(s, st0))
  }
}
