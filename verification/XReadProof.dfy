/** The goto machine emits exactly the events of the reference reader. */
module XReadProof {
  import opened Common
  import opened XmlBytes
  import opened XmlReference
  import opened XReadTables
  import opened XMachine

  predicate Inside(x: XrStr, n: nat) {
    x.Slice? && 0 <= x.len && x.off + x.len <= n
  }

  function Bytes(s: seq<byte>, x: XrStr): seq<byte>
    requires Inside(x, |s|)
  {
    s[x.off..x.off + x.len]
  }

  /** The slices that callback `c` hands out lie in a text of `n` bytes; only the error
      callback may point at the NUL that ends it. */
  predicate WellPlaced(c: Callback, n: nat) {
    match c.kind
    case XrElementStart => Inside(c.name, n) && c.val.Null?
    case XrElementEnd => Inside(c.name, n) && c.val.Null?
    case XrAttribute => Inside(c.name, n) && Inside(c.val, n)
    case XrError => c.name == Literal(Ascii("Error!")) && Inside(c.val, n + 1) && c.val.len == 1
  }

  /** What the callback says, with its slices read out of the text. */
  function Meaning(s: seq<byte>, c: Callback): Event
    requires WellPlaced(c, |s|)
  {
    match c.kind
    case XrElementStart => ElementStart(Bytes(s, c.name))
    case XrElementEnd => ElementEnd(Bytes(s, c.name))
    case XrAttribute => Attribute(Bytes(s, c.name), Bytes(s, c.val))
    case XrError => Error(ByteAt(s, c.val.off))
  }

  /** The callbacks carry exactly the events `es`. */
  ghost predicate Carry(s: seq<byte>, out: seq<Callback>, es: seq<Event>) {
    && |out| == |es|
    && (out == [] ||
        var k := |out| - 1;
        Carry(s, out[..k], es[..k]) && WellPlaced(out[k], |s|) && Meaning(s, out[k]) == es[k])
  }

  /** No error has been called back. */
  ghost predicate Calm(out: seq<Callback>) {
    out == [] || (out[|out| - 1].kind != XrError && Calm(out[..|out| - 1]))
  }

  lemma {:induction false} CarryAt(s: seq<byte>, out: seq<Callback>, es: seq<Event>, i: nat)
    requires Carry(s, out, es) && i < |out|
    ensures WellPlaced(out[i], |s|) && Meaning(s, out[i]) == es[i]
  {
    var k := |out| - 1;
    if i < k {
      CarryAt(s, out[..k], es[..k], i);
    }
  }

  lemma CarriesErrors(s: seq<byte>, out: seq<Callback>, es: seq<Event>)
    requires Carry(s, out, es)
    ensures HasError(es) <==> exists c :: c in out && c.kind == XrError
  {
    if e :| e in es && e.Error? {
      var i :| 0 <= i < |es| && es[i] == e;
      CarryAt(s, out, es, i);
      assert out[i] in out;
    }
    if c :| c in out && c.kind == XrError {
      var i :| 0 <= i < |out| && out[i] == c;
      CarryAt(s, out, es, i);
      assert es[i] in es;
    }
  }

  lemma {:induction false} CalmAccepts(s: seq<byte>, out: seq<Callback>, es: seq<Event>)
    requires Carry(s, out, es) && Calm(out)
    ensures !HasError(es)
  {
    if out != [] {
      var k := |out| - 1;
      CalmAccepts(s, out[..k], es[..k]);
      assert es == es[..k] + [es[k]];
    }
  }

  lemma CarryOne(s: seq<byte>, out: seq<Callback>, es: seq<Event>, c: Callback)
    requires Carry(s, out, es) && WellPlaced(c, |s|)
    ensures Carry(s, out + [c], es + [Meaning(s, c)])
    ensures Calm(out + [c]) <==> Calm(out) && c.kind != XrError
  {
    assert (out + [c])[..|out|] == out && (es + [Meaning(s, c)])[..|out|] == es;
  }

  predicate InValue(m: Machine) {
    m.go.GoAttribValSingle? || m.go.GoAttribValDouble?
  }

  function QuoteOf(m: Machine): byte {
    if m.go.GoAttribValSingle? then 39 else 34
  }

  /** A name that began at `start` is being read. */
  ghost predicate Naming(s: seq<byte>, start: nat, i: nat) {
    start < i <= |s| && IsNameStart(s[start]) && forall j :: start <= j < i ==> IsNameChar(s[j])
  }

  /** A value that began at `start` is being read. */
  ghost predicate Quoting(s: seq<byte>, quote: byte, start: nat, i: nat) {
    start <= i <= |s| && forall j :: start <= j < i ==> IsValueByte(quote, s[j])
  }

  /** What the registers hold of the text `s` when byte `cstr - 1` is about to be dispatched. */
  ghost predicate Ready(s: seq<byte>, m: Machine) {
    && 1 <= m.cstr <= |s| + 1
    && m.tag.Slice? && m.name.Slice? && m.val.Slice?
    && match m.go
       case GoRoot => true
       case GoTagClose => true
       case GoStag => true
       case GoEtag => true
       case GoName =>
         if m.nameHandle == LStagName then Naming(s, m.tag.off, m.cstr - 1)
         else if m.nameHandle == LEtagName then Naming(s, m.tag.off, m.cstr - 1)
         else m.nameHandle == LAttribName && Naming(s, m.name.off, m.cstr - 1) && Inside(m.tag, m.cstr - 1)
       case GoAttrib => Inside(m.tag, m.cstr - 1)
       case GoAttribEq => Inside(m.tag, m.cstr - 1) && Inside(m.name, m.cstr - 1)
       case GoAttribValBegin => Inside(m.tag, m.cstr - 1) && Inside(m.name, m.cstr - 1)
       case GoAttribValSingle =>
         Inside(m.tag, m.cstr - 1) && Inside(m.name, m.val.off) && Quoting(s, 39, m.val.off, m.cstr - 1)
       case GoAttribValDouble =>
         Inside(m.tag, m.cstr - 1) && Inside(m.name, m.val.off) && Quoting(s, 34, m.val.off, m.cstr - 1)
  }

  /** The events still to come when byte `cstr - 1` is about to be dispatched. */
  ghost function Pending(s: seq<byte>, m: Machine): seq<Event>
    requires Ready(s, m)
  {
    match m.go
    case GoRoot => Content(s[m.cstr - 1..])
    case GoStag => Markup(s[m.cstr - 1..])
    case GoEtag => EndTag(s[m.cstr - 1..])
    case GoTagClose => Close(s[m.cstr - 1..])
    case GoName =>
      if m.nameHandle == LStagName then Markup(s[m.tag.off..])
      else if m.nameHandle == LEtagName then EndTag(s[m.tag.off..])
      else Attributes(Bytes(s, m.tag), s[m.name.off..])
    case GoAttrib => Attributes(Bytes(s, m.tag), s[m.cstr - 1..])
    case GoAttribEq => Equals(Bytes(s, m.tag), Bytes(s, m.name), s[m.cstr - 1..])
    case GoAttribValBegin => Quoted(Bytes(s, m.tag), Bytes(s, m.name), s[m.cstr - 1..])
    case GoAttribValSingle => Value(Bytes(s, m.tag), Bytes(s, m.name), 39, s[m.val.off..])
    case GoAttribValDouble => Value(Bytes(s, m.tag), Bytes(s, m.name), 34, s[m.val.off..])
  }

  /** The events still to come, if the registers hold what they should. */
  ghost function Ahead(s: seq<byte>, m: Machine): Option<seq<Event>> {
    if Ready(s, m) then Some(Pending(s, m)) else None
  }

  /** The callbacks made so far carry the first events of the text; those pending are the others. */
  ghost predicate Sync(s: seq<byte>, m: Machine) {
    && |m.out| <= |Content(s)|
    && Carry(s, m.out, Content(s)[..|m.out|])
    && Ahead(s, m) == Some(Content(s)[|m.out|..])
    && Calm(m.out)
  }

  /** The machine runs in step with the text. */
  ghost predicate Good(s: seq<byte>, m: Machine) {
    Live(s, m) && Sync(s, m)
  }

  /** A step that calls back the first of the pending events. */
  lemma Called(s: seq<byte>, m: Machine, m': Machine, c: Callback)
    requires Sync(s, m) && m'.out == m.out + [c] && c.kind != XrError && WellPlaced(c, |s|)
    requires Ahead(s, m').Some? && Ahead(s, m) == Some([Meaning(s, c)] + Ahead(s, m').value)
    ensures Sync(s, m')
  {
    var es, k := Content(s), |m.out|;
    assert es[k..][0] == Meaning(s, c) && es[k..][1..] == es[k + 1..];
    assert es[..k + 1] == es[..k] + [Meaning(s, c)];
    CarryOne(s, m.out, es[..k], c);
  }

  lemma Unread(s: seq<byte>, i: nat)
    requires i <= |s|
    ensures Peek(s[i..]) == ByteAt(s, i)
    ensures i < |s| ==> s[i..][1..] == s[i + 1..]
  {
  }

  /** A name begun at `start` and ended by the byte at `i` is the maximal one. */
  lemma NameEndsAt(s: seq<byte>, start: nat, i: nat)
    requires Naming(s, start, i)
    requires i < |s| ==> !IsNameChar(s[i])
    ensures Peek(s[start..]) == s[start]
    ensures NameSpan(s[start..]) == i - start
    ensures s[start..][..i - start] == s[start..i] && s[start..][i - start..] == s[i..]
  {
    assert forall j :: start <= j < |s| ==> s[start..][j - start] == s[j];
  }

  /** A value begun at `start` spans the bytes up to the one at `i`, its quote or an illegal byte. */
  lemma ValueSpans(s: seq<byte>, quote: byte, start: nat, i: nat)
    requires Quoting(s, quote, start, i) && !IsValueByte(quote, ByteAt(s, i))
    ensures ValueSpan(quote, s[start..]) == i - start
  {
    assert forall j :: start <= j < |s| ==> s[start..][j - start] == s[j];
  }

  lemma ValueEnds(s: seq<byte>, quote: byte, start: nat, i: nat, tag: seq<byte>, name: seq<byte>)
    requires Quoting(s, quote, start, i) && IsQuote(quote) && ByteAt(s, i) == quote
    ensures i < |s|
    ensures Value(tag, name, quote, s[start..]) == [Attribute(name, s[start..i])] + Attributes(tag, s[i + 1..])
  {
    ValueSpans(s, quote, start, i);
    assert s[start..][i - start] == s[i];
    assert s[start..][..i - start] == s[start..i] && s[start..][i - start + 1..] == s[i + 1..];
  }

  lemma ValueBreaks(s: seq<byte>, quote: byte, start: nat, i: nat, tag: seq<byte>, name: seq<byte>)
    requires Quoting(s, quote, start, i) && IsQuote(quote) && ByteAt(s, i) < 32
    ensures Value(tag, name, quote, s[start..]) == [Error(ByteAt(s, i))]
  {
    ValueSpans(s, quote, start, i);
    assert s[start..][i - start..] == s[i..];
  }

  predicate SkipsSpace(go: Table) {
    go.GoRoot? || go.GoAttrib? || go.GoAttribEq? || go.GoAttribValBegin?
  }

  /** The dispatch tables in terms of the character classes. */
  function Dispatch(go: Table, b: byte): Label {
    if SkipsSpace(go) && IsSpace(b) then LNext
    else
      match go
      case GoRoot => if b == 0 then LDone else if b == 60 then LTag else LError
      case GoName => if IsNameChar(b) then LNext else LNameEnd
      case GoStag => if b == 47 then LEtag else if IsNameStart(b) then LNameBegin else LError
      case GoEtag => if IsNameStart(b) then LNameBegin else LError
      case GoTagClose => if b == 62 then LTagEnd else LError
      case GoAttrib =>
        if b == 47 then LEmptyElementTag
        else if b == 62 then LTagEnd
        else if IsNameStart(b) then LAttrib
        else LError
      case GoAttribEq => if b == 61 then LAttribEq else LError
      case GoAttribValBegin => if b == 34 then LAttribValDouble else if b == 39 then LAttribValSingle else LError
      case GoAttribValSingle => if IsValueByte(39, b) then LNext else if b == 39 then LAttribVal else LError
      case GoAttribValDouble => if IsValueByte(34, b) then LNext else if b == 34 then LAttribVal else LError
  }

  lemma Reached(go: Table, b: byte)
    ensures Entry(go, b) == Dispatch(go, b)
  {
  }

  /** The table and the byte that lead to each label. */
  predicate LeadsTo(m: Machine, b: byte) {
    match m.target
    case LNext =>
      if SkipsSpace(m.go) then IsSpace(b)
      else if m.go.GoName? then IsNameChar(b)
      else InValue(m) && IsValueByte(QuoteOf(m), b)
    case LNameBegin => (m.go.GoStag? || m.go.GoEtag?) && IsNameStart(b)
    case LNameEnd => m.go.GoName? && !IsNameChar(b)
    case LTag => m.go.GoRoot? && b == 60
    case LEtag => m.go.GoStag? && b == 47
    case LTagEnd => (m.go.GoTagClose? || m.go.GoAttrib?) && b == 62
    case LStagName => m.go.GoName? && m.nameHandle == LStagName && !IsNameChar(b)
    case LEtagName => m.go.GoName? && m.nameHandle == LEtagName && !IsNameChar(b)
    case LEmptyElementTag => m.go.GoAttrib? && b == 47
    case LAttrib => m.go.GoAttrib? && IsNameStart(b)
    case LAttribName => m.go.GoName? && m.nameHandle == LAttribName && !IsNameChar(b)
    case LAttribEq => m.go.GoAttribEq? && b == 61
    case LAttribValSingle => m.go.GoAttribValBegin? && b == 39
    case LAttribValDouble => m.go.GoAttribValBegin? && b == 34
    case LAttribVal => InValue(m) && b == QuoteOf(m)
    case LDone => m.go.GoRoot? && b == 0
    case LError => Dispatch(m.go, b) == LError
    case LNull => false
  }

  /** How control came to the label, in terms of the character classes. */
  ghost predicate Led(s: seq<byte>, m: Machine)
    requires 1 <= m.cstr <= |s| + 1
  {
    && LeadsTo(m, ByteAt(s, m.cstr - 1))
    && (m.go.GoStag? ==> m.nameHandle == LStagName)
    && (m.go.GoEtag? ==> m.nameHandle == LEtagName)
  }

  lemma LiveLed(s: seq<byte>, m: Machine)
    requires Live(s, m)
    ensures Led(s, m)
  {
    Reached(m.go, ByteAt(s, m.cstr - 1));
  }

  /** A step from `m` to `m'`, wherever the byte dispatched next leads. */
  ghost predicate Moves(s: seq<byte>, m: Machine, m': Machine) {
    Ahead(s, m).Some? && Led(s, m) && m' == Act(m).(target := m'.target)
  }

  /** Nothing is called back, and the same events are still to come. */
  ghost predicate Quiet(s: seq<byte>, m: Machine, m': Machine) {
    Ahead(s, m') == Ahead(s, m) && m'.out == m.out
  }

  lemma SpaceQuiet(s: seq<byte>, m: Machine, m': Machine)
    requires Moves(s, m, m') && m.target == LNext && SkipsSpace(m.go)
    ensures Quiet(s, m, m')
  {
    Unread(s, m.cstr - 1);
  }

  lemma NameCharQuiet(s: seq<byte>, m: Machine, m': Machine)
    requires Moves(s, m, m') && m.target == LNext && m.go.GoName?
    ensures Quiet(s, m, m')
  {
  }

  lemma ValueByteQuiet(s: seq<byte>, m: Machine, m': Machine)
    requires Moves(s, m, m') && m.target == LNext && InValue(m)
    ensures Quiet(s, m, m')
  {
  }

  lemma NameBeginQuiet(s: seq<byte>, m: Machine, m': Machine)
    requires Moves(s, m, m') && m.target == LNameBegin && m.go.GoStag?
    ensures Quiet(s, m, m')
  {
  }

  lemma EndNameBeginQuiet(s: seq<byte>, m: Machine, m': Machine)
    requires Moves(s, m, m') && m.target == LNameBegin && m.go.GoEtag?
    ensures Quiet(s, m, m')
  {
  }

  lemma TagQuiet(s: seq<byte>, m: Machine, m': Machine)
    requires Moves(s, m, m') && m.target == LTag
    ensures Quiet(s, m, m')
  {
    Unread(s, m.cstr - 1);
  }

  lemma EtagQuiet(s: seq<byte>, m: Machine, m': Machine)
    requires Moves(s, m, m') && m.target == LEtag
    ensures Quiet(s, m, m')
  {
    Unread(s, m.cstr - 1);
  }

  lemma TagEndQuiet(s: seq<byte>, m: Machine, m': Machine)
    requires Moves(s, m, m') && m.target == LTagEnd
    ensures Quiet(s, m, m')
  {
    Unread(s, m.cstr - 1);
  }

  lemma AttribReady(s: seq<byte>, m: Machine, m': Machine)
    requires Moves(s, m, m') && m.target == LAttrib
    ensures m.go.GoAttrib? && m'.go.GoName? && m'.nameHandle == LAttribName && m'.tag == m.tag
    ensures m'.name.Slice? && m'.name.off == m.cstr - 1 && m'.cstr == m.cstr + 1 && m'.out == m.out
    ensures Naming(s, m.cstr - 1, m.cstr) && Inside(m.tag, m.cstr - 1)
  {
  }

  lemma AttribQuiet(s: seq<byte>, m: Machine, m': Machine)
    requires Moves(s, m, m') && m.target == LAttrib
    ensures Quiet(s, m, m')
  {
    AttribReady(s, m, m');
    assert Ready(s, m');
  }

  lemma AttribNamePends(s: seq<byte>, m: Machine)
    requires Ready(s, m) && m.go.GoName? && m.nameHandle == LAttribName && !IsNameChar(ByteAt(s, m.cstr - 1))
    ensures Inside(m.tag, m.cstr - 1) && m.name.off < m.cstr - 1
    ensures Pending(s, m) == Equals(Bytes(s, m.tag), s[m.name.off..m.cstr - 1], s[m.cstr - 1..])
  {
    NameEndsAt(s, m.name.off, m.cstr - 1);
  }

  lemma StagNamePends(s: seq<byte>, m: Machine)
    requires Ready(s, m) && m.go.GoName? && m.nameHandle == LStagName && !IsNameChar(ByteAt(s, m.cstr - 1))
    ensures var tag := m.tag.(len := m.cstr - 1 - m.tag.off);
            && tag.len > 0 && Inside(tag, m.cstr - 1)
            && Pending(s, m) == [ElementStart(Bytes(s, tag))] + Attributes(Bytes(s, tag), s[m.cstr - 1..])
  {
    NameEndsAt(s, m.tag.off, m.cstr - 1);
  }

  lemma EtagNamePends(s: seq<byte>, m: Machine)
    requires Ready(s, m) && m.go.GoName? && m.nameHandle == LEtagName && !IsNameChar(ByteAt(s, m.cstr - 1))
    ensures var tag := m.tag.(len := m.cstr - 1 - m.tag.off);
            && tag.len > 0 && Inside(tag, m.cstr - 1)
            && Pending(s, m) == [ElementEnd(Bytes(s, tag))] + Close(s[m.cstr - 1..])
  {
    NameEndsAt(s, m.tag.off, m.cstr - 1);
  }

  lemma ValuePends(s: seq<byte>, m: Machine)
    requires Ready(s, m) && InValue(m)
    ensures Inside(m.tag, m.cstr - 1) && Inside(m.name, m.val.off) && Quoting(s, QuoteOf(m), m.val.off, m.cstr - 1)
    ensures Pending(s, m) == Value(Bytes(s, m.tag), Bytes(s, m.name), QuoteOf(m), s[m.val.off..])
  {
  }

  lemma AttribValPends(s: seq<byte>, m: Machine)
    requires Ready(s, m) && InValue(m) && ByteAt(s, m.cstr - 1) == QuoteOf(m)
    ensures var val := m.val.(len := m.cstr - 1 - m.val.off);
            && Inside(m.name, m.val.off) && Inside(m.tag, m.cstr - 1) && Inside(val, m.cstr - 1) && m.cstr <= |s|
            && Pending(s, m) ==
               [Attribute(Bytes(s, m.name), Bytes(s, val))] + Attributes(Bytes(s, m.tag), s[m.cstr..])
  {
    ValuePends(s, m);
    ValueEnds(s, QuoteOf(m), m.val.off, m.cstr - 1, Bytes(s, m.tag), Bytes(s, m.name));
  }

  lemma AttribNameQuiet(s: seq<byte>, m: Machine, m': Machine)
    requires Moves(s, m, m') && m.target == LAttribName
    ensures Quiet(s, m, m')
  {
    AttribNamePends(s, m);
  }

  lemma AttribEqQuiet(s: seq<byte>, m: Machine, m': Machine)
    requires Moves(s, m, m') && m.target == LAttribEq
    ensures Quiet(s, m, m')
  {
    Unread(s, m.cstr - 1);
  }

  lemma SingleQuiet(s: seq<byte>, m: Machine, m': Machine)
    requires Moves(s, m, m') && m.target == LAttribValSingle
    ensures Quiet(s, m, m')
  {
    Unread(s, m.cstr - 1);
  }

  lemma DoubleQuiet(s: seq<byte>, m: Machine, m': Machine)
    requires Moves(s, m, m') && m.target == LAttribValDouble
    ensures Quiet(s, m, m')
  {
    Unread(s, m.cstr - 1);
  }

  /** Every step but those of the four labels that call back is quiet. */
  lemma QuietMoves(s: seq<byte>, m: Machine, m': Machine)
    requires Moves(s, m, m') && !Halted(m)
    requires m.target !in {LStagName, LEtagName, LEmptyElementTag, LAttribVal}
    ensures Quiet(s, m, m')
  {
    match m.target
    case LNext =>
      if SkipsSpace(m.go) {
        SpaceQuiet(s, m, m');
      } else if m.go.GoName? {
        NameCharQuiet(s, m, m');
      } else {
        ValueByteQuiet(s, m, m');
      }
    case LNameBegin =>
      if m.go.GoStag? {
        NameBeginQuiet(s, m, m');
      } else {
        EndNameBeginQuiet(s, m, m');
      }
    case LNameEnd =>
    case LTag => TagQuiet(s, m, m');
    case LEtag => EtagQuiet(s, m, m');
    case LTagEnd => TagEndQuiet(s, m, m');
    case LAttrib => AttribQuiet(s, m, m');
    case LAttribName => AttribNameQuiet(s, m, m');
    case LAttribEq => AttribEqQuiet(s, m, m');
    case LAttribValSingle => SingleQuiet(s, m, m');
    case LAttribValDouble => DoubleQuiet(s, m, m');
  }

  lemma StagNameReady(s: seq<byte>, m: Machine, m': Machine)
    requires Moves(s, m, m') && m.target == LStagName
    ensures Ready(s, m') && m'.cstr == m.cstr && Inside(m'.tag, m.cstr - 1)
  {
  }

  lemma StagNameCalls(s: seq<byte>, m: Machine, m': Machine)
    requires Moves(s, m, m') && m.target == LStagName
    ensures Ahead(s, m').Some? && Inside(m'.tag, m.cstr - 1)
    ensures Ahead(s, m) == Some([ElementStart(Bytes(s, m'.tag))] + Ahead(s, m').value)
  {
    StagNameReady(s, m, m');
    StagNamePends(s, m);
  }

  lemma EtagNameReady(s: seq<byte>, m: Machine, m': Machine)
    requires Moves(s, m, m') && m.target == LEtagName
    ensures Ready(s, m') && m'.cstr == m.cstr && Inside(m'.tag, m.cstr - 1)
  {
  }

  lemma EtagNameCalls(s: seq<byte>, m: Machine, m': Machine)
    requires Moves(s, m, m') && m.target == LEtagName
    ensures Ahead(s, m').Some? && Inside(m'.tag, m.cstr - 1)
    ensures Ahead(s, m) == Some([ElementEnd(Bytes(s, m'.tag))] + Ahead(s, m').value)
  {
    EtagNameReady(s, m, m');
    EtagNamePends(s, m);
  }

  lemma EmptyElementTagCalls(s: seq<byte>, m: Machine, m': Machine)
    requires Moves(s, m, m') && m.target == LEmptyElementTag
    ensures Ahead(s, m').Some? && Inside(m.tag, m.cstr - 1)
    ensures Ahead(s, m) == Some([ElementEnd(Bytes(s, m.tag))] + Ahead(s, m').value)
  {
    Unread(s, m.cstr - 1);
  }

  lemma AttribValReady(s: seq<byte>, m: Machine, m': Machine)
    requires Moves(s, m, m') && m.target == LAttribVal && InValue(m) && ByteAt(s, m.cstr - 1) == QuoteOf(m)
    ensures m'.go.GoAttrib? && m'.cstr == m.cstr + 1 && m'.tag == m.tag
    ensures m'.val == m.val.(len := m.cstr - 1 - m.val.off) && Ready(s, m')
  {
  }

  lemma AttribValCalls(s: seq<byte>, m: Machine, m': Machine)
    requires Moves(s, m, m') && m.target == LAttribVal
    ensures Ahead(s, m').Some? && Inside(m.name, m'.val.off) && Inside(m'.val, m.cstr - 1)
    ensures Ahead(s, m) == Some([Attribute(Bytes(s, m.name), Bytes(s, m'.val))] + Ahead(s, m').value)
  {
    AttribValReady(s, m, m');
    AttribValPends(s, m);
  }

  lemma StagNameSyncs(s: seq<byte>, m: Machine, m': Machine)
    requires Sync(s, m) && Moves(s, m, m') && m.target == LStagName
    ensures Sync(s, m')
  {
    StagNameCalls(s, m, m');
    Called(s, m, m', Callback(XrElementStart, m'.tag, Null));
  }

  lemma EtagNameSyncs(s: seq<byte>, m: Machine, m': Machine)
    requires Sync(s, m) && Moves(s, m, m') && m.target == LEtagName
    ensures Sync(s, m')
  {
    EtagNameCalls(s, m, m');
    Called(s, m, m', Callback(XrElementEnd, m'.tag, Null));
  }

  lemma EmptyElementTagSyncs(s: seq<byte>, m: Machine, m': Machine)
    requires Sync(s, m) && Moves(s, m, m') && m.target == LEmptyElementTag
    ensures Sync(s, m')
  {
    EmptyElementTagCalls(s, m, m');
    Called(s, m, m', Callback(XrElementEnd, m.tag, Null));
  }

  lemma AttribValSyncs(s: seq<byte>, m: Machine, m': Machine)
    requires Sync(s, m) && Moves(s, m, m') && m.target == LAttribVal
    ensures Sync(s, m')
  {
    AttribValCalls(s, m, m');
    Called(s, m, m', Callback(XrAttribute, m.name, m'.val));
  }

  lemma QuietSyncs(s: seq<byte>, m: Machine, m': Machine)
    requires Sync(s, m) && Quiet(s, m, m')
    ensures Sync(s, m')
  {
  }

  /** Every step of the machine keeps it in step with the text. */
  lemma StepKeepsGood(s: seq<byte>, m: Machine)
    requires Good(s, m) && !Halted(m)
    ensures Good(s, Step(s, m))
  {
    StepLives(s, m);
    LiveLed(s, m);
    SyncKeeps(s, m, Step(s, m));
  }

  lemma SyncKeeps(s: seq<byte>, m: Machine, m': Machine)
    requires Sync(s, m) && Moves(s, m, m') && !Halted(m)
    ensures Sync(s, m')
  {
    match m.target
    case LStagName => StagNameSyncs(s, m, m');
    case LEtagName => EtagNameSyncs(s, m, m');
    case LEmptyElementTag => EmptyElementTagSyncs(s, m, m');
    case LAttribVal => AttribValSyncs(s, m, m');
    case _ =>
      QuietMoves(s, m, m');
      QuietSyncs(s, m, m');
  }

  lemma ErrorPends(s: seq<byte>, m: Machine)
    requires Ready(s, m) && Dispatch(m.go, ByteAt(s, m.cstr - 1)) == LError
    ensures Pending(s, m) == [Error(ByteAt(s, m.cstr - 1))]
  {
    Unread(s, m.cstr - 1);
    if InValue(m) {
      ValuePends(s, m);
      ValueBreaks(s, QuoteOf(m), m.val.off, m.cstr - 1, Bytes(s, m.tag), Bytes(s, m.name));
    }
  }

  lemma {:induction false} RunKeepsGood(s: seq<byte>, m: Machine)
    requires Good(s, m)
    ensures Good(s, Run(s, m))
    decreases |s| + 1 - m.cstr, Rank(m.target)
  {
    if !Halted(m) {
      StepLives(s, m);
      StepKeepsGood(s, m);
      RunKeepsGood(s, Step(s, m));
    }
  }

  /** The callbacks of the whole run: those made before the halt, and the error callback if
      the machine halts there. */
  function AllCalls(m: Machine): seq<Callback>
    requires 1 <= m.cstr
  {
    if m.target == LError then m.out + [Callback(XrError, Literal(Ascii("Error!")), Slice(m.cstr - 1, 1))]
    else m.out
  }

  /** The machine emits exactly the events of the reference reader. An accepted text is
      fetched to its NUL, and no text any further. */
  lemma RunReads(s: seq<byte>)
    requires 0 !in s
    ensures var m := Run(s, Start(s));
            Carry(s, AllCalls(m), Content(s)) && m.cstr <= |s| + 1 && (Accepts(s) <==> m.target == LDone)
            && (Accepts(s) ==> m.cstr == |s| + 1)
            && (Accepts(s) <==> !exists c :: c in AllCalls(m) && c.kind == XrError)
  {
    StartGood(s);
    RunKeepsGood(s, Start(s));
    HaltReads(s, Run(s, Start(s)));
    CarriesErrors(s, AllCalls(Run(s, Start(s))), Content(s));
  }

  lemma StartGood(s: seq<byte>)
    requires 0 !in s
    ensures Good(s, Start(s))
  {
    assert s[0..] == s;
  }

  lemma HaltReads(s: seq<byte>, m: Machine)
    requires Good(s, m) && Halted(m)
    ensures Carry(s, AllCalls(m), Content(s))
    ensures Accepts(s) <==> m.target == LDone
    ensures m.target == LDone ==> m.cstr == |s| + 1
  {
    MayFetch(s, m);
    if m.target == LError {
      ErrorReads(s, m);
    } else {
      DoneReads(s, m);
    }
  }

  lemma ErrorReads(s: seq<byte>, m: Machine)
    requires Good(s, m) && m.target == LError
    ensures Carry(s, AllCalls(m), Content(s)) && !Accepts(s)
  {
    var es := Content(s);
    assert Pending(s, m) == [Error(ByteAt(s, m.cstr - 1))] by {
      LiveLed(s, m);
      ErrorPends(s, m);
    }
    assert es == es[..|m.out|] + es[|m.out|..];
    assert es[|m.out|] == Error(ByteAt(s, m.cstr - 1));
    CarryOne(s, m.out, es[..|m.out|], Callback(XrError, Literal(Ascii("Error!")), Slice(m.cstr - 1, 1)));
  }

  lemma DoneReads(s: seq<byte>, m: Machine)
    requires Good(s, m) && m.target == LDone
    ensures Carry(s, m.out, Content(s)) && Accepts(s)
    ensures m.cstr == |s| + 1
  {
    var es := Content(s);
    assert m.go.GoRoot? && ByteAt(s, m.cstr - 1) == 0 by {
      Reached(m.go, ByteAt(s, m.cstr - 1));
    }
    assert s[m.cstr - 1..] == [] && Pending(s, m) == [];
    assert es[..|m.out|] == es;
    CalmAccepts(s, m.out, es);
  }
}
