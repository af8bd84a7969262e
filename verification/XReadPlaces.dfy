/** Where in the text the callbacks of `xr_read` find their slices: each at the one place where
    the text goes on after the callbacks before it. */
module XReadPlaces {
  import opened Common
  import opened XmlBytes
  import opened XmlReference
  import opened XReadTables
  import opened XMachine
  import opened XReadProof

  /** Where the text goes on after some callbacks: between tags, inside a start tag, or where the
      '>' of a tag has to stand. */
  datatype Spot = Between(at: nat) | InTag(at: nat) | TagEnd(at: nat)

  /** The first offset from `i` on that holds no white space. */
  function Skip(s: seq<byte>, i: nat): (k: nat)
    ensures i <= k && (k < |s| ==> !IsSpace(s[k])) && (i <= |s| ==> k <= |s|)
    decreases |s| - i
  {
    if i < |s| && IsSpace(s[i]) then Skip(s, i + 1) else i
  }

  function EndOf(x: XrStr): nat {
    if x.Slice? && x.len >= 0 then x.off + x.len else 0
  }

  predicate Reads(s: seq<byte>, i: nat, b: byte) {
    i < |s| && s[i] == b
  }

  /** The start tag being read closes itself: its '/' comes next. */
  predicate ClosesItself(s: seq<byte>, spot: Spot) {
    spot.InTag? && Reads(s, Skip(s, spot.at), 47)
  }

  /** Where the '<' of the next tag has to stand: in a start tag, behind its '>'. */
  function Opening(s: seq<byte>, spot: Spot): nat {
    match spot
    case Between(i) => Skip(s, i)
    case InTag(i) => Skip(s, Skip(s, i) + 1)
    case TagEnd(i) => Skip(s, i + 1)
  }

  /** The spot `spot`, after one more callback. */
  function Onward(s: seq<byte>, spot: Spot, c: Callback): Spot {
    match c.kind
    case XrElementStart => InTag(EndOf(c.name))
    case XrElementEnd => TagEnd(if ClosesItself(s, spot) then Skip(s, spot.at) + 1 else EndOf(c.name))
    case XrAttribute => InTag(EndOf(c.val) + 1)
    case XrError => Between(EndOf(c.val))
  }

  ghost function SpotAfter(s: seq<byte>, out: seq<Callback>): Spot {
    if out == [] then Between(0)
    else
      var k := |out| - 1;
      Onward(s, SpotAfter(s, out[..k]), out[k])
  }

  /** The name of the latest element start. */
  ghost function LatestStart(out: seq<Callback>): XrStr {
    if out == [] then Null
    else if out[|out| - 1].kind == XrElementStart then out[|out| - 1].name
    else LatestStart(out[..|out| - 1])
  }

  /** A name right behind the '<' of the next tag, or its '</'. */
  predicate Named(s: seq<byte>, spot: Spot, x: XrStr, slash: bool) {
    && x.Slice? && Reads(s, Opening(s, spot), 60)
    && if slash then Reads(s, Opening(s, spot) + 1, 47) && x.off == Opening(s, spot) + 2
       else x.off == Opening(s, spot) + 1
  }

  /** The place of a callback made at `spot`, `start` being the name of the latest element start.
      The end of a tag that closes itself repeats the very slice of its start; the end of any
      other is named in its own end tag. */
  predicate Placed(s: seq<byte>, spot: Spot, start: XrStr, c: Callback) {
    match c.kind
    case XrElementStart => !ClosesItself(s, spot) && Named(s, spot, c.name, false)
    case XrElementEnd => if ClosesItself(s, spot) then c.name == start else Named(s, spot, c.name, true)
    case XrAttribute =>
      && spot.InTag? && c.name.Slice? && c.val.Slice?
      && c.name.off == Skip(s, spot.at)
      && Reads(s, Skip(s, EndOf(c.name)), 61)
      && c.val.off == Skip(s, Skip(s, EndOf(c.name)) + 1) + 1
    case XrError => c.val.Slice? && spot.at <= c.val.off
  }

  /** Every callback is in its place. */
  ghost predicate InPlace(s: seq<byte>, out: seq<Callback>) {
    out == [] ||
    var k := |out| - 1;
    InPlace(s, out[..k]) && Placed(s, SpotAfter(s, out[..k]), LatestStart(out[..k]), out[k])
  }

  lemma {:induction false} InPlaceAt(s: seq<byte>, out: seq<Callback>, i: nat)
    requires InPlace(s, out) && i < |out|
    ensures Placed(s, SpotAfter(s, out[..i]), LatestStart(out[..i]), out[i])
  {
    var k := |out| - 1;
    if i < k {
      InPlaceAt(s, out[..k], i);
      assert out[..k][..i] == out[..i];
    }
  }

  lemma PlaceOne(s: seq<byte>, out: seq<Callback>, c: Callback)
    requires InPlace(s, out) && Placed(s, SpotAfter(s, out), LatestStart(out), c)
    ensures InPlace(s, out + [c]) && SpotAfter(s, out + [c]) == Onward(s, SpotAfter(s, out), c)
    ensures LatestStart(out + [c]) == if c.kind == XrElementStart then c.name else LatestStart(out)
  {
    assert (out + [c])[..|out|] == out;
  }

  // ---------- The machine keeps to the spot ----------

  /** A name that began at its offset, up to the byte about to be dispatched. */
  predicate Begun(x: XrStr, m: Machine) {
    x.Slice? && x.off + 1 < m.cstr
  }

  /** An attribute name that is complete. */
  predicate Whole(x: XrStr, s: seq<byte>, spot: Spot) {
    x.Slice? && x.len >= 0 && spot.InTag? && x.off == Skip(s, spot.at)
  }

  /** How far the machine has come from the spot. */
  predicate Follows(s: seq<byte>, m: Machine, spot: Spot)
    requires 1 <= m.cstr
  {
    match m.go
    case GoRoot => !ClosesItself(s, spot) && Opening(s, spot) == Skip(s, m.cstr - 1)
    case GoStag => !ClosesItself(s, spot) && Opening(s, spot) == m.cstr - 2 && Reads(s, m.cstr - 2, 60)
    case GoEtag =>
      !ClosesItself(s, spot) && Opening(s, spot) == m.cstr - 3 && Reads(s, m.cstr - 3, 60) && Reads(s, m.cstr - 2, 47)
    case GoName =>
      if m.nameHandle == LAttribName then Begun(m.name, m) && spot.InTag? && m.name.off == Skip(s, spot.at)
      else Begun(m.tag, m) && !ClosesItself(s, spot) && Named(s, spot, m.tag, m.nameHandle == LEtagName)
    case GoTagClose => spot == TagEnd(m.cstr - 1)
    case GoAttrib => spot.InTag? && Skip(s, spot.at) == Skip(s, m.cstr - 1)
    case GoAttribEq => Whole(m.name, s, spot) && Skip(s, EndOf(m.name)) == Skip(s, m.cstr - 1)
    case GoAttribValBegin =>
      && Whole(m.name, s, spot) && Reads(s, Skip(s, EndOf(m.name)), 61)
      && Skip(s, Skip(s, EndOf(m.name)) + 1) == Skip(s, m.cstr - 1)
    case _ =>
      && Whole(m.name, s, spot) && Reads(s, Skip(s, EndOf(m.name)), 61)
      && m.val.Slice? && m.val.off < m.cstr
      && m.val.off == Skip(s, Skip(s, EndOf(m.name)) + 1) + 1
  }

  predicate InStartTag(m: Machine) {
    m.go.GoAttrib? || m.go.GoAttribEq? || m.go.GoAttribValBegin? || InValue(m)
    || (m.go.GoName? && m.nameHandle == LAttribName)
  }

  /** The machine is `m` at `spot`, `start` being the name of the latest element start. */
  ghost predicate Stands(s: seq<byte>, m: Machine, spot: Spot, start: XrStr) {
    && 1 <= m.cstr <= |s| + 1 && m.tag.Slice? && m.name.Slice? && m.val.Slice?
    && Led(s, m) && Follows(s, m, spot) && spot.at < m.cstr
    && (InStartTag(m) ==> m.tag == start)
  }

  /** The callbacks made are in their places, and the machine stands behind them. */
  ghost predicate OnSpot(s: seq<byte>, m: Machine) {
    InPlace(s, m.out) && Stands(s, m, SpotAfter(s, m.out), LatestStart(m.out))
  }

  predicate Calls(l: Label) {
    l == LStagName || l == LEtagName || l == LEmptyElementTag || l == LAttribVal
  }

  /** A step that calls nothing back leaves the spot where it is. */
  ghost predicate Remains(s: seq<byte>, m: Machine, m': Machine, spot: Spot, start: XrStr)
    requires 1 <= m'.cstr
  {
    m'.out == m.out && Follows(s, m', spot) && (InStartTag(m') ==> m'.tag == start)
  }

  lemma NextRemains(s: seq<byte>, m: Machine, m': Machine, spot: Spot, start: XrStr)
    requires Stands(s, m, spot, start) && m' == Act(m).(target := m'.target)
    requires m.target == LNext
    ensures Remains(s, m, m', spot, start)
  {
  }

  lemma NameBeginRemains(s: seq<byte>, m: Machine, m': Machine, spot: Spot, start: XrStr)
    requires Stands(s, m, spot, start) && m' == Act(m).(target := m'.target)
    requires m.target == LNameBegin || m.target == LNameEnd
    ensures Remains(s, m, m', spot, start)
  {
  }

  lemma TagRemains(s: seq<byte>, m: Machine, m': Machine, spot: Spot, start: XrStr)
    requires Stands(s, m, spot, start) && m' == Act(m).(target := m'.target)
    requires m.target == LTag || m.target == LEtag
    ensures Remains(s, m, m', spot, start)
  {
  }

  lemma TagEndRemains(s: seq<byte>, m: Machine, m': Machine, spot: Spot, start: XrStr)
    requires Stands(s, m, spot, start) && m' == Act(m).(target := m'.target)
    requires m.target == LTagEnd
    ensures Remains(s, m, m', spot, start)
  {
  }

  lemma AttribRemains(s: seq<byte>, m: Machine, m': Machine, spot: Spot, start: XrStr)
    requires Stands(s, m, spot, start) && m' == Act(m).(target := m'.target)
    requires m.target == LAttrib || m.target == LAttribName
    ensures Remains(s, m, m', spot, start)
  {
  }

  lemma AttribEqRemains(s: seq<byte>, m: Machine, m': Machine, spot: Spot, start: XrStr)
    requires Stands(s, m, spot, start) && m' == Act(m).(target := m'.target)
    requires m.target == LAttribEq
    ensures Remains(s, m, m', spot, start)
  {
  }

  lemma QuoteRemains(s: seq<byte>, m: Machine, m': Machine, spot: Spot, start: XrStr)
    requires Stands(s, m, spot, start) && m' == Act(m).(target := m'.target)
    requires m.target == LAttribValSingle || m.target == LAttribValDouble
    ensures Remains(s, m, m', spot, start)
  {
  }

  lemma QuietStands(s: seq<byte>, m: Machine, m': Machine, spot: Spot, start: XrStr)
    requires Stands(s, m, spot, start) && !Halted(m) && !Calls(m.target)
    requires m' == Act(m).(target := m'.target)
    ensures Remains(s, m, m', spot, start)
  {
    match m.target
    case LNext => NextRemains(s, m, m', spot, start);
    case LNameBegin => NameBeginRemains(s, m, m', spot, start);
    case LNameEnd => NameBeginRemains(s, m, m', spot, start);
    case LTag => TagRemains(s, m, m', spot, start);
    case LEtag => TagRemains(s, m, m', spot, start);
    case LTagEnd => TagEndRemains(s, m, m', spot, start);
    case LAttrib => AttribRemains(s, m, m', spot, start);
    case LAttribName => AttribRemains(s, m, m', spot, start);
    case LAttribEq => AttribEqRemains(s, m, m', spot, start);
    case LAttribValSingle => QuoteRemains(s, m, m', spot, start);
    case LAttribValDouble => QuoteRemains(s, m, m', spot, start);
  }

  /** A step that calls `c` back, in its place, goes on from there. */
  ghost predicate Calling(s: seq<byte>, m: Machine, m': Machine, spot: Spot, start: XrStr, c: Callback)
    requires 1 <= m'.cstr
  {
    && m'.out == m.out + [c] && Placed(s, spot, start, c)
    && Follows(s, m', Onward(s, spot, c)) && Onward(s, spot, c).at < m'.cstr
    && (InStartTag(m') ==> m'.tag == if c.kind == XrElementStart then c.name else start)
  }

  lemma StagNamePlaced(s: seq<byte>, m: Machine, m': Machine, spot: Spot, start: XrStr)
    requires Stands(s, m, spot, start) && m' == Act(m).(target := m'.target)
    requires m.target == LStagName
    ensures Calling(s, m, m', spot, start, Callback(XrElementStart, m'.tag, Null))
  {
  }

  lemma EtagNamePlaced(s: seq<byte>, m: Machine, m': Machine, spot: Spot, start: XrStr)
    requires Stands(s, m, spot, start) && m' == Act(m).(target := m'.target)
    requires m.target == LEtagName
    ensures Calling(s, m, m', spot, start, Callback(XrElementEnd, m'.tag, Null))
  {
  }

  lemma EmptyElementTagPlaced(s: seq<byte>, m: Machine, m': Machine, spot: Spot, start: XrStr)
    requires Stands(s, m, spot, start) && m' == Act(m).(target := m'.target)
    requires m.target == LEmptyElementTag
    ensures Calling(s, m, m', spot, start, Callback(XrElementEnd, start, Null))
  {
  }

  lemma AttribValPlaced(s: seq<byte>, m: Machine, m': Machine, spot: Spot, start: XrStr)
    requires Stands(s, m, spot, start) && m' == Act(m).(target := m'.target)
    requires m.target == LAttribVal
    ensures Calling(s, m, m', spot, start, Callback(XrAttribute, m.name, m'.val))
  {
  }

  lemma CallStands(s: seq<byte>, m: Machine, m': Machine, spot: Spot, start: XrStr) returns (c: Callback)
    requires Stands(s, m, spot, start) && Calls(m.target)
    requires m' == Act(m).(target := m'.target)
    ensures Calling(s, m, m', spot, start, c)
  {
    match m.target
    case LStagName =>
      c := Callback(XrElementStart, m'.tag, Null);
      StagNamePlaced(s, m, m', spot, start);
    case LEtagName =>
      c := Callback(XrElementEnd, m'.tag, Null);
      EtagNamePlaced(s, m, m', spot, start);
    case LEmptyElementTag =>
      c := Callback(XrElementEnd, start, Null);
      EmptyElementTagPlaced(s, m, m', spot, start);
    case LAttribVal =>
      c := Callback(XrAttribute, m.name, m'.val);
      AttribValPlaced(s, m, m', spot, start);
  }

  lemma StepKeepsOnSpot(s: seq<byte>, m: Machine)
    requires Live(s, m) && OnSpot(s, m) && !Halted(m)
    ensures OnSpot(s, Step(s, m))
  {
    var m' := Step(s, m);
    StepLives(s, m);
    LiveLed(s, m');
    if Calls(m.target) {
      var c := CallStands(s, m, m', SpotAfter(s, m.out), LatestStart(m.out));
      PlaceOne(s, m.out, c);
    } else {
      QuietStands(s, m, m', SpotAfter(s, m.out), LatestStart(m.out));
    }
  }

  /** Wherever a run is: the end called back at '/>' repeats the name slice of the latest start. */
  lemma SelfClosedEnd(s: seq<byte>, m: Machine)
    requires Live(s, m) && OnSpot(s, m) && m.target == LEmptyElementTag
    ensures Step(s, m).out == m.out + [Callback(XrElementEnd, LatestStart(m.out), Null)]
    ensures ClosesItself(s, SpotAfter(s, m.out))
  {
    EmptyElementTagPlaced(s, m, Step(s, m), SpotAfter(s, m.out), LatestStart(m.out));
  }

  /** The end called back for an end tag is named by that tag: right behind the '</' that comes
      next, up to the byte about to be dispatched. */
  lemma EndTagEnd(s: seq<byte>, m: Machine)
    requires Live(s, m) && OnSpot(s, m) && m.target == LEtagName
    ensures m.tag.off + 1 < m.cstr
    ensures var name := Slice(m.tag.off, m.cstr - 1 - m.tag.off);
            && Step(s, m).out == m.out + [Callback(XrElementEnd, name, Null)]
            && Named(s, SpotAfter(s, m.out), name, true)
            && SpotAfter(s, m.out).at <= name.off
            && !ClosesItself(s, SpotAfter(s, m.out))
  {
    EtagNamePlaced(s, m, Step(s, m), SpotAfter(s, m.out), LatestStart(m.out));
  }

  lemma {:induction false} RunKeepsOnSpot(s: seq<byte>, m: Machine)
    requires Live(s, m) && OnSpot(s, m)
    ensures OnSpot(s, Run(s, m))
    decreases |s| + 1 - m.cstr, Rank(m.target)
  {
    if !Halted(m) {
      StepLives(s, m);
      StepKeepsOnSpot(s, m);
      RunKeepsOnSpot(s, Step(s, m));
    }
  }

  /** Every callback of every run is in its place. */
  lemma RunPlaces(s: seq<byte>)
    requires 0 !in s
    ensures InPlace(s, AllCalls(Run(s, Start(s))))
  {
    var m := Run(s, Start(s));
    LiveLed(s, Start(s));
    RunKeepsOnSpot(s, Start(s));
    if m.target == LError {
      PlaceOne(s, m.out, Callback(XrError, Literal(Ascii("Error!")), Slice(m.cstr - 1, 1)));
    }
  }
}
