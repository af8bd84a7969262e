/** The callbacks of `xr_read` for a text are determined by the text alone: what they say, where
    their slices lie, and which byte an error is about. */
module XReadTrace {
  import opened Common
  import opened XmlBytes
  import opened XmlReference
  import opened XmlTrace
  import opened XmlViable
  import opened XReadTables
  import opened XMachine
  import opened XReadProof
  import opened XReadPlaces

  /** Some text that begins with `s` is accepted. */
  ghost predicate Viable(s: seq<byte>) {
    exists e :: Accepts(s + e)
  }

  /** Up to offset `p` the text could go on to an accepted one; with the byte there it no longer can.
      At the NUL it is only unfinished. */
  ghost predicate FirstBad(s: seq<byte>, p: nat) {
    p <= |s| && Viable(s[..p]) && (p < |s| ==> !Viable(s[..p + 1]))
  }

  ghost predicate ErrorsFirst(s: seq<byte>, out: seq<Callback>) {
    forall c :: c in out && c.kind == XrError ==> c.val.Slice? && FirstBad(s, c.val.off)
  }

  /** The callbacks say what the reference reader says, each from its place in the text, and an
      error is about the first byte that no accepted text could have there. */
  ghost predicate Trace(s: seq<byte>, out: seq<Callback>) {
    Carry(s, out, Content(s)) && InPlace(s, out) && ErrorsFirst(s, out)
  }

  // ---------- A text and its prefixes run alike ----------

  lemma {:induction false} RunFetches(s: seq<byte>, m: Machine)
    requires Live(s, m)
    ensures Run(s, m).cstr >= m.cstr
    decreases |s| + 1 - m.cstr, Rank(m.target)
  {
    if !Halted(m) {
      StepLives(s, m);
      RunFetches(s, Step(s, m));
    }
  }

  lemma StepPrefix(s: seq<byte>, n: nat, m: Machine)
    requires n <= |s| && Live(s, m) && Live(s[..n], m) && !Halted(m)
    ensures Step(s, m).cstr == Step(s[..n], m).cstr
    ensures Step(s, m).cstr <= n ==> Step(s, m) == Step(s[..n], m)
  {
  }

  /** Where a run halts without fetching past the first `n` bytes, these bytes alone lead there,
      and the other way round. */
  lemma {:induction false} RunPrefix(s: seq<byte>, n: nat, m: Machine)
    requires n <= |s| && Live(s, m) && Live(s[..n], m)
    ensures Run(s, m).cstr <= n || Run(s[..n], m).cstr <= n ==> Run(s, m) == Run(s[..n], m)
    decreases |s| + 1 - m.cstr, Rank(m.target)
  {
    if !Halted(m) {
      StepLives(s, m);
      StepLives(s[..n], m);
      StepPrefix(s, n, m);
      if Step(s, m).cstr <= n {
        RunPrefix(s, n, Step(s, m));
      } else {
        RunFetches(s, Step(s, m));
        RunFetches(s[..n], Step(s[..n], m));
      }
    }
  }

  lemma PrefixRuns(s: seq<byte>, n: nat)
    requires 0 !in s && n <= |s|
    ensures var m, m' := Run(s, Start(s)), Run(s[..n], Start(s[..n]));
            m.cstr <= n || m'.cstr <= n ==> m == m'
  {
    if n > 0 {
      RunPrefix(s, n, Start(s));
    }
  }

  /** The last event of a text on which the machine halts with an error. */
  lemma ErrorEnds(s: seq<byte>)
    requires 0 !in s && Run(s, Start(s)).target == LError
    ensures !Accepts(s) && Content(s) != []
    ensures Content(s)[|Content(s)| - 1] == Error(ByteAt(s, Run(s, Start(s)).cstr - 1))
  {
    var m := Run(s, Start(s));
    RunReads(s);
    CarryAt(s, AllCalls(m), Content(s), |m.out|);
  }

  lemma HaltIsFirstBad(s: seq<byte>)
    requires 0 !in s && Run(s, Start(s)).target == LError
    ensures FirstBad(s, Run(s, Start(s)).cstr - 1)
  {
    var p := Run(s, Start(s)).cstr - 1;
    UpToHaltViable(s, p);
    if p < |s| {
      ThroughHaltDead(s, p);
    }
  }

  lemma UpToHaltViable(s: seq<byte>, p: nat)
    requires 0 !in s && Run(s, Start(s)).cstr == p + 1 <= |s| + 1
    ensures Viable(s[..p])
  {
    var t := s[..p];
    PrefixRuns(s, p);
    RunReads(t);
    if !Accepts(t) {
      ErrorEnds(t);
    }
    ErrorsAreExact(t);
  }

  lemma ThroughHaltDead(s: seq<byte>, p: nat)
    requires 0 !in s && p < |s| && Run(s, Start(s)).cstr == p + 1 && Run(s, Start(s)).target == LError
    ensures !Viable(s[..p + 1])
  {
    var t := s[..p + 1];
    assert Run(t, Start(t)) == Run(s, Start(s)) by {
      PrefixRuns(s, p + 1);
    }
    assert !Accepts(t) && Content(t)[|Content(t)| - 1] == Error(s[p]) by {
      ErrorEnds(t);
    }
    assert !Cut(Content(t)) by {
      assert s[p] in s;
    }
    ErrorsAreExact(t);
  }

  /** The callbacks that `xr_read` makes are a trace of the text. */
  lemma RunTraces(s: seq<byte>)
    requires 0 !in s
    ensures Trace(s, AllCalls(Run(s, Start(s))))
  {
    var m := Run(s, Start(s));
    var out := AllCalls(m);
    RunReads(s);
    RunPlaces(s);
    forall c | c in out && c.kind == XrError
      ensures c.val.Slice? && FirstBad(s, c.val.off)
    {
      var i :| 0 <= i < |out| && out[i] == c;
      CarryAt(s, out, Content(s), i);
      ContentShape(s, false);
      ShapeMeans(Content(s), false, i);
      HaltIsFirstBad(s);
    }
  }

  // ---------- There is only one trace ----------

  lemma FirstBadIsOne(s: seq<byte>, p: nat, p': nat)
    requires FirstBad(s, p) && FirstBad(s, p')
    ensures p == p'
  {
    if p < p' {
      ViablePrefix(s, p + 1, p');
    } else if p' < p {
      ViablePrefix(s, p' + 1, p);
    }
  }

  lemma ViablePrefix(s: seq<byte>, n: nat, n': nat)
    requires n <= n' <= |s| && Viable(s[..n'])
    ensures Viable(s[..n])
  {
    var e :| Accepts(s[..n'] + e);
    assert s[..n'] + e == s[..n] + (s[n..n'] + e);
  }

  lemma OneSlice(s: seq<byte>, x: XrStr, x': XrStr)
    requires Inside(x, |s|) && Inside(x', |s|) && x.off == x'.off && Bytes(s, x) == Bytes(s, x')
    ensures x == x'
  {
    assert |Bytes(s, x)| == x.len && |Bytes(s, x')| == x'.len;
  }

  lemma OneCall(s: seq<byte>, spot: Spot, start: XrStr, c: Callback, c': Callback)
    requires WellPlaced(c, |s|) && WellPlaced(c', |s|) && Meaning(s, c) == Meaning(s, c')
    requires Placed(s, spot, start, c) && Placed(s, spot, start, c')
    requires c.kind == XrError ==> c.val.off == c'.val.off
    ensures c == c'
  {
    match c.kind
    case XrElementStart => OneSlice(s, c.name, c'.name);
    case XrElementEnd => OneEnd(s, spot, start, c, c');
    case XrAttribute =>
      OneSlice(s, c.name, c'.name);
      OneSlice(s, c.val, c'.val);
    case XrError =>
  }

  lemma OneEnd(s: seq<byte>, spot: Spot, start: XrStr, c: Callback, c': Callback)
    requires c.kind == c'.kind == XrElementEnd && WellPlaced(c, |s|) && WellPlaced(c', |s|)
    requires Placed(s, spot, start, c) && Placed(s, spot, start, c') && Bytes(s, c.name) == Bytes(s, c'.name)
    ensures c == c'
  {
    if !ClosesItself(s, spot) {
      OneSlice(s, c.name, c'.name);
    }
  }

  lemma SameErrorPlace(s: seq<byte>, out: seq<Callback>, out': seq<Callback>, k: nat)
    requires ErrorsFirst(s, out) && ErrorsFirst(s, out') && k < |out| == |out'|
    requires WellPlaced(out[k], |s|) && WellPlaced(out'[k], |s|) && Meaning(s, out[k]) == Meaning(s, out'[k])
    ensures out[k].kind == XrError ==> out[k].val.off == out'[k].val.off
  {
    if out[k].kind == XrError {
      assert out[k] in out && out'[k] in out';
      FirstBadIsOne(s, out[k].val.off, out'[k].val.off);
    }
  }

  lemma OneLast(s: seq<byte>, out: seq<Callback>, out': seq<Callback>, es: seq<Event>)
    requires Carry(s, out, es) && InPlace(s, out) && ErrorsFirst(s, out)
    requires Carry(s, out', es) && InPlace(s, out') && ErrorsFirst(s, out')
    requires out != [] && out[..|out| - 1] == out'[..|out| - 1]
    ensures out[|out| - 1] == out'[|out| - 1]
  {
    var k := |out| - 1;
    SameErrorPlace(s, out, out', k);
    OneCall(s, SpotAfter(s, out[..k]), LatestStart(out[..k]), out[k], out'[k]);
  }

  lemma {:induction false} OnlyCalls(s: seq<byte>, out: seq<Callback>, out': seq<Callback>, es: seq<Event>)
    requires Carry(s, out, es) && InPlace(s, out) && ErrorsFirst(s, out)
    requires Carry(s, out', es) && InPlace(s, out') && ErrorsFirst(s, out')
    ensures out == out'
  {
    if out != [] {
      var k := |out| - 1;
      OnlyCalls(s, out[..k], out'[..k], es[..k]);
      OneLast(s, out, out', es);
      assert out == out[..k] + [out[k]] && out' == out'[..k] + [out'[k]];
    }
  }

  /** No text has two traces. */
  lemma OnlyTrace(s: seq<byte>, out: seq<Callback>, out': seq<Callback>)
    requires Trace(s, out) && Trace(s, out')
    ensures out == out'
  {
    OnlyCalls(s, out, out', Content(s));
  }

  // ---------- What the places mean ----------

  /** The end of the text that the callbacks have handed out. */
  ghost function Reach(out: seq<Callback>): nat {
    if out == [] then 0
    else
      var k := |out| - 1;
      Max(Reach(out[..k]), Max(EndOf(out[k].name), EndOf(out[k].val)))
  }

  /** The first slice of the text that the callback hands out. */
  function Handed(c: Callback): XrStr {
    if c.kind == XrError then c.val else c.name
  }

  function Max(a: nat, b: nat): nat {
    if a < b then b else a
  }

  lemma {:induction false} LatestStartReached(out: seq<Callback>)
    ensures EndOf(LatestStart(out)) <= Reach(out)
  {
    if out != [] {
      LatestStartReached(out[..|out| - 1]);
    }
  }

  lemma CallReaches(s: seq<byte>, spot: Spot, start: XrStr, c: Callback)
    requires WellPlaced(c, |s|) && Placed(s, spot, start, c) && EndOf(start) <= spot.at
    ensures spot.at <= Onward(s, spot, c).at
    ensures EndOf(c.name) <= Onward(s, spot, c).at && EndOf(c.val) <= Onward(s, spot, c).at
    ensures (c.kind == XrElementEnd && ClosesItself(s, spot)) || (Handed(c).Slice? && spot.at <= Handed(c).off)
  {
  }

  /** The text goes on behind everything handed out. */
  lemma {:induction false} SpotIsBeyond(s: seq<byte>, out: seq<Callback>, es: seq<Event>)
    requires Carry(s, out, es) && InPlace(s, out)
    ensures Reach(out) <= SpotAfter(s, out).at
  {
    if out != [] {
      var k := |out| - 1;
      SpotIsBeyond(s, out[..k], es[..k]);
      LatestStartReached(out[..k]);
      CallReaches(s, SpotAfter(s, out[..k]), LatestStart(out[..k]), out[k]);
    }
  }

  /** Every callback but the end of a tag that closes itself hands out text beyond all that was
      handed out before it; that one repeats the very slice of the latest element start. */
  lemma CallsGoForward(s: seq<byte>, out: seq<Callback>, i: nat)
    requires Trace(s, out) && i < |out|
    ensures var c, before := out[i], out[..i];
            if c.kind == XrElementEnd && ClosesItself(s, SpotAfter(s, before)) then c.name == LatestStart(before)
            else Handed(c).Slice? && Reach(before) <= Handed(c).off
  {
    CarryAt(s, out, Content(s), i);
    InPlaceAt(s, out, i);
    CarryFront(s, out, Content(s), i);
    InPlaceFront(s, out, i);
    SpotIsBeyond(s, out[..i], Content(s)[..i]);
    LatestStartReached(out[..i]);
    CallReaches(s, SpotAfter(s, out[..i]), LatestStart(out[..i]), out[i]);
  }

  lemma {:induction false} CarryFront(s: seq<byte>, out: seq<Callback>, es: seq<Event>, i: nat)
    requires Carry(s, out, es) && i <= |out|
    ensures Carry(s, out[..i], es[..i])
  {
    if i < |out| {
      var k := |out| - 1;
      CarryFront(s, out[..k], es[..k], i);
      assert out[..k][..i] == out[..i] && es[..k][..i] == es[..i];
    } else {
      assert out[..i] == out && es[..i] == es;
    }
  }

  lemma {:induction false} InPlaceFront(s: seq<byte>, out: seq<Callback>, i: nat)
    requires InPlace(s, out) && i <= |out|
    ensures InPlace(s, out[..i])
  {
    if i < |out| {
      var k := |out| - 1;
      InPlaceFront(s, out[..k], i);
      assert out[..k][..i] == out[..i];
    } else {
      assert out[..i] == out;
    }
  }
}
