/** The shape of every event trace, accepted or not, and what an error event tells about the
    texts that could have followed. */
module XmlTrace {
  import opened Common
  import opened XmlBytes
  import opened XmlReference

  /** An attribute follows an element start with only attributes in between (`inTag`), and an
      error comes last. */
  predicate Shape(es: seq<Event>, inTag: bool) {
    es == [] ||
    match es[0]
    case ElementStart(_) => Shape(es[1..], true)
    case Attribute(_, _) => inTag && Shape(es[1..], true)
    case ElementEnd(_) => Shape(es[1..], false)
    case Error(_) => |es| == 1
  }

  lemma {:induction false} ContentShape(s: seq<byte>, inTag: bool)
    ensures Shape(Content(s), inTag)
    decreases |s|
  {
    if s != [] && IsSpace(s[0]) {
      ContentShape(s[1..], inTag);
    } else if s != [] && s[0] == 60 {
      MarkupShape(s[1..], inTag);
    }
  }

  lemma {:induction false} MarkupShape(s: seq<byte>, inTag: bool)
    ensures Shape(Markup(s), inTag)
    decreases |s|
  {
    if Peek(s) == 47 {
      EndTagShape(s[1..], inTag);
    } else if IsNameStart(Peek(s)) {
      var k := NameSpan(s);
      AttributesShape(s[..k], s[k..]);
    }
  }

  lemma {:induction false} EndTagShape(s: seq<byte>, inTag: bool)
    ensures Shape(EndTag(s), inTag)
    decreases |s|
  {
    if IsNameStart(Peek(s)) {
      CloseShape(s[NameSpan(s)..]);
    }
  }

  lemma {:induction false} CloseShape(s: seq<byte>)
    ensures Shape(Close(s), false)
    decreases |s|
  {
    if Peek(s) == 62 {
      ContentShape(s[1..], false);
    }
  }

  lemma {:induction false} AttributesShape(tag: seq<byte>, s: seq<byte>)
    ensures Shape(Attributes(tag, s), true)
    decreases |s|
  {
    if IsSpace(Peek(s)) {
      AttributesShape(tag, s[1..]);
    } else if Peek(s) == 47 {
      CloseShape(s[1..]);
    } else if Peek(s) == 62 {
      ContentShape(s[1..], true);
    } else if IsNameStart(Peek(s)) {
      var k := NameSpan(s);
      EqualsShape(tag, s[..k], s[k..]);
    }
  }

  lemma {:induction false} EqualsShape(tag: seq<byte>, name: seq<byte>, s: seq<byte>)
    ensures Shape(Equals(tag, name, s), true)
    decreases |s|
  {
    if IsSpace(Peek(s)) {
      EqualsShape(tag, name, s[1..]);
    } else if Peek(s) == 61 {
      QuotedShape(tag, name, s[1..]);
    }
  }

  lemma {:induction false} QuotedShape(tag: seq<byte>, name: seq<byte>, s: seq<byte>)
    ensures Shape(Quoted(tag, name, s), true)
    decreases |s|
  {
    if IsSpace(Peek(s)) {
      QuotedShape(tag, name, s[1..]);
    } else if IsQuote(Peek(s)) {
      ValueShape(tag, name, s[0], s[1..]);
    }
  }

  lemma {:induction false} ValueShape(tag: seq<byte>, name: seq<byte>, quote: byte, s: seq<byte>)
    ensures Shape(Value(tag, name, quote, s), true)
    decreases |s|
  {
    var k := ValueSpan(quote, s);
    if k < |s| && s[k] == quote {
      AttributesShape(tag, s[k + 1..]);
    }
  }

  /** In a trace of that shape an error is the last event, and each attribute comes right after
      an element start or another attribute. */
  lemma {:induction false} ShapeMeans(es: seq<Event>, inTag: bool, i: nat)
    requires Shape(es, inTag) && i < |es|
    ensures es[i].Error? ==> i == |es| - 1
    ensures es[i].Attribute? ==> if i == 0 then inTag else es[i - 1].ElementStart? || es[i - 1].Attribute?
  {
    if i > 0 {
      ShapeMeans(es[1..], es[0].ElementStart? || es[0].Attribute?, i - 1);
    }
  }

  // ---------- Errors and continuations ----------

  /** The trace stops at a byte of the text. */
  predicate Dead(es: seq<Event>) {
    es != [] && es[|es| - 1].Error? && es[|es| - 1].bad != 0
  }

  /** The trace stops at the terminating NUL. */
  predicate Cut(es: seq<Event>) {
    es != [] && es[|es| - 1] == Error(0)
  }

  /** A name is not prolonged by what follows it, unless that begins with a name byte. */
  lemma NameExtends(s: seq<byte>, e: seq<byte>)
    requires NameSpan(s) < |s| || e == [] || !IsNameChar(e[0])
    ensures NameSpan(s + e) == NameSpan(s)
    ensures (s + e)[..NameSpan(s)] == s[..NameSpan(s)] && (s + e)[NameSpan(s)..] == s[NameSpan(s)..] + e
  {
    var k := NameSpan(s);
    Split(s, e, k);
    assert forall j :: 0 <= j < k ==> (s + e)[j] == s[j];
    assert Peek((s + e)[k..]) == if k < |s| then s[k] else Peek(e);
    assert k < |s + e| ==> (s + e)[k] == Peek((s + e)[k..]);
  }

  lemma Split(s: seq<byte>, e: seq<byte>, k: nat)
    requires k <= |s|
    ensures (s + e)[..k] == s[..k] && (s + e)[k..] == s[k..] + e
  {
  }

  /** A text that ends in a name is cut short there. */
  lemma NothingLeft(s: seq<byte>, k: nat, tag: seq<byte>)
    requires k <= |s|
    ensures k == |s| ==> s[k..] == [] && s[..k] == s
    ensures Attributes(tag, []) == Close([]) == Equals(tag, s[..k], []) == [Error(0)]
  {
  }

  lemma Extends(s: seq<byte>, e: seq<byte>)
    requires s != []
    ensures Peek(s + e) == Peek(s) && (s + e)[1..] == s[1..] + e
  {
  }

  lemma {:induction false} ContentDies(s: seq<byte>, e: seq<byte>)
    requires Dead(Content(s))
    ensures Content(s + e) == Content(s)
    decreases |s|
  {
    Extends(s, e);
    if IsSpace(s[0]) {
      ContentDies(s[1..], e);
    } else if s[0] == 60 {
      MarkupDies(s[1..], e);
    }
  }

  lemma {:induction false} MarkupDies(s: seq<byte>, e: seq<byte>)
    requires Dead(Markup(s))
    ensures Markup(s + e) == Markup(s)
    decreases |s|
  {
    Extends(s, e);
    if Peek(s) == 47 {
      EndTagDies(s[1..], e);
    } else if IsNameStart(Peek(s)) {
      var k := NameSpan(s);
      NothingLeft(s, k, s[..k]);
      NameExtends(s, e);
      AttributesDie(s[..k], s[k..], e);
    }
  }

  lemma {:induction false} EndTagDies(s: seq<byte>, e: seq<byte>)
    requires Dead(EndTag(s))
    ensures EndTag(s + e) == EndTag(s)
    decreases |s|
  {
    Extends(s, e);
    if IsNameStart(Peek(s)) {
      NothingLeft(s, NameSpan(s), s);
      NameExtends(s, e);
      CloseDies(s[NameSpan(s)..], e);
    }
  }

  lemma {:induction false} CloseDies(s: seq<byte>, e: seq<byte>)
    requires Dead(Close(s))
    ensures Close(s + e) == Close(s)
    decreases |s|
  {
    Extends(s, e);
    if Peek(s) == 62 {
      ContentDies(s[1..], e);
    }
  }

  lemma {:induction false} AttributesDie(tag: seq<byte>, s: seq<byte>, e: seq<byte>)
    requires Dead(Attributes(tag, s))
    ensures Attributes(tag, s + e) == Attributes(tag, s)
    decreases |s|
  {
    Extends(s, e);
    if IsSpace(Peek(s)) {
      AttributesDie(tag, s[1..], e);
    } else if Peek(s) == 47 {
      CloseDies(s[1..], e);
    } else if Peek(s) == 62 {
      ContentDies(s[1..], e);
    } else if IsNameStart(Peek(s)) {
      var k := NameSpan(s);
      NothingLeft(s, k, tag);
      NameExtends(s, e);
      EqualsDie(tag, s[..k], s[k..], e);
    }
  }

  lemma {:induction false} EqualsDie(tag: seq<byte>, name: seq<byte>, s: seq<byte>, e: seq<byte>)
    requires Dead(Equals(tag, name, s))
    ensures Equals(tag, name, s + e) == Equals(tag, name, s)
    decreases |s|
  {
    Extends(s, e);
    if IsSpace(Peek(s)) {
      EqualsDie(tag, name, s[1..], e);
    } else if Peek(s) == 61 {
      QuotedDies(tag, name, s[1..], e);
    }
  }

  lemma {:induction false} QuotedDies(tag: seq<byte>, name: seq<byte>, s: seq<byte>, e: seq<byte>)
    requires Dead(Quoted(tag, name, s))
    ensures Quoted(tag, name, s + e) == Quoted(tag, name, s)
    decreases |s|
  {
    Extends(s, e);
    if IsSpace(Peek(s)) {
      QuotedDies(tag, name, s[1..], e);
    } else if IsQuote(Peek(s)) {
      ValueDies(tag, name, s[0], s[1..], e);
    }
  }

  lemma {:induction false} ValueDies(tag: seq<byte>, name: seq<byte>, quote: byte, s: seq<byte>, e: seq<byte>)
    requires Dead(Value(tag, name, quote, s))
    ensures Value(tag, name, quote, s + e) == Value(tag, name, quote, s)
    decreases |s|
  {
    var k := ValueSpan(quote, s);
    ValueExtends(quote, s, e);
    if s[k] == quote {
      AttributesDie(tag, s[k + 1..], e);
    }
  }

  lemma ValueExtends(quote: byte, s: seq<byte>, e: seq<byte>)
    requires ValueSpan(quote, s) < |s| || (e != [] && !IsValueByte(quote, e[0]))
    ensures var k := ValueSpan(quote, s);
            && ValueSpan(quote, s + e) == k && (s + e)[..k] == s[..k]
            && (k < |s| ==> (s + e)[k] == s[k] && (s + e)[k + 1..] == s[k + 1..] + e)
            && (k == |s| ==> (s + e)[k] == e[0] && (s + e)[k + 1..] == e[1..])
  {
    var k := ValueSpan(quote, s);
    assert forall j :: 0 <= j < |s| ==> (s + e)[j] == s[j];
    if k < |s| {
      assert (s + e)[k + 1..] == s[k + 1..] + e;
    } else {
      assert (s + e)[k] == e[0];
    }
  }
}
