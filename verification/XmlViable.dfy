/** An error event tells whether the text read so far could have gone on to an accepted one. */
module XmlViable {
  import opened Common
  import opened XmlBytes
  import opened XmlReference
  import opened XmlParse
  import opened XmlTrace

  lemma {:induction false} ContentCompletes(s: seq<byte>) returns (e: seq<byte>)
    requires 0 !in s && Cut(Content(s))
    ensures Accepts(s + e)
    decreases |s|
  {
    if IsSpace(s[0]) {
      e := ContentCompletes(s[1..]);
    } else {
      e := MarkupCompletes(s[1..]);
    }
    Extends(s, e);
  }

  lemma {:induction false} MarkupCompletes(s: seq<byte>) returns (e: seq<byte>)
    requires 0 !in s && Cut(Markup(s))
    ensures !HasError(Markup(s + e))
    decreases |s|
  {
    if s == [] {
      e := [97, 62];
      ShortestTag();
      assert [] + e == e;
    } else if s[0] == 47 {
      e := EndTagCompletes(s[1..]);
      Extends(s, e);
    } else {
      var k := NameSpan(s);
      e := AttributesComplete(s[..k], s[k..]);
      Extends(s, e);
      NameExtends(s, e);
      HasErrorConcat([ElementStart(s[..k])], Attributes(s[..k], s[k..] + e));
    }
  }

  /** '<a>' and '</a>' are accepted. */
  lemma ShortestTag()
    ensures !HasError(Markup([97, 62])) && !HasError(EndTag([97, 62]))
  {
    var s: seq<byte> := [97, 62];
    NothingLeft(s, 1, s);
    assert NameSpan(s) == 1 && s[1..] == [62] && s[1..][1..] == [];
  }

  lemma {:induction false} EndTagCompletes(s: seq<byte>) returns (e: seq<byte>)
    requires 0 !in s && Cut(EndTag(s))
    ensures !HasError(EndTag(s + e))
    decreases |s|
  {
    if s == [] {
      e := [97, 62];
      ShortestTag();
      assert [] + e == e;
    } else {
      var k := NameSpan(s);
      e := CloseCompletes(s[k..]);
      Extends(s, e);
      NameExtends(s, e);
      HasErrorConcat([ElementEnd(s[..k])], Close(s[k..] + e));
    }
  }

  lemma {:induction false} CloseCompletes(s: seq<byte>) returns (e: seq<byte>)
    requires 0 !in s && Cut(Close(s))
    ensures !HasError(Close(s + e)) && (s == [] ==> e == [62])
    decreases |s|
  {
    if s == [] {
      e := [62];
      assert ([] + e)[1..] == [];
    } else {
      e := ContentCompletes(s[1..]);
      Extends(s, e);
    }
  }

  lemma {:induction false} AttributesComplete(tag: seq<byte>, s: seq<byte>) returns (e: seq<byte>)
    requires 0 !in s && Cut(Attributes(tag, s))
    ensures !HasError(Attributes(tag, s + e)) && (s == [] ==> e == [62])
    decreases |s|
  {
    if s == [] {
      e := [62];
      assert ([] + e)[1..] == [];
    } else if IsSpace(s[0]) {
      e := AttributesComplete(tag, s[1..]);
      Extends(s, e);
    } else if s[0] == 47 {
      e := CloseCompletes(s[1..]);
      Extends(s, e);
      HasErrorConcat([ElementEnd(tag)], Close(s[1..] + e));
    } else if s[0] == 62 {
      e := ContentCompletes(s[1..]);
      Extends(s, e);
    } else {
      var k := NameSpan(s);
      e := EqualsComplete(tag, s[..k], s[k..]);
      Extends(s, e);
      NameExtends(s, e);
    }
  }

  lemma {:induction false} EqualsComplete(tag: seq<byte>, name: seq<byte>, s: seq<byte>) returns (e: seq<byte>)
    requires 0 !in s && Cut(Equals(tag, name, s))
    ensures !HasError(Equals(tag, name, s + e)) && (s == [] ==> e[..1] == [61])
    decreases |s|
  {
    if s == [] {
      var e' := QuotedComplete(tag, name, []);
      e := [61] + e';
      assert ([] + e)[1..] == [] + e';
    } else if IsSpace(s[0]) {
      e := EqualsComplete(tag, name, s[1..]);
      Extends(s, e);
    } else {
      e := QuotedComplete(tag, name, s[1..]);
      Extends(s, e);
    }
  }

  lemma {:induction false} QuotedComplete(tag: seq<byte>, name: seq<byte>, s: seq<byte>) returns (e: seq<byte>)
    requires 0 !in s && Cut(Quoted(tag, name, s))
    ensures !HasError(Quoted(tag, name, s + e))
    decreases |s|, 1
  {
    if s == [] {
      var e' := ValueCompletes(tag, name, 34, []);
      e := [34] + e';
      assert ([] + e)[1..] == [] + e';
    } else if IsSpace(s[0]) {
      e := QuotedComplete(tag, name, s[1..]);
      Extends(s, e);
    } else {
      e := ValueCompletes(tag, name, s[0], s[1..]);
      Extends(s, e);
    }
  }

  lemma ValueGoesOn(tag: seq<byte>, name: seq<byte>, quote: byte, s: seq<byte>, e: seq<byte>, rest: seq<byte>)
    requires ValueSpan(quote, s) < |s| || e != []
    requires var k := ValueSpan(quote, s);
             if k < |s| then s[k] == quote && rest == s[k + 1..] + e else e[0] == quote && rest == e[1..]
    requires !HasError(Attributes(tag, rest))
    ensures !HasError(Value(tag, name, quote, s + e))
  {
    ValueExtends(quote, s, e);
    HasErrorConcat([Attribute(name, s[..ValueSpan(quote, s)])], Attributes(tag, rest));
  }

  lemma {:induction false} ValueCompletes(tag: seq<byte>, name: seq<byte>, quote: byte, s: seq<byte>)
      returns (e: seq<byte>)
    requires 0 !in s && IsQuote(quote) && Cut(Value(tag, name, quote, s))
    ensures !HasError(Value(tag, name, quote, s + e))
    decreases |s|, 0
  {
    var k := ValueSpan(quote, s);
    if k == |s| {
      e := [quote, 62];
      assert e[1..] == [62] && !HasError(Attributes(tag, [62])) by {
        assert [62][1..] == [];
      }
      ValueGoesOn(tag, name, quote, s, e, [62]);
    } else {
      e := AttributesComplete(tag, s[k + 1..]);
      ValueGoesOn(tag, name, quote, s, e, s[k + 1..] + e);
    }
  }

  /** The error events are exact. A text can be continued to an accepted one unless the reader
      has complained about one of its bytes; complaining about the NUL means no more than that
      the text is unfinished. */
  lemma ErrorsAreExact(s: seq<byte>)
    requires 0 !in s
    ensures (exists e :: Accepts(s + e)) <==> Accepts(s) || Cut(Content(s))
  {
    if Accepts(s) {
      assert s + [] == s;
    } else if Cut(Content(s)) {
      var e := ContentCompletes(s);
    } else {
      ErrorIsLast(s);
      forall e
        ensures !Accepts(s + e)
      {
        ContentDies(s, e);
      }
    }
  }

  lemma ErrorIsLast(s: seq<byte>)
    requires !Accepts(s)
    ensures Dead(Content(s)) || Cut(Content(s))
  {
    var es := Content(s);
    var i :| 0 <= i < |es| && es[i].Error?;
    ContentShape(s, false);
    ShapeMeans(es, false, i);
  }
}
