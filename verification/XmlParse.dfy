/** Every accepted text is a printed legal document: the converse of `XmlGrammar.DocReads`. */
module XmlParse {
  import opened Common
  import opened XmlBytes
  import opened XmlReference
  import opened XmlGrammar

  /** What follows a point inside a start tag where an attribute may begin. */
  datatype Rest = Rest(attrs: seq<Attr>, trail: seq<byte>, empty: bool, doc: seq<Item>)

  function PrintRest(r: Rest): seq<byte> {
    PrintAttrs(r.attrs) + (r.trail + ((if r.empty then [47, 62] else [62]) + PrintDoc(r.doc)))
  }

  predicate LegalRest(r: Rest) {
    (forall a :: a in r.attrs ==> LegalAttr(a)) && IsBlank(r.trail) && LegalDoc(r.doc)
  }

  lemma HasErrorConcat(a: seq<Event>, b: seq<Event>)
    ensures HasError(a + b) <==> HasError(a) || HasError(b)
  {
    forall e | e in a + b && e.Error?
      ensures e in a || e in b
    {
    }
    assert forall e :: e in a || e in b ==> e in a + b;
  }

  lemma NoError(b: byte)
    ensures HasError([Error(b)])
  {
    assert Error(b) in [Error(b)];
  }

  lemma {:induction false} ParseContent(s: seq<byte>) returns (doc: seq<Item>)
    requires Accepts(s)
    ensures LegalDoc(doc) && PrintDoc(doc) == s
    decreases |s|
  {
    if s == [] {
      doc := [];
    } else if IsSpace(s[0]) {
      var rest := ParseContent(s[1..]);
      doc := [Blank(s[0])] + rest;
    } else {
      NoError(s[0]);
      doc := ParseMarkup(s[1..]);
    }
  }

  lemma {:induction false} ParseMarkup(s: seq<byte>) returns (doc: seq<Item>)
    requires !HasError(Markup(s))
    ensures LegalDoc(doc) && PrintDoc(doc) == [60] + s
    decreases |s|
  {
    NoError(Peek(s));
    if Peek(s) == 47 {
      var name, rest := ParseEndTag(s[1..]);
      doc := ShutDoc(name, rest);
      assert s == [47] + s[1..];
    } else {
      var r := ParseStartTag(s);
      doc := OpenDoc(s[..NameSpan(s)], r);
    }
  }

  lemma {:induction false} ParseStartTag(s: seq<byte>) returns (r: Rest)
    requires IsNameStart(Peek(s)) && !HasError(Markup(s))
    ensures var k := NameSpan(s);
            IsName(s[..k]) && LegalRest(r) && (r.attrs != [] ==> r.attrs[0].lead != []) && s == s[..k] + PrintRest(r)
    decreases |s|, 0
  {
    var k := NameSpan(s);
    NameTaken(s);
    HasErrorConcat([ElementStart(s[..k])], Attributes(s[..k], s[k..]));
    r := ParseAttributes(s[..k], s[k..]);
  }

  lemma ShutDoc(name: seq<byte>, rest: seq<Item>) returns (doc: seq<Item>)
    requires IsName(name) && LegalDoc(rest)
    ensures LegalDoc(doc) && PrintDoc(doc) == [60] + ([47] + (name + ([62] + PrintDoc(rest))))
  {
    doc := [Shut(name)] + rest;
  }

  lemma OpenDoc(name: seq<byte>, r: Rest) returns (doc: seq<Item>)
    requires IsName(name) && LegalRest(r) && (r.attrs != [] ==> r.attrs[0].lead != [])
    ensures LegalDoc(doc) && PrintDoc(doc) == [60] + (name + PrintRest(r))
  {
    var it := Open(name, r.attrs, r.trail, r.empty);
    doc := [it] + r.doc;
    OpenPrints(it, PrintDoc(r.doc));
  }

  lemma {:induction false} ParseEndTag(s: seq<byte>) returns (name: seq<byte>, doc: seq<Item>)
    requires !HasError(EndTag(s))
    ensures IsName(name) && LegalDoc(doc) && s == name + ([62] + PrintDoc(doc))
    decreases |s|
  {
    NoError(Peek(s));
    var k := NameSpan(s);
    NameTaken(s);
    HasErrorConcat([ElementEnd(s[..k])], Close(s[k..]));
    name := s[..k];
    doc := ParseClose(s[k..]);
  }

  lemma {:induction false} ParseClose(s: seq<byte>) returns (doc: seq<Item>)
    requires !HasError(Close(s))
    ensures LegalDoc(doc) && s == [62] + PrintDoc(doc)
    decreases |s|
  {
    NoError(Peek(s));
    doc := ParseContent(s[1..]);
  }

  lemma {:induction false} ParseAttributes(tag: seq<byte>, s: seq<byte>) returns (r: Rest)
    requires !HasError(Attributes(tag, s))
    ensures LegalRest(r) && s == PrintRest(r)
    ensures r.attrs != [] && !IsNameStart(Peek(s)) ==> r.attrs[0].lead != []
    decreases |s|
  {
    NoError(Peek(s));
    if IsSpace(Peek(s)) {
      var r' := ParseAttributes(tag, s[1..]);
      r := LeadBlank(s[0], r');
    } else if Peek(s) == 47 {
      HasErrorConcat([ElementEnd(tag)], Close(s[1..]));
      var doc := ParseClose(s[1..]);
      r := Rest([], [], true, doc);
    } else if Peek(s) == 62 {
      var doc := ParseContent(s[1..]);
      r := Rest([], [], false, doc);
    } else {
      var k := NameSpan(s);
      NameTaken(s);
      var a, r' := ParseEquals(tag, s[..k], s[k..]);
      r := PrefixAttr(a, r');
    }
  }

  lemma PrefixAttr(a: Attr, r: Rest) returns (r': Rest)
    requires LegalRest(r) && LegalAttr(a) && a.lead == []
    ensures LegalRest(r') && r'.attrs != []
    ensures PrintRest(r')
            == a.name + (a.eqLead + ([61] + (a.eqTrail + ([a.quote] + (a.value + [a.quote])))) + PrintRest(r))
  {
    r' := r.(attrs := [a] + r.attrs);
  }

  lemma Regroup(b: byte, x: seq<byte>, y: seq<byte>)
    ensures ([b] + x) + y == [b] + (x + y)
  {
  }

  lemma LeadBlank(b: byte, r: Rest) returns (r': Rest)
    requires LegalRest(r) && IsSpace(b)
    ensures LegalRest(r') && PrintRest(r') == [b] + PrintRest(r)
    ensures r'.attrs != [] ==> r'.attrs[0].lead != []
  {
    var close := (if r.empty then [47, 62] else [62]) + PrintDoc(r.doc);
    if r.attrs == [] {
      r' := r.(trail := [b] + r.trail);
      Regroup(b, r.trail, close);
      PrintsTrail(r);
      PrintsTrail(r');
    } else {
      var attrs := LeadBlankAttr(b, r.attrs);
      r' := r.(attrs := attrs);
      Regroup(b, PrintAttrs(r.attrs), r.trail + close);
    }
  }

  lemma PrintsTrail(r: Rest)
    requires r.attrs == []
    ensures PrintRest(r) == r.trail + ((if r.empty then [47, 62] else [62]) + PrintDoc(r.doc))
  {
  }

  lemma LeadPrints(a: Attr, lead: seq<byte>)
    ensures PrintAttr(a.(lead := lead)) == lead + PrintAttr(a.(lead := []))
  {
  }

  lemma LeadBlankAttr(b: byte, attrs: seq<Attr>) returns (attrs': seq<Attr>)
    requires attrs != [] && IsSpace(b) && forall a :: a in attrs ==> LegalAttr(a)
    ensures attrs' != [] && attrs'[0].lead != [] && forall a :: a in attrs' ==> LegalAttr(a)
    ensures PrintAttrs(attrs') == [b] + PrintAttrs(attrs)
  {
    var a := attrs[0].(lead := [b] + attrs[0].lead);
    attrs' := [a] + attrs[1..];
    assert LegalAttr(a) by {
      assert attrs[0] in attrs;
    }
    assert forall x :: x in attrs' ==> x == a || x in attrs;
    assert PrintAttr(a) == [b] + PrintAttr(attrs[0]) by {
      LeadPrints(attrs[0], a.lead);
      LeadPrints(attrs[0], attrs[0].lead);
      Regroup(b, attrs[0].lead, PrintAttr(attrs[0].(lead := [])));
    }
    assert attrs'[1..] == attrs[1..];
    Regroup(b, PrintAttr(attrs[0]), PrintAttrs(attrs[1..]));
  }

  /** The longest name at the front of `s`. */
  lemma NameTaken(s: seq<byte>)
    requires IsNameStart(Peek(s))
    ensures var k := NameSpan(s); IsName(s[..k]) && s == s[..k] + s[k..] && !IsNameStart(Peek(s[k..]))
  {
  }

  /** The attribute that `name` begins, without white space before it, and what follows it. */
  lemma {:induction false} ParseEquals(tag: seq<byte>, name: seq<byte>, s: seq<byte>) returns (a: Attr, r: Rest)
    requires IsName(name) && !HasError(Equals(tag, name, s))
    ensures a.name == name && a.lead == [] && LegalAttr(a) && LegalRest(r)
    ensures s == a.eqLead + ([61] + (a.eqTrail + ([a.quote] + (a.value + [a.quote])))) + PrintRest(r)
    decreases |s|
  {
    NoError(Peek(s));
    if IsSpace(Peek(s)) {
      a, r := ParseEquals(tag, name, s[1..]);
      a := a.(eqLead := [s[0]] + a.eqLead);
    } else {
      a, r := ParseQuoted(tag, name, s[1..]);
    }
  }

  lemma {:induction false} ParseQuoted(tag: seq<byte>, name: seq<byte>, s: seq<byte>) returns (a: Attr, r: Rest)
    requires IsName(name) && !HasError(Quoted(tag, name, s))
    ensures a.name == name && a.lead == [] && a.eqLead == [] && LegalAttr(a) && LegalRest(r)
    ensures s == a.eqTrail + ([a.quote] + (a.value + [a.quote])) + PrintRest(r)
    decreases |s|
  {
    NoError(Peek(s));
    if IsSpace(Peek(s)) {
      a, r := ParseQuoted(tag, name, s[1..]);
      a := a.(eqTrail := [s[0]] + a.eqTrail);
    } else {
      var value, r' := ParseValue(tag, name, s[0], s[1..]);
      a, r := Attr([], name, [], [], s[0], value), r';
    }
  }

  lemma ValueTaken(quote: byte, s: seq<byte>)
    ensures var k := ValueSpan(quote, s);
            IsValue(quote, s[..k]) && (k < |s| ==> s == s[..k] + ([s[k]] + s[k + 1..]))
  {
  }

  lemma {:induction false} ParseValue(tag: seq<byte>, name: seq<byte>, quote: byte, s: seq<byte>)
      returns (value: seq<byte>, r: Rest)
    requires !HasError(Value(tag, name, quote, s))
    ensures IsValue(quote, value) && LegalRest(r) && s == value + ([quote] + PrintRest(r))
    decreases |s|
  {
    var k := ValueSpan(quote, s);
    assert k < |s| && s[k] == quote by {
      NoError(Peek(s[k..]));
    }
    value := s[..k];
    assert !HasError(Attributes(tag, s[k + 1..])) by {
      HasErrorConcat([Attribute(name, value)], Attributes(tag, s[k + 1..]));
    }
    r := ParseAttributes(tag, s[k + 1..]);
    ValueTaken(quote, s);
  }

  // ---------- The accepted language ----------

  lemma {:induction false} EventsErrorFree(doc: seq<Item>)
    ensures !HasError(DocEvents(doc))
  {
    if doc != [] {
      EventsErrorFree(doc[1..]);
      HasErrorConcat(ItemEvents(doc[0]), DocEvents(doc[1..]));
      if doc[0].Open? {
        AttrEventsErrorFree(doc[0].attrs);
      }
    }
  }

  lemma {:induction false} AttrEventsErrorFree(attrs: seq<Attr>)
    ensures !HasError(AttrEvents(attrs))
  {
    if attrs != [] {
      AttrEventsErrorFree(attrs[1..]);
    }
  }

  /** `doc` is a way of writing the text `s` in the grammar. */
  ghost predicate Derives(doc: seq<Item>, s: seq<byte>) {
    LegalDoc(doc) && PrintDoc(doc) == s
  }

  /** The reader finishes without an error exactly on the texts of the grammar. */
  lemma AcceptsExactlyTheGrammar(s: seq<byte>)
    ensures Accepts(s) <==> exists doc :: Derives(doc, s)
  {
    if Accepts(s) {
      var doc := ParseContent(s);
      assert Derives(doc, s);
    }
    forall doc | Derives(doc, s)
      ensures Accepts(s)
    {
      DerivedEvents(doc, s);
      EventsErrorFree(doc);
    }
  }

  /** However a text is derived, its events are those of the derivation. */
  lemma DerivedEvents(doc: seq<Item>, s: seq<byte>)
    requires Derives(doc, s)
    ensures Content(s) == DocEvents(doc)
  {
    DocReads(doc, []);
    assert PrintDoc(doc) + [] == PrintDoc(doc) && DocEvents(doc) + [] == DocEvents(doc);
  }

  /** Nothing read of an accepted text shows in what is read after it, be that legal or not. */
  lemma ReadingConcatenates(d1: seq<byte>, d2: seq<byte>)
    requires Accepts(d1)
    ensures Content(d1 + d2) == Content(d1) + Content(d2)
  {
    var doc := ParseContent(d1);
    DocReads(doc, d2);
    DerivedEvents(doc, d1);
  }
}
