/** The grammar that the dispatch tables define, as concrete syntax with a printer, and the
    proof that the reference reader accepts exactly the printed texts, with the right events. */
module XmlGrammar {
  import opened Common
  import opened XmlBytes
  import opened XmlReference

  /** lead Name eqLead '=' eqTrail quote value quote */
  datatype Attr = Attr(lead: seq<byte>, name: seq<byte>, eqLead: seq<byte>, eqTrail: seq<byte>,
                       quote: byte, value: seq<byte>)

  datatype Item =
    | Blank(b: byte)
    | Open(name: seq<byte>, attrs: seq<Attr>, trail: seq<byte>, empty: bool)
    | Shut(name: seq<byte>)

  predicate LegalAttr(a: Attr) {
    IsBlank(a.lead) && IsName(a.name) && IsBlank(a.eqLead) && IsBlank(a.eqTrail)
    && IsQuote(a.quote) && IsValue(a.quote, a.value)
  }

  /** White space is needed before the first attribute only. */
  predicate LegalItem(it: Item) {
    match it
    case Blank(b) => IsSpace(b)
    case Open(name, attrs, trail, _) =>
      && IsName(name) && IsBlank(trail)
      && (forall a :: a in attrs ==> LegalAttr(a))
      && (attrs != [] ==> attrs[0].lead != [])
    case Shut(name) => IsName(name)
  }

  predicate LegalDoc(doc: seq<Item>) {
    forall it :: it in doc ==> LegalItem(it)
  }

  function PrintAttr(a: Attr): seq<byte> {
    a.lead + (a.name + (a.eqLead + ([61] + (a.eqTrail + ([a.quote] + (a.value + [a.quote]))))))
  }

  function PrintAttrs(attrs: seq<Attr>): seq<byte> {
    if attrs == [] then [] else PrintAttr(attrs[0]) + PrintAttrs(attrs[1..])
  }

  function PrintItem(it: Item): seq<byte> {
    match it
    case Blank(b) => [b]
    case Open(name, attrs, trail, empty) =>
      [60] + (name + (PrintAttrs(attrs) + (trail + if empty then [47, 62] else [62])))
    case Shut(name) => [60, 47] + (name + [62])
  }

  function PrintDoc(doc: seq<Item>): seq<byte> {
    if doc == [] then [] else PrintItem(doc[0]) + PrintDoc(doc[1..])
  }

  function AttrEvents(attrs: seq<Attr>): seq<Event> {
    if attrs == [] then [] else [Attribute(attrs[0].name, attrs[0].value)] + AttrEvents(attrs[1..])
  }

  function ItemEvents(it: Item): seq<Event> {
    match it
    case Blank(_) => []
    case Open(name, attrs, _, empty) =>
      [ElementStart(name)] + AttrEvents(attrs) + if empty then [ElementEnd(name)] else []
    case Shut(name) => [ElementEnd(name)]
  }

  function DocEvents(doc: seq<Item>): seq<Event> {
    if doc == [] then [] else ItemEvents(doc[0]) + DocEvents(doc[1..])
  }

  // ---------- Every printed text is read back, whatever follows it ----------

  lemma NameReads(name: seq<byte>, rest: seq<byte>)
    requires IsName(name) && (rest != [] ==> !IsNameChar(rest[0]))
    ensures NameSpan(name + rest) == |name| && Peek(name + rest) == name[0]
    ensures (name + rest)[..|name|] == name && (name + rest)[|name|..] == rest
  {
    var k := NameSpan(name + rest);
    assert forall j :: 0 <= j < |name| ==> (name + rest)[j] == name[j] && name[j] in name;
    assert rest != [] ==> (name + rest)[|name|] == rest[0];
  }

  lemma ValueReads(quote: byte, value: seq<byte>, rest: seq<byte>)
    requires IsValue(quote, value)
    requires rest != [] && rest[0] == quote
    ensures ValueSpan(quote, value + rest) == |value|
    ensures (value + rest)[..|value|] == value && (value + rest)[|value|] == quote
    ensures (value + rest)[|value| + 1..] == rest[1..]
  {
    var k := ValueSpan(quote, value + rest);
    assert forall j :: 0 <= j < |value| ==> (value + rest)[j] == value[j] && value[j] in value;
    assert (value + rest)[|value|] == quote;
  }

  lemma {:induction false} AttributesSkip(tag: seq<byte>, blank: seq<byte>, rest: seq<byte>)
    requires IsBlank(blank)
    ensures Attributes(tag, blank + rest) == Attributes(tag, rest)
  {
    if blank == [] {
      assert blank + rest == rest;
    } else {
      assert (blank + rest)[1..] == blank[1..] + rest && blank[0] in blank;
      AttributesSkip(tag, blank[1..], rest);
    }
  }

  lemma {:induction false} EqualsSkip(tag: seq<byte>, name: seq<byte>, blank: seq<byte>, rest: seq<byte>)
    requires IsBlank(blank)
    ensures Equals(tag, name, blank + rest) == Equals(tag, name, rest)
  {
    if blank == [] {
      assert blank + rest == rest;
    } else {
      assert (blank + rest)[1..] == blank[1..] + rest && blank[0] in blank;
      EqualsSkip(tag, name, blank[1..], rest);
    }
  }

  lemma {:induction false} QuotedSkip(tag: seq<byte>, name: seq<byte>, blank: seq<byte>, rest: seq<byte>)
    requires IsBlank(blank)
    ensures Quoted(tag, name, blank + rest) == Quoted(tag, name, rest)
  {
    if blank == [] {
      assert blank + rest == rest;
    } else {
      assert (blank + rest)[1..] == blank[1..] + rest && blank[0] in blank;
      QuotedSkip(tag, name, blank[1..], rest);
    }
  }

  lemma QuotedReads(tag: seq<byte>, a: Attr, rest: seq<byte>)
    requires LegalAttr(a)
    ensures Quoted(tag, a.name, a.eqTrail + ([a.quote] + (a.value + [a.quote])) + rest)
            == [Attribute(a.name, a.value)] + Attributes(tag, rest)
  {
    var tail := [a.quote] + rest;
    assert a.eqTrail + ([a.quote] + (a.value + [a.quote])) + rest == a.eqTrail + ([a.quote] + (a.value + tail));
    QuotedSkip(tag, a.name, a.eqTrail, [a.quote] + (a.value + tail));
    assert ([a.quote] + (a.value + tail))[1..] == a.value + tail;
    ValueReads(a.quote, a.value, tail);
    assert tail[1..] == rest;
  }

  lemma EqualsReads(tag: seq<byte>, a: Attr, rest: seq<byte>)
    requires LegalAttr(a)
    ensures Equals(tag, a.name, a.eqLead + ([61] + (a.eqTrail + ([a.quote] + (a.value + [a.quote])))) + rest)
            == [Attribute(a.name, a.value)] + Attributes(tag, rest)
  {
    var v := a.eqTrail + ([a.quote] + (a.value + [a.quote]));
    assert a.eqLead + ([61] + v) + rest == a.eqLead + ([61] + (v + rest));
    EqualsSkip(tag, a.name, a.eqLead, [61] + (v + rest));
    assert ([61] + (v + rest))[1..] == v + rest;
    QuotedReads(tag, a, rest);
  }

  lemma AttrReads(tag: seq<byte>, a: Attr, rest: seq<byte>)
    requires LegalAttr(a)
    ensures Attributes(tag, PrintAttr(a) + rest) == [Attribute(a.name, a.value)] + Attributes(tag, rest)
  {
    var e := a.eqLead + ([61] + (a.eqTrail + ([a.quote] + (a.value + [a.quote]))));
    assert PrintAttr(a) + rest == a.lead + (a.name + (e + rest));
    AttributesSkip(tag, a.lead, a.name + (e + rest));
    assert (e + rest)[0] == if a.eqLead == [] then 61 else a.eqLead[0];
    assert a.eqLead != [] ==> a.eqLead[0] in a.eqLead;
    NameReads(a.name, e + rest);
    EqualsReads(tag, a, rest);
  }

  lemma {:induction false} AttrsRead(tag: seq<byte>, attrs: seq<Attr>, rest: seq<byte>)
    requires forall a :: a in attrs ==> LegalAttr(a)
    ensures Attributes(tag, PrintAttrs(attrs) + rest) == AttrEvents(attrs) + Attributes(tag, rest)
  {
    if attrs == [] {
      assert PrintAttrs(attrs) + rest == rest;
    } else {
      assert attrs[0] in attrs;
      assert PrintAttrs(attrs) + rest == PrintAttr(attrs[0]) + (PrintAttrs(attrs[1..]) + rest);
      AttrReads(tag, attrs[0], PrintAttrs(attrs[1..]) + rest);
      AttrsRead(tag, attrs[1..], rest);
    }
  }

  lemma ContentOpens(rest: seq<byte>)
    ensures Content([60] + rest) == Markup(rest)
  {
    assert ([60] + rest)[1..] == rest;
  }

  lemma TagCloses(tag: seq<byte>, empty: bool, rest: seq<byte>)
    ensures Attributes(tag, (if empty then [47, 62] else [62]) + rest)
            == (if empty then [ElementEnd(tag)] else []) + Content(rest)
    ensures Close([62] + rest) == Content(rest)
  {
    assert ([62] + rest)[1..] == rest;
    assert ([47, 62] + rest)[1..] == [62] + rest;
  }

  /** What follows the name in a start tag. */
  function Body(it: Item, rest: seq<byte>): seq<byte>
    requires it.Open?
  {
    PrintAttrs(it.attrs) + (it.trail + ((if it.empty then [47, 62] else [62]) + rest))
  }

  lemma OpenPrints(it: Item, rest: seq<byte>)
    requires it.Open?
    ensures PrintItem(it) + rest == [60] + (it.name + Body(it, rest))
  {
  }

  lemma BodyReads(it: Item, rest: seq<byte>)
    requires it.Open? && LegalItem(it)
    ensures Attributes(it.name, Body(it, rest)) ==
            AttrEvents(it.attrs) + ((if it.empty then [ElementEnd(it.name)] else []) + Content(rest))
  {
    var close := if it.empty then [47, 62] else [62];
    AttrsRead(it.name, it.attrs, it.trail + (close + rest));
    AttributesSkip(it.name, it.trail, close + rest);
    TagCloses(it.name, it.empty, rest);
  }

  lemma MarkupReads(it: Item, rest: seq<byte>)
    requires it.Open? && LegalItem(it)
    ensures Markup(it.name + Body(it, rest)) == [ElementStart(it.name)] + Attributes(it.name, Body(it, rest))
  {
    BodyStart(it, rest);
    NameReads(it.name, Body(it, rest));
  }

  lemma OpenReads(it: Item, rest: seq<byte>)
    requires it.Open? && LegalItem(it)
    ensures Content(PrintItem(it) + rest) == ItemEvents(it) + Content(rest)
  {
    OpenPrints(it, rest);
    ContentOpens(it.name + Body(it, rest));
    MarkupReads(it, rest);
    BodyReads(it, rest);
  }

  lemma ShutReads(name: seq<byte>, rest: seq<byte>)
    requires IsName(name)
    ensures Content([60, 47] + (name + [62]) + rest) == [ElementEnd(name)] + Content(rest)
  {
    var z := name + ([62] + rest);
    assert [60, 47] + (name + [62]) + rest == [60] + ([47] + z);
    ContentOpens([47] + z);
    assert ([47] + z)[1..] == z;
    NameReads(name, [62] + rest);
    TagCloses(name, false, rest);
  }

  /** No name byte follows the name of a start tag. */
  lemma BodyStart(it: Item, rest: seq<byte>)
    requires it.Open? && LegalItem(it)
    ensures Body(it, rest) != [] && !IsNameChar(Body(it, rest)[0])
  {
    if it.attrs != [] {
      assert PrintAttrs(it.attrs)[0] == it.attrs[0].lead[0] && it.attrs[0] in it.attrs;
      assert it.attrs[0].lead[0] in it.attrs[0].lead;
    } else if it.trail != [] {
      assert it.trail[0] in it.trail;
    }
  }

  lemma ItemReads(it: Item, rest: seq<byte>)
    requires LegalItem(it)
    ensures Content(PrintItem(it) + rest) == ItemEvents(it) + Content(rest)
  {
    match it
    case Blank(b) =>
      assert ([b] + rest)[1..] == rest;
    case Open(_, _, _, _) =>
      OpenReads(it, rest);
    case Shut(name) =>
      ShutReads(name, rest);
  }

  /** A legal document is read to its own events, followed by the events of whatever follows. */
  lemma {:induction false} DocReads(doc: seq<Item>, rest: seq<byte>)
    requires LegalDoc(doc)
    ensures Content(PrintDoc(doc) + rest) == DocEvents(doc) + Content(rest)
  {
    if doc == [] {
      assert PrintDoc(doc) + rest == rest;
    } else {
      assert doc[0] in doc;
      assert PrintDoc(doc) + rest == PrintItem(doc[0]) + (PrintDoc(doc[1..]) + rest);
      ItemReads(doc[0], PrintDoc(doc[1..]) + rest);
      DocReads(doc[1..], rest);
    }
  }
}
