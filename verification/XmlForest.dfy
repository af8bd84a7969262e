/** Printing a forest of elements and reading it back. */
module XmlForest {
  import opened Common
  import opened XmlBytes
  import opened XmlReference
  import opened XmlGrammar
  import opened XmlParse

  datatype Prop = Prop(name: seq<byte>, quote: byte, value: seq<byte>)

  /** `short` asks for the form <a/>, which a childless element may take. */
  datatype Element = Element(name: seq<byte>, props: seq<Prop>, children: seq<Element>, short: bool) {
    predicate Empty() {
      short && children == []
    }
  }

  predicate LegalProps(ps: seq<Prop>) {
    forall p :: p in ps ==> IsName(p.name) && IsQuote(p.quote) && IsValue(p.quote, p.value)
  }

  predicate LegalElement(e: Element)
    decreases e
  {
    IsName(e.name) && LegalProps(e.props) && LegalForest(e.children)
  }

  predicate LegalForest(f: seq<Element>)
    decreases f
  {
    f == [] || (LegalElement(f[0]) && LegalForest(f[1..]))
  }

  // ---------- Printer ----------

  function PrintProps(ps: seq<Prop>): seq<byte> {
    if ps == [] then []
    else [32] + ps[0].name + [61, ps[0].quote] + ps[0].value + [ps[0].quote] + PrintProps(ps[1..])
  }

  function PrintElement(e: Element): seq<byte>
    decreases e
  {
    [60] + (e.name + (PrintProps(e.props) +
    if e.Empty() then [47, 62] else [62] + (PrintForest(e.children) + ([60, 47] + (e.name + [62])))))
  }

  function PrintForest(f: seq<Element>): seq<byte>
    decreases f
  {
    if f == [] then [] else PrintElement(f[0]) + PrintForest(f[1..])
  }

  // ---------- Events in document order ----------

  function PropEvents(ps: seq<Prop>): seq<Event> {
    if ps == [] then [] else [Attribute(ps[0].name, ps[0].value)] + PropEvents(ps[1..])
  }

  function ElementEvents(e: Element): seq<Event>
    decreases e
  {
    [ElementStart(e.name)] + (PropEvents(e.props) + (ForestEvents(e.children) + [ElementEnd(e.name)]))
  }

  function ForestEvents(f: seq<Element>): seq<Event>
    decreases f
  {
    if f == [] then [] else ElementEvents(f[0]) + ForestEvents(f[1..])
  }

  // ---------- The printed forest in the grammar ----------

  function AttrsOf(ps: seq<Prop>): seq<Attr> {
    if ps == [] then [] else [Attr([32], ps[0].name, [], [], ps[0].quote, ps[0].value)] + AttrsOf(ps[1..])
  }

  function ElementItems(e: Element): seq<Item>
    decreases e
  {
    [OpenOf(e)]
    + if e.Empty() then [] else ForestItems(e.children) + [Shut(e.name)]
  }

  function ForestItems(f: seq<Element>): seq<Item>
    decreases f
  {
    if f == [] then [] else ElementItems(f[0]) + ForestItems(f[1..])
  }

  lemma {:induction false} PrintConcat(a: seq<Item>, b: seq<Item>)
    ensures PrintDoc(a + b) == PrintDoc(a) + PrintDoc(b)
  {
    if a == [] {
      assert a + b == b;
    } else {
      assert (a + b)[1..] == a[1..] + b;
      PrintConcat(a[1..], b);
    }
  }

  lemma {:induction false} EventsConcat(a: seq<Item>, b: seq<Item>)
    ensures DocEvents(a + b) == DocEvents(a) + DocEvents(b)
  {
    if a == [] {
      assert a + b == b;
    } else {
      assert (a + b)[1..] == a[1..] + b;
      EventsConcat(a[1..], b);
    }
  }

  lemma OneItem(it: Item)
    ensures PrintDoc([it]) == PrintItem(it) && DocEvents([it]) == ItemEvents(it)
  {
  }

  lemma {:induction false} PropsPrint(ps: seq<Prop>)
    ensures PrintAttrs(AttrsOf(ps)) == PrintProps(ps) && AttrEvents(AttrsOf(ps)) == PropEvents(ps)
  {
    if ps != [] {
      PropsPrint(ps[1..]);
      OnePropPrints(ps[0]);
    }
  }

  lemma OnePropPrints(p: Prop)
    ensures PrintAttr(Attr([32], p.name, [], [], p.quote, p.value))
            == [32] + p.name + [61, p.quote] + p.value + [p.quote]
  {
  }

  lemma {:induction false} PropsLegal(ps: seq<Prop>)
    requires LegalProps(ps)
    ensures forall a :: a in AttrsOf(ps) ==> LegalAttr(a)
  {
    if ps != [] {
      assert ps[0] in ps && forall p :: p in ps[1..] ==> p in ps;
      PropsLegal(ps[1..]);
    }
  }

  /** The start tag of `e`. */
  function OpenOf(e: Element): Item {
    Open(e.name, AttrsOf(e.props), [], e.Empty())
  }

  lemma StartTagPrints(e: Element)
    requires LegalElement(e)
    ensures LegalItem(OpenOf(e))
    ensures PrintItem(OpenOf(e)) == [60] + (e.name + (PrintProps(e.props) + if e.Empty() then [47, 62] else [62]))
    ensures ItemEvents(OpenOf(e))
            == [ElementStart(e.name)] + PropEvents(e.props) + if e.Empty() then [ElementEnd(e.name)] else []
  {
    PropsPrint(e.props);
    PropsLegal(e.props);
    var close := if e.Empty() then [47, 62] else [62];
    assert [] + close == close;
  }

  lemma {:induction false} ElementInGrammar(e: Element)
    requires LegalElement(e)
    ensures var doc := ElementItems(e);
            LegalDoc(doc) && PrintDoc(doc) == PrintElement(e) && DocEvents(doc) == ElementEvents(e)
    decreases e
  {
    StartTagPrints(e);
    OneItem(OpenOf(e));
    if e.Empty() {
      assert ElementItems(e) == [OpenOf(e)];
      assert ForestEvents(e.children) + [ElementEnd(e.name)] == [ElementEnd(e.name)];
    } else {
      ForestInGrammar(e.children);
      FullInGrammar(e);
    }
  }

  lemma FullInGrammar(e: Element)
    requires LegalElement(e) && !e.Empty()
    requires var doc := ForestItems(e.children);
             LegalDoc(doc) && PrintDoc(doc) == PrintForest(e.children) && DocEvents(doc) == ForestEvents(e.children)
    ensures var doc := ElementItems(e);
            LegalDoc(doc) && PrintDoc(doc) == PrintElement(e) && DocEvents(doc) == ElementEvents(e)
  {
    StartTagPrints(e);
    FullPrints(e, ForestItems(e.children), PrintForest(e.children));
    FullEvents(e, ForestItems(e.children), ForestEvents(e.children));
  }

  lemma FullPrints(e: Element, inner: seq<Item>, text: seq<byte>)
    requires LegalElement(e) && !e.Empty() && PrintDoc(inner) == text
    ensures PrintDoc([OpenOf(e)] + (inner + [Shut(e.name)]))
            == [60] + (e.name + (PrintProps(e.props) + ([62] + (text + ([60, 47] + (e.name + [62]))))))
  {
    var shut := [Shut(e.name)];
    StartTagPrints(e);
    OneItem(OpenOf(e));
    OneItem(Shut(e.name));
    PrintConcat(inner, shut);
    PrintConcat([OpenOf(e)], inner + shut);
    Nest([60], e.name, PrintProps(e.props), [62], text + PrintItem(Shut(e.name)));
  }

  lemma Nest<T>(a: seq<T>, b: seq<T>, c: seq<T>, d: seq<T>, x: seq<T>)
    ensures (a + (b + (c + d))) + x == a + (b + (c + (d + x)))
  {
  }

  lemma Joined<T>(a: seq<T>, b: seq<T>, c: seq<T>)
    ensures (a + b + []) + c == a + (b + c)
  {
  }

  lemma FullEvents(e: Element, inner: seq<Item>, es: seq<Event>)
    requires LegalElement(e) && !e.Empty() && DocEvents(inner) == es
    ensures DocEvents([OpenOf(e)] + (inner + [Shut(e.name)]))
            == [ElementStart(e.name)] + (PropEvents(e.props) + (es + [ElementEnd(e.name)]))
  {
    var shut := [Shut(e.name)];
    StartTagPrints(e);
    OneItem(OpenOf(e));
    OneItem(Shut(e.name));
    EventsConcat(inner, shut);
    EventsConcat([OpenOf(e)], inner + shut);
    Joined([ElementStart(e.name)], PropEvents(e.props), es + [ElementEnd(e.name)]);
  }

  lemma {:induction false} ForestInGrammar(f: seq<Element>)
    requires LegalForest(f)
    ensures var doc := ForestItems(f);
            LegalDoc(doc) && PrintDoc(doc) == PrintForest(f) && DocEvents(doc) == ForestEvents(f)
    decreases f
  {
    if f != [] {
      ElementInGrammar(f[0]);
      ForestInGrammar(f[1..]);
      PrintConcat(ElementItems(f[0]), ForestItems(f[1..]));
      EventsConcat(ElementItems(f[0]), ForestItems(f[1..]));
    }
  }

  /** A printed forest, whatever its quotes and empty-element forms, reads back as its elements
      in document order. */
  lemma PrintedForestReads(f: seq<Element>)
    requires LegalForest(f)
    ensures Accepts(PrintForest(f)) && Content(PrintForest(f)) == ForestEvents(f)
  {
    ForestInGrammar(f);
    DerivedEvents(ForestItems(f), PrintForest(f));
    EventsErrorFree(ForestItems(f));
  }

  // ---------- The events tell the forest ----------

  /** An element without the choices of form: quotes and the short empty form. */
  datatype Tree = Tree(name: seq<byte>, props: seq<(seq<byte>, seq<byte>)>, children: seq<Tree>)

  function EraseProps(ps: seq<Prop>): seq<(seq<byte>, seq<byte>)> {
    if ps == [] then [] else [(ps[0].name, ps[0].value)] + EraseProps(ps[1..])
  }

  function EraseElement(e: Element): Tree
    decreases e
  {
    Tree(e.name, EraseProps(e.props), Erase(e.children))
  }

  function Erase(f: seq<Element>): seq<Tree>
    decreases f
  {
    if f == [] then [] else [EraseElement(f[0])] + Erase(f[1..])
  }

  /** The attribute events at the front of `es`, and what follows them. */
  function TakeProps(es: seq<Event>): (r: (seq<(seq<byte>, seq<byte>)>, seq<Event>))
    ensures |r.1| <= |es|
  {
    if es != [] && es[0].Attribute? then
      var (ps, rest) := TakeProps(es[1..]);
      ([(es[0].name, es[0].value)] + ps, rest)
    else ([], es)
  }

  /** The forest at the front of `es`, and what follows it. */
  function Rebuild(es: seq<Event>): (r: (seq<Tree>, seq<Event>))
    ensures |r.1| <= |es|
    decreases |es|
  {
    if es != [] && es[0].ElementStart? then
      var (props, body) := TakeProps(es[1..]);
      var (children, after) := Rebuild(body);
      var (siblings, rest) := Rebuild(if after == [] then [] else after[1..]);
      ([Tree(es[0].name, props, children)] + siblings, rest)
    else ([], es)
  }

  lemma {:induction false} PropsRebuild(ps: seq<Prop>, rest: seq<Event>)
    requires rest != [] && !rest[0].Attribute?
    ensures TakeProps(PropEvents(ps) + rest) == (EraseProps(ps), rest)
  {
    if ps == [] {
      assert PropEvents(ps) + rest == rest;
    } else {
      assert (PropEvents(ps) + rest)[1..] == PropEvents(ps[1..]) + rest;
      PropsRebuild(ps[1..], rest);
    }
  }

  lemma FirstElement(f: seq<Element>, rest: seq<Event>)
    requires f != []
    ensures var e, after := f[0], ForestEvents(f[1..]) + rest;
            var inner := ForestEvents(e.children) + ([ElementEnd(e.name)] + after);
            ForestEvents(f) + rest == [ElementStart(e.name)] + (PropEvents(e.props) + inner)
  {
    var e := f[0];
    Joined(ElementEvents(e), ForestEvents(f[1..]), rest);
    Nest([ElementStart(e.name)], PropEvents(e.props), ForestEvents(e.children), [ElementEnd(e.name)],
         ForestEvents(f[1..]) + rest);
  }

  lemma {:induction false} ForestRebuilds(f: seq<Element>, rest: seq<Event>)
    requires rest == [] || rest[0].ElementEnd?
    ensures Rebuild(ForestEvents(f) + rest) == (Erase(f), rest)
    decreases f
  {
    if f == [] {
      assert ForestEvents(f) + rest == rest;
    } else {
      var e, after := f[0], ForestEvents(f[1..]) + rest;
      var inner := ForestEvents(e.children) + ([ElementEnd(e.name)] + after);
      var es := ForestEvents(f) + rest;
      FirstElement(f, rest);
      assert es[1..] == PropEvents(e.props) + inner;
      InnerStarts(e.children, [ElementEnd(e.name)] + after);
      PropsRebuild(e.props, inner);
      ForestRebuilds(e.children, [ElementEnd(e.name)] + after);
      assert ([ElementEnd(e.name)] + after)[1..] == after;
      ForestRebuilds(f[1..], rest);
    }
  }

  lemma InnerStarts(f: seq<Element>, rest: seq<Event>)
    requires rest != [] && !rest[0].Attribute?
    ensures var es := ForestEvents(f) + rest; es != [] && !es[0].Attribute?
  {
  }

  /** Reading a printed forest loses nothing but the choices of form. */
  lemma ForestRoundTrip(f: seq<Element>)
    requires LegalForest(f)
    ensures Rebuild(Content(PrintForest(f))) == (Erase(f), [])
  {
    PrintedForestReads(f);
    ForestRebuilds(f, []);
    assert ForestEvents(f) + [] == ForestEvents(f);
  }
}
