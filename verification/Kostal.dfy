/** The GridPower extractor of src/Kostal.c, run over the callbacks of the reader. */
module Kostal {
  import opened Common
  import opened XmlBytes
  import opened XmlReference
  import opened XmlGrammar
  import opened XmlParse
  import opened XMachine
  import opened XReadProof
  import opened XReadTrace
  import opened XRead

  const NAME_BUFFER := 32
  const TEXT_BUFFER := 24

  predicate HasName(e: Event, name: string) {
    e.Attribute? && e.name == Ascii(name)
  }

  predicate Says(e: Event, name: string, value: string) {
    HasName(e, name) && e.value == Ascii(value)
  }

  /** The copies made of attribute `e` are shorter than their buffers. */
  predicate Fits(e: Event) {
    e.Attribute? ==>
      && |e.name| < NAME_BUFFER
      && (e.name == Ascii("Value") || e.name == Ascii("Unit") || e.name == Ascii("Type") ==> |e.value| < TEXT_BUFFER)
  }

  /** The latest Value attribute among `es`, `stale` if there is none. */
  function LatestValue(es: seq<Event>, stale: seq<byte>): seq<byte> {
    if es == [] then stale
    else if HasName(es[|es| - 1], "Value") then es[|es| - 1].value
    else LatestValue(es[..|es| - 1], stale)
  }

  /** The reading that `es` leave behind: at the latest GridPower attribute the latest Value is
      parsed; without one the reading stays `before`. */
  function Reading(es: seq<Event>, stale: seq<byte>, atof: seq<byte> -> real, before: real): real {
    if es == [] then before
    else if Says(es[|es| - 1], "Type", "GridPower") then atof(LatestValue(es, stale))
    else Reading(es[..|es| - 1], stale, atof, before)
  }

  lemma Literals()
    ensures Ascii("Value") != Ascii("Type") && Ascii("Value") != Ascii("Unit") && Ascii("Unit") != Ascii("Type")
    ensures Ascii("GridPower") != []
  {
    assert Ascii("Unit")[0] == 85 && Ascii("Type")[0] == 84;
    assert |Ascii("Value")| == 5 && |Ascii("Type")| == 4 && |Ascii("Unit")| == 4;
  }

  /** Reading on by one event. */
  lemma OneMore(es: seq<Event>, i: nat, stale: seq<byte>, atof: seq<byte> -> real)
    requires i < |es|
    ensures var value, cell := LatestValue(es[..i], stale), Reading(es[..i], stale, atof, 0.0);
            && LatestValue(es[..i + 1], stale) == LatestValue([es[i]], value)
            && Reading(es[..i + 1], stale, atof, 0.0) == Reading([es[i]], value, atof, cell)
  {
    assert es[..i + 1][..i] == es[..i] && [es[i]][..0] == [];
  }

  /** The static buffers of `xml_handler`, which outlive a document, and the cell it fills. */
  class XmlHandler {
    const atof: seq<byte> -> real
    var value: seq<byte>
    var unit: seq<byte>
    var typ: seq<byte>
    var cell: real

    constructor (atof: seq<byte> -> real)
      ensures Valid() && value == [] && this.atof == atof
    {
      this.atof := atof;
      value, unit, typ, cell := [], [], [], 0.0;
    }

    /** A GridPower type never stays in its buffer. */
    ghost predicate Valid()
      reads this
    {
      typ != Ascii("GridPower")
    }

    method Handle(s: seq<byte>, c: Callback)
      requires Valid() && WellPlaced(c, |s|) && Fits(Meaning(s, c))
      modifies this
      ensures Valid()
      ensures var e := Meaning(s, c);
              && value == (if HasName(e, "Value") then e.value else old(value))
              && unit == (if HasName(e, "Unit") then e.value else old(unit))
              && typ == (if Says(e, "Type", "GridPower") then []
                         else if HasName(e, "Type") then e.value else old(typ))
              && cell == (if Says(e, "Type", "GridPower") then atof(value) else old(cell))
    {
      Literals();
      ghost var e := Meaning(s, c);
      assert [e][..0] == [];
      if c.kind == XrAttribute {
        var out := Bytes(s, c.name);
        if out == Ascii("Value") {
          value := Bytes(s, c.val);
        } else if out == Ascii("Unit") {
          unit := Bytes(s, c.val);
        } else if out == Ascii("Type") {
          typ := Bytes(s, c.val);
        }
        if typ == Ascii("GridPower") {
          cell := atof(value);
          typ := [];
        }
      }
    }

    /** `xr_read(&xml_handler, doc, &a)` with a new cell `a`. */
    method Read(doc: seq<byte>)
      requires Valid() && 0 in doc
      requires forall e :: e in Content(CString(doc)) ==> Fits(e)
      modifies this
      ensures Valid()
      ensures value == LatestValue(Content(CString(doc)), old(value))
      ensures cell == Reading(Content(CString(doc)), old(value), atof, 0.0)
    {
      cell := 0.0;
      ghost var s := CString(doc);
      ghost var es := Content(s);
      var out, _ := XrRead(doc);
      var text := CString(doc);
      for i := 0 to |out|
        invariant Valid()
        invariant value == LatestValue(es[..i], old(value))
        invariant cell == Reading(es[..i], old(value), atof, 0.0)
      {
        CarryAt(s, out, es, i);
        assert Fits(es[i]);
        OneMore(es, i, old(value), atof);
        Handle(text, out[i]);
      }
      assert es[..|out|] == es;
    }
  }

  // ---------- What the reading is ----------

  /** Attribute `k` is the last GridPower attribute. */
  ghost predicate LastGridPower(es: seq<Event>, k: nat) {
    k < |es| && Says(es[k], "Type", "GridPower") && forall i :: k < i < |es| ==> !Says(es[i], "Type", "GridPower")
  }

  /** Attribute `j` is the last Value attribute before `k`. */
  ghost predicate LastValueBefore(es: seq<Event>, j: nat, k: nat) {
    j < k <= |es| && HasName(es[j], "Value") && forall i :: j < i < k ==> !HasName(es[i], "Value")
  }

  lemma {:induction false} LatestValueIs(es: seq<Event>, stale: seq<byte>, k: nat)
    requires k <= |es|
    ensures forall j: nat :: LastValueBefore(es, j, k) ==> LatestValue(es[..k], stale) == es[j].value
    ensures (forall j :: 0 <= j < k ==> !HasName(es[j], "Value")) ==> LatestValue(es[..k], stale) == stale
  {
    if k > 0 {
      assert es[..k][..k - 1] == es[..k - 1];
      LatestValueIs(es, stale, k - 1);
      assert es[..k][k - 1] == es[k - 1];
      forall j: nat | LastValueBefore(es, j, k)
        ensures LatestValue(es[..k], stale) == es[j].value
      {
        if j < k - 1 {
          assert LastValueBefore(es, j, k - 1);
        }
      }
    }
  }

  /** The reading is the parse of the last Value before the last GridPower attribute: `stale`,
      the Value left by an earlier document, if there is none, and unchanged without GridPower. */
  lemma {:induction false} ReadingIs(es: seq<Event>, stale: seq<byte>, atof: seq<byte> -> real, before: real)
    ensures (forall i :: 0 <= i < |es| ==> !Says(es[i], "Type", "GridPower")) ==>
              Reading(es, stale, atof, before) == before
    ensures forall k: nat :: LastGridPower(es, k) ==>
              Reading(es, stale, atof, before) == atof(LatestValue(es[..k], stale))
  {
    if es != [] {
      Literals();
      var n := |es| - 1;
      ReadingIs(es[..n], stale, atof, before);
      forall k: nat | LastGridPower(es, k)
        ensures Reading(es, stale, atof, before) == atof(LatestValue(es[..k], stale))
      {
        if k == n {
          assert es[..n + 1] == es;
        } else {
          assert LastGridPower(es[..n], k) && es[..n][..k] == es[..k];
        }
      }
    }
  }

  /** Events `j` and `k` are attributes of one start tag. */
  ghost predicate SameTag(es: seq<Event>, j: nat, k: nat) {
    j < k < |es| && forall i :: j <= i <= k ==> es[i].Attribute?
  }

  /** The start tag of attribute `k` carries a Value before it. */
  ghost predicate OwnsValue(es: seq<Event>, k: nat) {
    exists j: nat :: SameTag(es, j, k) && HasName(es[j], "Value")
  }

  /** The Value that is parsed belongs to the element whose Type is GridPower exactly when that
      element carries a Value before its Type. Otherwise it is another element's, or stale. */
  lemma ReadingIsOwn(es: seq<Event>, k: nat)
    requires LastGridPower(es, k)
    ensures OwnsValue(es, k) <==> exists j: nat :: LastValueBefore(es, j, k) && SameTag(es, j, k)
  {
    if OwnsValue(es, k) {
      var j: nat :| SameTag(es, j, k) && HasName(es[j], "Value");
      var l := LastValueFrom(es, j, k);
      assert SameTag(es, l, k);
    }
  }

  lemma {:induction false} LastValueFrom(es: seq<Event>, j: nat, k: nat) returns (l: nat)
    requires j < k <= |es| && HasName(es[j], "Value")
    ensures j <= l && LastValueBefore(es, l, k)
    decreases k - j
  {
    if i: nat :| j < i < k && HasName(es[i], "Value") {
      l := LastValueFrom(es, i, k);
    } else {
      l := j;
    }
  }

  /** If the last GridPower element carries its Value first, the reading is its own Value and
      depends on nothing that came before the document. */
  lemma OwnReading(es: seq<Event>, k: nat, stale: seq<byte>, atof: seq<byte> -> real, before: real)
    requires LastGridPower(es, k) && OwnsValue(es, k)
    ensures exists j: nat :: SameTag(es, j, k) && LastValueBefore(es, j, k)
                        && Reading(es, stale, atof, before) == atof(es[j].value)
  {
    ReadingIs(es, stale, atof, before);
    ReadingIsOwn(es, k);
    LatestValueIs(es, stale, k);
  }

  /** <tag Value="v" Unit="u" Type="GridPower"/> */
  function Measurement(tag: seq<byte>, v: seq<byte>, u: seq<byte>): Item {
    Open(tag, [Attr([32], Ascii("Value"), [], [], 34, v), Attr([32], Ascii("Unit"), [], [], 34, u),
               Attr([32], Ascii("Type"), [], [], 34, Ascii("GridPower"))], [], true)
  }

  lemma MeasurementEvents(tag: seq<byte>, v: seq<byte>, u: seq<byte>)
    ensures ItemEvents(Measurement(tag, v, u)) ==
            [ElementStart(tag), Attribute(Ascii("Value"), v), Attribute(Ascii("Unit"), u),
             Attribute(Ascii("Type"), Ascii("GridPower")), ElementEnd(tag)]
  {
    var attrs := Measurement(tag, v, u).attrs;
    var typ := Attribute(Ascii("Type"), Ascii("GridPower"));
    assert attrs[1..] == [attrs[1], attrs[2]] && attrs[1..][1..] == [attrs[2]] && attrs[1..][1..][1..] == [];
    assert AttrEvents(attrs[1..][1..]) == [typ];
    assert AttrEvents(attrs[1..]) == [Attribute(Ascii("Unit"), u), typ];
    assert AttrEvents(attrs) == [Attribute(Ascii("Value"), v), Attribute(Ascii("Unit"), u), typ];
  }

  lemma MeasurementReading(es: seq<Event>, tag: seq<byte>, v: seq<byte>, u: seq<byte>,
                           stale: seq<byte>, atof: seq<byte> -> real, before: real)
    requires es == [ElementStart(tag), Attribute(Ascii("Value"), v), Attribute(Ascii("Unit"), u),
                    Attribute(Ascii("Type"), Ascii("GridPower")), ElementEnd(tag)]
    ensures Reading(es, stale, atof, before) == atof(v)
  {
    Literals();
    assert LastGridPower(es, 3) && LastValueBefore(es, 1, 3);
    ReadingIs(es, stale, atof, before);
    LatestValueIs(es, stale, 3);
  }

  /** A measurement of the inverter as it is meant to be, with any value and unit, is accepted and
      reads as that value, whatever was read before. */
  lemma MeasurementReads(tag: seq<byte>, v: seq<byte>, u: seq<byte>,
                         stale: seq<byte>, atof: seq<byte> -> real, before: real)
    requires IsName(tag) && IsValue(34, v) && IsValue(34, u)
    ensures var text := PrintDoc([Measurement(tag, v, u)]);
            Accepts(text) && Reading(Content(text), stale, atof, before) == atof(v)
  {
    AsciiName("Value");
    AsciiName("Unit");
    AsciiName("Type");
    AsciiName("GridPower");
    OneItemReads(Measurement(tag, v, u));
    MeasurementEvents(tag, v, u);
    MeasurementReading(Content(PrintDoc([Measurement(tag, v, u)])), tag, v, u, stale, atof, before);
  }

  // ---------- One document after another ----------

  /** What the value buffer holds after the documents `docs`, read in order from the start. */
  function Carried(docs: seq<seq<byte>>): seq<byte> {
    if docs == [] then []
    else LatestValue(Content(docs[|docs| - 1]), Carried(docs[..|docs| - 1]))
  }

  /** The events of all the documents. */
  function AllEvents(docs: seq<seq<byte>>): seq<Event> {
    if docs == [] then [] else AllEvents(docs[..|docs| - 1]) + Content(docs[|docs| - 1])
  }

  lemma {:induction false} LatestOverBoth(a: seq<Event>, b: seq<Event>, stale: seq<byte>)
    ensures LatestValue(a + b, stale) == LatestValue(b, LatestValue(a, stale))
  {
    if b == [] {
      assert a + b == a;
    } else {
      var n := |b| - 1;
      assert (a + b)[..|a + b| - 1] == a + b[..n];
      LatestOverBoth(a, b[..n], stale);
    }
  }

  lemma {:induction false} CarriedIs(docs: seq<seq<byte>>)
    ensures Carried(docs) == LatestValue(AllEvents(docs), [])
  {
    if docs != [] {
      CarriedIs(docs[..|docs| - 1]);
      LatestOverBoth(AllEvents(docs[..|docs| - 1]), Content(docs[|docs| - 1]), []);
    }
  }

  /** After any documents, the reading is the parse of the last Value there has been in any of them
      or in this one before its last GridPower attribute; of nothing if there has been none. */
  lemma ReadsAcrossDocuments(docs: seq<seq<byte>>, doc: seq<byte>, k: nat, atof: seq<byte> -> real, before: real)
    requires LastGridPower(Content(doc), k)
    ensures Reading(Content(doc), Carried(docs), atof, before)
            == atof(LatestValue(AllEvents(docs) + Content(doc)[..k], []))
  {
    ReadingIs(Content(doc), Carried(docs), atof, before);
    CarriedIs(docs);
    LatestOverBoth(AllEvents(docs), Content(doc)[..k], []);
  }

  /** What was read before matters to the reading, for some conversion to numbers, exactly if the
      last GridPower attribute comes before every Value of the document. */
  lemma HistoryMatters(es: seq<Event>)
    ensures (exists v, v', atof, before :: Reading(es, v, atof, before) != Reading(es, v', atof, before))
            <==> exists k: nat :: LastGridPower(es, k) && forall j :: 0 <= j < k ==> !HasName(es[j], "Value")
  {
    if k: nat :| LastGridPower(es, k) && forall j :: 0 <= j < k ==> !HasName(es[j], "Value") {
      HistoryShows(es, k);
    } else {
      forall v, v', atof, before
        ensures Reading(es, v, atof, before) == Reading(es, v', atof, before)
      {
        HistoryForgotten(es, v, v', atof, before);
      }
    }
  }

  function IsMore(v: seq<byte>): real {
    if v == [] then 0.0 else 1.0
  }

  lemma HistoryShows(es: seq<Event>, k: nat)
    requires LastGridPower(es, k) && forall j :: 0 <= j < k ==> !HasName(es[j], "Value")
    ensures exists v, v', atof, before :: Reading(es, v, atof, before) != Reading(es, v', atof, before)
  {
    var v: seq<byte>, v': seq<byte> := [], [49];
    ReadingIs(es, v, IsMore, 0.0);
    ReadingIs(es, v', IsMore, 0.0);
    LatestValueIs(es, v, k);
    LatestValueIs(es, v', k);
    assert Reading(es, v, IsMore, 0.0) != Reading(es, v', IsMore, 0.0);
  }

  lemma HistoryForgotten(es: seq<Event>, v: seq<byte>, v': seq<byte>, atof: seq<byte> -> real, before: real)
    requires forall k: nat :: LastGridPower(es, k) ==> exists j :: 0 <= j < k && HasName(es[j], "Value")
    ensures Reading(es, v, atof, before) == Reading(es, v', atof, before)
  {
    ReadingIs(es, v, atof, before);
    ReadingIs(es, v', atof, before);
    if i :| 0 <= i < |es| && Says(es[i], "Type", "GridPower") {
      var k := LastGridPowerFrom(es, i);
      var j :| 0 <= j < k && HasName(es[j], "Value");
      var l := LastValueFrom(es, j, k);
      LatestValueIs(es, v, k);
      LatestValueIs(es, v', k);
    }
  }

  lemma {:induction false} LastGridPowerFrom(es: seq<Event>, i: nat) returns (k: nat)
    requires i < |es| && Says(es[i], "Type", "GridPower")
    ensures LastGridPower(es, k)
    decreases |es| - i
  {
    if j: nat :| i < j < |es| && Says(es[j], "Type", "GridPower") {
      k := LastGridPowerFrom(es, j);
    } else {
      k := i;
    }
  }

  /** <a Value="1"/> */
  function OnlyValue(): Item {
    Open([97], [Attr([32], Ascii("Value"), [], [], 34, [49])], [], true)
  }

  /** <b Type="GridPower"/> */
  function OnlyType(): Item {
    Open([98], [Attr([32], Ascii("Type"), [], [], 34, Ascii("GridPower"))], [], true)
  }

  lemma OneItemReads(it: Item)
    requires LegalDoc([it])
    ensures Accepts(PrintDoc([it])) && Content(PrintDoc([it])) == ItemEvents(it)
  {
    assert Derives([it], PrintDoc([it]));
    DerivedEvents([it], PrintDoc([it]));
    EventsErrorFree([it]);
    assert DocEvents([it]) == ItemEvents(it);
  }

  /** A document of nothing but a GridPower element without a Value reads as the Value of the
      document before it, both of them legal. */
  lemma LeftOverReads(atof: seq<byte> -> real, before: real)
    ensures var a, b := PrintDoc([OnlyValue()]), PrintDoc([OnlyType()]);
            Accepts(a) && Accepts(b) && Reading(Content(b), Carried([a]), atof, before) == atof([49])
  {
    var a, b := PrintDoc([OnlyValue()]), PrintDoc([OnlyType()]);
    OnlyLegal();
    OneItemReads(OnlyValue());
    OneItemReads(OnlyType());
    OnlyEvents();
    LeftOver(a, b, atof, before);
  }

  lemma OnlyLegal()
    ensures LegalDoc([OnlyValue()]) && LegalDoc([OnlyType()])
  {
    AsciiName("Value");
    AsciiName("Type");
    AsciiName("GridPower");
  }

  lemma OnlyEvents()
    ensures ItemEvents(OnlyValue()) == [ElementStart([97]), Attribute(Ascii("Value"), [49]), ElementEnd([97])]
    ensures ItemEvents(OnlyType()) ==
            [ElementStart([98]), Attribute(Ascii("Type"), Ascii("GridPower")), ElementEnd([98])]
  {
    assert AttrEvents(OnlyValue().attrs) == [Attribute(Ascii("Value"), [49])];
    assert AttrEvents(OnlyType().attrs) == [Attribute(Ascii("Type"), Ascii("GridPower"))];
  }

  lemma LeftOver(a: seq<byte>, b: seq<byte>, atof: seq<byte> -> real, before: real)
    requires Content(a) == [ElementStart([97]), Attribute(Ascii("Value"), [49]), ElementEnd([97])]
    requires Content(b) == [ElementStart([98]), Attribute(Ascii("Type"), Ascii("GridPower")), ElementEnd([98])]
    ensures Reading(Content(b), Carried([a]), atof, before) == atof([49])
  {
    Literals();
    assert LastGridPower(Content(b), 1);
    ReadingIs(Content(b), Carried([a]), atof, before);
    LatestValueIs(Content(b), Carried([a]), 1);
    assert [a][..0] == [] && LastValueBefore(Content(a), 1, 3) && Content(a)[..3] == Content(a);
    LatestValueIs(Content(a), [], 3);
  }

  /** <a Value="1"/><b Type="GridPower" Value="2"/> reads as the Value of the wrong element. */
  function TypeFirst(): seq<Item> {
    [Open([97], [Attr([32], Ascii("Value"), [], [], 34, [49])], [], true),
     Open([98], [Attr([32], Ascii("Type"), [], [], 34, Ascii("GridPower")),
                 Attr([32], Ascii("Value"), [], [], 34, [50])], [], true)]
  }

  lemma TypeFirstReadsWrong(stale: seq<byte>, atof: seq<byte> -> real, before: real)
    ensures var s := PrintDoc(TypeFirst());
            Accepts(s) && Reading(Content(s), stale, atof, before) == atof([49])
  {
    var s := PrintDoc(TypeFirst());
    TypeFirstLegal();
    assert Derives(TypeFirst(), s);
    DerivedEvents(TypeFirst(), s);
    EventsErrorFree(TypeFirst());
    TypeFirstEventsRead(DocEvents(TypeFirst()), stale, atof, before);
  }

  lemma TypeFirstEventsRead(es: seq<Event>, stale: seq<byte>, atof: seq<byte> -> real, before: real)
    requires es == DocEvents(TypeFirst())
    ensures Reading(es, stale, atof, before) == atof([49])
  {
    TypeFirstEvents();
    Literals();
    assert LastGridPower(es, 4) && LastValueBefore(es, 1, 4);
    ReadingIs(es, stale, atof, before);
    LatestValueIs(es, stale, 4);
  }

  lemma AsciiName(t: string)
    requires t in ["Value", "Unit", "Type", "GridPower"]
    ensures IsName(Ascii(t)) && IsValue(34, Ascii(t))
  {
    assert forall i :: 0 <= i < |t| ==> 65 as char <= t[i] <= 122 as char && (t[i] <= 90 as char || 97 as char <= t[i]);
    assert forall i :: 0 <= i < |t| ==> Ascii(t)[i] == t[i] as int;
  }

  lemma TypeFirstLegal()
    ensures LegalDoc(TypeFirst())
  {
    AsciiName("Value");
    AsciiName("Type");
    AsciiName("GridPower");
  }

  lemma TypeFirstEvents()
    ensures DocEvents(TypeFirst()) ==
      [ElementStart([97]), Attribute(Ascii("Value"), [49]), ElementEnd([97]),
       ElementStart([98]), Attribute(Ascii("Type"), Ascii("GridPower")), Attribute(Ascii("Value"), [50]),
       ElementEnd([98])]
  {
    var a, b := TypeFirst()[0], TypeFirst()[1];
    assert AttrEvents(a.attrs) == [Attribute(Ascii("Value"), [49])];
    assert b.attrs[1..] == [b.attrs[1]];
    assert AttrEvents(b.attrs[1..]) == [Attribute(Ascii("Value"), [50])];
    assert AttrEvents(b.attrs) == [Attribute(Ascii("Type"), Ascii("GridPower")), Attribute(Ascii("Value"), [50])];
    assert TypeFirst()[1..] == [b];
    assert DocEvents([b]) == ItemEvents(b);
  }
}
