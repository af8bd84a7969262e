/** `xr_read` in its own form: the local variables it overwrites, and one method for each label. */
module XRead {
  import opened Common
  import opened XmlBytes
  import opened XmlReference
  import opened XReadTables
  import opened XMachine
  import opened XReadProof
  import opened XReadTrace

  class Reader {
    const doc: seq<byte>
    ghost const text: seq<byte>
    var cstr: nat            // bytes of `doc` fetched so far
    var go: Table
    var nameHandle: Label
    var tag: XrStr
    var name: XrStr
    var val: XrStr
    var target: Label        // where the next goto leads
    var out: seq<Callback>   // the callbacks made, in order

    constructor (doc: seq<byte>)
      requires 0 in doc
      ensures this.doc == doc && Valid() && State() == Start(text)
    {
      this.doc, text := doc, CString(doc);
      tag, name, val := Slice(0, 0), Slice(0, 0), Slice(0, 0);
      go, nameHandle, out := GoRoot, LNull, [];
      target, cstr := Entry(GoRoot, doc[0]), 1;
    }

    ghost function State(): Machine
      reads this
    {
      Machine(target, cstr, go, nameHandle, tag, name, val, out)
    }

    ghost predicate Valid()
      reads this
    {
      0 in doc && text == CString(doc) && Live(text, State())
    }

    /** Control has reached `l`. */
    ghost predicate At(l: Label)
      reads this
    {
      Valid() && target == l
    }

    method DispatchNext()
      requires 0 in doc && text == CString(doc) && cstr <= |text|
      modifies this`target, this`cstr
      ensures target == Entry(go, ByteAt(text, old(cstr))) && cstr == old(cstr) + 1
    {
      target, cstr := Entry(go, doc[cstr]), cstr + 1;
    }

    method DispatchThis()
      requires 0 in doc && text == CString(doc) && 1 <= cstr <= |text| + 1
      modifies this`target
      ensures target == Entry(go, ByteAt(text, cstr - 1))
    {
      target := Entry(go, doc[cstr - 1]);
    }

    method Call(kind: XrType, name: XrStr, val: XrStr)
      modifies this`out
      ensures out == old(out) + [Callback(kind, name, val)]
    {
      out := out + [Callback(kind, name, val)];
    }

    method Next()
      requires At(LNext)
      modifies this
      ensures Valid() && State() == Step(text, old(State()))
    {
      ghost var m := State();
      MayFetch(text, m);
      DispatchNext();
      assert State() == Step(text, m);
      StepLives(text, m);
    }

    method NameBegin()
      requires At(LNameBegin)
      modifies this
      ensures Valid() && State() == Step(text, old(State()))
    {
      ghost var m := State();
      MayFetch(text, m);
      tag := tag.(off := cstr - 1);
      go := GoName;
      DispatchNext();
      assert State() == Step(text, m);
      StepLives(text, m);
    }

    method NameEnd()
      requires At(LNameEnd)
      modifies this
      ensures Valid() && State() == Step(text, old(State()))
    {
      ghost var m := State();
      target := nameHandle;
      assert State() == Step(text, m);
      StepLives(text, m);
    }

    method Tag()
      requires At(LTag)
      modifies this
      ensures Valid() && State() == Step(text, old(State()))
    {
      ghost var m := State();
      MayFetch(text, m);
      nameHandle := LStagName;
      go := GoStag;
      DispatchNext();
      assert State() == Step(text, m);
      StepLives(text, m);
    }

    method Etag()
      requires At(LEtag)
      modifies this
      ensures Valid() && State() == Step(text, old(State()))
    {
      ghost var m := State();
      MayFetch(text, m);
      nameHandle := LEtagName;
      go := GoEtag;
      DispatchNext();
      assert State() == Step(text, m);
      StepLives(text, m);
    }

    method TagEnd()
      requires At(LTagEnd)
      modifies this
      ensures Valid() && State() == Step(text, old(State()))
    {
      ghost var m := State();
      MayFetch(text, m);
      go := GoRoot;
      DispatchNext();
      assert State() == Step(text, m);
      StepLives(text, m);
    }

    method StagName()
      requires At(LStagName)
      modifies this
      ensures Valid() && State() == Step(text, old(State()))
    {
      ghost var m := State();
      MayFetch(text, m);
      tag := tag.(len := cstr - 1 - tag.off);
      Call(XrElementStart, tag, Null);
      go := GoAttrib;
      assert State() == Act(m);
      DispatchThis();
      assert State() == Step(text, m);
      StepLives(text, m);
    }

    method EtagName()
      requires At(LEtagName)
      modifies this
      ensures Valid() && State() == Step(text, old(State()))
    {
      ghost var m := State();
      MayFetch(text, m);
      tag := tag.(len := cstr - 1 - tag.off);
      Call(XrElementEnd, tag, Null);
      go := GoTagClose;
      assert State() == Act(m);
      DispatchThis();
      assert State() == Step(text, m);
      StepLives(text, m);
    }

    method EmptyElementTag()
      requires At(LEmptyElementTag)
      modifies this
      ensures Valid() && State() == Step(text, old(State()))
    {
      ghost var m := State();
      MayFetch(text, m);
      Call(XrElementEnd, tag, Null);
      go := GoTagClose;
      DispatchNext();
      assert State() == Step(text, m);
      StepLives(text, m);
    }

    method Attrib()
      requires At(LAttrib)
      modifies this
      ensures Valid() && State() == Step(text, old(State()))
    {
      ghost var m := State();
      MayFetch(text, m);
      name := name.(off := cstr - 1);
      nameHandle := LAttribName;
      go := GoName;
      DispatchNext();
      assert State() == Step(text, m);
      StepLives(text, m);
    }

    method AttribName()
      requires At(LAttribName)
      modifies this
      ensures Valid() && State() == Step(text, old(State()))
    {
      ghost var m := State();
      MayFetch(text, m);
      name := name.(len := cstr - 1 - name.off);
      go := GoAttribEq;
      assert State() == Act(m);
      DispatchThis();
      assert State() == Step(text, m);
      StepLives(text, m);
    }

    method AttribEq()
      requires At(LAttribEq)
      modifies this
      ensures Valid() && State() == Step(text, old(State()))
    {
      ghost var m := State();
      MayFetch(text, m);
      go := GoAttribValBegin;
      DispatchNext();
      assert State() == Step(text, m);
      StepLives(text, m);
    }

    method AttribValSingle()
      requires At(LAttribValSingle)
      modifies this
      ensures Valid() && State() == Step(text, old(State()))
    {
      ghost var m := State();
      MayFetch(text, m);
      val := val.(off := cstr);
      go := GoAttribValSingle;
      DispatchNext();
      assert State() == Step(text, m);
      StepLives(text, m);
    }

    method AttribValDouble()
      requires At(LAttribValDouble)
      modifies this
      ensures Valid() && State() == Step(text, old(State()))
    {
      ghost var m := State();
      MayFetch(text, m);
      val := val.(off := cstr);
      go := GoAttribValDouble;
      DispatchNext();
      assert State() == Step(text, m);
      StepLives(text, m);
    }

    method AttribVal()
      requires At(LAttribVal)
      modifies this
      ensures Valid() && State() == Step(text, old(State()))
    {
      ghost var m := State();
      MayFetch(text, m);
      val := val.(len := cstr - 1 - val.off);
      Call(XrAttribute, name, val);
      go := GoAttrib;
      assert State() == Act(m).(cstr := m.cstr);
      DispatchNext();
      assert State() == Step(text, m);
      StepLives(text, m);
    }

    /** The block of code at the label that control has reached. */
    method Execute()
      requires Valid() && !Halted(State())
      modifies this
      ensures Valid() && State() == Step(text, old(State()))
    {
      match target
      case LNext => Next();
      case LNameBegin => NameBegin();
      case LNameEnd => NameEnd();
      case LTag => Tag();
      case LEtag => Etag();
      case LTagEnd => TagEnd();
      case LStagName => StagName();
      case LEtagName => EtagName();
      case LEmptyElementTag => EmptyElementTag();
      case LAttrib => Attrib();
      case LAttribName => AttribName();
      case LAttribEq => AttribEq();
      case LAttribValSingle => AttribValSingle();
      case LAttribValDouble => AttribValDouble();
      case LAttribVal => AttribVal();
    }

    /** The gotos, up to l_done or l_error. */
    method Gotos()
      requires Valid()
      modifies this
      ensures Valid() && State() == Run(text, old(State()))
    {
      while target != LDone && target != LError
        invariant Valid()
        invariant Run(text, State()) == Run(text, old(State()))
        decreases |text| + 1 - cstr, Rank(target)
      {
        StepLives(text, State());
        Execute();
      }
    }

    method ReportError()
      requires At(LError)
      modifies this
      ensures out == AllCalls(old(State())) && cstr == old(cstr)
    {
      name := Literal(Ascii("Error!"));
      val := Slice(cstr - 1, 1);
      Call(XrError, name, val);
    }
  }

  /** `xr_read`: returns the callbacks it makes, and how many bytes of `doc` it has fetched. */
  method XrRead(doc: seq<byte>) returns (out: seq<Callback>, cstr: nat)
    requires 0 in doc
    ensures Trace(CString(doc), out)
    ensures forall out' :: Trace(CString(doc), out') ==> out' == out
    ensures (exists c :: c in out && c.kind == XrError) <==> !Accepts(CString(doc))
    ensures cstr <= |CString(doc)| + 1
    ensures Accepts(CString(doc)) ==> cstr == |CString(doc)| + 1
  {
    var r := new Reader(doc);
    r.Gotos();
    RunReads(r.text);
    if r.target == LError {
      r.ReportError();
    }
    out, cstr := r.out, r.cstr;
    RunTraces(r.text);
    forall out' | Trace(r.text, out')
      ensures out' == out
    {
      OnlyTrace(r.text, out, out');
    }
  }
}
