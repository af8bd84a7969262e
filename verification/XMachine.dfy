/** The goto machine of src/xread.c as a step function over its local variables: one label is
    executed at a time, reached from a dispatch table or from `name_handle`. */
module XMachine {
  import opened Common
  import opened XmlBytes
  import opened XReadTables

  datatype XrType = XrAttribute | XrElementStart | XrElementEnd | XrError

  /** An `xr_str_t`: a slice of the document, a string constant, or the null pointer. */
  datatype XrStr = Null | Slice(off: nat, len: int) | Literal(text: seq<byte>)

  /** One callback. */
  datatype Callback = Callback(kind: XrType, name: XrStr, val: XrStr)

  /** The local variables of `xr_read`, the label control has reached, and the callbacks made. */
  datatype Machine = Machine(target: Label, cstr: nat, go: Table, nameHandle: Label,
                             tag: XrStr, name: XrStr, val: XrStr, out: seq<Callback>)

  /** Byte `i` of the C string `s`: NUL at its end. */
  function ByteAt(s: seq<byte>, i: nat): byte
    requires i <= |s|
  {
    if i < |s| then s[i] else 0
  }

  function Start(s: seq<byte>): Machine {
    Machine(Entry(GoRoot, ByteAt(s, 0)), 1, GoRoot, LNull, Slice(0, 0), Slice(0, 0), Slice(0, 0), [])
  }

  predicate IsNameHandle(l: Label) {
    l == LStagName || l == LEtagName || l == LAttribName
  }

  /** Control is where the last dispatch led, no byte past the NUL has been fetched, and
      `name_handle` is set whenever the name table is active. */
  predicate Live(s: seq<byte>, m: Machine) {
    && 0 !in s
    && 1 <= m.cstr <= |s| + 1
    && m.tag.Slice? && m.name.Slice? && m.val.Slice?
    && (m.go.GoStag? ==> m.nameHandle == LStagName)
    && (m.go.GoEtag? ==> m.nameHandle == LEtagName)
    && (m.go.GoName? ==> IsNameHandle(m.nameHandle))
    && (m.target == Entry(m.go, ByteAt(s, m.cstr - 1))
        || (m.target == m.nameHandle && m.go.GoName? && Entry(m.go, ByteAt(s, m.cstr - 1)) == LNameEnd))
  }

  predicate Halted(m: Machine) {
    m.target == LDone || m.target == LError
  }

  function Call(m: Machine, kind: XrType, name: XrStr, val: XrStr): Machine {
    m.(out := m.out + [Callback(kind, name, val)])
  }

  /** After any byte but the NUL one more may be fetched. */
  lemma MayFetch(s: seq<byte>, m: Machine)
    requires Live(s, m)
    ensures m.cstr <= |s| <==> ByteAt(s, m.cstr - 1) != 0
  {
  }

  /** The byte that XR_DISPATCH_NEXT fetches. */
  function Fetch(m: Machine): Machine {
    m.(cstr := m.cstr + 1)
  }

  /** What the statements of a label do to the local variables, and its callback. */
  function Act(m: Machine): Machine
    requires 1 <= m.cstr && m.tag.Slice? && m.name.Slice? && m.val.Slice?
  {
    match m.target
    case LNext => Fetch(m)
    case LNameBegin => Fetch(m.(tag := m.tag.(off := m.cstr - 1), go := GoName))
    case LTag => Fetch(m.(nameHandle := LStagName, go := GoStag))
    case LEtag => Fetch(m.(nameHandle := LEtagName, go := GoEtag))
    case LTagEnd => Fetch(m.(go := GoRoot))
    case LStagName =>
      var tag := m.tag.(len := m.cstr - 1 - m.tag.off);
      Call(m, XrElementStart, tag, Null).(tag := tag, go := GoAttrib)
    case LEtagName =>
      var tag := m.tag.(len := m.cstr - 1 - m.tag.off);
      Call(m, XrElementEnd, tag, Null).(tag := tag, go := GoTagClose)
    case LEmptyElementTag => Fetch(Call(m, XrElementEnd, m.tag, Null).(go := GoTagClose))
    case LAttrib => Fetch(m.(name := m.name.(off := m.cstr - 1), nameHandle := LAttribName, go := GoName))
    case LAttribName => m.(name := m.name.(len := m.cstr - 1 - m.name.off), go := GoAttribEq)
    case LAttribEq => Fetch(m.(go := GoAttribValBegin))
    case LAttribValSingle => Fetch(m.(val := m.val.(off := m.cstr), go := GoAttribValSingle))
    case LAttribValDouble => Fetch(m.(val := m.val.(off := m.cstr), go := GoAttribValDouble))
    case LAttribVal =>
      var val := m.val.(len := m.cstr - 1 - m.val.off);
      Fetch(Call(m, XrAttribute, m.name, val).(val := val, go := GoAttrib))
    case _ => m
  }

  /** The statements of the label, and its jump: `l_name_end` goes to `name_handle`, every other
      label to the entry for the byte fetched last. */
  function Step(s: seq<byte>, m: Machine): Machine
    requires Live(s, m) && !Halted(m)
  {
    MayFetch(s, m);
    var m' := Act(m);
    m'.(target := if m.target.LNameEnd? then m.nameHandle else Entry(m'.go, ByteAt(s, m'.cstr - 1)))
  }

  /** Labels that are reached without consuming a byte come later in this order. */
  function Rank(target: Label): nat {
    if target.LNameEnd? then 2
    else if IsNameHandle(target) then 1
    else 0
  }

  /** The tables from which the labels of names are reached. */
  lemma NameEntries(go: Table, b: byte)
    ensures Entry(go, b) == LNameBegin ==> go.GoStag? || go.GoEtag?
    ensures Entry(go, b) == LNameEnd ==> go.GoName?
    ensures Entry(go, b) != LNull && !IsNameHandle(Entry(go, b))
  {
  }

  lemma ActStays(s: seq<byte>, m: Machine)
    requires Live(s, m) && !Halted(m)
    ensures var m' := Act(m);
            && m'.tag.Slice? && m'.name.Slice? && m'.val.Slice?
            && (m'.go.GoStag? ==> m'.nameHandle == LStagName)
            && (m'.go.GoEtag? ==> m'.nameHandle == LEtagName)
            && (m'.go.GoName? ==> IsNameHandle(m'.nameHandle))
            && m'.cstr == (if m.target.LNameEnd? || IsNameHandle(m.target) then m.cstr else m.cstr + 1) <= |s| + 1
  {
    NameEntries(m.go, ByteAt(s, m.cstr - 1));
    MayFetch(s, m);
  }

  /** Every step stays within the text, and uses up a byte or moves down the label order. */
  lemma StepLives(s: seq<byte>, m: Machine)
    requires Live(s, m) && !Halted(m)
    ensures Live(s, Step(s, m))
    ensures var m' := Step(s, m); m'.cstr == m.cstr + 1 || (m'.cstr == m.cstr && Rank(m'.target) < Rank(m.target))
  {
    ActStays(s, m);
    NameEntries(m.go, ByteAt(s, m.cstr - 1));
    NameEntries(Act(m).go, ByteAt(s, Act(m).cstr - 1));
  }

  /** Where the machine halts. */
  function Run(s: seq<byte>, m: Machine): (m': Machine)
    requires Live(s, m)
    ensures Live(s, m') && Halted(m')
    decreases |s| + 1 - m.cstr, Rank(m.target)
  {
    if Halted(m) then m
    else
      StepLives(s, m);
      Run(s, Step(s, m))
  }
}
