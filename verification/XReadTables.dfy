/** The dispatch tables of src/xread.c: the label each byte jumps to. */
module XReadTables {
  import opened Common
  import opened XmlBytes

  datatype Label =
    | LNull  // name_handle before it is first set
    | LNext | LError | LDone
    | LNameBegin | LNameEnd
    | LTag | LEtag | LTagEnd
    | LStagName | LEtagName | LEmptyElementTag
    | LAttrib | LAttribName | LAttribEq
    | LAttribValSingle | LAttribValDouble | LAttribVal

  datatype Table =
    | GoRoot | GoName | GoStag | GoEtag | GoTagClose
    | GoAttrib | GoAttribEq | GoAttribValBegin | GoAttribValSingle | GoAttribValDouble

  function RootEntry(b: byte): Label {
    if b == 0 then LDone
    else if b == 9 || b == 10 || b == 13 || b == 32 then LNext
    else if b == 60 then LTag
    else LError
  }

  function NameEntry(b: byte): Label {
    if b <= 44 then LNameEnd
    else if b <= 46 then LNext
    else if b <= 47 then LNameEnd
    else if b <= 57 then LNext
    else if b <= 64 then LNameEnd
    else if b <= 90 then LNext
    else if b <= 94 then LNameEnd
    else if b <= 95 then LNext
    else if b <= 96 then LNameEnd
    else if b <= 122 then LNext
    else LNameEnd
  }

  function StagEntry(b: byte): Label {
    if b <= 46 then LError
    else if b <= 47 then LEtag
    else if b <= 64 then LError
    else if b <= 90 then LNameBegin
    else if b <= 94 then LError
    else if b <= 95 then LNameBegin
    else if b <= 96 then LError
    else if b <= 122 then LNameBegin
    else LError
  }

  function EtagEntry(b: byte): Label {
    if b <= 64 then LError
    else if b <= 90 then LNameBegin
    else if b <= 94 then LError
    else if b <= 95 then LNameBegin
    else if b <= 96 then LError
    else if b <= 122 then LNameBegin
    else LError
  }

  function TagCloseEntry(b: byte): Label {
    if b == 62 then LTagEnd else LError
  }

  function AttribEntry(b: byte): Label {
    if b == 9 || b == 10 || b == 13 || b == 32 then LNext
    else if b == 47 then LEmptyElementTag
    else if b == 62 then LTagEnd
    else if b <= 64 then LError
    else if b <= 90 then LAttrib
    else if b <= 94 then LError
    else if b <= 95 then LAttrib
    else if b <= 96 then LError
    else if b <= 122 then LAttrib
    else LError
  }

  function AttribEqEntry(b: byte): Label {
    if b == 9 || b == 10 || b == 13 || b == 32 then LNext
    else if b == 61 then LAttribEq
    else LError
  }

  function AttribValBeginEntry(b: byte): Label {
    if b == 9 || b == 10 || b == 13 || b == 32 then LNext
    else if b == 34 then LAttribValDouble
    else if b == 39 then LAttribValSingle
    else LError
  }

  function AttribValSingleEntry(b: byte): Label {
    if b <= 31 then LError else if b == 39 then LAttribVal else LNext
  }

  function AttribValDoubleEntry(b: byte): Label {
    if b <= 31 then LError else if b == 34 then LAttribVal else LNext
  }

  /** The entry of table `go` for byte `b`. */
  function Entry(go: Table, b: byte): Label {
    match go
    case GoRoot => RootEntry(b)
    case GoName => NameEntry(b)
    case GoStag => StagEntry(b)
    case GoEtag => EtagEntry(b)
    case GoTagClose => TagCloseEntry(b)
    case GoAttrib => AttribEntry(b)
    case GoAttribEq => AttribEqEntry(b)
    case GoAttribValBegin => AttribValBeginEntry(b)
    case GoAttribValSingle => AttribValSingleEntry(b)
    case GoAttribValDouble => AttribValDoubleEntry(b)
  }
}
