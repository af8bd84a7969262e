/** The reference reader: a recursive descent over the text, with no tables, no registers
    and no byte dispatched twice. `XRead.XrRead` is proved to emit exactly its events.

    Every function takes the unread rest of the text. The end of the text stands for the
    terminating NUL of the C string. */
module XmlReference {
  import opened Common
  import opened XmlBytes

  datatype Event =
    | ElementStart(name: seq<byte>)
    | Attribute(name: seq<byte>, value: seq<byte>)
    | ElementEnd(name: seq<byte>)
    | Error(bad: byte)

  /** The next byte, NUL at the end of the text. */
  function Peek(s: seq<byte>): byte {
    if s == [] then 0 else s[0]
  }

  /** Between tags. */
  function Content(s: seq<byte>): seq<Event>
    decreases |s|
  {
    if s == [] then []
    else if IsSpace(s[0]) then Content(s[1..])
    else if s[0] == 60 then Markup(s[1..])
    else [Error(s[0])]
  }

  /** After '<'. */
  function Markup(s: seq<byte>): seq<Event>
    decreases |s|
  {
    if Peek(s) == 47 then EndTag(s[1..])
    else if IsNameStart(Peek(s)) then
      var k := NameSpan(s);
      [ElementStart(s[..k])] + Attributes(s[..k], s[k..])
    else [Error(Peek(s))]
  }

  /** After '</'. */
  function EndTag(s: seq<byte>): seq<Event>
    decreases |s|
  {
    if IsNameStart(Peek(s)) then
      var k := NameSpan(s);
      [ElementEnd(s[..k])] + Close(s[k..])
    else [Error(Peek(s))]
  }

  /** Where only '>' may stand. */
  function Close(s: seq<byte>): seq<Event>
    decreases |s|
  {
    if Peek(s) == 62 then Content(s[1..]) else [Error(Peek(s))]
  }

  /** Inside the start tag of `tag`, where an attribute may begin. */
  function Attributes(tag: seq<byte>, s: seq<byte>): seq<Event>
    decreases |s|
  {
    if IsSpace(Peek(s)) then Attributes(tag, s[1..])
    else if Peek(s) == 47 then [ElementEnd(tag)] + Close(s[1..])
    else if Peek(s) == 62 then Content(s[1..])
    else if IsNameStart(Peek(s)) then
      var k := NameSpan(s);
      Equals(tag, s[..k], s[k..])
    else [Error(Peek(s))]
  }

  /** After the name of an attribute. */
  function Equals(tag: seq<byte>, name: seq<byte>, s: seq<byte>): seq<Event>
    decreases |s|
  {
    if IsSpace(Peek(s)) then Equals(tag, name, s[1..])
    else if Peek(s) == 61 then Quoted(tag, name, s[1..])
    else [Error(Peek(s))]
  }

  /** After '='. */
  function Quoted(tag: seq<byte>, name: seq<byte>, s: seq<byte>): seq<Event>
    decreases |s|
  {
    if IsSpace(Peek(s)) then Quoted(tag, name, s[1..])
    else if IsQuote(Peek(s)) then Value(tag, name, s[0], s[1..])
    else [Error(Peek(s))]
  }

  /** After the opening quote. */
  function Value(tag: seq<byte>, name: seq<byte>, quote: byte, s: seq<byte>): seq<Event>
    decreases |s|
  {
    var k := ValueSpan(quote, s);
    if k < |s| && s[k] == quote then [Attribute(name, s[..k])] + Attributes(tag, s[k + 1..])
    else [Error(Peek(s[k..]))]
  }

  predicate HasError(es: seq<Event>) {
    exists e :: e in es && e.Error?
  }

  /** The text is read to its end without an error event. */
  predicate Accepts(s: seq<byte>) {
    !HasError(Content(s))
  }
}
