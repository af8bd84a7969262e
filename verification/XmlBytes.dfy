/** Bytes, C strings and the character classes that the XML reader's dispatch tables draw. */
module XmlBytes {
  import opened Common

  /** The bytes of an ASCII literal. */
  function Ascii(s: string): (r: seq<byte>)
    ensures |r| == |s|
    ensures forall i :: 0 <= i < |s| && s[i] < 128 as char ==> r[i] == s[i] as int
  {
    seq(|s|, i requires 0 <= i < |s| => if s[i] < 128 as char then s[i] as byte else 0)
  }

  /** What a C program sees of a buffer: the bytes before the first NUL. */
  function CString(doc: seq<byte>): (s: seq<byte>)
    requires 0 in doc
    ensures |s| < |doc| && s == doc[..|s|] && doc[|s|] == 0 && 0 !in s
  {
    if doc[0] == 0 then [] else [doc[0]] + CString(doc[1..])
  }

  predicate IsSpace(b: byte) {
    b == 9 || b == 10 || b == 13 || b == 32
  }

  predicate IsNameStart(b: byte) {
    65 <= b <= 90 || b == 95 || 97 <= b <= 122
  }

  predicate IsNameChar(b: byte) {
    IsNameStart(b) || b == 45 || b == 46 || 48 <= b <= 57
  }

  /** A byte that may stand inside an attribute value delimited by `quote`. */
  predicate IsValueByte(quote: byte, b: byte) {
    b >= 32 && b != quote
  }

  predicate IsQuote(b: byte) {
    b == 34 || b == 39
  }

  const UPPER := "ABCDEFGHIJKLMNOPQRSTUVWXYZ"
  const LOWER := "abcdefghijklmnopqrstuvwxyz"
  const DIGITS := "0123456789"

  lemma Alphabet()
    ensures |UPPER| == |LOWER| == 26 && |DIGITS| == 10
    ensures forall i :: 0 <= i < 26 ==> UPPER[i] == (65 + i) as char && LOWER[i] == (97 + i) as char
    ensures forall i :: 0 <= i < 10 ==> DIGITS[i] == (48 + i) as char
  {
  }

  /** A name begins with a letter or '_', and goes on with these, digits, '-' and '.'. */
  lemma NameBytes(b: byte)
    ensures IsNameStart(b) <==> b == '_' as int || b in Ascii(UPPER) || b in Ascii(LOWER)
    ensures IsNameChar(b) <==> IsNameStart(b) || b == '-' as int || b == '.' as int || b in Ascii(DIGITS)
  {
    Alphabet();
    assert 65 <= b <= 90 ==> Ascii(UPPER)[b - 65] == b;
    assert 97 <= b <= 122 ==> Ascii(LOWER)[b - 97] == b;
    assert 48 <= b <= 57 ==> Ascii(DIGITS)[b - 48] == b;
  }

  lemma SpaceBytes(b: byte)
    ensures IsSpace(b) <==> b in Ascii(" \t\r\n")
  {
    var t := " \t\r\n";
    assert |t| == 4 && t[0] == ' ' && t[1] == '\t' && t[2] == '\r' && t[3] == '\n';
    assert Ascii(t) == [32, 9, 13, 10];
  }

  predicate IsName(s: seq<byte>) {
    s != [] && IsNameStart(s[0]) && forall b :: b in s ==> IsNameChar(b)
  }

  predicate IsBlank(s: seq<byte>) {
    forall b :: b in s ==> IsSpace(b)
  }

  predicate IsValue(quote: byte, s: seq<byte>) {
    forall b :: b in s ==> IsValueByte(quote, b)
  }

  /** Length of the longest prefix of `s` made of name bytes. */
  function NameSpan(s: seq<byte>): (k: nat)
    ensures k <= |s|
    ensures forall j :: 0 <= j < k ==> IsNameChar(s[j])
    ensures k < |s| ==> !IsNameChar(s[k])
  {
    if s != [] && IsNameChar(s[0]) then 1 + NameSpan(s[1..]) else 0
  }

  /** Length of the longest prefix of `s` made of bytes legal between two `quote`s. */
  function ValueSpan(quote: byte, s: seq<byte>): (k: nat)
    ensures k <= |s|
    ensures forall j :: 0 <= j < k ==> IsValueByte(quote, s[j])
    ensures k < |s| ==> !IsValueByte(quote, s[k])
  {
    if s != [] && IsValueByte(quote, s[0]) then 1 + ValueSpan(quote, s[1..]) else 0
  }
}
