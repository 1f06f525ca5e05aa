/** The input delimiter (`Split` in src/lib.rs): the byte that separates
    path fragments in standard input and in list files. */
module Delimiter {
  import opened Bytes

  datatype Split = Newline | Null | Tab | Other(b: byte)

  /** The outcome of `TryFrom<OsString> for Split`, whose error type is `()`. */
  datatype Result<T> = Ok(value: T) | Err

  /** `From<Split> for u8`. */
  function ToByte(s: Split): byte {
    match s
    case Newline => 0x0A
    case Null => 0x00
    case Tab => 0x09
    case Other(x) => x
  }

  /** The form the parser produces: a byte with a name of its own is never
      wrapped in `Other`. */
  predicate Canonical(s: Split) {
    s.Other? ==> s.b != 0x0A && s.b != 0x00 && s.b != 0x09
  }

  /** The one-byte branch of the parser. */
  function FromByte(b: byte): (s: Split)
    ensures Canonical(s)
    ensures ToByte(s) == b
  {
    if b == 0x0A then Newline
    else if b == 0x00 then Null
    else if b == 0x09 then Tab
    else Other(b)
  }

  /** The two-character spellings `\n`, `\t`, `\0` (a backslash, then a letter
      or digit), as bytes. */
  const ESCAPED_NEWLINE: seq<byte> := [0x5C, 0x6E]
  const ESCAPED_TAB: seq<byte> := [0x5C, 0x74]
  const ESCAPED_NULL: seq<byte> := [0x5C, 0x30]

  predicate IsEscape(token: seq<byte>) {
    token == ESCAPED_NEWLINE || token == ESCAPED_TAB || token == ESCAPED_NULL
  }

  /** `TryFrom<OsString> for Split`: text first, then the three escapes,
      then exactly one byte. */
  function Parse(token: seq<byte>): (r: Result<Split>)
    ensures r.Ok? <==> ValidUtf8(token) && (IsEscape(token) || |token| == 1)
    ensures r.Ok? ==> Canonical(r.value)
    ensures r.Ok? && |token| == 1 ==> ToByte(r.value) == token[0]
  {
    if !ValidUtf8(token) then Err
    else if token == ESCAPED_NEWLINE then Ok(Newline)
    else if token == ESCAPED_TAB then Ok(Tab)
    else if token == ESCAPED_NULL then Ok(Null)
    else if |token| != 1 then Err
    else Ok(FromByte(token[0]))
  }

  /** The bytes of the named delimiters. */
  lemma NamedBytes()
    ensures ToByte(Newline) == 0x0A && ToByte(Null) == 0x00 && ToByte(Tab) == 0x09
    ensures forall x: byte :: ToByte(Other(x)) == x
  {
  }

  /** Byte to delimiter to byte is the identity, and so is delimiter to byte
      to delimiter on the parser's canonical delimiters. */
  lemma ByteRoundTrip(s: Split)
    requires Canonical(s)
    ensures FromByte(ToByte(s)) == s
  {
  }

  /** The escapes name Newline, Tab and Null. */
  lemma ParseEscapes()
    ensures Parse(ESCAPED_NEWLINE) == Ok(Newline)
    ensures Parse(ESCAPED_TAB) == Ok(Tab)
    ensures Parse(ESCAPED_NULL) == Ok(Null)
  {
  }

  /** A one-byte token parses exactly when it is ASCII (a lone byte of 0x80 or
      more is not text), and then converts back to that same byte; bytes
      without a name of their own become `Other`. */
  lemma ParseSingleByte(b: byte)
    ensures Parse([b]).Ok? <==> b < 0x80
    ensures Parse([b]).Ok? ==> ToByte(Parse([b]).value) == b
    ensures Parse([b]).Ok? && b != 0x0A && b != 0x00 && b != 0x09 ==> Parse([b]).value == Other(b)
  {
    SingleByteUtf8(b);
  }

  /** Any other text is rejected, whatever its length, including a single
      character that UTF-8 spells with more than one byte. */
  lemma ParseRejects(token: seq<byte>)
    requires ValidUtf8(token) && |token| != 1 && !IsEscape(token)
    ensures Parse(token) == Err
  {
  }
}
