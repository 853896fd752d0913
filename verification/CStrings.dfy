/** Strings of C: bytes up to a terminating 0. */
module CStrings {
  import opened Words

  type Str = seq<byte>

  /** The bytes of an ASCII string. */
  function Ascii(t: string): Str {
    seq(|t|, i requires 0 <= i < |t| => t[i] as int % 256)
  }

  /** What a reader of the buffer sees. */
  function CString(buf: Str): Str {
    if buf == [] || buf[0] == 0 then [] else [buf[0]] + CString(buf[1..])
  }

  lemma {:induction false} CStringOf(text: Str, rest: Str)
    requires 0 !in text && (rest == [] || rest[0] == 0)
    ensures CString(text + rest) == text
  {
    if text == [] {
      assert text + rest == rest;
    } else {
      assert (text + rest)[1..] == text[1..] + rest;
      CStringOf(text[1..], rest);
    }
  }
}
