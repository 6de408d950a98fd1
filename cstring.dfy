/** NUL-terminated C strings: what `gtk_entry_set_text` reads out of the
    password buffer. */
module CStrings {

  datatype Option<T> = None | Some(value: T)

  /** The characters before the first NUL of `buf`; None when `buf` holds no
      NUL, where a C reader would run past the end of the buffer. */
  function CStringOf(buf: seq<char>): (r: Option<seq<char>>)
    ensures r.None? <==> '\0' !in buf
    ensures r.Some? ==> |r.value| < |buf| && buf[|r.value|] == '\0'
    ensures r.Some? ==> r.value == buf[..|r.value|] && '\0' !in r.value
  {
    if buf == [] then None
    else if buf[0] == '\0' then Some([])
    else match CStringOf(buf[1..])
      case None => None
      case Some(rest) => Some([buf[0]] + rest)
  }

  /** Text free of NUL followed by a terminator reads back as exactly that
      text, whatever follows the terminator. */
  lemma {:induction false} CStringOfTerminated(text: seq<char>, after: seq<char>)
    requires '\0' !in text
    ensures CStringOf(text + ['\0'] + after) == Some(text)
  {
    var buf := text + ['\0'] + after;
    if text != [] {
      assert buf[0] == text[0] != '\0';
      assert buf[1..] == text[1..] + ['\0'] + after;
      CStringOfTerminated(text[1..], after);
      assert [text[0]] + text[1..] == text;
    } else {
      assert buf[0] == '\0';
    }
  }
}
