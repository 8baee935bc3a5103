/** The character streams the readers and writers work on. */
module Streams {
  import opened Bytes

  /** A read cursor over a NUL-terminated text. */
  class StringStream {
    const text: bytes
    var src: nat

    constructor (text: bytes)
      ensures this.text == text && src == 0
    {
      this.text := text;
      src := 0;
    }

    function Peek(): byte
      reads this
    {
      Bytes.Peek(text, src)
    }

    method Take() returns (c: byte)
      modifies this
      ensures c == Bytes.Peek(text, old(src)) && src == old(src) + 1
    {
      c := Bytes.Peek(text, src);
      src := src + 1;
    }
  }

  /** An append-only output stream. */
  class OutputStream {
    var out: bytes

    constructor ()
      ensures out == []
    {
      out := [];
    }

    method Put(c: byte)
      modifies this
      ensures out == old(out) + [c]
    {
      out := out + [c];
    }
  }
}
