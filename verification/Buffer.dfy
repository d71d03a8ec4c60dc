/** The growable output buffer every text filter appends to (template_utils.c, `struct template_buffer`). */
module Buffer {
  import opened Bytes

  class TemplateBuffer {
    var data: array<byte>
    var dptr: nat  // the write pointer, as an offset into `data`
    var size: nat
    var fill: nat

    ghost predicate Valid()
      reads this, data
    {
      && data.Length == size
      && fill < size
      && dptr == fill
      && data[fill] == NUL
    }

    /** What has been appended so far. */
    ghost function Contents(): seq<byte>
      requires Valid()
      reads this, data
    {
      data[..fill]
    }

    /** buf_init: fresh memory is arbitrary, only the terminator is written. */
    constructor (requested: int)
      ensures Valid() && fresh(data)
      ensures Contents() == []
      ensures size == if requested <= 0 then 1024 else requested
    {
      var n: nat := if requested <= 0 then 1024 else requested;
      size := n;
      fill := 0;
      dptr := 0;
      data := new byte[n];
      new;
      data[0] := NUL;
    }

    /** buf_grow: realloc() moves the old bytes to a larger block; nothing else changes. */
    method Grow(requested: int)
      requires Valid()
      modifies this
      ensures Valid() && fresh(data)
      ensures size == old(size) + if requested <= 0 then 1024 else requested
      ensures fill == old(fill) && Contents() == old(Contents())
    {
      var extra: nat := if requested <= 0 then 1024 else requested;
      var off := dptr;
      var moved := new byte[size + extra];
      forall i | 0 <= i < size {
        moved[i] := data[i];
      }
      data := moved;
      dptr := off;
      size := size + extra;
    }

    /** buf_putchar */
    method PutChar(c: byte)
      requires Valid()
      modifies this, data
      ensures Valid() && (data == old(data) || fresh(data))
      ensures Contents() == old(Contents()) + [c]
    {
      if fill + 1 >= size {
        Grow(0);
      }
      data[dptr] := c;
      dptr := dptr + 1;
      data[dptr] := NUL;
      fill := fill + 1;
    }

    /** buf_append */
    method Append(s: seq<byte>)
      requires Valid()
      modifies this, data
      ensures Valid() && (data == old(data) || fresh(data))
      ensures Contents() == old(Contents()) + s
    {
      if fill + |s| + 1 >= size {
        Grow(|s| + 1);
      }
      forall i | 0 <= i < |s| {
        data[dptr + i] := s[i];
      }
      fill := fill + |s|;
      dptr := dptr + |s|;
      data[dptr] := NUL;
    }

    /** buf_destroy: the memory survives the buffer object and is a C string after the contents. */
    method Destroy() returns (text: array<byte>)
      requires Valid()
      ensures text == data
      ensures HoldsString(text[..], Contents())
    {
      text := data;
    }
  }

  /** One call made on a buffer. */
  datatype Call = CallPut(c: byte) | CallAppend(s: seq<byte>)

  function Appended(call: Call): seq<byte> {
    match call
    case CallPut(c) => [c]
    case CallAppend(s) => s
  }

  /** Everything a list of calls appends. */
  function AllAppended(calls: seq<Call>): seq<byte> {
    if calls == [] then [] else AllAppended(calls[..|calls| - 1]) + Appended(calls[|calls| - 1])
  }

  /** Any sequence of calls on a buffer of any initial size leaves the concatenation of the appended
      bytes as one terminated string, however often the block was moved on the way. */
  method RunCalls(requested: int, calls: seq<Call>) returns (text: array<byte>)
    ensures HoldsString(text[..], AllAppended(calls))
  {
    var buf := new TemplateBuffer(requested);
    for i := 0 to |calls|
      invariant buf.Valid() && fresh(buf) && fresh(buf.data)
      invariant buf.Contents() == AllAppended(calls[..i])
    {
      assert calls[..i + 1][..i] == calls[..i];
      match calls[i] {
        case CallPut(c) => buf.PutChar(c);
        case CallAppend(s) => buf.Append(s);
      }
    }
    assert calls[..|calls|] == calls;
    text := buf.Destroy();
  }
}
