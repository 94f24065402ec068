/**
 `IOBuffer`: a window (head, length) into a fixed-capacity pooled buffer.

 `Window` is the value of a handle: which pool buffer it denotes, where its payload starts and what
 the payload is.  The class refines it over a real array.
 */
module IoBuffer {
  import opened Bits

  datatype Window = Window(id: nat, cap: nat, head: nat, bytes: seq<byte>) {
    ghost predicate Valid() { head + |bytes| <= cap }

    function Size(): nat { |bytes| }

    function Tailroom(): nat
      requires Valid()
    {
      cap - head - |bytes|
    }

    /** `append` and filling the exposed span. */
    function Append(data: seq<byte>): (w: Window)
      requires Valid() && |data| <= Tailroom()
      ensures w.Valid() && w.id == id && w.cap == cap
    {
      this.(bytes := bytes + data)
    }

    /** `prepend` and filling the exposed span. */
    function Prepend(header: seq<byte>): (w: Window)
      requires Valid() && |header| <= head
      ensures w.Valid() && w.id == id && w.cap == cap && w.Tailroom() == Tailroom()
    {
      this.(head := head - |header|, bytes := header + bytes)
    }

    function Consume(n: nat): (w: Window)
      requires Valid() && n <= |bytes|
      ensures w.Valid() && w.id == id && w.cap == cap && w.Tailroom() == Tailroom()
    {
      this.(head := head + n, bytes := bytes[n..])
    }

    function Reset(reserve: nat): (w: Window)
      requires reserve <= cap
      ensures w.Valid() && w.id == id && w.cap == cap
    {
      this.(head := reserve, bytes := [])
    }

    /** `compact_recv`: move the payload to the front of the storage. */
    function Compact(): (w: Window)
      requires Valid()
      ensures w.Valid() && w.id == id && w.cap == cap && w.bytes == bytes && w.head == 0
    {
      this.(head := 0)
    }
  }

  /** Header, payload and masking never move each other: a frame built by filling the payload, masking it in place
      and then prepending its header is the header followed by the masked payload. */
  lemma BuildBackwards(w: Window, payload: seq<byte>, masked: seq<byte>, header: seq<byte>)
    requires w.Valid() && w.bytes == [] && |masked| == |payload| <= w.Tailroom() && |header| == w.head
    ensures w.Append(payload).bytes == payload
    ensures w.Append(payload).(bytes := masked).Prepend(header) == Window(w.id, w.cap, 0, header + masked)
  {
    assert [] + payload == payload;
  }

  class IOBuffer {
    const id: nat
    const base: array<byte>
    var head: nat
    var len: nat

    ghost predicate Valid()
      reads this
    {
      head + len <= base.Length
    }

    ghost function View(): (w: Window)
      requires Valid()
      reads this, base
      ensures w.Valid()
    {
      Window(id, base.Length, head, base[head..head + len])
    }

    constructor (id: nat, base: array<byte>, reserve: nat)
      requires reserve <= base.Length
      ensures Valid() && this.base == base && View() == Window(id, base.Length, reserve, [])
    {
      this.id, this.base, this.head, this.len := id, base, reserve, 0;
    }

    method Tailroom() returns (n: nat)
      requires Valid()
      ensures n == View().Tailroom()
    {
      n := base.Length - head - len;
    }

    method Append(data: seq<byte>)
      requires Valid() && |data| <= View().Tailroom()
      modifies this`len, base
      ensures Valid() && View() == old(View()).Append(data)
    {
      var at := head + len;
      ghost var before := base[head..at];
      forall k | 0 <= k < |data| {
        base[at + k] := data[k];
      }
      len := len + |data|;
      assert base[head..head + len] == before + data;
    }

    method Prepend(header: seq<byte>)
      requires Valid() && |header| <= View().head
      modifies this`head, this`len, base
      ensures Valid() && View() == old(View()).Prepend(header)
    {
      var at := head - |header|;
      ghost var before := base[head..head + len];
      forall k | 0 <= k < |header| {
        base[at + k] := header[k];
      }
      head, len := at, len + |header|;
      assert base[head..head + len] == header + before;
    }

    method Consume(n: nat)
      requires Valid() && n <= View().Size()
      modifies this`head, this`len
      ensures Valid() && View() == old(View()).Consume(n)
    {
      head, len := head + n, len - n;
      assert base[head..head + len] == old(base[head..head + len])[n..];
    }

    method Reset(reserve: nat)
      requires Valid() && reserve <= base.Length
      modifies this`head, this`len
      ensures Valid() && View() == old(View()).Reset(reserve)
    {
      head, len := reserve, 0;
    }

    /** The ascending copy of `memmove` towards the front never overwrites a byte it still has to read. */
    method Compact()
      requires Valid()
      modifies this`head, base
      ensures Valid() && View() == old(View()).Compact()
    {
      if len == 0 {
        head := 0;
        return;
      }
      if head == 0 {
        return;
      }
      ghost var payload := base[head..head + len];
      var from, k := head, 0;
      while k < len
        invariant k <= len && head == from && Valid()
        invariant forall j :: 0 <= j < k ==> base[j] == payload[j]
        invariant forall j :: k <= j < len ==> base[from + j] == payload[j]
        modifies base
      {
        base[k] := base[from + k];
        k := k + 1;
      }
      head := 0;
      assert base[0..len] == payload;
    }
  }
}
