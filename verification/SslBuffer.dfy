/** SSLBuffer of ssl_buffer.cc: a byte queue in one block of memory, with 16-bit bookkeeping. */
module SslBuffer {
  import opened Bytes

  const SSL3_ALIGN_PAYLOAD: nat := 8
  const UINT16_MAX: nat := 0xffff

  /** Where the contents start after consuming len: offset_ is a uint16_t. */
  function OffsetAfter(offset: nat, len: nat): nat {
    (offset + len) % 0x1_0000
  }

  lemma OffsetValue(offset: nat, len: nat)
    requires offset <= UINT16_MAX && len <= UINT16_MAX
    ensures OffsetAfter(offset, len) == if offset + len <= UINT16_MAX then offset + len else offset + len - 0x1_0000
  {
  }

  /** What data() and size() show after consuming len of size bytes at offset. */
  function ShownAfter(mem: seq<byte>, offset: nat, size: nat, len: nat): seq<byte>
    requires len <= size && offset + size <= |mem|
  {
    var o := OffsetAfter(offset, len);
    mem[o..o + (size - len)]
  }

  /** Consuming shows the right bytes, whatever they are, exactly when the offset does not pass
      2^16 or nothing is left to show. */
  lemma ConsumeExactly(n: nat, offset: nat, size: nat, len: nat)
    requires len <= size && offset + size <= n && offset <= UINT16_MAX && size <= UINT16_MAX
    ensures offset + len <= UINT16_MAX || len == size <==>
            forall mem: seq<byte> :: |mem| == n ==> ShownAfter(mem, offset, size, len) == mem[offset + len..offset + size]
  {
    if offset + len > UINT16_MAX && len < size {
      var mem := seq(n, i => (if i == offset + len then 1 else 0) as byte);
      var o := OffsetAfter(offset, len);
      assert ShownAfter(mem, offset, size, len)[0] == mem[o] == 0;
      assert mem[offset + len..offset + size][0] == mem[offset + len] == 1;
    }
  }

  /** The largest capacity with the largest slack: after all but six octets are consumed the first
      six of the block are shown instead of the last six. */
  lemma SlackWraps(mem: seq<byte>)
    requires |mem| == UINT16_MAX + Padding(1, 0)
    ensures Padding(1, 0) == SSL3_ALIGN_PAYLOAD - 1
    ensures ShownAfter(mem, Padding(1, 0), UINT16_MAX, UINT16_MAX - 6) == mem[..6]
    ensures exists m: seq<byte> :: |m| == |mem|
              && ShownAfter(m, Padding(1, 0), UINT16_MAX, UINT16_MAX - 6) != m[Padding(1, 0) + UINT16_MAX - 6..Padding(1, 0) + UINT16_MAX]
  {
    assert Padding(1, 0) == 7;
    ConsumeExactly(|mem|, Padding(1, 0), UINT16_MAX, UINT16_MAX - 6);
  }

  /** OPENSSL_memcpy. */
  method Copy(dst: array<byte>, at: nat, src: seq<byte>)
    requires at + |src| <= dst.Length
    modifies dst
    ensures dst[at..at + |src|] == src && dst[..at] == old(dst[..at]) && dst[at + |src|..] == old(dst[at + |src|..])
  {
    ghost var before := dst[..];
    for i := 0 to |src|
      invariant forall k :: 0 <= k < dst.Length ==> dst[k] == if at <= k < at + i then src[k - at] else before[k]
    {
      dst[at + i] := src[i];
    }
  }

  class SSLBuffer {
    var buf: array?<byte>
    var offset: nat
    var size: nat
    var cap: nat

    ghost predicate Valid()
      reads this
    {
      if buf == null then offset == 0 && size == 0 && cap == 0
      else size <= cap <= UINT16_MAX && offset <= UINT16_MAX && offset + cap <= buf.Length
    }

    /** The bytes queued. */
    ghost function Content(): (s: seq<byte>)
      requires Valid()
      reads this, buf
      ensures |s| == size
    {
      if buf == null then [] else buf[offset..offset + size]
    }

    /** offset_ cannot wrap while this buffer is consumed. */
    ghost predicate Room()
      reads this
    {
      offset + cap <= UINT16_MAX
    }

    constructor ()
      ensures Valid() && buf == null && Content() == [] && Room()
    {
      buf, offset, size, cap := null, 0, 0, 0;
    }

    method Clear()
      modifies this
      ensures Valid() && buf == null && Content() == [] && Room()
    {
      buf, offset, size, cap := null, 0, 0, 0;
    }

    /** address is where malloc puts a new block. The alignment slack makes the offset of a new
        block anything below SSL3_ALIGN_PAYLOAD: a new block has Room exactly when its capacity and
        its own slack stay below 2^16, whatever the slack if the capacity is that much under 2^16. */
    method EnsureCap(headerLen: nat, newCap: nat, address: nat) returns (ok: bool)
      requires Valid()
      modifies this
      ensures Valid() && Content() == old(Content())
      ensures ok <==> newCap <= UINT16_MAX
      ensures ok ==> cap >= newCap
      ensures buf == old(buf) || fresh(buf)
      ensures buf != old(buf) ==> (address + offset + headerLen) % SSL3_ALIGN_PAYLOAD == 0
      ensures Room() <==> if newCap <= old(cap) || !ok then old(Room()) else newCap + Padding(address, headerLen) <= UINT16_MAX
      ensures old(Room()) && newCap + SSL3_ALIGN_PAYLOAD - 1 <= UINT16_MAX ==> Room()
      ensures !ok ==> buf == old(buf) && offset == old(offset) && cap == old(cap)
    {
      hide Padding;
      if newCap > UINT16_MAX {
        return false;
      }
      if cap >= newCap {
        return true;
      }
      var newBuf := new byte[newCap + SSL3_ALIGN_PAYLOAD - 1](_ => 0);
      var newOffset := Padding(address, headerLen);
      if buf != null {
        Copy(newBuf, newOffset, buf[offset..offset + size]);
        assert newBuf[newOffset..newOffset + size] == buf[offset..offset + size];
      }
      buf := newBuf;
      offset := newOffset;
      cap := newCap;
      return true;
    }

    /** The caller filled the first bytes of remaining() with b; DidWrite makes them content. */
    method Append(b: seq<byte>)
      requires Valid() && |b| <= cap - size && buf != null
      modifies this`size, buf
      ensures Valid() && Content() == old(Content()) + b
    {
      ghost var before := buf[..offset + size];
      Copy(buf, offset + size, b);
      assert buf[offset..offset + size] == before[offset..];
      assert buf[offset + size..offset + size + |b|] == b;
      assert buf[offset..offset + size + |b|] == buf[offset..offset + size] + buf[offset + size..offset + size + |b|];
      DidWrite(|b|);
    }

    method DidWrite(newSize: nat)
      requires Valid() && newSize <= cap - size
      modifies this`size
      ensures Valid() && size == old(size) + newSize
    {
      size := size + newSize;
    }

    method Consume(len: nat)
      requires Valid() && len <= size
      modifies this`offset, this`size, this`cap
      ensures Valid()
      ensures old(offset) + len <= UINT16_MAX || len == old(size) ==> Content() == old(Content())[len..]
      ensures buf != null ==> Content() == ShownAfter(buf[..], old(offset), old(size), len)
      ensures old(Room()) ==> Room()
    {
      OffsetValue(offset, len);
      hide OffsetAfter;
      offset := OffsetAfter(offset, len);
      size := size - len;
      cap := cap - len;
    }

    method DiscardConsumed()
      requires Valid()
      modifies this
      ensures Valid() && Content() == old(Content())
      ensures old(Room()) ==> Room()
    {
      if size == 0 {
        Clear();
      }
    }
  }

  /** The padding in front of a header that aligns what follows it. */
  function Padding(address: nat, headerLen: nat): (pad: nat)
    ensures pad < SSL3_ALIGN_PAYLOAD
    ensures (address + pad + headerLen) % SSL3_ALIGN_PAYLOAD == 0
  {
    var t := 0 - headerLen - address;
    assert t == 8 * (t / 8) + t % 8;
    t % SSL3_ALIGN_PAYLOAD
  }
}
