/** `struct sk_buff`: a heap buffer of fixed size, filled at its end and consumed from its start. */
module Buffers {
  import opened Bytes
  import opened Slip
  import opened LinkLayer

  class Skb {
    const data: array<byte>
    var off: nat
    var dataLen: nat
    /** How much of the memory has ever been stored to. */
    ghost var used: nat

    ghost predicate Valid()
      reads this, data
    {
      && off + dataLen <= used <= data.Length
      && forall i :: used <= i < data.Length ==> data[i] == 0
    }

    /** Nothing has been pulled or trimmed yet. */
    ghost predicate Growing()
      reads this, data
    {
      Valid() && off == 0 && dataLen == used
    }

    ghost function Contents(): seq<byte>
      requires Valid()
      reads this, data
    {
      data[off..off + dataLen]
    }

    ghost function Memory(): seq<byte>
      requires Valid()
      reads this, data
    {
      data[..used]
    }

    ghost function AsView(): View
      requires Valid()
      reads this, data
    {
      View(Memory(), off, dataLen)
    }

    /** `skb_alloc`, which zeroes the memory. */
    constructor (len: nat)
      ensures Growing() && fresh(data) && data.Length == len && Contents() == []
    {
      data := new byte[len](_ => 0);
      off, dataLen, used := 0, 0, 0;
    }

    /** What `skb_put` compares. */
    predicate Room(n: nat)
      reads this
    {
      dataLen + n <= data.Length
    }

    /** Where `skb_put` lets a write happen it stays inside the memory: what the check leaves to its callers
        once something has been pulled, and always so before that. */
    predicate PutStaysInside(n: nat)
      reads this
    {
      Room(n) ==> off + dataLen + n <= data.Length
    }

    /** `skb_put` and the copy into the space it returns; `ok` is false where the program exits. */
    method Put(s: seq<byte>) returns (ok: bool)
      requires Valid() && PutStaysInside(|s|)
      modifies this`dataLen, this`used, data
      ensures ok == old(Room(|s|))
      ensures Valid() && Contents() == (if ok then old(Contents()) + s else old(Contents()))
      ensures old(Growing()) ==> Growing()
    {
      ok := dataLen + |s| <= data.Length;
      if !ok {
        return;
      }
      ghost var before := data[..];
      var at := off + dataLen;
      dataLen := dataLen + |s|;
      used := if used < off + dataLen then off + dataLen else used;
      for i := 0 to |s|
        modifies data
        invariant data[..at] == before[..at] && data[at..at + i] == s[..i]
        invariant forall k :: at + i <= k < data.Length ==> data[k] == before[k]
      {
        data[at + i] := s[i];
        assert data[at..at + i + 1] == data[at..at + i] + [s[i]];
      }
      assert s[..|s|] == s && data[off..off + dataLen] == data[off..at] + data[at..off + dataLen];
      assert data[off..at] == data[..at][off..] && before[off..at] == before[..at][off..];
    }

    /** `skb_trim`: keep the first `len` octets; a longer request is only reported. */
    method Trim(len: nat)
      requires Valid()
      modifies this`dataLen
      ensures Valid() && dataLen == (if old(dataLen) > len then len else old(dataLen))
      ensures off == old(off) && Memory() == old(Memory())
    {
      if dataLen > len {
        dataLen := len;
      }
    }

    /** `skb_pull`: drop the first `len` octets; `ok` is false where the program exits. */
    method Pull(len: nat) returns (ok: bool)
      requires Valid()
      modifies this`off, this`dataLen
      ensures ok == (len <= old(dataLen))
      ensures Valid() && Memory() == old(Memory())
      ensures AsView() == (if ok then old(AsView()).Pull(len) else old(AsView()))
    {
      ok := len <= dataLen;
      if ok {
        dataLen := dataLen - len;
        off := off + len;
      }
    }

    /** A read through `skb->data`, within the allocation but not always within the used part. */
    method Peek(k: nat) returns (b: byte)
      requires Valid() && off + k < data.Length
      ensures b == AsView().At(k)
    {
      b := data[off + k];
    }
  }

  /** `h5_slip_one_byte` and `h5_slip_msgdelim` append to a buffer. */
  method SlipOneByte(skb: Skb, c: byte) returns (ok: bool)
    requires skb.Valid() && skb.PutStaysInside(|SlipByte(c)|)
    modifies skb`dataLen, skb`used, skb.data
    ensures ok == old(skb.Room(|SlipByte(c)|))
    ensures skb.Valid() && (old(skb.Growing()) ==> skb.Growing())
    ensures skb.Contents() == (if ok then old(skb.Contents()) + SlipByte(c) else old(skb.Contents()))
  {
    if c == 0xc0 {
      ok := skb.Put([0xdb, 0xdc]);
    } else if c == 0xdb {
      ok := skb.Put([0xdb, 0xdd]);
    } else if c == 0x11 {
      ok := skb.Put([0xdb, 0xde]);
    } else if c == 0x13 {
      ok := skb.Put([0xdb, 0xdf]);
    } else {
      ok := skb.Put([c]);
    }
  }
}
