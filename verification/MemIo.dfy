/** The in-memory reader of a partition, with the digest hook that --verify-all installs on it. */
module MemIo {
  import opened Bytes
  import Md5
  import Md5Spec

  /** What a buffer of the given capacity holds when d is added behind c. */
  function Extended(c: seq<Byte>, d: seq<Byte>, capacity: nat): (r: seq<Byte>)
    requires |c| <= capacity
    ensures |c| <= |r| <= capacity && c <= r
    ensures |c| + |d| <= capacity ==> r == c + d
  {
    if |c| + |d| <= capacity then c + d else c + d[..capacity - |c|]
  }

  function Fill(value: Byte, n: nat): (s: seq<Byte>)
    ensures |s| == n && forall i :: 0 <= i < n ==> s[i] == value
  {
    seq(n, _ => value)
  }

  class MemReader {
    const buffer: array<Byte>
    var feedOff: nat
    var readOff: nat
    var size: nat
    var hook: Md5.Md5Context?

    ghost predicate Valid()
      reads this, buffer
    {
      readOff <= size == feedOff <= buffer.Length < 0x8000_0000
    }

    ghost function Contents(): seq<Byte>
      requires Valid()
      reads this, buffer
    {
      buffer[..size]
    }

    constructor (capacity: nat)
      requires capacity < 0x8000_0000
      ensures Valid() && fresh(buffer) && buffer.Length == capacity
      ensures Contents() == [] && readOff == 0 && hook == null
    {
      buffer := new Byte[capacity](_ => 0);
      feedOff, readOff, size, hook := 0, 0, 0, null;
    }

    /** memreader_feed: what does not fit is dropped. */
    method Feed(data: seq<Byte>) returns (n: nat)
      requires Valid()
      modifies this`feedOff, this`size, buffer
      ensures Valid() && Contents() == Extended(old(Contents()), data, buffer.Length)
      ensures n == |Contents()| - |old(Contents())|
    {
      if feedOff >= buffer.Length {
        assert old(Contents()) + data[..0] == old(Contents());
        return 0;
      }
      n := if feedOff + |data| > buffer.Length then buffer.Length - feedOff else |data|;
      forall k | 0 <= k < n {
        buffer[feedOff + k] := data[k];
      }
      feedOff := feedOff + n;
      size := feedOff;
    }

    /** memreader_fill */
    method FillWith(value: Byte, count: nat) returns (n: nat)
      requires Valid()
      modifies this`feedOff, this`size, buffer
      ensures Valid() && Contents() == Extended(old(Contents()), Fill(value, count), buffer.Length)
      ensures n == |Contents()| - |old(Contents())|
    {
      if feedOff >= buffer.Length {
        assert old(Contents()) + Fill(value, count)[..0] == old(Contents());
        return 0;
      }
      n := if feedOff + count > buffer.Length then buffer.Length - feedOff else count;
      forall k | 0 <= k < n {
        buffer[feedOff + k] := value;
      }
      feedOff := feedOff + n;
      size := feedOff;
    }

    /** memcpy of the next bytes. */
    method Take(count: nat) returns (bytes: seq<Byte>)
      requires Valid()
      modifies this`readOff
      ensures Valid() && readOff == old(readOff) + |bytes|
      ensures |bytes| == if old(readOff) + count > size then size - old(readOff) else count
      ensures bytes == Contents()[old(readOff)..readOff]
    {
      var n := if readOff + count > size then size - readOff else count;
      bytes := buffer[readOff..readOff + n];
      readOff := readOff + n;
    }

    /** memreader_read: the next bytes, which the hook sees too. */
    method Read(count: nat) returns (bytes: seq<Byte>)
      requires Valid()
      requires hook != null ==> hook.Valid() && hook.buffer != buffer
      modifies this`readOff, hook, if hook == null then {} else {hook.buffer}
      ensures Valid() && Contents() == old(Contents())
      ensures readOff == old(readOff) + |bytes|
      ensures |bytes| == if old(readOff) + count > size then size - old(readOff) else count
      ensures bytes == Contents()[old(readOff)..readOff]
      ensures hook != null ==> hook.Valid() && hook.absorbed == old(hook.absorbed) + bytes
    {
      bytes := Take(count);
      if hook != null {
        hook.Update(bytes);
      }
    }

    /** verify_install_reader */
    method InstallVerify()
      requires Valid()
      modifies this`hook
      ensures hook != null && fresh(hook) && fresh(hook.buffer) && hook.Valid() && hook.absorbed == []
      ensures Valid() && Contents() == old(Contents())
    {
      hook := new Md5.Md5Context();
    }

    /** verify_finish_reader: the digest of the bytes read since the hook was installed. */
    method FinishVerify() returns (md5: seq<Byte>)
      requires Valid() && hook != null && hook.Valid() && hook.buffer != buffer
      modifies hook, hook.buffer
      ensures md5 == Md5Spec.Digest(old(hook.absorbed))
      ensures Valid() && Contents() == old(Contents())
    {
      md5 := hook.Finish();
    }
  }
}
