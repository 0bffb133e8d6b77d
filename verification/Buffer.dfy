/** The byte queue behind every connection: a vector with a reserved head and two indices. */
module Buffers {
  class Buffer {
    const cheapPrepend: nat
    var data: array<char>
    var readerIndex: nat
    var writerIndex: nat

    ghost predicate Valid()
      reads this
    {
      cheapPrepend <= readerIndex <= writerIndex <= data.Length
    }

    /** The bytes waiting to be read. */
    ghost function Contents(): string
      requires Valid()
      reads this, data
    {
      data[readerIndex..writerIndex]
    }

    /** Nothing in front of these bytes has been read. */
    predicate AtFront()
      reads this
    {
      readerIndex == cheapPrepend
    }

    constructor (initSize: nat, cheapPrepend: nat)
      ensures Valid() && AtFront() && fresh(data) && Contents() == "" && this.cheapPrepend == cheapPrepend
    {
      this.cheapPrepend := cheapPrepend;
      data := new char[initSize + cheapPrepend];
      readerIndex := cheapPrepend;
      writerIndex := cheapPrepend;
    }

    method ReadableBytes() returns (n: nat)
      requires Valid()
      ensures n == |Contents()|
    {
      n := writerIndex - readerIndex;
    }

    method Peek() returns (s: string)
      requires Valid()
      ensures s == Contents()
    {
      s := data[readerIndex..writerIndex];
    }

    method RetrieveAll()
      requires Valid()
      modifies this
      ensures Valid() && AtFront() && data == old(data) && Contents() == ""
    {
      readerIndex := cheapPrepend;
      writerIndex := cheapPrepend;
    }

    /** Drops `len` bytes from the front, or all of them if there are no more. */
    method Retrieve(len: nat)
      requires Valid()
      modifies this
      ensures Valid() && data == old(data)
      ensures Contents() == if len <= |old(Contents())| then old(Contents())[len..] else ""
    {
      if len < writerIndex - readerIndex {
        readerIndex := readerIndex + len;
      } else {
        RetrieveAll();
      }
    }

    /** Grows the vector, or moves the bytes to the front when the freed head makes that enough. */
    method MakeSpace(len: nat)
      requires Valid()
      modifies this, data
      ensures Valid() && (data == old(data) || fresh(data))
      ensures Contents() == old(Contents())
      ensures data.Length - writerIndex >= len && (old(AtFront()) ==> AtFront())
      ensures data.Length == if old(data.Length) < |old(Contents())| + len + cheapPrepend
                             then old(writerIndex) + len else old(data.Length)
    {
      if (data.Length - writerIndex) + readerIndex < len + cheapPrepend {
        ghost var was := data[..];
        Resize(writerIndex + len);
        assert data[..|was|][readerIndex..writerIndex] == Contents();
      } else {
        var readable := writerIndex - readerIndex;
        MoveToFront(readable);
        readerIndex := cheapPrepend;
        writerIndex := readerIndex + readable;
      }
    }

    /** `std::vector::resize`. */
    method Resize(size: nat)
      requires Valid() && data.Length <= size
      modifies this
      ensures fresh(data) && data.Length == size && data[..old(data.Length)] == old(data[..])
      ensures readerIndex == old(readerIndex) && writerIndex == old(writerIndex)
    {
      var grown := new char[size];
      var was := data;
      forall i | 0 <= i < was.Length {
        grown[i] := was[i];
      }
      data := grown;
    }

    /** `std::copy` to a lower address, in increasing order, on overlapping ranges. */
    method MoveToFront(n: nat)
      requires Valid() && n == writerIndex - readerIndex
      modifies data
      ensures data[cheapPrepend..cheapPrepend + n] == old(data[readerIndex..writerIndex])
    {
      ghost var was := data[..];
      for i := 0 to n
        invariant forall j :: cheapPrepend <= j < cheapPrepend + i ==> data[j] == was[readerIndex + (j - cheapPrepend)]
        invariant forall j :: readerIndex + i <= j < data.Length ==> data[j] == was[j]
      {
        data[cheapPrepend + i] := data[readerIndex + i];
      }
    }

    method EnsureWritableBytes(len: nat)
      requires Valid()
      modifies this, data
      ensures Valid() && (data == old(data) || fresh(data))
      ensures Contents() == old(Contents())
      ensures data.Length - writerIndex >= len && (old(AtFront()) ==> AtFront())
      ensures old(data.Length - writerIndex) >= len ==>
                data == old(data) && data[..] == old(data[..]) && unchanged(this)
    {
      if data.Length - writerIndex < len {
        MakeSpace(len);
      }
    }

    method Append(s: string)
      requires Valid()
      modifies this, data
      ensures Valid() && (data == old(data) || fresh(data)) && (old(AtFront()) ==> AtFront())
      ensures Contents() == old(Contents()) + s
    {
      EnsureWritableBytes(|s|);
      ghost var was := data[..];
      WrittenBehind(was, readerIndex, writerIndex, s);
      assert Contents() == was[readerIndex..writerIndex];
      CopyTo(data, writerIndex, s);
      assert data[readerIndex..writerIndex + |s|] == data[..][readerIndex..writerIndex + |s|];
      writerIndex := writerIndex + |s|;
    }

    /** `append` of bytes that lie in an array, which may be the buffer's own: then they lie behind the place they
        are copied to, and the buffer does not grow. */
    method AppendFrom(src: array<char>, from: nat, len: nat)
      requires Valid() && from + len <= src.Length
      requires src == data ==> writerIndex <= from
      modifies this, data
      ensures Valid() && (data == old(data) || fresh(data)) && (old(AtFront()) ==> AtFront())
      ensures Contents() == old(Contents()) + old(src[from..from + len])
      ensures src == old(data) ==>
                && data == old(data) && readerIndex == old(readerIndex)
                && data[..] == Written(old(data[..]), old(writerIndex), old(src[from..from + len]))
    {
      EnsureWritableBytes(len);
      ghost var was, s := data[..], src[from..from + len];
      WrittenBehind(was, readerIndex, writerIndex, s);
      assert Contents() == was[readerIndex..writerIndex];
      CopyFrom(src, from, len);
      assert data[readerIndex..writerIndex + len] == data[..][readerIndex..writerIndex + len];
      writerIndex := writerIndex + len;
    }

    static lemma WrittenBehind(bytes: string, r: nat, w: nat, s: string)
      requires r <= w && w + |s| <= |bytes|
      ensures Written(bytes, w, s)[r..w + |s|] == bytes[r..w] + s
    {
    }

    static function Written(bytes: string, w: nat, s: string): string
      requires w + |s| <= |bytes|
    {
      bytes[..w] + s + bytes[w + |s|..]
    }

    /** `std::copy` in increasing order, to the place where the buffer writes. */
    method CopyFrom(src: array<char>, from: nat, len: nat)
      requires Valid() && from + len <= src.Length && writerIndex + len <= data.Length
      requires src == data ==> writerIndex <= from
      modifies data
      ensures data[..] == Written(old(data[..]), writerIndex, old(src[from..from + len]))
    {
      ghost var was, into := src[..], data[..];
      var w := writerIndex;
      for i := 0 to len
        invariant forall j :: w <= j < w + i ==> data[j] == was[from + (j - w)]
        invariant forall j :: from + i <= j < src.Length ==> src[j] == was[j]
        invariant forall j :: 0 <= j < w || w + len <= j < data.Length ==> data[j] == into[j]
      {
        data[w + i] := src[from + i];
      }
      assert data[..] == Written(into, w, was[from..from + len]);
    }

    /** `std::copy` of bytes from elsewhere. */
    static method CopyTo(dst: array<char>, w: nat, s: string)
      requires w + |s| <= dst.Length
      modifies dst
      ensures dst[..] == Written(old(dst[..]), w, s)
    {
      ghost var was := dst[..];
      for i := 0 to |s|
        invariant forall j :: w <= j < w + i ==> dst[j] == s[j - w]
        invariant forall j :: 0 <= j < w || w + |s| <= j < dst.Length ==> dst[j] == was[j]
      {
        dst[w + i] := s[i];
      }
      assert dst[..] == Written(was, w, s);
    }
  }
}
