/** The growable character storage shared by the Squirrel encoder and the pretty printer. */
module GrowBuffer {
  import opened Bytes

  class Buffer {
    var storage: array<byte>
    var size: nat

    ghost predicate Valid()
      reads this
    {
      size <= storage.Length
    }

    ghost function Contents(): bytes
      requires Valid()
      reads this, storage
    {
      storage[..size]
    }

    constructor (initial: nat)
      ensures Valid() && fresh(storage) && Contents() == [] && storage.Length == initial
    {
      storage := new byte[initial];
      size := 0;
    }

    /** growStorage: over-allocates by half of what is required and keeps every byte. */
    method GrowStorage(required: nat)
      requires Valid()
      modifies this`storage
      ensures Valid() && size == old(size) && Contents() == old(Contents())
      ensures storage.Length >= required && storage.Length >= old(storage.Length)
      ensures storage == old(storage) || fresh(storage)
      ensures old(storage.Length) >= required ==> storage == old(storage)
    {
      if storage.Length < required {
        var newSize := required + required / 2;
        var old_ := storage;
        var grown := new byte[newSize];
        for i := 0 to old_.Length
          invariant grown[..i] == old_[..i]
          invariant storage == old_ && size == old(size)
        {
          grown[i] := old_[i];
        }
        storage := grown;
        assert storage[..size] == storage[..old_.Length][..size] == old_[..old_.Length][..size];
      }
    }

    /** jsonString[jsonStringSize++] = b */
    method Put(b: byte)
      requires Valid() && size < storage.Length
      modifies this`size, storage
      ensures Valid() && Contents() == old(Contents()) + [b] && size == old(size) + 1
    {
      storage[size] := b;
      size := size + 1;
      assert storage[..size] == storage[..size - 1] + [b];
    }

    /** jsonString[jsonStringSize - 1] = b */
    method SetLast(b: byte)
      requires Valid() && size > 0
      modifies storage
      ensures Valid() && Contents() == old(Contents())[..size - 1] + [b]
    {
      storage[size - 1] := b;
      assert storage[..size] == storage[..size - 1] + [b];
    }

    /** Gives up everything after the first `n` bytes. */
    method Rewind(n: nat)
      requires Valid() && n <= size
      modifies this`size
      ensures Valid() && size == n && Contents() == old(Contents())[..n]
    {
      size := n;
      assert storage[..n] == old(storage[..size])[..n];
    }

    /** memcpy to the end, then advance. */
    method PutAll(bs: bytes)
      requires Valid() && size + |bs| <= storage.Length
      modifies this`size, storage
      ensures Valid() && Contents() == old(Contents()) + bs && size == old(size) + |bs|
    {
      ghost var before := Contents();
      for i := 0 to |bs|
        invariant size == old(size)
        invariant storage[..size + i] == before + bs[..i]
      {
        storage[size + i] := bs[i];
        assert storage[..size + i + 1] == storage[..size + i] + [bs[i]];
      }
      size := size + |bs|;
    }

    method Append(b: byte)
      requires Valid()
      modifies this, storage
      ensures Valid() && (storage == old(storage) || fresh(storage))
      ensures Contents() == old(Contents()) + [b]
    {
      GrowStorage(size + 1);
      Put(b);
    }

    method AppendAll(bs: bytes)
      requires Valid()
      modifies this, storage
      ensures Valid() && (storage == old(storage) || fresh(storage))
      ensures Contents() == old(Contents()) + bs
    {
      GrowStorage(size + |bs|);
      PutAll(bs);
    }
  }
}
