/**
 * `ZeroizedString` as a heap object: it owns an array of bytes (the
 * allocation) and a length, and wipes the array in place. Each method is
 * proved to move the object's abstract state, `Model()`, exactly as the
 * corresponding function of `SecureString` does, and its `modifies` clause
 * confines every write to the object and the array it owns.
 */
module Instance {
  import opened SecureString

  class ZeroizedString {
    var storage: array<byte>
    var len: nat
    /** Whether a wipe has happened; the compiled object has no such field. */
    ghost var wiped: bool

    /** The fields read as a container of the value model. */
    ghost function State(): Container
      reads this, storage
    {
      Container(storage[..], len, if wiped then Wiped else Active)
    }

    /** The value model's representation invariant, read off the fields. */
    ghost predicate Valid()
      reads this, storage
    {
      SecureString.Valid(State())
    }

    /** The abstract state of the object as a value of the value model. */
    ghost function Model(): Secure
      reads this, storage
      requires Valid()
    {
      State()
    }

    /** Copy `data` into a freshly allocated array owned by this object only. */
    constructor Init(data: Text)
      ensures Valid() && fresh(storage)
      ensures Model() == SecureString.New(data)
    {
      storage := new byte[|data|](i requires 0 <= i < |data| => data[i]);
      len := |data|;
      wiped := false;
      new;
      assert storage[..] == data;
    }

    /** A fresh copy of the value; reads only. */
    method GetValue() returns (v: Text)
      requires Valid()
      ensures v == SecureString.GetValue(Model())
    {
      v := storage[..len];
    }

    /** Write zero into every byte of the owned array, then truncate. */
    method Zeroize()
      requires Valid()
      modifies this, storage
      ensures Valid() && storage == old(storage)
      ensures Model() == SecureString.Zeroize(old(Model()))
    {
      var i := 0;
      while i < storage.Length
        invariant storage == old(storage)
        invariant 0 <= i <= storage.Length
        invariant forall k :: 0 <= k < i ==> storage[k] == 0
      {
        storage[i] := 0;
        i := i + 1;
      }
      len := 0;
      wiped := true;
      assert storage[..] == seq(storage.Length, k => 0 as byte);
    }

    /** End of life: the same wipe as `Zeroize`, after which the array's
        bytes are what the allocator gets back. */
    method Drop() returns (released: seq<byte>)
      requires Valid()
      modifies this, storage
      ensures Valid() && storage == old(storage)
      ensures Model() == SecureString.Zeroize(old(Model()))
      ensures released == storage[..]
      ensures released == SecureString.Drop(old(Model()))
    {
      Zeroize();
      released := storage[..];
    }
  }

  /** Whatever text an instance is built from, reading it back returns it. */
  method ReadBack(s: Text) returns (v: Text)
    ensures v == s
  {
    var z := new ZeroizedString.Init(s);
    v := z.GetValue();
  }

  /** After an explicit wipe every read returns "", and wiping again and
      reading again changes nothing. */
  method WipeThenRead(s: Text) returns (first: Text, again: Text)
    ensures first == [] && again == []
  {
    var z := new ZeroizedString.Init(s);
    z.Zeroize();
    first := z.GetValue();
    z.Zeroize();
    again := z.GetValue();
  }

  /** Wiping one instance leaves a second one's value intact. */
  method WipeOneOfTwo(s1: Text, s2: Text) returns (v1: Text, v2: Text)
    ensures v1 == [] && v2 == s2
  {
    var z1 := new ZeroizedString.Init(s1);
    var z2 := new ZeroizedString.Init(s2);
    z1.Zeroize();
    v1 := z1.GetValue();
    v2 := z2.GetValue();
  }

  /** An instance that goes out of scope without an explicit wipe still
      hands its allocation back as zeros, one per byte of the text. */
  method ScopeExit(s: Text) returns (released: seq<byte>)
    ensures |released| == |s| && AllZero(released)
  {
    var z := new ZeroizedString.Init(s);
    released := z.Drop();
  }
}
