/**
 * The value model of `ZeroizedString`: an owned byte allocation holding the
 * UTF-8 encoding of a secret, the number of its bytes that hold the value,
 * and the lifecycle phase (Active from construction, Wiped from the first
 * wipe on). Every operation here is a pure function from one state of the
 * container to the next; `Instance` implements the same operations in place.
 */
module SecureString {

  /** One byte of the encoded text. */
  newtype byte = x: int | 0 <= x < 0x100

  /** Text crosses the container's boundary as its byte encoding. */
  type Text = seq<byte>

  /** The two lifecycle states. No operation leaves `Wiped`. */
  datatype Phase = Active | Wiped

  /** `storage` is the whole backing allocation (its length is the capacity);
      the first `len` bytes of it are the value. */
  datatype Container = Container(storage: seq<byte>, len: nat, phase: Phase)

  predicate AllZero(s: seq<byte>) {
    forall i :: 0 <= i < |s| ==> s[i] == 0
  }

  /** The representation invariant: the value fits in its allocation, and a
      wiped container holds the empty value over an allocation of zeros. */
  predicate Valid(c: Container) {
    && c.len <= |c.storage|
    && (c.phase == Wiped ==> c.len == 0 && AllZero(c.storage))
  }

  /** Every container the operations below can produce. */
  type Secure = c: Container | Valid(c) witness Container([], 0, Active)

  /** Copy the caller's text into a fresh allocation of exactly its size. */
  function New(data: Text): (c: Secure)
    ensures c.phase == Active
    ensures |c.storage| == |data|
    ensures GetValue(c) == data
  {
    Container(data, |data|, Active)
  }

  /** A copy of the current value: its first `len` bytes. */
  function GetValue(c: Secure): (v: Text)
    ensures |v| == c.len
    ensures forall i :: 0 <= i < |v| ==> v[i] == c.storage[i]
    ensures c.phase == Wiped ==> v == []
  {
    c.storage[..c.len]
  }

  /** Overwrite every byte of the allocation, spare capacity included, with
      zero and truncate the value to empty. The allocation itself is kept. */
  function Zeroize(c: Secure): (w: Secure)
    ensures w.phase == Wiped
    ensures |w.storage| == |c.storage|
    ensures forall i :: 0 <= i < |c.storage| ==> w.storage[i] == 0
    ensures GetValue(w) == []
  {
    Container(seq(|c.storage|, i => 0 as byte), 0, Wiped)
  }

  /** End of life: the bytes the allocation holds when it is handed back to
      the allocator, after the same wipe an explicit `Zeroize` performs. */
  function Drop(c: Secure): (released: seq<byte>)
    ensures |released| == |c.storage|
    ensures AllZero(released)
  {
    Zeroize(c).storage
  }

  /** A wiped container is a fixpoint of `Zeroize`: wiping again rewrites
      zeros over zeros and leaves the state exactly as it was. */
  lemma ZeroizeWipedIsNoOp(c: Secure)
    requires c.phase == Wiped
    ensures Zeroize(c) == c
  {
  }

  /** Wiping twice is the same as wiping once. */
  lemma ZeroizeIdempotent(c: Secure)
    ensures Zeroize(Zeroize(c)) == Zeroize(c)
  {
  }

  /** The drop path may re-wipe a container that was already wiped
      explicitly; the allocator receives the same bytes either way. */
  lemma DropAfterZeroize(c: Secure)
    ensures Drop(Zeroize(c)) == Drop(c)
  {
  }
}
