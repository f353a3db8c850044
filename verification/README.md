# wasm-zeroize: the zeroizing secure string container

This project models `ZeroizedString` from the wasm-zeroize library. It is a container for secret text such as a password or key. The container:

- copies the caller's text into storage it owns (`new`);
- hands back a copy of the text on request (`get_value`);
- overwrites its storage with zeros, either on request (`zeroize`) or when the object is dropped (`Drop`).

The Rust struct holds a `String`, which is a heap allocation (its capacity), a length, and the bytes. `zeroize` calls the `zeroize` crate on that `String`. The crate's documented effect is taken as the meaning of that call: every byte of the allocation becomes zero, spare capacity included, the length becomes 0, and the allocation itself is kept.

There are three modules:

- `SecureString` (secure_string.dfy) is the value model. A `Container` has `storage` (the whole allocation), `len` (how many bytes of it hold the value) and `phase`. The phase is `Active` from construction and `Wiped` from the first wipe on. The Rust object has no phase field; the phase records the two-state lifecycle. `GetValue` does not consult it, just as `get_value` does not. The representation invariant `Valid` is built into the subset type `Secure`: the value fits in the allocation, and a wiped container holds an empty value over an allocation of zeros.
- `Lifecycle` (lifecycle.dfy) treats an instance as a state machine. A session is a sequence of `Read` and `Wipe` calls. `Run` replays it and collects what each read returned. The lemmas show that:
  - reads before the first wipe return the original text;
  - every read after it returns `""`;
  - a second wipe cannot be observed;
  - end of life always hands back zeros.
- `Instance` (instance.dfy) is the container as a heap object. The class `ZeroizedString` owns a freshly allocated `array<byte>` and clears it with a loop. Each of its methods is proved to change the object's abstract state `Model()` exactly as the value model does. Its `modifies` clauses limit every write to the object and the array it owns. The methods `ReadBack`, `WipeThenRead`, `WipeOneOfTwo` and `ScopeExit` restate the crate's unit tests for all inputs, not just the sample strings.

Wiping an already wiped container writes the zeros again, because the zeroize crate does not skip the writes (src/lib.rs:100-103). `ZeroizeWipedIsNoOp` proves that those writes leave the state exactly as it was.

Text is modelled as its byte encoding (`seq<byte>`), so non-ASCII and very long strings are covered like any other bytes.

## Model

| member | source | states |
|---|---|---|
| SecureString.New | src/lib.rs:61-65 | A new container is Active, its allocation is exactly as long as the input's encoding, and reading it back gives the input, for every input including the empty one |
| SecureString.GetValue | src/lib.rs:83-85 | The value read has the logical length and the bytes of the allocation's first `len` positions; on a wiped container it is the empty text |
| SecureString.Zeroize | src/lib.rs:100-103 | After a wipe the container is Wiped, its allocation keeps its size, every byte that was in it is now zero, and the value reads back as empty |
| SecureString.Drop | src/lib.rs:106-111 | At end of life the allocator gets back an allocation of the original size that holds only zeros |
| SecureString.ZeroizeWipedIsNoOp | src/lib.rs:100-103 | Wiping a container that is already wiped leaves it exactly as it was |
| SecureString.ZeroizeIdempotent | src/lib.rs:100-103 | Wiping twice gives the same state as wiping once |
| SecureString.DropAfterZeroize | src/lib.rs:106-111 | Dropping after an explicit wipe re-wipes, and the allocator gets the same bytes as when dropping without one |
| Lifecycle.Run | src/lib.rs:83-103 | In any session, reads never change the container, the phase is Wiped exactly when a wipe occurred, the allocation keeps its size, and there is one result per read |
| Lifecycle.RunAppend | src/lib.rs:83-103 | Running two sessions one after the other is the same as running their concatenation |
| Lifecycle.ReadsBeforeWipe | src/lib.rs:83-85 | While no wipe occurs, every read returns the container's current value |
| Lifecycle.ReadsAfterWipe | src/lib.rs:87-103 | Once wiped, any further reads and wipes leave the container unchanged, and every read returns the empty text |
| Lifecycle.WipeThenReads | src/lib.rs:144-149 | After a wipe, whatever calls follow, every read returns the empty text |
| Lifecycle.SessionReads | src/lib.rs:14-24 | On a fresh instance, every read before the first wipe returns the original text and every read after it returns the empty text |
| Lifecycle.SessionWithoutWipe | src/lib.rs:137-141 | On a fresh instance that is never wiped, every read returns the original text |
| Lifecycle.WipeTwiceIsWipeOnce | src/lib.rs:100-103 | A second wipe straight after the first is unobservable for the rest of the session |
| Lifecycle.EndOfLifeWipes | src/lib.rs:5-7 | Whatever a session did, including never wiping, end of life hands back only zeros, one per byte of the original encoding |
| Instance.ZeroizedString.Init | src/lib.rs:61-65 | Construction copies the text into a freshly allocated array that no other object shares, and the new object's abstract state is the value-model `New` of the text |
| Instance.ZeroizedString.GetValue | src/lib.rs:83-85 | The in-place object returns the value-model read of its state, and it writes nothing |
| Instance.ZeroizedString.Zeroize | src/lib.rs:100-103 | The zeroing loop moves the object to the value-model wipe of its state, in the same array, writing only the object and its own array |
| Instance.ZeroizedString.Drop | src/lib.rs:106-111 | Drop performs the same in-place wipe as `Zeroize` on the object's own array, and the bytes it returns are exactly that array's contents afterwards, all zero |
| Instance.ReadBack | src/lib.rs:137-141 | Any text read back from a new instance is returned unchanged, ASCII, non-ASCII or large |
| Instance.WipeThenRead | src/lib.rs:144-149 | After a wipe a read returns the empty text, and a second wipe and read still give the empty text, for any input including the empty one |
| Instance.WipeOneOfTwo | src/lib.rs:162-170 | Wiping one of two instances leaves the other's value intact, because each owns a freshly allocated array |
| Instance.ScopeExit | src/lib.rs:152-159 | An instance dropped without an explicit wipe has its own array overwritten, so the allocation handed back holds only zeros, one per byte of its text |

## Left out

- The `#[wasm_bindgen]` attributes and the `start` panic hook (src/lib.rs:33-37) are left out. They are glue for the host boundary and a foreign call.
- The zeroize crate promises that the compiler cannot optimise its writes away. That is a property of the compiler and memory model that Dafny cannot express, so the wipe is modelled as ordinary writes.
- The zeroize crate itself is not part of this model. Only its documented effect on a `String` is modelled: every byte of the allocation becomes zero, the length becomes 0, and the allocation is kept.
- `RefCell` dynamic borrow checking is left out. Single ownership means the borrows never conflict, so it has no meaning at the level of the model.
- The model does not check that the stored bytes are valid UTF-8. The container never checks encoding itself, so contents are plain bytes.
- `ModuleError` and its `Display` impl (src/lib.rs:113-129) are left out. The container never uses them.
- The model does not cover when the JavaScript garbage collector finalises an object, or the caller's copies of returned values. The container does not control either. `Drop` models only what the finaliser does once it runs.
- Allocation failure in `new` is left out. Rust aborts on it rather than returning an error, so the model's `New` always succeeds.
- Using an instance after it has been dropped is left out. Rust's ownership rules rule it out, so the value model has no such state. The heap class does not forbid it: after `Drop` the object is still valid, so `GetValue` and `Zeroize` can still be called, and they see the wiped state and return `""`.
