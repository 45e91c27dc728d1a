/** Failure-carrying values shared by every module of the model, and the
    faults the tool raises. Every `raise` of the Ruby code that the model keeps,
    and every place where the Ruby code would crash on a `nil`, becomes one
    `Fault` value; a run that meets one stops there. */
module Wrappers {

  datatype Option<+T> = None | Some(value: T)

  datatype Result<+T, +E> = Ok(value: T) | Err(error: E) {
    predicate IsFailure() { Err? }

    function PropagateFailure<U>(): Result<U, E>
      requires Err?
    {
      Err(error)
    }

    function Extract(): T
      requires Ok?
    {
      value
    }
  }

  datatype Fault =
    | ReadPastEnd(addr: int)                   // a read beyond the end of the ROM image
    | WrongPointerType                         // "Wrong table pointer type"
    | InaccessiblePointer(dst: int, base: int) // "Inaccessible pointer to %x from %x"
    | NegativeOffset(value: int, dst: int)     // "Negative offset for n pointer"
    | UnmappedCode(code: int)                  // a one-byte text code missing from the export table
    | TruncatedCode                            // a two-byte text code cut off by the end of the run
    | ShortCallPayload                         // op_callfunction payload shorter than its 4-byte target
    | MissingWidth(c: char)                    // a character outside the letter-width table
    | EmptyResult                              // `resultString[-2] = ...` on an empty string
    | EmptyFreeList                            // scriptMalloc on an empty free list
    | MemoryCorruption                         // "Memory corruption"
    | NoFreeSpace(required: int, minAddr: int, maxAddr: int) // "No more free script space!"
    | OutOfRange                               // "Can't allocate this script group, pointers are out of range."
    | UnknownGroup(group: int)                 // a group id missing from the groups hash
    | AlreadyAssigned(opId: int, addr: int)    // "Opcode %d has been already assigned with address"
    | NoOffset                                 // "No offset"
    | LengthMismatch(merged: int, expected: int) // "Script length mismatch!"
    | WrongLength(opId: int)                   // "Wrong length for op"
    | NoAddress(opId: int)                     // "No address for reference"
    | UnknownOpcode(opId: int)                 // an instruction id with no row in the instruction table
    | BadBackReference                         // an LZ copy that reads an element that does not exist
    | WrongRelativePointer(ptr: int)           // "Wrong relative pointer at"
    | WrongStructure                           // "Wrong pointer type": not exactly one kind letter
    | WritePastEnd(addr: int)                  // a write beyond the end of the ROM image
    | UnmatchedExtraRef(addr: int)             // "No opcode found for extra reference"

  /** Assigning `v` to key `k` of a Ruby hash kept as its entries in order:
      an existing key keeps its place, a new one goes last. */
  function Put<V>(m: seq<(int, V)>, k: int, v: V): seq<(int, V)> {
    if |m| == 0 then [(k, v)]
    else if m[0].0 == k then [(k, v)] + m[1..]
    else [m[0]] + Put(m[1..], k, v)
  }

  /** The value of key `k`, if any. */
  function Lookup<V>(m: seq<(int, V)>, k: int): Option<V> {
    if |m| == 0 then None
    else if m[0].0 == k then Some(m[0].1)
    else Lookup(m[1..], k)
  }

  /** A key the hash does not hold yet is appended, after every other entry. */
  lemma {:induction false} PutNew<V>(m: seq<(int, V)>, k: int, v: V)
    requires forall j :: 0 <= j < |m| ==> m[j].0 != k
    ensures Put(m, k, v) == m + [(k, v)]
    decreases |m|
  {
    if |m| > 0 {
      assert forall j :: 0 <= j < |m| - 1 ==> m[1..][j] == m[j + 1];
      PutNew(m[1..], k, v);
      assert [m[0]] + (m[1..] + [(k, v)]) == m + [(k, v)];
    }
  }

  /** After the assignment the key holds `v`. */
  lemma {:induction false} PutLookup<V>(m: seq<(int, V)>, k: int, v: V)
    ensures Lookup(Put(m, k, v), k) == Some(v)
    decreases |m|
  {
    if |m| > 0 && m[0].0 != k {
      PutLookup(m[1..], k, v);
      assert Put(m, k, v)[1..] == Put(m[1..], k, v);
    }
  }

  /** Assigning one key leaves every other key as it was. */
  lemma {:induction false} PutOther<V>(m: seq<(int, V)>, k: int, v: V, other: int)
    requires other != k
    ensures Lookup(Put(m, k, v), other) == Lookup(m, other)
    decreases |m|
  {
    if |m| > 0 && m[0].0 != k {
      PutOther(m[1..], k, v, other);
      assert Put(m, k, v)[1..] == Put(m[1..], k, v);
    }
  }

  /** The keys a hash holds: no assignment ever removes one. */
  ghost predicate KeptKeys<V>(a: seq<(int, V)>, b: seq<(int, V)>) {
    forall k :: Lookup(a, k).Some? ==> Lookup(b, k).Some?
  }

  /** An assignment keeps every key and adds its own. */
  lemma PutKeeps<V>(m: seq<(int, V)>, k: int, v: V)
    ensures KeptKeys(m, Put(m, k, v)) && Lookup(Put(m, k, v), k).Some?
  {
    forall o | Lookup(m, o).Some?
      ensures Lookup(Put(m, k, v), o).Some?
    {
      if o == k { PutLookup(m, k, v); } else { PutOther(m, k, v, o); }
    }
    PutLookup(m, k, v);
  }
}
