/** NUL-terminated strings in memory, as core-hash.c receives them. */
module CStrings {
  type Byte = bv8

  /** The memory from a `char *` on; a string starts there when a NUL follows. */
  predicate Terminated(memory: seq<Byte>) {
    0 in memory
  }

  /** strlen: the index of the first NUL. */
  function Length(memory: seq<Byte>): (n: nat)
    requires Terminated(memory)
    ensures n < |memory| && memory[n] == 0
    ensures forall i | 0 <= i < n :: memory[i] != 0
  {
    if memory[0] == 0 then 0 else 1 + Length(memory[1..])
  }

  function Text(memory: seq<Byte>): seq<Byte>
    requires Terminated(memory)
  {
    memory[..Length(memory)]
  }

  /** The first NUL is the only one with no NUL before it. */
  lemma LengthIsUnique(memory: seq<Byte>, n: nat)
    requires n < |memory| && memory[n] == 0
    requires forall i | 0 <= i < n :: memory[i] != 0
    ensures Terminated(memory) && Length(memory) == n
  {
  }
}
