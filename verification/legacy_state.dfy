/** The state of the superseded optimizer (old/optimizecheck.c): what it
    knows about each register and each global. The header that declares these
    records is not part of this model; their fields are the ones the code
    reads and writes. */
module LegacyState {
  import opened Values

  /** returntype: where a register's or a global's value came from. */
  datatype Provenance = Nothing | Register | Constant | Global | Upvalue | Value

  /** GLOBAL_UNALLOCATED, REGISTER_UNALLOCATED and CODEBLOCKDEST_EMPTY are
      sentinels that no real global, register or block index takes; their
      values are defined in headers that are not part of this model. */
  const GlobalUnallocated: int := -1
  const RegisterUnallocated: int := -1
  const CodeBlockDestEmpty: int := -1

  /** What is known about one global: the provenance and index of what was
      stored into it, how many instructions read it, its type and a
      representative of its contents (OPTIMIZER_AMBIGUOUS when stores
      disagree). */
  datatype GlobalRecord = GlobalRecord(contains: Provenance, id: int, used: int, typ: Val, contents: Val)

  /** What is known about one register: provenance and index of its value,
      use count, the block and instruction that wrote it, and a type hint. */
  datatype RegState = RegState(contains: Provenance, id: int, used: int, block: int, iix: int, typ: Val)
}
