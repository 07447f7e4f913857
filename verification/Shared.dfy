/** Types, bounds and arithmetic that several components use. */
module Shared {
  import opened Wrappers

  newtype byte = b: int | 0 <= b < 256
  type Bytes = seq<byte>

  /** A place in a directory tree, as the names leading to it. */
  type Location = seq<string>

  function Parent(at: Location): Location {
    if at == [] then [] else at[..|at| - 1]
  }

  const U32_MAX: nat := 0xFFFF_FFFF
  const U64_MAX: nat := 0xFFFF_FFFF_FFFF_FFFF
  const I64_MAX: nat := 0x7FFF_FFFF_FFFF_FFFF

  function Min(a: nat, b: nat): nat {
    if a < b then a else b
  }

  /** The time since `start`, which is zero for a later start. */
  function Elapsed(now: int, start: int): nat {
    if start <= now then now - start else 0
  }

  function Lookup<T>(table: map<string, T>, key: string): Option<T> {
    if key in table then Some(table[key]) else None
  }
}
