/** What several parts of the system share: the machine's 32-bit words and pages, C strings, and optional values. */
module Common {
  /** 2^32: 32-bit numbers are those below. */
  const WRAP := 0x1_0000_0000

  /** 2^64. */
  const WRAP64 := 0x1_0000_0000_0000_0000

  const PAGE_SIZE := 4096

  function Min(a: int, b: int): int { if a < b then a else b }
  function Max(a: int, b: int): int { if a < b then b else a }

  /** No number occurs twice. */
  predicate AllDifferent(s: seq<nat>) { forall i, j :: 0 <= i < j < |s| ==> s[i] != s[j] }

  const NUL := '\U{0}'

  /** A string without the terminator. */
  predicate CString(s: string) { NUL !in s }

  datatype Option<T> = None | Some(value: T)
}
