/** Prefix and suffix facts about strings, shared by the header and username code. */
module Strings {

  /** `s` begins with `p` (Rust's `str::starts_with` for a string pattern). */
  predicate StartsWith(s: string, p: string) {
    |p| <= |s| && s[..|p|] == p
  }

  /** `t` is a suffix of `s`. */
  predicate IsSuffix(t: string, s: string) {
    |t| <= |s| && s[|s| - |t|..] == t
  }

  /** `p` written `k` times in a row. */
  function Repeat(p: string, k: nat): string
  {
    if k == 0 then "" else p + Repeat(p, k - 1)
  }
}
