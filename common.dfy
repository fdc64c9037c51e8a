/** Small shared vocabulary: bytes, optional values, C-style status results and C strings. */
module Common {

  /** An unsigned octet, as the ciphertext, plaintext and IV bytes are handled. */
  newtype byte = x: int | 0 <= x < 256

  datatype Option<T> = None | Some(value: T)

  /** The outcome of a C routine that returns 0 on success and a non-zero code otherwise;
      on success it also carries the value the routine stores through its out-parameter. */
  datatype Outcome<T> = Ok(value: T) | Fail(code: int) {
    /** The int the C routine returns. */
    function Code(): int {
      match this
      case Ok(_) => 0
      case Fail(c) => c
    }
  }

  /** The C string terminator. */
  const NUL: char := '\0'

  function Min(a: int, b: int): int {
    if a <= b then a else b
  }

  /** The C string held in `s`: the characters before the first NUL, or all of `s` when it has none
      (what `strlen`/`strcmp` see). */
  function CStr(s: seq<char>): (r: string)
    ensures r <= s && NUL !in r
    ensures |r| < |s| ==> s[|r|] == NUL
  {
    if s == [] || s[0] == NUL then [] else [s[0]] + CStr(s[1..])
  }

  /** A NUL-free prefix followed by a NUL is exactly the C string. */
  lemma {:induction false} CStrTerminated(s: seq<char>, n: nat)
    requires n < |s| && s[n] == NUL && NUL !in s[..n]
    ensures CStr(s) == s[..n]
    decreases n
  {
    if n > 0 {
      assert s[1..][..n - 1] == s[..n][1..];
      CStrTerminated(s[1..], n - 1);
      assert s[..n] == [s[0]] + s[1..][..n - 1];
    }
  }
}
