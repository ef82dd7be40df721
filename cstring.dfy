/**
  NUL-terminated C strings as the program reads them: every byte before the
  terminator is non-zero and is compared as an `unsigned char`.
*/
module CString {

  /** Capacity of a room name or suspect name buffer, terminator included. */
  const MAX_NOME := 64
  /** Capacity of a clue buffer, terminator included. */
  const MAX_PISTA := 128

  /** One byte of a C string before its terminator. */
  type CChar = c: int | 1 <= c < 256 witness 1

  type CStr = seq<CChar>

  /** A string that fits a clue buffer without truncation. */
  type Clue = s: CStr | |s| < MAX_PISTA

  /** A string that fits a name buffer without truncation. */
  type Name = s: CStr | |s| < MAX_NOME

  /**
    The sign of `strcmp(a, b)`. The bytes are compared in order; when one
    string is a proper prefix of the other, its terminating NUL is below any
    byte of the longer one, so the shorter string compares below.
  */
  function Strcmp(a: CStr, b: CStr): (r: int)
    ensures -1 <= r <= 1
    ensures r == 0 <==> a == b
  {
    if a == [] && b == [] then 0
    else if a == [] then -1
    else if b == [] then 1
    else if a[0] < b[0] then -1
    else if a[0] > b[0] then 1
    else
      assert a == [a[0]] + a[1..] && b == [b[0]] + b[1..];
      Strcmp(a[1..], b[1..])
  }

  /** The strict order `strcmp(a, b) < 0`. */
  predicate Less(a: CStr, b: CStr) {
    Strcmp(a, b) < 0
  }

  lemma {:induction false} StrcmpAntisymmetric(a: CStr, b: CStr)
    ensures Strcmp(b, a) == -Strcmp(a, b)
  {
    if a != [] && b != [] && a[0] == b[0] {
      StrcmpAntisymmetric(a[1..], b[1..]);
    }
  }

  /** Exactly one of `Less(a, b)`, `a == b`, `Less(b, a)` holds. */
  lemma LessTrichotomy(a: CStr, b: CStr)
    ensures Less(a, b) || a == b || Less(b, a)
    ensures !(Less(a, b) && Less(b, a))
    ensures !Less(a, a)
  {
    StrcmpAntisymmetric(a, b);
  }

  lemma {:induction false} LessTransitive(a: CStr, b: CStr, c: CStr)
    requires Less(a, b) && Less(b, c)
    ensures Less(a, c)
  {
    if a != [] && b != [] && c != [] && a[0] == b[0] && b[0] == c[0] {
      LessTransitive(a[1..], b[1..], c[1..]);
    }
  }
}
