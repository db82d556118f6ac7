/** NUL-terminated text, as the C sources handle it. */
module CStrings {

  const NUL := '\0'

  /** The character a pointer `i` places into the string reads; the terminator from the end on. */
  function Peek(s: string, i: nat): char {
    if i < |s| then s[i] else NUL
  }

  /** The C string held in a buffer: everything before the first NUL. */
  function Text(b: seq<char>): (t: string)
    ensures t <= b && NUL !in t
    ensures |t| < |b| ==> b[|t|] == NUL
  {
    if b == [] || b[0] == NUL then [] else [b[0]] + Text(b[1..])
  }

  lemma {:induction false} TextIsPrefix(b: seq<char>, n: nat)
    requires n < |b| && b[n] == NUL && NUL !in b[..n]
    ensures Text(b) == b[..n]
  {
    if n > 0 {
      assert b[0] in b[..n];
      assert b[1..][..n - 1] == b[..n][1..];
      TextIsPrefix(b[1..], n - 1);
    }
  }
}
