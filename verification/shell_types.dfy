/** Basic vocabulary of the shell: unsigned bytes, the constants of shelly.c, Option. */
module ShellTypes {

  /** One byte of an input line, read as unsigned (0..255). */
  type Byte = b: int | 0 <= b < 256

  const Nul: Byte := 0         // NULL_CHARACTER
  const Tab: Byte := 9
  const Newline: Byte := 10
  const Space: Byte := 32      // SPACE: every byte at or below it counts as blank
  const Ampersand: Byte := 38

  /** Slots of the args vector, of which at most MaxInputArgs - 1 are filled. */
  const MaxInputArgs: nat := 20
  /** Slots of the background-job table. */
  const MaxNumJobs: nat := 1000

  datatype Option<T> = None | Some(value: T)

  /** One slot of args: a null pointer, or a pointer to a NUL-free C string. */
  type Arg = Option<seq<Byte>>

  /** The first position of x in s, as index(3) finds a byte and the job scan a free slot. */
  function FirstIndex<T(==)>(s: seq<T>, x: T): (r: Option<nat>)
    ensures r.None? <==> x !in s
    ensures r.Some? ==> r.value < |s| && s[r.value] == x && x !in s[..r.value]
  {
    if s == [] then None
    else if s[0] == x then Some(0)
    else match FirstIndex(s[1..], x)
      case None => None
      case Some(p) => (assert s[1..][..p] == s[1..p + 1]; Some(p + 1))
  }

  /** Concatenation is associative; a step some sequence proofs need spelled out. */
  lemma AppendAssoc<T>(x: seq<T>, y: seq<T>, z: seq<T>)
    ensures x + (y + z) == (x + y) + z
  {
  }
}
