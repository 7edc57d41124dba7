/** Machine integers, optional values and the memory image of an unsigned 32-bit length. */
module Bytes {
  datatype Option<+T> = None | Some(value: T)

  type ubyte = x: int | 0 <= x < 0x100
  type uint = x: int | 0 <= x < 0x1_0000_0000

  const NUL: ubyte := 0

  /** What unsigned 64-bit arithmetic makes of a mathematical integer. */
  function U64(x: int): (r: nat)
    ensures 0 <= x < 0x1_0000_0000_0000_0000 ==> r == x
  {
    x % 0x1_0000_0000_0000_0000
  }

  /** The four bytes of an unsigned int, least significant first. */
  function WriteU32(n: uint): (bs: seq<ubyte>)
    ensures |bs| == 4
  {
    [n % 0x100, n / 0x100 % 0x100, n / 0x1_0000 % 0x100, n / 0x100_0000]
  }

  function ReadU32(bs: seq<ubyte>): uint
    requires |bs| == 4
  {
    var b0: int, b1: int, b2: int, b3: int := bs[0], bs[1], bs[2], bs[3];
    b0 + 0x100 * b1 + 0x1_0000 * b2 + 0x100_0000 * b3
  }

  /** The bytes written are the digits of n to base 256, and reading gives n back. */
  lemma ReadWriteU32(n: uint)
    ensures var b0: int, b1: int, b2: int, b3: int := WriteU32(n)[0], WriteU32(n)[1], WriteU32(n)[2], WriteU32(n)[3];
            n == b0 + 0x100 * b1 + 0x1_0000 * b2 + 0x100_0000 * b3
    ensures ReadU32(WriteU32(n)) == n
  {
    var a, b, c := n / 0x100, n / 0x1_0000, n / 0x100_0000;
    assert b == a / 0x100;
    assert c == b / 0x100;
  }

  // ---- C strings ----

  type CString = s: seq<ubyte> | NUL !in s

  /** The characters before the first NUL: what `strcpy` copies. */
  function UntilNul(s: seq<ubyte>): (c: CString)
    ensures c <= s
    ensures |c| < |s| ==> s[|c|] == NUL
  {
    if s == [] || s[0] == NUL then [] else [s[0]] + UntilNul(s[1..])
  }

  lemma UntilNulWhole(s: CString)
    ensures UntilNul(s) == s
  {}
}
