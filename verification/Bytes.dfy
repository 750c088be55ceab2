/** Bytes, 16-bit words, and the way a host loads and stores them.

    jpcap's C code reads and writes packets through `u_short *` and structure fields, so what
    a word means depends on the byte order of the host.  The order is a parameter throughout. */
module Bytes {

  type byte = x: int | 0 <= x < 0x100
  type word = x: int | 0 <= x < 0x1_0000

  /** The byte order of the host. */
  datatype Order = LittleEndian | BigEndian

  /** The word that a host of order `e` reads from two consecutive bytes. */
  function Load16(e: Order, first: byte, second: byte): word {
    match e
    case BigEndian => 0x100 * first + second
    case LittleEndian => first + 0x100 * second
  }

  /** The two bytes that a host of order `e` writes for a word. */
  function Store16(e: Order, w: word): (s: seq<byte>)
    ensures |s| == 2
  {
    match e
    case BigEndian => [w / 0x100, w % 0x100]
    case LittleEndian => [w % 0x100, w / 0x100]
  }

  /** The word with its two bytes exchanged. */
  function Swap(w: word): word {
    0x100 * (w % 0x100) + w / 0x100
  }

  /** `htons`, and also `ntohs`. */
  function Htons(e: Order, w: word): word {
    if e.BigEndian? then w else Swap(w)
  }

  /** Conversions of a C or Java integer to a narrower unsigned type. */
  function U8(x: int): byte {
    x % 0x100
  }

  function U16(x: int): word {
    x % 0x1_0000
  }

  /** Conversion to a Java or C `short`. */
  function S16(x: int): int {
    (x + 0x8000) % 0x1_0000 - 0x8000
  }

  /** A value that fits a `short` is not changed by storing it in one. */
  lemma S16Fits(x: int)
    requires -0x8000 <= x < 0x8000
    ensures S16(x) == x
  {
  }

  lemma S16Bounds(x: int)
    ensures -0x8000 <= S16(x) < 0x8000
  {
  }

  /** Network order, most significant byte first. */
  function Be16(w: word): (s: seq<byte>)
    ensures |s| == 2
  {
    [w / 0x100, w % 0x100]
  }

  function Be32(x: int): (s: seq<byte>)
    ensures |s| == 4
  {
    Be16(x / 0x1_0000 % 0x1_0000) + Be16(x % 0x1_0000)
  }

  /** Storing a host word converted with `htons` puts network order in memory on either host;
      loading it and converting back gives the word again. */
  lemma StoreHtons(e: Order, w: word)
    ensures Store16(e, Htons(e, w)) == Be16(w)
    ensures Htons(e, Load16(e, w / 0x100, w % 0x100)) == w
  {
  }

  /** Memory as the C code sees it: the region that holds the frame.  A read past the region
      yields 0, a choice that no result depends on, since the region is of any length. */
  function At(mem: seq<byte>, i: int): byte {
    if 0 <= i < |mem| then mem[i] else 0
  }

  /** `ntohs` of the word at `i`: network order on either host. */
  function Net16(mem: seq<byte>, i: int): word {
    0x100 * At(mem, i) + At(mem, i + 1)
  }

  lemma LoadIsNet16(e: Order, mem: seq<byte>, i: int)
    ensures Htons(e, Load16(e, At(mem, i), At(mem, i + 1))) == Net16(mem, i)
  {
  }

  /** `n` bytes of memory from offset `i`, as `SetByteArrayRegion` copies them. */
  function Copy(mem: seq<byte>, i: int, n: int): (s: seq<byte>)
    ensures n >= 0 ==> |s| == n
    ensures forall k | 0 <= k < n :: s[k] == At(mem, i + k)
  {
    if n <= 0 then [] else seq<byte>(n, k => At(mem, i + k))
  }

  lemma CopyIsSlice(mem: seq<byte>, i: int, n: int)
    requires 0 <= i <= i + n <= |mem|
    ensures Copy(mem, i, n) == mem[i..i + n]
  {
  }
}
