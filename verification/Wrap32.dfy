/**
 32-bit unsigned arithmetic with wrap-around, the sequence-number comparisons and the
 clock difference of the pseudo-TCP socket.

 A stream position is an unbounded integer; the wire and the socket fields carry it modulo
 2^32, offset by the initial sequence number of the stream (`At`).
 */
module Wrap32 {
  const WORD: int := 0x1_0000_0000
  const HALF: int := 0x8000_0000
  /** `G_MAXUINT32 >> 1`, the bound in the comparison macros. */
  const WINDOW: int := 0x7FFF_FFFF

  type byte = x: int | 0 <= x < 0x100
  type u16 = x: int | 0 <= x < 0x1_0000
  type u32 = x: int | 0 <= x < 0x1_0000_0000

  function Add32(a: int, b: int): u32 {
    (a + b) % WORD
  }

  function Sub32(a: int, b: int): u32 {
    (a - b) % WORD
  }

  // The four comparison macros.

  predicate Larger(a: u32, b: u32) {
    Sub32(Sub32(a, b), 1) < WINDOW
  }

  predicate LargerOrEqual(a: u32, b: u32) {
    Sub32(a, b) < WINDOW
  }

  predicate Smaller(a: u32, b: u32) {
    Larger(b, a)
  }

  predicate SmallerOrEqual(a: u32, b: u32) {
    LargerOrEqual(b, a)
  }

  /** The sequence number that carries stream position `i` when the stream starts at `iss`. */
  function At(iss: u32, i: int): u32 {
    (iss + i) % WORD
  }

  /** Two positions close enough for every comparison macro to order them correctly. */
  predicate Near(i: int, j: int) {
    -WINDOW < i - j < WINDOW
  }

  lemma ModUnique(x: int, k: int, r: int)
    requires x == k * WORD + r && 0 <= r < WORD
    ensures x % WORD == r
  {
    var q := x / WORD;
    assert x == q * WORD + x % WORD;
    assert (q - k) * WORD == r - x % WORD;
    assert q == k;
  }

  /** Moving along the stream and moving along the sequence space commute. */
  lemma AtPlus(iss: u32, i: int, n: int)
    ensures Add32(At(iss, i), n) == At(iss, i + n)
  {
    var k := (iss + i) / WORD;
    var s := At(iss, i) + n;
    assert iss + i == k * WORD + At(iss, i);
    ModUnique(iss + i + n, k + s / WORD, s % WORD);
  }

  /** The difference of two sequence numbers is the distance of the positions modulo 2^32. */
  lemma AtMinus(iss: u32, i: int, j: int)
    ensures Sub32(At(iss, i), At(iss, j)) == (i - j) % WORD
  {
    var a := (iss + i) / WORD;
    var b := (iss + j) / WORD;
    var d := (i - j) / WORD;
    assert iss + i == a * WORD + At(iss, i) && iss + j == b * WORD + At(iss, j);
    assert i - j == d * WORD + (i - j) % WORD;
    ModUnique(At(iss, i) - At(iss, j), d - a + b, (i - j) % WORD);
  }

  /** A distance below 2^32 is recovered exactly. */
  lemma AtDistance(iss: u32, i: int, j: int)
    requires 0 <= i - j < WORD
    ensures Sub32(At(iss, i), At(iss, j)) == i - j
  {
    AtMinus(iss, i, j);
    ModUnique(i - j, 0, i - j);
  }

  /** On nearby positions every macro decides the order of the stream positions. */
  lemma ComparisonsOrderPositions(iss: u32, i: int, j: int)
    requires Near(i, j)
    ensures Larger(At(iss, i), At(iss, j)) <==> i > j
    ensures LargerOrEqual(At(iss, i), At(iss, j)) <==> i >= j
    ensures Smaller(At(iss, i), At(iss, j)) <==> i < j
    ensures SmallerOrEqual(At(iss, i), At(iss, j)) <==> i <= j
    ensures At(iss, i) == At(iss, j) <==> i == j
  {
    AtMinus(iss, i, j);
    AtMinus(iss, j, i);
    if i >= j {
      ModUnique(i - j, 0, i - j);
      ModUnique(j - i, if i == j then 0 else -1, if i == j then 0 else WORD + j - i);
    } else {
      ModUnique(j - i, 0, j - i);
      ModUnique(i - j, -1, WORD + i - j);
    }
  }

  /** For positions in order, `LARGER_OR_EQUAL` is right exactly below half the space. */
  lemma LargerOrEqualExact(iss: u32, i: int, j: int)
    requires j <= i < j + WORD
    ensures LargerOrEqual(At(iss, i), At(iss, j)) <==> i - j < WINDOW
  {
    AtDistance(iss, i, j);
  }

  /** Positions a whole number of wraps apart cannot be told apart on the wire. */
  lemma StalePositionAliases(iss: u32, i: int, wraps: int)
    ensures At(iss, i + wraps * WORD) == At(iss, i)
  {
    var k := (iss + i) / WORD;
    assert iss + i == k * WORD + At(iss, i);
    ModUnique(iss + i + wraps * WORD, k + wraps, At(iss, i));
  }

  lemma Sub32Zero(a: u32)
    ensures Sub32(a, 0) == a
  {
  }

  lemma Sub32Sub32(a: int, m: int, n: int)
    ensures Sub32(Sub32(a, m), n) == Sub32(a, m + n)
  {
    var k := (a - m) / WORD;
    var d := Sub32(a, m) - n;
    assert a - m == k * WORD + Sub32(a, m);
    ModUnique(a - m - n, k + d / WORD, d % WORD);
  }

  // Clock arithmetic.

  predicate TimeIsBetween(later: u32, middle: u32, earlier: u32) {
    if earlier <= later then earlier <= middle <= later
    else !(later < middle < earlier)
  }

  /** The conversion of a `long` in range of one word to `gint32`. */
  function ToInt32(x: int): int {
    if x >= HALF then x - WORD else x
  }

  /** `time_diff` reads the clock difference as a two's-complement number. */
  function TimeDiff(later: u32, earlier: u32): (r: int)
    ensures -HALF <= r < HALF
    ensures r == ToInt32(Sub32(later, earlier))
  {
    if TimeIsBetween(Add32(earlier, HALF), later, earlier) then
      if earlier <= later then ToInt32(later - earlier)
      else ToInt32(later + (0xFFFF_FFFF - earlier) + 1)
    else
      if later <= earlier then -(earlier - later)
      else -(earlier + (0xFFFF_FFFF - later) + 1)
  }
}
