/** The non-UI part of on_generate_clicked: the parsed length is defaulted,
    a buffer of `length + 1` characters is allocated and filled by
    generate_password, and the resulting C string is what the entry shows. */
module Callback {
  import Rand
  import CStrings
  import Generator

  /** Range of a C `int`, the type `atoi` returns and `length` has. */
  const IntMin: int := -0x8000_0000
  const IntMax: int := 0x7FFF_FFFF

  /** Length used when the entry holds no positive number. */
  const DefaultLength: int := 12

  predicate IsCInt(n: int) { IntMin <= n <= IntMax }

  /** `if (length <= 0) length = 12;` — the only adjustment; there is no
      upper bound. */
  function EffectiveLength(parsed: int): (length: int)
    ensures length >= 1
    ensures parsed > 0 ==> length == parsed
    ensures parsed <= 0 ==> length == DefaultLength
  {
    if parsed <= 0 then DefaultLength else parsed
  }

  /** Two's-complement wrap of an integer into the range of a C `int`. */
  function Wrap32(x: int): (w: int)
    ensures IsCInt(w)
    ensures (w - x) % 0x1_0000_0000 == 0
    ensures IsCInt(x) ==> w == x
  {
    (x - IntMin) % 0x1_0000_0000 + IntMin
  }

  /** `length + 1` as main.c:25 computes it, in `int` arithmetic. Signed
      overflow is undefined in C; this takes the two's-complement wrap that
      common compilers produce. */
  function AllocCellsAsWritten(length: int): (cells: int)
    requires IsCInt(length)
    ensures IsCInt(cells)
    ensures length < IntMax ==> cells == length + 1
  {
    Wrap32(length + 1)
  }

  /** The allocation the buffer evidently needs: one cell per password
      character plus one for the terminator, computed without overflow. */
  function AllocCells(length: int): (cells: int)
    requires length >= 0
    ensures cells > length
  {
    length + 1
  }

  /** The byte count `malloc` receives: `(length + 1) * sizeof(char)` converts
      the `int` sum to a 64-bit `size_t` (LP64), so a negative sum becomes a
      huge request. */
  function MallocRequestAsWritten(length: int): (bytes: int)
    requires IsCInt(length)
    ensures 0 <= bytes < 0x1_0000_0000_0000_0000
    ensures (bytes - AllocCellsAsWritten(length)) % 0x1_0000_0000_0000_0000 == 0
  {
    AllocCellsAsWritten(length) % 0x1_0000_0000_0000_0000
  }

  /** An entry reading 2147483647 passes the length rule unchanged, and
      `length + 1` then wraps to the most negative `int`, so `malloc` is asked
      for `(size_t)INT_MIN` = 2^64 - 2^31 bytes instead of 2^31: a request it
      refuses with NULL, which generate_password then writes through. */
  lemma AllocOverflowsAtIntMax()
    ensures EffectiveLength(IntMax) == IntMax
    ensures AllocCellsAsWritten(EffectiveLength(IntMax)) == IntMin
    ensures MallocRequestAsWritten(EffectiveLength(IntMax)) == 0x1_0000_0000_0000_0000 - 0x8000_0000
    ensures MallocRequestAsWritten(EffectiveLength(IntMax)) != AllocCells(EffectiveLength(IntMax))
  {
  }

  /** The computation as written is right for exactly the lengths below
      INT_MAX that the rule can produce. */
  lemma AllocAsWrittenAgreesIff(parsed: int)
    requires IsCInt(parsed)
    ensures AllocCellsAsWritten(EffectiveLength(parsed)) == AllocCells(EffectiveLength(parsed))
        <==> EffectiveLength(parsed) < IntMax
  {
    var length := EffectiveLength(parsed);
    if length == IntMax {
      AllocOverflowsAtIntMax();
    }
  }

  /** With the corrected size, every write of generate_password, terminator
      included, lands inside the buffer, and the password is never empty. */
  lemma AllocFitsPassword(parsed: int)
    ensures 1 <= EffectiveLength(parsed) < AllocCells(EffectiveLength(parsed))
    ensures AllocCells(EffectiveLength(parsed)) >= 2
  {
  }

  /** One click, allocating the corrected AllocCells (the size as written
      overflows at INT_MAX; see AllocOverflowsAtIntMax): the entry text is the
      C string left in the buffer, a fresh password of EffectiveLength(parsed)
      characters made from the next draws of `rand()`, which are consumed. */
  method OnGenerateClicked(parsed: int, rng: Rand.RandSource) returns (text: seq<char>)
    requires IsCInt(parsed)
    requires EffectiveLength(parsed) <= |rng.pending|
    modifies rng
    ensures |text| == EffectiveLength(parsed) >= 1
    ensures text == Generator.Password(old(rng.pending)[..|text|])
    ensures rng.pending == old(rng.pending)[|text|..]
  {
    var length := EffectiveLength(parsed);
    var password := new char[AllocCells(length)];
    Generator.GeneratePassword(password, length, rng);
    text := CStrings.CStringOf(password[..]).value;
  }
}
