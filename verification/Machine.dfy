/**
 What the models share: the machine integers of the C sources, whose unsigned
 arithmetic wraps modulo a power of two, their NUL-terminated strings, which are
 read up to the first zero byte, and two stock definitions.
 */
module Machine {

  const TWO_TO_THE_32 := 0x1_0000_0000

  type U8 = n: int | 0 <= n < 0x100
  type I8 = n: int | -0x80 <= n < 0x80
  type U32 = n: int | 0 <= n < 0x1_0000_0000

  datatype Option<+T> = None | Some(value: T)

  function Min(a: int, b: int): int {
    if a <= b then a else b
  }

  /** Conversion to uint8_t. */
  function ToU8(n: int): U8 {
    n % 0x100
  }

  /** Conversion to int8_t on a two's complement machine. */
  function ToI8(n: int): I8 {
    var u := n % 0x100;
    if u < 0x80 then u else u - 0x100
  }

  /** Conversion to uint32_t. */
  function ToU32(n: int): U32 {
    n % 0x1_0000_0000
  }

  /** The bitwise and of two unsigned numbers, from the lowest bit up. */
  function And(a: nat, b: nat): nat {
    if a == 0 || b == 0 then 0 else 2 * And(a / 2, b / 2) + if a % 2 == 1 && b % 2 == 1 then 1 else 0
  }

  /** Where the first NUL of a memory area is, looking from index i. */
  function Nul(memory: seq<U8>, i: nat): (n: nat)
    requires i <= |memory| && 0 in memory[i..]
    ensures i <= n < |memory| && memory[n] == 0
    ensures forall j | i <= j < n :: memory[j] != 0
    decreases |memory| - i
  {
    if memory[i] == 0 then i else Nul(memory, i + 1)
  }

  /** The string a C function reads from a memory area: the characters before the first NUL. */
  function Text(memory: seq<U8>): (text: seq<U8>)
    requires 0 in memory
    ensures |text| < |memory| && memory[|text|] == 0 && 0 !in text
    ensures text == memory[..|text|]
  {
    assert memory[0..] == memory;
    memory[..Nul(memory, 0)]
  }

  /** The characters of a memory area before its first NUL. */
  predicate IsText(memory: seq<U8>, text: seq<U8>) {
    |text| < |memory| && text == memory[..|text|] && memory[|text|] == 0 && 0 !in text
  }

  lemma TextIsText(memory: seq<U8>)
    requires 0 in memory
    ensures IsText(memory, Text(memory))
  {
  }

  /** A string goes on exactly before its end. */
  lemma TextGoesOn(memory: seq<U8>, text: seq<U8>, i: nat)
    requires IsText(memory, text) && i <= |text|
    ensures memory[i] != 0 <==> i < |text|
    ensures i < |text| ==> memory[i] == text[i] && text[..i] + [memory[i]] == text[..i + 1]
    ensures text[..|text|] == text
  {
    if i < |text| { assert text[i] in text; }
  }
}
