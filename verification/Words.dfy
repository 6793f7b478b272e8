/** Machine words: 64-bit numbers, arithmetic that wraps, and 256-bit numbers in four words. */
module Words {
  import Positional

  const U64: nat := 0x1_0000_0000_0000_0000
  const U64_MAX: nat := 0xFFFF_FFFF_FFFF_FFFF

  type Word = x: int | 0 <= x < 0x1_0000_0000_0000_0000

  function Add64(x: nat, y: nat): Word {
    (x + y) % U64
  }

  function Sub64(x: nat, y: nat): Word {
    (x - y) % U64
  }

  // The places of a number's words after the second.
  const B2: nat := 0x1_0000_0000_0000_0000_0000_0000_0000_0000
  const B3: nat := 0x1_0000_0000_0000_0000_0000_0000_0000_0000_0000_0000_0000_0000
  const B4: nat := 0x1_0000_0000_0000_0000_0000_0000_0000_0000_0000_0000_0000_0000_0000_0000_0000_0000

  function Wide(ws: seq<Word>): nat
    requires |ws| == 4
  {
    ws[0] + U64 * ws[1] + B2 * ws[2] + B3 * ws[3]
  }

  // ----------------------------------------------------------------- products

  function Low(x: nat): nat {
    x % U64
  }

  function High(x: nat): nat {
    x / U64
  }

  const TOP: nat := 0xFFFF_FFFF_FFFF_FFFE_0000_0000_0000_0001

  /** The product of two words, which fits 128 bits. */
  function Product(x: Word, y: Word): (p: nat)
    ensures p <= TOP
  {
    Positional.MulBoth(x, U64_MAX, y, U64_MAX);
    Times64(x, y)
  }

  function Times64(x: nat, y: nat): nat {
    x * y
  }
}
