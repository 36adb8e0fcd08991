/** Physical memory of the machine: 2^20 page frames of 4096 bytes, read and
    written a byte or a little-endian 32-bit word at a time.

    Addresses and words are mathematical integers in the range of uint32_t; the
    places where C arithmetic wraps say so with `Wrap`. */
module Memory {
  const PAGE_SIZE := 4096
  const WORDS_PER_PAGE := 1024
  const TOTAL_FRAMES := 0x10_0000
  const ADDRESS_SPACE := 0x1_0000_0000

  type Byte = b: int | 0 <= b < 256
  type Word = w: int | 0 <= w < ADDRESS_SPACE
  type Page = p: seq<Byte> | |p| == PAGE_SIZE witness seq(PAGE_SIZE, _ => 0)

  const ZERO_PAGE: Page := seq(PAGE_SIZE, _ => 0)

  type Ram = r: seq<Page> | |r| == TOTAL_FRAMES witness seq<Page>(TOTAL_FRAMES, _ => ZERO_PAGE)

  /** The value an unsigned 32-bit variable holds after being assigned `x`. */
  function Wrap(x: int): Word {
    x % ADDRESS_SPACE
  }

  lemma WrapSmall(x: int)
    requires 0 <= x < ADDRESS_SPACE
    ensures Wrap(x) == x
  {
  }

  /** Rounding an address down to its page: what masking with 0xFFFFF000 does. */
  function PageBase(a: Word): (r: Word)
    ensures r % PAGE_SIZE == 0 && r / PAGE_SIZE == a / PAGE_SIZE
  {
    a - a % PAGE_SIZE
  }

  /** The mask 0xFFFFF000 and the `|` of flags into an aligned address are modelled by
      subtraction and addition; on 32-bit vectors these are the same operations. */
  lemma MaskAndOrAreArithmetic(x: bv32, flags: bv32)
    requires flags & 0xFFFF_F000 == 0
    ensures x & 0xFFFF_F000 == x - x % 4096
    ensures x & 0xFFF == 0 ==> x | flags == x + flags
  {
  }

  /** The processor takes bits 22 to 31 of an address for the directory, 12 to 21 for the table and 0 to 11 for
      the place in the page (Intel Software Developer's Manual, volume 3A, section 4.3). */
  lemma AddressBitsAreArithmetic(v: bv32)
    ensures v >> 22 == v / 4096 / 1024 && (v >> 12) & 0x3FF == v / 4096 % 1024 && v & 0xFFF == v % 4096
  {
  }

  /** `w & flag`, for a flag of one bit. */
  predicate HasFlag(w: Word, flag: nat)
    requires flag > 0
  {
    w / flag % 2 == 1
  }

  lemma FlagIsBit(w: Word)
    ensures HasFlag(w, 1) <==> (w as bv32) & 0x1 != 0
    ensures HasFlag(w, 2) <==> (w as bv32) & 0x2 != 0
    ensures HasFlag(w, 4) <==> (w as bv32) & 0x4 != 0
  {
  }

  /** The flags of an aligned address are those that are added to it. */
  lemma FlagsOfSum(base: Word, flags: nat)
    requires base % PAGE_SIZE == 0 && flags < PAGE_SIZE
    ensures base + flags < ADDRESS_SPACE && (base + flags) % PAGE_SIZE == flags
    ensures HasFlag(base + flags, 1) == HasFlag(flags, 1)
    ensures HasFlag(base + flags, 2) == HasFlag(flags, 2)
    ensures HasFlag(base + flags, 4) == HasFlag(flags, 4)
  {
    var k := base / PAGE_SIZE;
    Halved(2048 * k, flags);
    Halved(1024 * k, flags / 2);
    Halved(512 * k, flags / 4);
    assert (base + flags) / 4 == (base + flags) / 2 / 2;
  }

  lemma Halved(a: nat, b: nat)
    ensures (2 * a + b) % 2 == b % 2 && (2 * a + b) / 2 == a + b / 2
  {
  }

  /** The number a byte string stands for, least significant byte first. */
  function FromBytes(s: seq<Byte>): nat {
    if s == [] then 0 else s[0] + 0x100 * FromBytes(s[1..])
  }

  /** The `n` least significant bytes of a number. */
  function ToBytes(x: nat, n: nat): (s: seq<Byte>)
    ensures |s| == n
  {
    if n == 0 then [] else [x % 0x100] + ToBytes(x / 0x100, n - 1)
  }

  function Pow256(n: nat): nat {
    if n == 0 then 1 else 0x100 * Pow256(n - 1)
  }

  lemma {:induction false} FromBytesBound(s: seq<Byte>)
    ensures FromBytes(s) < Pow256(|s|)
  {
    if s != [] {
      FromBytesBound(s[1..]);
    }
  }

  /** Writing a number as bytes and reading it back. */
  lemma {:induction false} BytesRoundTrip(x: nat, n: nat)
    requires x < Pow256(n)
    ensures FromBytes(ToBytes(x, n)) == x
  {
    if n > 0 {
      BytesRoundTrip(x / 0x100, n - 1);
      assert ToBytes(x, n)[1..] == ToBytes(x / 0x100, n - 1);
    }
  }

  /** Reading bytes as a number and writing it back. */
  lemma {:induction false} NumberRoundTrip(s: seq<Byte>)
    ensures ToBytes(FromBytes(s), |s|) == s
  {
    if s != [] {
      NumberRoundTrip(s[1..]);
      assert FromBytes(s) % 0x100 == s[0] && FromBytes(s) / 0x100 == FromBytes(s[1..]);
    }
  }

  lemma FourBytes()
    ensures Pow256(4) == ADDRESS_SPACE
  {
    assert Pow256(1) == 0x100 && Pow256(2) == 0x1_0000 && Pow256(3) == 0x100_0000;
  }

  function ReadWord(p: Page, i: nat): Word
    requires i < WORDS_PER_PAGE
  {
    FromBytesBound(p[4 * i..4 * i + 4]);
    FourBytes();
    FromBytes(p[4 * i..4 * i + 4])
  }

  /** Storing a word replaces that word and leaves every other word alone. */
  function WriteWord(p: Page, i: nat, w: Word): (r: Page)
    requires i < WORDS_PER_PAGE
    ensures ReadWord(r, i) == w
    ensures forall j: nat :: j < WORDS_PER_PAGE && j != i ==> ReadWord(r, j) == ReadWord(p, j)
  {
    var r := p[..4 * i] + ToBytes(w, 4) + p[4 * i + 4..];
    FourBytes();
    BytesRoundTrip(w, 4);
    assert r[4 * i..4 * i + 4] == ToBytes(w, 4);
    assert forall j: nat :: j < WORDS_PER_PAGE && j != i ==> r[4 * j..4 * j + 4] == p[4 * j..4 * j + 4];
    r
  }

  /** A word is stored least significant byte first. */
  lemma WordIsLittleEndian(p: Page, i: nat, w: Word)
    requires i < WORDS_PER_PAGE
    ensures var r := WriteWord(p, i, w);
            && r[4 * i] == w % 0x100 && r[4 * i + 1] == w / 0x100 % 0x100
            && r[4 * i + 2] == w / 0x1_0000 % 0x100 && r[4 * i + 3] == w / 0x100_0000
  {
    var w1, w2, w3 := w / 0x100, w / 0x100 / 0x100, w / 0x100 / 0x100 / 0x100;
    assert ToBytes(w3, 1) == [w3 % 0x100] && ToBytes(w2, 2) == [w2 % 0x100] + ToBytes(w3, 1);
    assert ToBytes(w1, 3) == [w1 % 0x100] + ToBytes(w2, 2) && ToBytes(w, 4) == [w % 0x100] + ToBytes(w1, 3);
    assert w2 == w / 0x1_0000 && w3 == w / 0x100_0000 < 0x100;
    assert WriteWord(p, i, w)[4 * i..4 * i + 4] == ToBytes(w, 4);
  }

  lemma WriteWordBytes(p: Page, i: nat, w: Word)
    requires i < WORDS_PER_PAGE
    ensures forall k :: 0 <= k < PAGE_SIZE && !(4 * i <= k < 4 * i + 4) ==> WriteWord(p, i, w)[k] == p[k]
  {
  }

  /** Writing a word over and then putting the old word back gives the old page, byte for byte. */
  lemma WriteBackRestores(p: Page, i: nat, w: Word)
    requires i < WORDS_PER_PAGE
    ensures WriteWord(WriteWord(p, i, w), i, ReadWord(p, i)) == p
  {
    NumberRoundTrip(p[4 * i..4 * i + 4]);
  }

  function LoadByte(ram: Ram, a: Word): Byte {
    ram[a / PAGE_SIZE][a % PAGE_SIZE]
  }

  function WriteByte(p: Page, i: nat, b: Byte): Page
    requires i < PAGE_SIZE
  {
    p[i := b]
  }

  function StoreByte(ram: Ram, a: Word, b: Byte): Ram {
    ram[a / PAGE_SIZE := WriteByte(ram[a / PAGE_SIZE], a % PAGE_SIZE, b)]
  }

  /** p[i] for a page-aligned array of words that fills at most one page. */
  function LoadIndex(ram: Ram, p: Word, i: nat): Word
    requires p % PAGE_SIZE == 0 && i < WORDS_PER_PAGE
  {
    ReadWord(ram[p / PAGE_SIZE], i)
  }

  function StoreIndex(ram: Ram, p: Word, i: nat, w: Word): Ram
    requires p % PAGE_SIZE == 0 && i < WORDS_PER_PAGE
  {
    ram[p / PAGE_SIZE := WriteWord(ram[p / PAGE_SIZE], i, w)]
  }
}
