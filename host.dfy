// The platform both programs are built for: a little-endian Windows/x86
// host. Winsock's htonl/ntohl reverse the bytes of a 32-bit word there, and
// a multi-byte value is laid out in memory least significant byte first.
// Fixed-width machine values are integers confined to their range; the C++
// casts between signed and unsigned 32-bit integers and the narrowing casts
// of the compute kernel are written out as two's-complement arithmetic.
module Host {

  type Byte = b: int | 0 <= b < 0x100

  /** A value of the C++ type `uint32_t`. */
  type U32 = x: int | 0 <= x < 0x1_0000_0000

  /** A value of the C++ type `uint64_t` (the raw bits of a `double` included). */
  type U64 = x: int | 0 <= x < 0x1_0000_0000_0000_0000

  /** A value of the C++ type `int` (32-bit, two's complement). */
  type I32 = x: int | -0x8000_0000 <= x < 0x8000_0000

  /** A value of the C++ type `long long` (64-bit, two's complement). */
  type I64 = x: int | -0x8000_0000_0000_0000 <= x < 0x8000_0000_0000_0000

  /** The 32-bit word whose four bytes, most significant first, are `b`. */
  function Word(b: seq<Byte>): U32
    requires |b| == 4
  {
    b[3] as int + 0x100 * (b[2] as int + 0x100 * (b[1] as int + 0x100 * b[0] as int))
  }

  /** Byte k of a 32-bit word, byte 0 being the least significant. */
  function ByteOf(x: U32, k: nat): Byte
    requires k < 4
  {
    if k == 0 then x % 0x100
    else if k == 1 then (x / 0x100) % 0x100
    else if k == 2 then ((x / 0x100) / 0x100) % 0x100
    else ((x / 0x100) / 0x100) / 0x100
  }

  /** A word is determined by its bytes ... */
  lemma WordOfBytes(x: U32)
    ensures Word([ByteOf(x, 3), ByteOf(x, 2), ByteOf(x, 1), ByteOf(x, 0)]) == x
  {
  }

  /** ... and the bytes of a word are the ones it was built from. */
  lemma BytesOfWord(b: seq<Byte>)
    requires |b| == 4
    ensures ByteOf(Word(b), 0) == b[3] && ByteOf(Word(b), 1) == b[2]
    ensures ByteOf(Word(b), 2) == b[1] && ByteOf(Word(b), 3) == b[0]
  {
  }

  /** Reverses the four bytes of a 32-bit word. */
  function ByteSwap32(x: U32): U32
  {
    Word([ByteOf(x, 0), ByteOf(x, 1), ByteOf(x, 2), ByteOf(x, 3)])
  }

  /** Reversing the bytes twice gives the word back. */
  lemma ByteSwapInvolution(x: U32)
    ensures ByteSwap32(ByteSwap32(x)) == x
  {
    BytesOfWord([ByteOf(x, 0), ByteOf(x, 1), ByteOf(x, 2), ByteOf(x, 3)]);
    WordOfBytes(x);
  }

  /** Winsock htonl on a little-endian host. */
  function Htonl(x: U32): U32 { ByteSwap32(x) }

  /** Winsock ntohl on a little-endian host. */
  function Ntohl(x: U32): U32 { ByteSwap32(x) }

  /** ntohl undoes htonl, and htonl undoes ntohl. */
  lemma NtohlUndoesHtonl(x: U32)
    ensures Ntohl(Htonl(x)) == x && Htonl(Ntohl(x)) == x
  {
    ByteSwapInvolution(x);
  }

  /** The four bytes a 32-bit word occupies in memory, lowest address first. */
  function StoreHost32(x: U32): (r: seq<Byte>)
    ensures |r| == 4
  {
    [ByteOf(x, 0), ByteOf(x, 1), ByteOf(x, 2), ByteOf(x, 3)]
  }

  /** The 32-bit word that four bytes of memory hold (a reinterpret_cast read). */
  function LoadHost32(b: seq<Byte>): U32
    requires |b| == 4
  {
    Word([b[3], b[2], b[1], b[0]])
  }

  lemma LoadStoreHost32(x: U32)
    ensures LoadHost32(StoreHost32(x)) == x
  {
    WordOfBytes(x);
  }

  lemma StoreLoadHost32(b: seq<Byte>)
    requires |b| == 4
    ensures StoreHost32(LoadHost32(b)) == b
  {
    BytesOfWord([b[3], b[2], b[1], b[0]]);
  }

  /** The low and the high 32-bit halves of a 64-bit word. */
  function Low32(v: U64): U32 { v % 0x1_0000_0000 }
  function High32(v: U64): U32 { v / 0x1_0000_0000 }

  /** The 64-bit word with the given halves. */
  function Join64(high: U32, low: U32): U64
  {
    high as int * 0x1_0000_0000 + low as int
  }

  lemma HalvesOfJoin(high: U32, low: U32)
    ensures High32(Join64(high, low)) == high && Low32(Join64(high, low)) == low
  {
  }

  lemma JoinOfHalves(v: U64)
    ensures Join64(High32(v), Low32(v)) == v
  {
  }

  /** The eight bytes a 64-bit word occupies in memory (a memcpy out of it). */
  function StoreHost64(v: U64): (r: seq<Byte>)
    ensures |r| == 8
  {
    StoreHost32(Low32(v)) + StoreHost32(High32(v))
  }

  /** The 64-bit word that eight bytes of memory hold (a memcpy into it). */
  function LoadHost64(b: seq<Byte>): U64
    requires |b| == 8
  {
    Join64(LoadHost32(b[4..]), LoadHost32(b[..4]))
  }

  lemma LoadStoreHost64(v: U64)
    ensures LoadHost64(StoreHost64(v)) == v
  {
    assert StoreHost64(v)[..4] == StoreHost32(Low32(v));
    assert StoreHost64(v)[4..] == StoreHost32(High32(v));
    LoadStoreHost32(Low32(v));
    LoadStoreHost32(High32(v));
    JoinOfHalves(v);
  }

  /** The conversion of an `int` to `uint32_t` (as htonl's argument). */
  function ToU32(x: I32): (r: U32)
    ensures r % 0x1_0000_0000 == x % 0x1_0000_0000
  {
    if x < 0 then x + 0x1_0000_0000 else x
  }

  /** The conversion of a `uint32_t` to `int`: two's complement. */
  function ToI32(x: U32): (r: I32)
    ensures r % 0x1_0000_0000 == x
  {
    if x < 0x8000_0000 then x else x - 0x1_0000_0000
  }

  /** The two conversions invert each other. */
  lemma SignednessRoundTrip(x: I32, u: U32)
    ensures ToI32(ToU32(x)) == x && ToU32(ToI32(u)) == u
  {
  }

  /** A `long long` product that overflowed, taken modulo 2^64 (the model's
      choice for what C++ leaves undefined). */
  function Wrap64(x: int): I64
  {
    var m := x % 0x1_0000_0000_0000_0000;
    if m < 0x8000_0000_0000_0000 then m else m - 0x1_0000_0000_0000_0000
  }

  /** Wrapping changes a number by a multiple of 2^64 only. */
  lemma Wrap64Congruent(x: int)
    ensures (Wrap64(x) - x) % 0x1_0000_0000_0000_0000 == 0
  {
  }

  /** `static_cast<int>` of a `long long`: only the low 32 bits are kept. */
  function Trunc32(x: int): I32
  {
    var m := x % 0x1_0000_0000;
    if m < 0x8000_0000 then m else m - 0x1_0000_0000
  }

  /** Truncation changes a number by a multiple of 2^32 only. */
  lemma Trunc32Congruent(x: int)
    ensures (Trunc32(x) - x) % 0x1_0000_0000 == 0
  {
  }

  /** The conversion of a `size_t` count to the `int` parameter of
      send_all/recv_all: the low 32 bits, read as two's complement. */
  function SizeToInt(n: nat): (r: I32)
    ensures r <= n
    ensures n < 0x8000_0000 ==> r == n
    ensures 0x8000_0000 <= n < 0x1_0000_0000 ==> r < 0
  {
    ToI32(n % 0x1_0000_0000)
  }

  /** `std::vector<char>::resize(len)`: the first `len` old bytes, then
      zeros. */
  function Resize(v: seq<Byte>, len: nat): (r: seq<Byte>)
    ensures |r| == len
    ensures forall i :: 0 <= i < len ==> r[i] == if i < |v| then v[i] else 0
  {
    if len <= |v| then v[..len] else v + seq(len - |v|, _ => 0)
  }

  /** Taking `j` elements off what is left after `i` elements of a stream
      leaves what is left after `i + j`. */
  lemma SuffixOfSuffix<T>(s: seq<T>, i: nat, j: nat)
    requires i + j <= |s|
    ensures s[i..][j..] == s[i + j..]
  {
  }
}
