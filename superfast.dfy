/**
 * Paul Hsieh's SuperFastHash as kmod's hash table uses it to pick a bucket
 * (hash_superfast in shared/hash.c). Every quantity is a 32-bit unsigned
 * int, so the whole computation is done in bv32, where shifts drop the bits
 * that leave the word and additions wrap, exactly as in C.
 *
 * Keys are the bytes of a C string before its terminating NUL. The 16-bit
 * reads take them as unsigned; the trailing single-byte reads go through
 * plain char (see Char).
 */
module SuperFast {
  import opened KeyOrder

  /** strlen(key) stored into an unsigned int: the length modulo 2^32. */
  function KeyLen(key: Key): (len: nat)
    ensures len <= |key| && len < 0x1_0000_0000
    ensures |key| < 0x1_0000_0000 ==> len == |key|
  {
    |key| % 0x1_0000_0000
  }

  /** get_unaligned((uint16_t *)p): the two bytes at i and i+1 as a little-endian word. */
  function Get16(key: Key, i: nat): (w: bv32)
    requires i + 1 < |key|
    ensures w < 0x1_0000
    ensures w & 0xFF == key[i] as bv32 && w >> 8 == key[i + 1] as bv32
  {
    (key[i] as bv32) | ((key[i + 1] as bv32) << 8)
  }

  /**
   * Whether plain char is signed, as on x86-64. hash_superfast reads its
   * trailing bytes through plain char, so there a byte above 0x7F is
   * sign-extended when widened to unsigned int.
   */
  const CHAR_IS_SIGNED: bool := true

  /** A key byte read through a plain char and widened to unsigned int. */
  function Char(b: bv8): (w: bv32)
    ensures w & 0xFF == b as bv32
    ensures b < 0x80 ==> w == b as bv32
    ensures CHAR_IS_SIGNED && b >= 0x80 ==> w >> 8 == 0xFF_FFFF
  {
    if CHAR_IS_SIGNED && b >= 0x80 then b as bv32 | 0xFFFF_FF00 else b as bv32
  }

  /** One round of the main loop, consuming the four bytes at offset off. */
  function Round(hash: bv32, key: Key, off: nat): bv32
    requires off + 3 < |key|
  {
    var h1 := hash + Get16(key, off);
    var tmp := (Get16(key, off + 2) << 11) ^ h1;
    var h2 := (h1 << 16) ^ tmp;
    h2 + (h2 >> 11)
  }

  /** The state after the first n rounds, starting from the key length. */
  function Rounds(key: Key, n: nat): bv32
    requires 4 * n <= KeyLen(key)
  {
    if n == 0 then KeyLen(key) as bv32
    else Round(Rounds(key, n - 1), key, 4 * (n - 1))
  }

  /** The end case for the rem = len & 3 trailing bytes at offset off. */
  function Tail(hash: bv32, key: Key, off: nat, rem: nat): bv32
    requires rem < 4 && off + rem <= |key|
  {
    if rem == 3 then
      var h1 := hash + Get16(key, off);
      var h2 := h1 ^ (h1 << 16);
      var h3 := h2 ^ (Char(key[off + 2]) << 18);
      h3 + (h3 >> 11)
    else if rem == 2 then
      var h1 := hash + Get16(key, off);
      var h2 := h1 ^ (h1 << 11);
      h2 + (h2 >> 17)
    else if rem == 1 then
      var h1 := hash + Char(key[off]);
      var h2 := h1 ^ (h1 << 10);
      h2 + (h2 >> 1)
    else
      hash
  }

  /** The final avalanche of six shift-and-mix steps. */
  function Avalanche(hash: bv32): bv32 {
    var h1 := hash ^ (hash << 3);
    var h2 := h1 + (h1 >> 5);
    var h3 := h2 ^ (h2 << 4);
    var h4 := h3 + (h3 >> 17);
    var h5 := h4 ^ (h4 << 25);
    h5 + (h5 >> 6)
  }

  /** The digest of a key: all full rounds, the end case, then the avalanche. */
  function Digest(key: Key): bv32 {
    var len := KeyLen(key);
    Avalanche(Tail(Rounds(key, len / 4), key, 4 * (len / 4), len % 4))
  }

  /** hash_superfast: the main loop, then the end case and the avalanche. */
  method HashSuperfast(key: Key) returns (hash: bv32)
    ensures hash == Digest(key)
  {
    var len := KeyLen(key);
    var rem := len % 4;
    var off;
    hash, off := MainLoop(key);
    hash := Tail(hash, key, off, rem);
    hash := Avalanche(hash);
  }

  /**
   * The main loop of hash_superfast, counting the remaining rounds down:
   * returns the state after every full round and the offset of the tail.
   */
  method MainLoop(key: Key) returns (hash: bv32, off: nat)
    ensures off == 4 * (KeyLen(key) / 4) && hash == Rounds(key, KeyLen(key) / 4)
  {
    var len := KeyLen(key);
    hash := len as bv32;
    var left := len / 4;
    off := 0;
    ghost var n := 0;
    while left > 0
      invariant left + n == len / 4 && off == 4 * n && off + 4 * left <= len
      invariant hash == Rounds(key, n)
    {
      hash := Step(key, hash, off, n);
      off := off + 4;
      left := left - 1;
      n := n + 1;
    }
    assert n == len / 4;
  }

  /** Known answer: the digest of "abc", a key with a three-byte end case. */
  lemma DigestAbc()
    ensures Digest([0x61, 0x62, 0x63]) == 0xD2BE_198A
  {
    var key: Key := [0x61, 0x62, 0x63];
    assert KeyLen(key) == 3 && Rounds(key, 0) == 3;
    assert Get16(key, 0) == 0x6261 && Char(key[2]) == 0x63;
    assert Tail(3, key, 0, 3) == 0x63F4_DF70;
    assert Avalanche(0x63F4_DF70) == 0xD2BE_198A;
  }

  /**
   * Known answer: the one-byte key 0xFF. Read through a signed char the byte
   * widens to 0xFFFF_FFFF, which cancels the length 1, so the digest is 0.
   */
  lemma DigestSignedByte()
    ensures Digest([0xFF]) == 0
  {
    var key: Key := [0xFF];
    assert KeyLen(key) == 1 && Rounds(key, 0) == 1;
    assert Char(key[0]) == 0xFFFF_FFFF;
    assert Tail(1, key, 0, 1) == 0;
    assert Avalanche(0) == 0;
  }

  /** Known answer: the digest of "abcd", one full round and no end case. */
  lemma DigestAbcd()
    ensures Digest([0x61, 0x62, 0x63, 0x64]) == 0xDAD8_B8DB
  {
    var key: Key := [0x61, 0x62, 0x63, 0x64];
    assert KeyLen(key) == 4 && Rounds(key, 0) == 4;
    assert Get16(key, 0) == 0x6261 && Get16(key, 2) == 0x6463;
    assert Round(4, key, 0) == 0x6152_A334;
    assert Rounds(key, 1) == 0x6152_A334;
    assert Tail(0x6152_A334, key, 4, 0) == 0x6152_A334;
    assert Avalanche(0x6152_A334) == 0xDAD8_B8DB;
  }

  /** One pass of the main loop: the state after n rounds becomes the state after n + 1. */
  method Step(key: Key, hash: bv32, off: nat, ghost n: nat) returns (next: bv32)
    requires off == 4 * n && off + 4 <= KeyLen(key) && hash == Rounds(key, n)
    ensures next == Rounds(key, n + 1)
  {
    next := Round(hash, key, off);
  }
}
