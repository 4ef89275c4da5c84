/**
 * The two constant tables of src/crypto/blake2s.rs, the `as u8` cast used to read the packed one,
 * and the 32-bit word operations the hash is built from.
 */
module Blake2sConstants {

  /** The initialization vector (section 2.6 of RFC 7693): the eight 32-bit words the state starts from. */
  const IV: seq<bv32> := [
    0x6A09E667, 0xBB67AE85, 0x3C6EF372, 0xA54FF53A, 0x510E527F, 0x9B05688C, 0x1F83D9AB, 0x5BE0CD19
  ]

  /**
   * The message schedule, packed: entry 2r holds the eight message indices of the column half of
   * round r and entry 2r+1 those of its diagonal half, one index per byte, low byte first.
   */
  const SIGMA: seq<bv64> := [
    0x0706050403020100, 0x0f0e0d0c0b0a0908, 0x060d0f0908040a0e, 0x0305070b02000c01, 0x0d0f0205000c080b,
    0x0409010706030e0a, 0x0e0b0c0d01030907, 0x080f00040a050602, 0x0f0a040207050009, 0x0d0308060c0b010e,
    0x03080b000a060c02, 0x09010e0f05070d04, 0x0a040d0e0f01050c, 0x0b08020903060700, 0x0903010c0e070b0d,
    0x0a020608040f0005, 0x0800030b090e0f06, 0x050a0401070d020c, 0x050106070408020a, 0x000d0c030e090b0f
  ]

  /** `x as u8`: keeps the low eight bits of `x` (the cast truncates). */
  function LowByte(x: bv64): (b: bv8) {
    (x & 0xFF) as bv8
  }

  /** `x.wrapping_add(y)`: addition modulo 2^32. */
  function WrappingAdd(x: bv32, y: bv32): (sum: bv32) {
    x + y
  }

  /** `x ^ y`: bitwise exclusive or. */
  function Xor(x: bv32, y: bv32): (z: bv32) {
    x ^ y
  }

  /** `x.rotate_right(n)`: the low n bits of x move to the top. */
  function RotateRight(x: bv32, n: nat): (y: bv32)
    requires n < 32
  {
    x.RotateRight(n)
  }
}
