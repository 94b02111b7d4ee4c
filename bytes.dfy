/** Fixed-width machine integers and their little-endian byte encodings.
    The decoded header stores `u16`, `u32` and `i32` values; on disk each is
    a run of bytes, least significant byte first. */
module Bytes {

  type byte = x: int | 0 <= x < 0x100
  type u16 = x: int | 0 <= x < 0x1_0000
  type u32 = x: int | 0 <= x < 0x1_0000_0000
  type i32 = x: int | -0x8000_0000 <= x < 0x8000_0000

  /** 256 to the power n: the number of distinct values of n bytes. */
  function Pow256(n: nat): (r: nat)
    ensures r > 0
  {
    if n == 0 then 1 else 256 * Pow256(n - 1)
  }

  /** The unsigned value of bytes `s`, read least significant byte first. */
  function LeValue(s: seq<byte>): (r: nat)
    ensures r < Pow256(|s|)
  {
    if s == [] then 0 else s[0] + 256 * LeValue(s[1..])
  }

  /** The n least significant bytes of v, least significant byte first. */
  function LeBytes(v: nat, n: nat): (s: seq<byte>)
    ensures |s| == n
  {
    if n == 0 then [] else [v % 256] + LeBytes(v / 256, n - 1)
  }

  /** Reading back what was written: n bytes hold every value below 256^n. */
  lemma {:induction false} LeValueOfLeBytes(v: nat, n: nat)
    requires v < Pow256(n)
    ensures LeValue(LeBytes(v, n)) == v
  {
    if n > 0 {
      LeValueOfLeBytes(v / 256, n - 1);
      assert LeBytes(v, n)[1..] == LeBytes(v / 256, n - 1);
    }
  }

  /** Different values below 256^n have different n-byte encodings. */
  lemma LeBytesInjective(x: nat, y: nat, n: nat)
    requires x < Pow256(n) && y < Pow256(n)
    requires LeBytes(x, n) == LeBytes(y, n)
    ensures x == y
  {
    LeValueOfLeBytes(x, n);
    LeValueOfLeBytes(y, n);
  }

  /** Writing back what was read: no byte pattern is lost by reading it as a number. */
  lemma {:induction false} LeBytesOfLeValue(s: seq<byte>)
    ensures LeBytes(LeValue(s), |s|) == s
  {
    if s != [] {
      LeBytesOfLeValue(s[1..]);
      var v := LeValue(s);
      assert v % 256 == s[0] && v / 256 == LeValue(s[1..]);
    }
  }

  /** All-zero bytes read as zero, and zero is written as all-zero bytes. */
  lemma {:induction false} ZeroBytes(n: nat)
    ensures LeValue(seq(n, _ => 0)) == 0
    ensures LeBytes(0, n) == seq(n, _ => 0)
  {
    if n > 0 {
      ZeroBytes(n - 1);
      assert seq(n, _ => 0)[1..] == seq(n - 1, _ => 0);
    }
  }

  /** Four bytes read as a 32-bit little-endian word, written out place by place. */
  lemma LeValueOfFourBytes(s: seq<byte>)
    requires |s| == 4
    ensures LeValue(s) == s[0] as int + 0x100 * s[1] as int + 0x1_0000 * s[2] as int + 0x100_0000 * s[3] as int
  {
    assert LeValue(s[3..]) == s[3] by { assert s[3..][1..] == []; }
    assert LeValue(s[2..]) == s[2] + 256 * LeValue(s[3..]) by { assert s[2..][1..] == s[3..]; }
    assert LeValue(s[1..]) == s[1] + 256 * LeValue(s[2..]) by { assert s[1..][1..] == s[2..]; }
  }

  /** Two's-complement reading of a 32-bit word, as a Rust `i32` holds it. */
  function ToI32(u: u32): (x: i32)
    ensures (u - x) % 0x1_0000_0000 == 0
    ensures x < 0 <==> u >= 0x8000_0000
  {
    if u < 0x8000_0000 then u else u - 0x1_0000_0000
  }

  /** The 32-bit word that holds an `i32` in two's complement. */
  function FromI32(x: i32): (u: u32)
    ensures (u - x) % 0x1_0000_0000 == 0
    ensures 0 <= x ==> u == x
    ensures ToI32(u) == x
  {
    if x < 0 then x + 0x1_0000_0000 else x
  }

  /** Every word is the two's-complement encoding of exactly one `i32`. */
  lemma FromToI32(u: u32)
    ensures FromI32(ToI32(u)) == u
  {
  }
}

/** Optional values and the error-or-value result of an operation that can fail. */
module Wrappers {

  datatype Option<+T> = None | Some(value: T)

  datatype Result<+T, +E> = Success(value: T) | Failure(error: E)
}
