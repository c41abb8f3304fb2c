// Bytes, big-endian integers and the option/result types shared by every module.
module Bytes {
  type byte = x: int | 0 <= x < 256
  type Bytes = seq<byte>
  type u16 = x: int | 0 <= x < 0x1_0000
  type u32 = x: int | 0 <= x < 0x1_0000_0000
  type u64 = x: int | 0 <= x < 0x1_0000_0000_0000_0000

  datatype Option<+T> = None | Some(value: T)

  // The ways the modelled operations fail. Message texts are not modelled.
  datatype Error =
    | TooLarge            // "needed_size exceeds max_size"
    | BadLength           // "bad length to read"
    | BadBool
    | BadString
    | MissingVariant      // "unexpected Nones in Transferable..."
    | UnknownTypeId(id: nat)
    | BadHex
    | BadChecksum
    | SignerFailed

  datatype Result<+T> = Ok(value: T) | Err(error: Error) {
    predicate IsFailure() {
      Err?
    }

    function PropagateFailure<U>(): Result<U>
      requires Err?
    {
      Err(error)
    }

    function Extract(): T
      requires Ok?
    {
      value
    }
  }

  /** The result of an operation that returns nothing on success. */
  datatype Outcome = Pass | Fail(error: Error) {
    predicate IsFailure() {
      Fail?
    }

    function PropagateFailure(): Outcome
      requires Fail?
    {
      this
    }
  }

  function Zeros(n: nat): (b: Bytes)
    ensures |b| == n
    ensures forall i :: 0 <= i < n ==> b[i] == 0
  {
    if n == 0 then [] else [0] + Zeros(n - 1)
  }

  function MapSeq<A, B>(f: A -> B, xs: seq<A>): (ys: seq<B>)
    ensures |ys| == |xs|
    ensures forall i :: 0 <= i < |xs| ==> ys[i] == f(xs[i])
  {
    if xs == [] then [] else [f(xs[0])] + MapSeq(f, xs[1..])
  }

  /** 256^n: the number of values an n-byte unsigned integer can hold. */
  function Pow256(n: nat): (p: nat)
    ensures p > 0
    ensures n <= 8 ==> p == [0x1, 0x100, 0x1_0000, 0x100_0000, 0x1_0000_0000, 0x100_0000_0000,
                             0x1_0000_0000_0000, 0x100_0000_0000_0000, 0x1_0000_0000_0000_0000][n]
  {
    if n == 0 then 1 else 256 * Pow256(n - 1)
  }

  function Modulo(x: nat, m: nat): (r: nat)
    requires m > 0
    ensures r < m
    ensures x < m ==> r == x
  {
    x % m
  }

  /** `x as uN` for an n-byte unsigned type: the low n bytes of x. */
  function Cast(n: nat, x: nat): (y: nat)
    ensures y < Pow256(n)
    ensures x < Pow256(n) ==> y == x
  {
    Modulo(x, Pow256(n))
  }

  lemma CastIs(n: nat, x: nat)
    ensures Cast(n, x) == x % Pow256(n)
  {
  }

  /** The n-byte big-endian form of x, most significant byte first. */
  function BigEndian(n: nat, x: nat): (b: Bytes)
    ensures |b| == n
  {
    if n == 0 then [] else BigEndian(n - 1, x / 256) + [x % 256]
  }

  function Be4(x: u32): Bytes { BigEndian(4, x) }

  function Be8(x: u64): Bytes { BigEndian(8, x) }

  /** The unsigned integer that b spells in big-endian order. */
  function FromBigEndian(b: Bytes): (x: nat) {
    if b == [] then 0 else FromBigEndian(b[..|b| - 1]) * 256 + b[|b| - 1]
  }

  lemma {:induction false} FromBigEndianBound(b: Bytes)
    ensures FromBigEndian(b) < Pow256(|b|)
  {
    if b != [] {
      FromBigEndianBound(b[..|b| - 1]);
    }
  }

  lemma {:induction false} BigEndianInverts(n: nat, x: nat)
    requires x < Pow256(n)
    ensures FromBigEndian(BigEndian(n, x)) == x
  {
    if n > 0 {
      BigEndianInverts(n - 1, x / 256);
      var b := BigEndian(n, x);
      assert b[..n - 1] == BigEndian(n - 1, x / 256);
    }
  }

  lemma {:induction false} FromBigEndianInverts(b: Bytes)
    ensures BigEndian(|b|, FromBigEndian(b)) == b
  {
    if b != [] {
      FromBigEndianInverts(b[..|b| - 1]);
      assert b == b[..|b| - 1] + [b[|b| - 1]];
    }
  }
}
