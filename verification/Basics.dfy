/** Machine integers, bytes and the two wrapper types every other module uses. */
module Basics {

  type byte = x: int | 0 <= x < 0x100
  type u16 = x: int | 0 <= x < 0x1_0000
  type u32 = x: int | 0 <= x < 0x1_0000_0000
  type u64 = x: int | 0 <= x < 0x1_0000_0000_0000_0000

  // The model is of a 64-bit target.
  type usize = u64

  const U16_MODULUS := 0x1_0000
  const U32_MODULUS := 0x1_0000_0000
  const U64_MODULUS := 0x1_0000_0000_0000_0000

  function Min(a: int, b: int): int {
    if a <= b then a else b
  }

  function SaturatingAdd(a: u64, b: u64): u64 {
    Min(a + b, U64_MODULUS - 1)
  }

  function SaturatingSub(a: u64, b: u64): u64 {
    if a < b then 0 else a - b
  }

  // The lesser of the two; a sum or difference that is exact unless it leaves 64 bits.
  lemma ArithmeticIsExact(a: u64, b: u64)
    ensures Min(a, b) <= a && Min(a, b) <= b && (Min(a, b) == a || Min(a, b) == b)
    ensures SaturatingAdd(a, b) == a + b || SaturatingAdd(a, b) == 0xFFFF_FFFF_FFFF_FFFF < a + b
    ensures SaturatingSub(a, b) + b == a || (SaturatingSub(a, b) == 0 && a < b)
  {
  }

  datatype Option<+T> = None | Some(value: T)

  // The error families of the stack, without their diagnostic text.
  // `Reader` stands for whatever a concrete opener raises.
  datatype Error =
    | Io
    | Decode
    | OutOfRange
    | NeedCredentials
    | InvalidInput
    | Reader(code: int)

  datatype VfsResult<+T> = Ok(value: T) | Err(error: Error) {
    predicate IsFailure() {
      Err?
    }

    function PropagateFailure<U>(): VfsResult<U>
      requires Err?
    {
      Err(error)
    }

    function Extract(): T
      requires Ok?
    {
      value
    }
  }

  // What was done so far, put in front of the outcome of the rest.
  function Prepend<T>(done: seq<T>, rest: VfsResult<seq<T>>): VfsResult<seq<T>> {
    match rest
    case Err(e) => Err(e)
    case Ok(more) => Ok(done + more)
  }

  lemma PrependNothing<T>(rest: VfsResult<seq<T>>)
    ensures Prepend([], rest) == rest
  {
    if rest.Ok? {
      assert [] + rest.value == rest.value;
    }
  }

  lemma PrependTwice<T>(a: seq<T>, b: seq<T>, rest: VfsResult<seq<T>>)
    ensures Prepend(a, Prepend(b, rest)) == Prepend(a + b, rest)
  {
    if rest.Ok? {
      assert a + (b + rest.value) == (a + b) + rest.value;
    }
  }

  lemma SliceOfSlice<T>(s: seq<T>, from: nat, len: nat, off: nat, n: nat)
    requires from + len <= |s| && off + n <= len
    ensures s[from..from + len][off..off + n] == s[from + off..from + off + n]
  {
    var inner, outer := s[from..from + len][off..off + n], s[from + off..from + off + n];
    forall k | 0 <= k < n ensures inner[k] == outer[k] {
      assert inner[k] == s[from..from + len][off + k] == s[from + (off + k)];
    }
    assert inner == outer;
  }
}
