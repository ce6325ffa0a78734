/** Value types shared by every part of the model. */
module Common {

  /** An unsigned 8-bit value, as `uint8_t` in the source. */
  type byte = x: int | 0 <= x < 256

  /** One PCM sample: `mp3d_sample_t`, a signed 16-bit integer in the default build. */
  type sample = x: int | -32768 <= x < 32768

  /** A value that may be absent: a null pointer or a field left untouched. */
  datatype Option<+T> = None | Some(value: T)

  /**
    a times b, written as repeated addition so that the verifier only unfolds it on
    demand; ProductIsMul connects it to multiplication where a proof needs that.
  */
  function Product(a: nat, b: nat): nat
  {
    if a == 0 then 0 else Product(a - 1, b) + b
  }

  lemma {:induction false} ProductIsMul(a: nat, b: nat)
    ensures Product(a, b) == a * b
  {
    if a > 0 {
      ProductIsMul(a - 1, b);
    }
  }

  /** 2 to the power n. */
  function Pow2(n: nat): (r: nat)
    ensures r >= 1
  {
    if n == 0 then 1 else 2 * Pow2(n - 1)
  }

  /**
    Sequence concatenation is associative. Dafny proves this alone; proofs over long
    sequence terms call it to get this one fact, without searching for it among many others.
  */
  lemma AppendAssoc<T>(a: seq<T>, b: seq<T>, c: seq<T>)
    ensures (a + b) + c == a + (b + c)
  {
  }

  /**
    Equality is transitive. Dafny proves this alone; stated over a type parameter it lets
    a proof about large values (a loader the loop leaves) conclude `a == d` without the
    solver comparing the two values field by field.
  */
  lemma EqualTrans<T>(a: T, b: T, d: T)
    requires a == b && b == d
    ensures a == d
  {
  }

  /**
    `k` copies of `x`. Fresh memory is zero-filled (`calloc`), or its contents are never
    read before being written (`malloc`, `realloc`), so zeros stand in for it.
  */
  function Repeat<T>(x: T, k: nat): (s: seq<T>)
    ensures |s| == k && forall i | 0 <= i < k :: s[i] == x
  {
    if k == 0 then [] else [x] + Repeat(x, k - 1)
  }
}
