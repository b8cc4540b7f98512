/** Shared value types of the catalogue model: optional values, outcomes of
    guarded operations, and the shapes request fields arrive in. */
module Common {

  datatype Option<+T> = None | Some(value: T)

  datatype Result<+T, +E> = Success(value: T) | Failure(error: E)

  /** A numeric request field as a validator sees it: absent, an integer, or
      something `isInt` refuses (a fraction, a word, an empty string). */
  datatype NumField = Missing | Int(n: int) | NotInt

  /** The request fields a validation error can name. */
  datatype Field = Title | Author | Genre | Description | PublishedYear | Rating | Comment | Query

  /** `[f]` when its rule failed, nothing otherwise. */
  function Report(failed: bool, f: Field): (r: seq<Field>)
    ensures f in r <==> failed
    ensures forall g :: g in r ==> g == f
    ensures |r| == Count(failed)
  {
    if failed then [f] else []
  }

  function Count(failed: bool): nat {
    if failed then 1 else 0
  }

  /** `a / d` is the floor of the quotient, for a positive divisor. */
  lemma DivBounds(a: int, d: int)
    requires d > 0
    ensures (a / d) * d <= a < (a / d) * d + d
  {
  }

  lemma MulSucc(k: int, n: int)
    ensures (k - 1) * n + n == k * n
  {
  }

  lemma MulMono(a: int, b: int, n: nat)
    requires a <= b
    ensures a * n <= b * n
  {
  }
}
