/** Small value types shared by every module of the model. */
module Common {

  /** An octet, as Go's `byte`. */
  newtype byte = x: int | 0 <= x < 256

  datatype Option<+T> = None | Some(value: T)

  /** A Go `(value, error)` pair: `Failure(e)` stands for the zero value together with `e`. */
  datatype Result<+T, +E> = Ok(value: T) | Failure(error: E)

  /** Concatenation of two fallible sequences; the left error, if any, wins. */
  function Cat<T, E>(x: Result<seq<T>, E>, y: Result<seq<T>, E>): Result<seq<T>, E>
  {
    if x.Failure? then x
    else if y.Failure? then Failure(y.error)
    else Ok(x.value + y.value)
  }

  lemma CatUnit<T, E>(x: Result<seq<T>, E>)
    ensures Cat(Ok([]), x) == x && Cat(x, Ok([])) == x
  {
    if x.Ok? {
      assert [] + x.value == x.value && x.value + [] == x.value;
    }
  }

  lemma CatAssoc<T, E>(x: Result<seq<T>, E>, y: Result<seq<T>, E>, z: Result<seq<T>, E>)
    ensures Cat(Cat(x, y), z) == Cat(x, Cat(y, z))
  {
    if x.Ok? && y.Ok? && z.Ok? {
      assert x.value + y.value + z.value == x.value + (y.value + z.value);
    }
  }

  function Min(a: nat, b: nat): nat { if a <= b then a else b }
}
