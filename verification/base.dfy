/** Values shared by every part of the extraction model: optional values,
    the outcome of one call into the archive reader, Python's truthiness of
    an optional string, and `sep.join(xs)`. */
module Base {

  /** A value that may be absent (Python's `None`). */
  datatype Option<+T> = None | Some(value: T)

  /** The outcome of one call into the archive reader: the value it returned,
      or the exception it raised. */
  datatype Read<+T> = Ok(value: T) | Fails

  /** Python truthiness of a `str` that may be `None`: both `None` and `""` are falsy. */
  predicate Present(o: Option<string>)
  {
    o.Some? && |o.value| > 0
  }

  /** `sep.join(xs)`: the elements in order, with `sep` between neighbours. */
  function Join(xs: seq<string>, sep: string): string
    decreases |xs|
  {
    if |xs| == 0 then ""
    else if |xs| == 1 then xs[0]
    else xs[0] + sep + Join(xs[1..], sep)
  }

  /** Appending one element to the list appends it, after one separator, to the
      joined string; this is how a list built with `append` becomes its join. */
  lemma {:induction false} JoinSnoc(xs: seq<string>, x: string, sep: string)
    ensures Join(xs + [x], sep) == if |xs| == 0 then x else Join(xs, sep) + sep + x
    decreases |xs|
  {
    if |xs| == 0 {
      assert xs + [x] == [x];
    } else if |xs| == 1 {
      assert xs + [x] == [xs[0], x];
      assert [xs[0], x][1..] == [x];
    } else {
      assert (xs + [x])[1..] == xs[1..] + [x];
      JoinSnoc(xs[1..], x, sep);
    }
  }
}
