/** Small pieces shared by the job-control and the shell modules. */
module Common {

  /** A value that may be absent: the model's stand-in for a C pointer that may be NULL. */
  datatype Option<T> = None | Some(value: T)

  /** What `realloc` does to a buffer that grows: a fresh, larger array whose
      first `a.Length` slots hold the old contents. The new tail, which C leaves
      uninitialised, is filled with `fill`. */
  method Grow<T>(a: array<T>, extra: nat, fill: T) returns (b: array<T>)
    ensures fresh(b)
    ensures b.Length == a.Length + extra
    ensures b[..a.Length] == a[..]
  {
    b := new T[a.Length + extra](_ => fill);
    var i := 0;
    while i < a.Length
      invariant 0 <= i <= a.Length
      invariant b[..i] == a[..i]
    {
      b[i] := a[i];
      i := i + 1;
    }
    assert b[..a.Length] == b[..i];
  }
}
