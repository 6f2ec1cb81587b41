/** Types and constants shared by the models. */
module Common {
  /** An unsigned char. */
  type byte = x: int | 0 <= x < 256

  /** UINT_MAX for a 32-bit unsigned int. */
  const UINT_MAX := 0xFFFF_FFFF

  /** Arithmetic on unsigned int wraps modulo two to the thirty-second. */
  function U32(x: int): (r: nat)
    ensures r <= UINT_MAX
    ensures 0 <= x <= UINT_MAX ==> r == x
  {
    x % 0x1_0000_0000
  }

  // Error codes (negated errno values) that the modelled functions return.
  const UV_E2BIG := -7
  const UV_EBADF := -9
  const UV_ENOMEM := -12
  const UV_EBUSY := -16
  const UV_EINVAL := -22
  const UV_ENOSPC := -28
  const UV_EPIPE := -32
  const UV_EAGAIN := -35
  const UV_EINPROGRESS := -36
  const UV_EAFNOSUPPORT := -47
  const UV_ENOBUFS := -55
  const UV_ENOTCONN := -57
  const UV_ECANCELED := -89

  // uv__queue_remove on a queue that is modelled as a sequence.

  predicate NoDuplicates<T(==)>(s: seq<T>) {
    forall i, j :: 0 <= i < j < |s| ==> s[i] != s[j]
  }

  function Without<T(==)>(s: seq<T>, x: T): (r: seq<T>)
    ensures |r| <= |s| && (x !in s ==> r == s)
    ensures forall y :: y in s ==> (y in r <==> y != x)
    ensures forall y :: y in r ==> y in s
  {
    if s == [] then []
    else
      var init, last := s[..|s| - 1], s[|s| - 1];
      assert s == init + [last];
      Without(init, x) + if last == x then [] else [last]
  }

  lemma {:induction false} WithoutNoDuplicates<T>(s: seq<T>, x: T)
    requires NoDuplicates(s)
    ensures NoDuplicates(Without(s, x))
    decreases |s|
  {
    if s != [] {
      var init := s[..|s| - 1];
      WithoutNoDuplicates(init, x);
      assert forall i :: 0 <= i < |Without(init, x)| ==> Without(init, x)[i] in init;
    }
  }

  datatype Option<+T> = None | Some(value: T)

  datatype Result<+T> = Ok(value: T) | Err(code: int)
}
