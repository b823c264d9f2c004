/** Small shared datatypes: optional values, C-style results and bytes. */
module Outcomes {

  datatype Option<+T> = None | Some(value: T)

  datatype Result<+T, +E> = Success(value: T) | Failure(error: E)

  /** An unsigned char. */
  type Byte = b: int | 0 <= b < 256

  /** What a C `char *` points at, without its terminating NUL. */
  type CString = s: seq<Byte> | 0 !in s

  /** The first position of `b` in `s`, or |s|: strchr. */
  function Find(s: seq<Byte>, b: Byte): (i: nat)
    ensures i <= |s|
    ensures b !in s[..i]
    ensures i < |s| ==> s[i] == b
  {
    if s == [] then 0
    else if s[0] == b then 0
    else
      var i := Find(s[1..], b);
      assert s[..i + 1] == [s[0]] + s[1..][..i];
      i + 1
  }

  lemma {:induction false} FindFirst(a: seq<Byte>, b: Byte, rest: seq<Byte>)
    requires b !in a
    ensures Find(a + [b] + rest, b) == |a|
  {
    if a != [] {
      assert (a + [b] + rest)[1..] == a[1..] + [b] + rest;
      FindFirst(a[1..], b, rest);
    }
  }

  lemma Slice<T>(s: seq<T>, a: nat, b: nat, c: nat, d: nat)
    requires a <= b <= |s| && c <= d <= b - a
    ensures s[a..b][c..d] == s[a + c..a + d]
  {
    var u, v := s[a..b][c..d], s[a + c..a + d];
    assert forall i :: 0 <= i < d - c ==> u[i] == s[a..b][c + i] == v[i];
  }
}
