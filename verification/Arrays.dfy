/** Copying into arrays. */
module Arrays {
  /** Fills the array with the sequence. */
  method CopyFrom<T>(a: array<T>, s: seq<T>)
    requires a.Length == |s|
    modifies a
    ensures a[..] == s
  {
    var i := 0;
    while i < |s|
      invariant 0 <= i <= |s| && forall k :: 0 <= k < i ==> a[k] == s[k]
    {
      a[i] := s[i];
      i := i + 1;
    }
  }
}
