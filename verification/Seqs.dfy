/** A fact about slices. */
module Seqs {

  lemma SliceOfSlice<T>(s: seq<T>, at: nat, len: nat, skip: nat, n: nat)
    requires at + len <= |s| && skip + n <= len
    ensures s[at..at + len][skip..skip + n] == s[at + skip..at + skip + n]
  {
    var a, b := s[at..at + len][skip..skip + n], s[at + skip..at + skip + n];
    assert |a| == |b| == n;
    forall i | 0 <= i < n ensures a[i] == b[i] {}
  }
}
