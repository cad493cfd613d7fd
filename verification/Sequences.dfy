/** Closing a gap in a table by moving the later entries down one place, as the source's loops do. */
module Sequences {

  /** The table with entries k + 1 to j moved down: entry j still stands in its old place too. */
  ghost function MovedDown<T>(s: seq<T>, k: nat, j: nat): (t: seq<T>)
    requires k <= j < |s|
    ensures |t| == |s|
  {
    s[..k] + s[k + 1..j + 1] + s[j..]
  }

  lemma MoveOneDown<T>(s: seq<T>, k: nat, j: nat)
    requires k <= j < |s| - 1
    ensures MovedDown(s, k, j)[j + 1] == s[j + 1]
    ensures MovedDown(s, k, j)[j := s[j + 1]] == MovedDown(s, k, j + 1)
  {
    assert s[k + 1..j + 2] == s[k + 1..j + 1] + [s[j + 1]];
    assert s[j..] == [s[j]] + s[j + 1..];
    assert MovedDown(s, k, j) == (s[..k] + s[k + 1..j + 1]) + [s[j]] + s[j + 1..];
    assert MovedDown(s, k, j + 1) == (s[..k] + s[k + 1..j + 1]) + [s[j + 1]] + s[j + 1..];
  }

  lemma NothingMoved<T>(s: seq<T>, k: nat)
    requires k < |s|
    ensures MovedDown(s, k, k) == s
  {
    assert s == s[..k] + s[k..];
  }

  /** Once entries up to n - 1 are moved, the first n - 1 entries are those without entry k. */
  lemma GapClosed<T>(s: seq<T>, k: nat, n: nat)
    requires k < n <= |s|
    ensures MovedDown(s, k, n - 1)[..n - 1] == s[..k] + s[k + 1..n]
    ensures MovedDown(s, k, n - 1)[n..] == s[n..]
  {
    var t := MovedDown(s, k, n - 1);
    assert t == (s[..k] + s[k + 1..n]) + s[n - 1..];
    assert s[n - 1..][1..] == s[n..];
  }
}
