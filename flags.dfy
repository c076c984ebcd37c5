/** Rows of boolean class flags (`active` on documentation links, `expanded`
    on project cards), and the single-selection shape both handlers produce. */
module Flags {

  /** How many flags in `s` are set. */
  function CountTrue(s: seq<bool>): (r: nat)
    ensures r <= |s|
    ensures r == 0 <==> forall j :: 0 <= j < |s| ==> !s[j]
  {
    if s == [] then 0 else (if s[0] then 1 else 0) + CountTrue(s[1..])
  }

  /** The row of `n` flags in which only flag `i` is set. */
  function Exclusive(n: nat, i: nat): (r: seq<bool>)
    requires i < n
    ensures |r| == n && r[i]
    ensures forall j :: 0 <= j < n && j != i ==> !r[j]
    ensures CountTrue(r) == 1
  {
    var r := seq(n, j => j == i);
    CountOfSingleton(r, i);
    r
  }

  /** A row in which exactly flag `i` is set holds exactly one set flag. */
  lemma {:induction false} CountOfSingleton(s: seq<bool>, i: nat)
    requires i < |s| && s[i]
    requires forall j :: 0 <= j < |s| && j != i ==> !s[j]
    ensures CountTrue(s) == 1
  {
    if i == 0 {
      assert CountTrue(s[1..]) == 0;
    } else {
      CountOfSingleton(s[1..], i - 1);
    }
  }

  /** Conversely, a row with exactly one set flag is `Exclusive` at that flag. */
  lemma {:induction false} SingletonOfCount(s: seq<bool>, i: nat)
    requires i < |s| && s[i] && CountTrue(s) == 1
    ensures s == Exclusive(|s|, i)
  {
    if i == 0 {
      assert CountTrue(s[1..]) == 0;
    } else {
      assert s[1..][i - 1];
      assert !s[0];
      SingletonOfCount(s[1..], i - 1);
      assert s == [s[0]] + s[1..];
    }
  }
}
