/** Splitting text at separators, adjacent ones counting as one. */
module Tokens {

  function FirstSeparator(s: string, seps: string): (i: nat)
    ensures i <= |s| && (i < |s| ==> s[i] in seps)
    ensures forall j :: 0 <= j < i ==> s[j] !in seps
  {
    if s == "" || s[0] in seps then 0 else 1 + FirstSeparator(s[1..], seps)
  }

  function SkipSeparators(s: string, seps: string): (r: string)
    ensures |r| <= |s| && (s != "" && s[0] in seps ==> |r| < |s|)
    ensures r == "" || r[0] !in seps
  {
    if s != "" && s[0] in seps then SkipSeparators(s[1..], seps) else s
  }

  /** boost::split with token_compress_on; there is always a first token. */
  function Split(s: string, seps: string): (r: seq<string>)
    ensures r != []
    decreases |s|
  {
    var i := FirstSeparator(s, seps);
    if i == |s| then [s] else [s[..i]] + Split(SkipSeparators(s[i..], seps), seps)
  }

  /** s has none of the separators in it. */
  predicate Clean(s: string, seps: string) {
    forall i :: 0 <= i < |s| ==> s[i] !in seps
  }

  lemma {:induction false} FirstSeparatorAfter(x: string, y: string, seps: string)
    requires Clean(x, seps) && (y == "" || y[0] in seps)
    ensures FirstSeparator(x + y, seps) == |x|
  {
    if x == "" {
      assert x + y == y;
    } else {
      FirstSeparatorAfter(x[1..], y, seps);
      assert (x + y)[1..] == x[1..] + y;
    }
  }

  /** Splitting takes the part before the first separators off. */
  lemma SplitFront(x: string, y: string, seps: string)
    requires Clean(x, seps) && y != "" && y[0] in seps
    ensures Split(x + y, seps) == [x] + Split(SkipSeparators(y, seps), seps)
  {
    FirstSeparatorAfter(x, y, seps);
    assert (x + y)[|x|..] == y && (x + y)[..|x|] == x;
  }

  lemma SplitAlone(x: string, seps: string)
    requires Clean(x, seps)
    ensures Split(x, seps) == [x]
  {
    FirstSeparatorAfter(x, "", seps);
    assert x + "" == x;
  }
}
