/** String helpers with the semantics of the JavaScript string methods the
    graph projection relies on. Strings are sequences of characters. */
module Text {

  /** `s.slice(-n)` for n > 0: the last n characters of s, or all of s when
      it is shorter than n (no padding, no error). */
  function LastN(s: string, n: nat): (r: string)
    ensures |r| == if |s| < n then |s| else n
    decreases |s|
  {
    if n == 0 || s == [] then [] else LastN(s[..|s| - 1], n - 1) + [s[|s| - 1]]
  }

  /** The result of LastN is the suffix of s of that length. */
  lemma {:induction false} LastNIsSuffix(s: string, n: nat)
    ensures LastN(s, n) == s[|s| - |LastN(s, n)|..]
    decreases |s|
  {
    if n > 0 && s != [] {
      var p := s[..|s| - 1];
      LastNIsSuffix(p, n - 1);
      var r := LastN(p, n - 1);
      assert p[|p| - |r|..] + [s[|s| - 1]] == s[|s| - |r| - 1..];
    }
  }

  /** A string no longer than n is kept whole: slice(-n) neither pads nor fails. */
  lemma {:induction false} LastNWhole(s: string, n: nat)
    requires |s| <= n
    ensures LastN(s, n) == s
    decreases |s|
  {
    if s != [] {
      LastNWhole(s[..|s| - 1], n - 1);
      assert s[..|s| - 1] + [s[|s| - 1]] == s;
    }
  }

  /** Taking a suffix of s + [c] keeps c and takes one character fewer from s. */
  lemma LastNAppend(s: string, c: char, n: nat)
    requires n > 0
    ensures LastN(s + [c], n) == LastN(s, n - 1) + [c]
  {
    assert (s + [c])[..|s|] == s;
  }
}
