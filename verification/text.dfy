/** `Array.prototype.join` with a one-character separator, and its inverse. */
module Text {

  /** `xs.join([sep])`; the empty list joins to "". */
  function Join(xs: seq<string>, sep: char): (r: string)
    ensures |xs| > 0 ==> xs[0] <= r
    ensures |xs| > 0 ==> |xs[|xs| - 1]| <= |r| && r[|r| - |xs[|xs| - 1]|..] == xs[|xs| - 1]
    ensures |r| >= |xs| - 1
  {
    if |xs| == 0 then "" else if |xs| == 1 then xs[0] else xs[0] + [sep] + Join(xs[1..], sep)
  }

  /** `R.repeat(x, n)`. */
  function Repeat(x: string, n: nat): (xs: seq<string>)
    ensures |xs| == n && forall i :: 0 <= i < n ==> xs[i] == x
  {
    if n == 0 then [] else [x] + Repeat(x, n - 1)
  }

  /** The index of the first `c` in `s`. */
  function IndexOf(s: string, c: char): (i: nat)
    requires c in s
    ensures i < |s| && s[i] == c && c !in s[..i]
  {
    if s[0] == c then 0 else assert c in s[1..]; 1 + IndexOf(s[1..], c)
  }

  /** Cut `s` at every `sep`. */
  function Split(s: string, sep: char): (parts: seq<string>)
    ensures |parts| > 0
    ensures forall i :: 0 <= i < |parts| ==> sep !in parts[i]
    decreases |s|
  {
    if sep !in s then [s]
    else
      var i := IndexOf(s, sep);
      [s[..i]] + Split(s[i + 1..], sep)
  }

  lemma {:induction false} IndexOfFirstSeparator(a: string, sep: char, rest: string)
    requires sep !in a
    ensures IndexOf(a + [sep] + rest, sep) == |a|
  {
    var s := a + [sep] + rest;
    assert s[|a|] == sep;
    if |a| > 0 {
      assert s[1..] == a[1..] + [sep] + rest;
      IndexOfFirstSeparator(a[1..], sep, rest);
    }
  }

  /** A cut at the first separator. */
  lemma SplitAtFirst(a: string, sep: char, rest: string)
    requires sep !in a
    ensures Split(a + [sep] + rest, sep) == [a] + Split(rest, sep)
  {
    var s := a + [sep] + rest;
    IndexOfFirstSeparator(a, sep, rest);
    assert s[|a|] == sep;
    assert s[..|a|] == a;
    assert s[|a| + 1..] == rest;
  }

  /** Splitting a joined list gives the list back, provided it is not empty
      and no element contains the separator. */
  lemma {:induction false} SplitJoin(xs: seq<string>, sep: char)
    requires |xs| > 0
    requires forall i :: 0 <= i < |xs| ==> sep !in xs[i]
    ensures Split(Join(xs, sep), sep) == xs
  {
    if |xs| > 1 {
      assert forall i :: 0 <= i < |xs| - 1 ==> xs[1..][i] == xs[i + 1];
      SplitJoin(xs[1..], sep);
      SplitAtFirst(xs[0], sep, Join(xs[1..], sep));
      assert xs == [xs[0]] + xs[1..];
    }
  }

  /** Joining `n` copies of "?" writes exactly `n` question marks. */
  lemma {:induction false} PlaceholderCount(n: nat, sep: char)
    requires sep != '?'
    ensures multiset(Join(Repeat("?", n), sep))['?'] == n
  {
    if n > 1 {
      PlaceholderCount(n - 1, sep);
      assert Repeat("?", n)[1..] == Repeat("?", n - 1);
      assert Join(Repeat("?", n), sep) == "?" + [sep] + Join(Repeat("?", n - 1), sep);
    } else if n == 1 {
      assert Join(Repeat("?", n), sep) == "?";
    }
  }

  /** A join adds no character beyond its elements and separators. */
  lemma {:induction false} JoinAvoids(xs: seq<string>, sep: char, c: char)
    requires c != sep
    requires forall i :: 0 <= i < |xs| ==> c !in xs[i]
    ensures c !in Join(xs, sep)
  {
    if |xs| > 1 {
      JoinAvoids(xs[1..], sep, c);
    }
  }
}
