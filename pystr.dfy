/**
 * The Python `str` methods that the cleaning and extraction code relies on:
 * `replace`, `find` and `strip`, each on Unicode scalar values.
 */
module PyStr {
  import opened Seqs

  /** The characters Python's `str.isspace` (and so `str.strip()`) treats as whitespace. */
  predicate IsSpace(c: char)
  {
    ('\t' <= c <= '\r') || ('\U{1C}' <= c <= ' ') || c == '\U{85}' || c == '\U{A0}'
    || c == '\U{1680}' || ('\U{2000}' <= c <= '\U{200A}') || c == '\U{2028}' || c == '\U{2029}'
    || c == '\U{202F}' || c == '\U{205F}' || c == '\U{3000}'
  }

  predicate AllSpace(s: string)
  {
    forall k :: 0 <= k < |s| ==> IsSpace(s[k])
  }

  /** `s.replace(from, to)` with one-character arguments: every `from` becomes `to`. */
  function Replace(s: string, from: char, to: char): (r: string)
    ensures |r| == |s|
    ensures forall i :: 0 <= i < |s| ==> r[i] == if s[i] == from then to else s[i]
  {
    if s == [] then [] else [if s[0] == from then to else s[0]] + Replace(s[1..], from, to)
  }

  /** `s.find(c)`: the index of the first `c` in `s`, or -1 when there is none. */
  function Find(s: string, c: char): int
  {
    IndexOf(s, c)
  }

  /** The number of whitespace characters `strip` removes from the front. */
  function LeadingSpaces(s: string): (n: nat)
    ensures n <= |s|
    ensures AllSpace(s[..n])
    ensures n < |s| ==> !IsSpace(s[n])
  {
    if s == [] || !IsSpace(s[0]) then 0 else 1 + LeadingSpaces(s[1..])
  }

  /** Where the run of whitespace that `strip` removes from the back begins. */
  function TrailingStart(s: string): (n: nat)
    ensures n <= |s|
    ensures AllSpace(s[n..])
    ensures n > 0 ==> !IsSpace(s[n - 1])
  {
    if s == [] || !IsSpace(s[|s| - 1]) then |s|
    else
      var n := TrailingStart(s[..|s| - 1]);
      assert s[n..] == s[..|s| - 1][n..] + [s[|s| - 1]];
      n
  }

  /** `s.strip()`: what is left of `s` after removing whitespace at both ends. */
  function Strip(s: string): string
  {
    var i := LeadingSpaces(s);
    if i == |s| then s[i..i] else s[i..TrailingStart(s)]
  }

  /**
   * The stripped text is an infix of `s`, all that was cut off is whitespace,
   * and it neither begins nor ends with whitespace.
   */
  lemma StripTrims(s: string)
    ensures var r := Strip(s);
      && (r == [] || (!IsSpace(r[0]) && !IsSpace(r[|r| - 1])))
      && exists i, j :: 0 <= i <= j <= |s| && r == s[i..j] && AllSpace(s[..i]) && AllSpace(s[j..])
  {
    var i := LeadingSpaces(s);
    if i == |s| {
      assert s[..i] == s && s[i..] == [];
    } else {
      var j := TrailingStart(s);
      assert i < j;
      assert s[i..j][0] == s[i];
    }
  }

  lemma ReplaceAppend(a: string, b: string, from: char, to: char)
    ensures Replace(a + b, from, to) == Replace(a, from, to) + Replace(b, from, to)
  {
    assert Replace(a + b, from, to) == Replace(a, from, to) + Replace(b, from, to);
  }

  lemma ReplaceSlice(s: string, i: nat, j: nat, from: char, to: char)
    requires i <= j <= |s|
    ensures Replace(s, from, to)[i..j] == Replace(s[i..j], from, to)
  {
    assert Replace(s, from, to)[i..j] == Replace(s[i..j], from, to);
  }

  /** Replacing characters other than `c` does not move the first `c`. */
  lemma {:induction false} FindAfterReplace(s: string, c: char, from: char, to: char)
    requires from != c && to != c
    ensures Find(Replace(s, from, to), c) == Find(s, c)
    decreases |s|
  {
    if s != [] {
      assert Replace(s, from, to)[1..] == Replace(s[1..], from, to);
      FindAfterReplace(s[1..], c, from, to);
    }
  }

  /** Characters appended after the first `c` do not move it. */
  lemma FindInPrefix(s: string, t: string, c: char)
    requires c in s
    ensures Find(s + t, c) == Find(s, c)
  {
    var p := Find(s, c);
    assert (s + t)[p] == c;
  }
}
