/**
 * String helpers the package URL code takes from the Java and Guava libraries:
 * `Splitter.on(char)`, joining with a separator, and `toLowerCase(Locale.ENGLISH)`
 * on the characters that can decide whether a key or type is valid.
 */
module Text {

  /** Index of the first occurrence of `c` in `s`. */
  function IndexOf(s: string, c: char): (i: nat)
    requires c in s
    ensures i < |s| && s[i] == c && c !in s[..i]
  {
    if s[0] == c then 0
    else
      var j := IndexOf(s[1..], c);
      assert s[..1 + j] == [s[0]] + s[1..][..j];
      1 + j
  }

  /** The first occurrence is the only index with `c` there and no `c` before it. */
  lemma IndexOfUnique(s: string, c: char, k: nat)
    requires k < |s| && s[k] == c && c !in s[..k]
    ensures IndexOf(s, c) == k
  {
    var i := IndexOf(s, c);
    assert forall j :: 0 <= j < k ==> s[..k][j] == s[j];
    assert forall j :: 0 <= j < i ==> s[..i][j] == s[j];
  }

  /** A separator placed right after a separator-free prefix is the first one. */
  lemma IndexOfAfter(a: string, c: char, b: string)
    requires c !in a
    ensures c in a + [c] + b && IndexOf(a + [c] + b, c) == |a|
  {
    var s := a + [c] + b;
    assert s[|a|] == c;
    assert s[..|a|] == a;
    IndexOfUnique(s, c, |a|);
  }

  /**
   * In `head + [c] + (v + rest)`, when `head` has no `c`, the first `c` stands right after
   * `head` and is followed by `v`.
   */
  lemma SliceAfterFirst(s: string, head: string, c: char, v: string, rest: string)
    requires c !in head && s == head + [c] + (v + rest)
    ensures |head| < |s| && s[|head|] == c && c !in s[..|head|]
    ensures |head| + 1 + |v| <= |s| && s[|head| + 1..|head| + 1 + |v|] == v
  {
    assert s[..|head|] == head;
    assert s[|head| + 1..|head| + 1 + |v|] == (v + rest)[..|v|];
  }

  /**
   * Guava's `Splitter.on(sep)` with neither `omitEmptyStrings` nor `trimResults`: every
   * occurrence of `sep` ends a part, so `""` gives `[""]` and `"a//b"` gives `["a", "", "b"]`.
   */
  function Split(s: string, sep: char): (parts: seq<string>)
    ensures |parts| >= 1
    ensures forall i :: 0 <= i < |parts| ==> sep !in parts[i]
    decreases |s|
  {
    if sep !in s then [s]
    else
      var i := IndexOf(s, sep);
      [s[..i]] + Split(s[i + 1..], sep)
  }

  /** The parts interleaved with `sep`; the inverse of `Split`. */
  function Join(parts: seq<string>, sep: char): string
  {
    if |parts| == 0 then ""
    else if |parts| == 1 then parts[0]
    else parts[0] + [sep] + Join(parts[1..], sep)
  }

  /** Appending one more part to a non-empty list adds a separator and the part. */
  lemma {:induction false} JoinSnoc(parts: seq<string>, sep: char, last: string)
    requires |parts| >= 1
    ensures Join(parts + [last], sep) == Join(parts, sep) + [sep] + last
    decreases |parts|
  {
    var all := parts + [last];
    assert all[1..] == parts[1..] + [last];
    if |parts| > 1 {
      JoinSnoc(parts[1..], sep, last);
    }
  }

  /** Joining the parts of a split gives back the text. */
  lemma {:induction false} JoinSplit(s: string, sep: char)
    ensures Join(Split(s, sep), sep) == s
    decreases |s|
  {
    if sep in s {
      var i := IndexOf(s, sep);
      var rest := Split(s[i + 1..], sep);
      var parts := Split(s, sep);
      assert parts == [s[..i]] + rest;
      assert parts[0] == s[..i] && parts[1..] == rest;
      assert Join(parts, sep) == s[..i] + [sep] + Join(rest, sep);
      JoinSplit(s[i + 1..], sep);
      assert s == s[..i] + [sep] + s[i + 1..];
    }
  }

  /** A separator-free prefix and the separator after it make the first part. */
  lemma SplitAfter(a: string, sep: char, b: string)
    requires sep !in a
    ensures Split(a + [sep] + b, sep) == [a] + Split(b, sep)
  {
    var s := a + [sep] + b;
    IndexOfAfter(a, sep, b);
    assert s[..|a|] == a;
    assert s[|a| + 1..] == b;
  }

  /** Splitting a join of separator-free parts gives back the parts. */
  lemma {:induction false} SplitJoin(parts: seq<string>, sep: char)
    requires |parts| >= 1
    requires forall i :: 0 <= i < |parts| ==> sep !in parts[i]
    ensures Split(Join(parts, sep), sep) == parts
    decreases |parts|
  {
    if |parts| > 1 {
      var tail := Join(parts[1..], sep);
      assert Join(parts, sep) == parts[0] + [sep] + tail;
      SplitAfter(parts[0], sep, tail);
      SplitJoin(parts[1..], sep);
      assert [parts[0]] + parts[1..] == parts;
    }
  }

  /** A text without the separator is a single part. */
  lemma SplitNoSeparator(s: string, sep: char)
    requires sep !in s
    ensures Split(s, sep) == [s]
  {
  }

  /**
   * What `toLowerCase(Locale.ENGLISH)` does to one character, as far as it can matter here:
   * ASCII capitals, and KELVIN SIGN, the one character outside ASCII whose lower case is
   * an ASCII letter (`k`). Other characters are kept.
   */
  function LowerChar(ch: char): char {
    if 'A' <= ch <= 'Z' then (ch as int + 32) as char
    else if ch == '\U{212A}' then 'k'
    else ch
  }

  /** `String.toLowerCase(Locale.ENGLISH)`, character by character through `LowerChar`. */
  function Lower(s: string): (r: string)
    ensures |r| == |s|
    ensures forall i :: 0 <= i < |s| ==> r[i] == LowerChar(s[i])
  {
    if s == [] then [] else [LowerChar(s[0])] + Lower(s[1..])
  }

  /** Lower-casing twice is lower-casing once. */
  lemma LowerIdempotent(s: string)
    ensures Lower(Lower(s)) == Lower(s)
  {
  }
}
