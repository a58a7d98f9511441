/**
 * Qualifiers: the insertion-ordered map the package URL keeps them in, the contract of
 * Guava's `Splitter.on('&').withKeyValueSeparator('=')` (line 279), `parseQualifiers`
 * (lines 333-352) and the `?key=value&...` rendering of `toString` (lines 211-221).
 */
module Qualifiers {
  import opened Wrappers
  import opened Text
  import opened Grammar
  import opened Urls
  import opened Errors

  function Keys(m: seq<(string, string)>): seq<string> {
    seq(|m|, i requires 0 <= i < |m| => m[i].0)
  }

  predicate DistinctKeys(m: seq<(string, string)>) {
    forall i, j :: 0 <= i < j < |m| ==> m[i].0 != m[j].0
  }

  /** A Java `Map<String, String>` with a fixed iteration order (`LinkedHashMap`, `ImmutableMap`). */
  type QualifierMap = m: seq<(string, string)> | DistinctKeys(m)

  /** `Map.get`; `None` is a `null` result. */
  function Lookup(m: seq<(string, string)>, k: string): Option<string> {
    if m == [] then None
    else if m[0].0 == k then Some(m[0].1)
    else Lookup(m[1..], k)
  }

  /** In a map with distinct keys, a key's value is the one stored beside it. */
  lemma {:induction false} LookupAt(m: QualifierMap, i: nat)
    requires i < |m|
    ensures Lookup(m, m[i].0) == Some(m[i].1)
    decreases i
  {
    if i > 0 {
      var tail: QualifierMap := m[1..];
      LookupAt(tail, i - 1);
    }
  }

  /** An absent key is looked up as `null`. */
  lemma {:induction false} LookupAbsent(m: seq<(string, string)>, k: string)
    requires k !in Keys(m)
    ensures Lookup(m, k) == None
    decreases |m|
  {
    if m != [] {
      assert Keys(m)[0] == m[0].0;
      assert Keys(m[1..]) == Keys(m)[1..];
      LookupAbsent(m[1..], k);
    }
  }

  /**
   * `LinkedHashMap.put`: a new key goes last; a key already present keeps its place and
   * takes the new value.
   */
  function Put(m: QualifierMap, k: string, v: string): (r: QualifierMap)
    ensures Keys(r) == if k in Keys(m) then Keys(m) else Keys(m) + [k]
    ensures k !in Keys(m) ==> r == m + [(k, v)]
  {
    if k in Keys(m) then seq(|m|, i requires 0 <= i < |m| => if m[i].0 == k then (k, v) else m[i])
    else
      assert forall i :: 0 <= i < |m| ==> Keys(m)[i] == m[i].0;
      m + [(k, v)]
  }

  /** After `put(k, v)`, `get(k)` is `v` and every other key keeps its value. */
  lemma PutLookup(m: QualifierMap, k: string, v: string, k': string)
    ensures Lookup(Put(m, k, v), k') == if k' == k then Some(v) else Lookup(m, k')
  {
    var r := Put(m, k, v);
    assert Keys(r)[|Keys(r)| - 1] == r[|r| - 1].0 || k in Keys(m);
    if k' in Keys(r) {
      var i :| 0 <= i < |r| && Keys(r)[i] == k';
      LookupAt(r, i);
      if k' != k {
        assert i < |m| && m[i] == r[i];
        LookupAt(m, i);
      }
    } else {
      LookupAbsent(r, k');
      LookupAbsent(m, k');
    }
  }

  /** The map as a Java `Map.equals` sees it: keys and values, not their order. */
  function AsMap(m: QualifierMap): map<string, string> {
    map k | k in Keys(m) :: if Lookup(m, k).Some? then Lookup(m, k).value else ""
  }

  /** Two maps with the same iteration order of keys are equal as maps only if they are identical. */
  lemma SameOrderSameMap(a: QualifierMap, b: QualifierMap)
    requires Keys(a) == Keys(b) && AsMap(a) == AsMap(b)
    ensures a == b
  {
    forall i | 0 <= i < |a| ensures a[i] == b[i] {
      assert Keys(a)[i] == a[i].0 && Keys(b)[i] == b[i].0;
      LookupAt(a, i);
      LookupAt(b, i);
      assert AsMap(a)[a[i].0] == a[i].1;
    }
  }

  /** Keep the first occurrence of each string, in order. */
  function Dedup(s: seq<string>): seq<string> {
    if s == [] then []
    else
      var d := Dedup(s[..|s| - 1]);
      if s[|s| - 1] in d then d else d + [s[|s| - 1]]
  }

  /** A raw pair `parseQualifiers` keeps: its raw value is not empty (line 344). */
  predicate Kept(pair: (string, string)) {
    pair.1 != ""
  }

  /** The lower-cased keys of the kept pairs, in encounter order, repeats included. */
  function KeptKeys(pairs: seq<(string, string)>): seq<string> {
    if pairs == [] then []
    else
      var init := KeptKeys(pairs[..|pairs| - 1]);
      var last := pairs[|pairs| - 1];
      if Kept(last) then init + [Lower(last.0)] else init
  }

  /** The map `parseQualifiers` fills from the raw pairs, one `put` per kept pair. */
  function Collect(c: Codec, pairs: seq<(string, string)>): QualifierMap {
    if pairs == [] then []
    else
      var init := Collect(c, pairs[..|pairs| - 1]);
      var last := pairs[|pairs| - 1];
      if Kept(last) then Put(init, Lower(last.0), c.decode(last.1)) else init
  }

  /** One more raw pair is one more `put`, if it is kept. */
  lemma CollectStep(c: Codec, pairs: seq<(string, string)>, i: nat)
    requires i < |pairs|
    ensures Collect(c, pairs[..i + 1]) ==
      if Kept(pairs[i]) then Put(Collect(c, pairs[..i]), Lower(pairs[i].0), c.decode(pairs[i].1))
      else Collect(c, pairs[..i])
  {
    assert pairs[..i + 1][..i] == pairs[..i];
  }

  /**
   * The keys of the parsed map are the lower-cased keys of the kept pairs, each once, in
   * the order of their first occurrence.
   */
  lemma {:induction false} CollectKeyOrder(c: Codec, pairs: seq<(string, string)>)
    ensures Keys(Collect(c, pairs)) == Dedup(KeptKeys(pairs))
    decreases |pairs|
  {
    if pairs != [] {
      var init := pairs[..|pairs| - 1];
      CollectKeyOrder(c, init);
      var last := pairs[|pairs| - 1];
      if Kept(last) {
        var ks := KeptKeys(init) + [Lower(last.0)];
        assert ks[..|ks| - 1] == KeptKeys(init);
      }
    }
  }

  /** A key is in the parsed map exactly when some kept pair's key lower-cases to it. */
  lemma {:induction false} CollectDomain(c: Codec, pairs: seq<(string, string)>, k: string)
    ensures k in Keys(Collect(c, pairs)) <==>
      exists i :: 0 <= i < |pairs| && Kept(pairs[i]) && Lower(pairs[i].0) == k
    decreases |pairs|
  {
    if pairs != [] {
      var init := pairs[..|pairs| - 1];
      CollectDomain(c, init, k);
      assert forall i :: 0 <= i < |init| ==> init[i] == pairs[i];
      if k in Keys(Collect(c, init)) {
        var i :| 0 <= i < |init| && Kept(init[i]) && Lower(init[i].0) == k;
        assert Kept(pairs[i]) && Lower(pairs[i].0) == k;
      }
    }
  }

  /**
   * Last write wins: the value under a key is the decoded value of the last kept pair
   * whose key lower-cases to it.
   */
  lemma {:induction false} CollectLastWins(c: Codec, pairs: seq<(string, string)>, i: nat)
    requires i < |pairs| && Kept(pairs[i])
    requires forall j :: i < j < |pairs| && Kept(pairs[j]) ==> Lower(pairs[j].0) != Lower(pairs[i].0)
    ensures Lookup(Collect(c, pairs), Lower(pairs[i].0)) == Some(c.decode(pairs[i].1))
    decreases |pairs|
  {
    var init := pairs[..|pairs| - 1];
    var last := pairs[|pairs| - 1];
    var k := Lower(pairs[i].0);
    if i == |pairs| - 1 {
      PutLookup(Collect(c, init), k, c.decode(last.1), k);
    } else {
      assert init[i] == pairs[i];
      CollectLastWins(c, init, i);
      if Kept(last) {
        PutLookup(Collect(c, init), Lower(last.0), c.decode(last.1), k);
      }
    }
  }

  /** The pair a chunk `key=value` splits into; Guava refuses chunks with other than one `=`. */
  function PairsOf(chunks: seq<string>): (r: Result<seq<(string, string)>, Error>)
    ensures r.Success? ==>
      && |r.value| == |chunks| && DistinctKeys(r.value)
      && forall i :: 0 <= i < |chunks| ==>
           && chunks[i] == r.value[i].0 + "=" + r.value[i].1
           && '=' !in r.value[i].0 && '=' !in r.value[i].1
    ensures r.Failure? ==> r.error == IllegalArgument
  {
    if chunks == [] then Success([])
    else
      match PairsOf(chunks[..|chunks| - 1])
      case Failure(e) => Failure(e)
      case Success(ps) =>
        var chunk := chunks[|chunks| - 1];
        var fields := Split(chunk, '=');
        if |fields| != 2 || fields[0] in Keys(ps) then Failure(IllegalArgument)
        else
          JoinSplit(chunk, '=');
          assert fields[1..] == [fields[1]];
          assert forall i :: 0 <= i < |ps| ==> Keys(ps)[i] == ps[i].0;
          Success(ps + [(fields[0], fields[1])])
  }

  /**
   * `QUALIFIER_SPLITTER.split(value)`, by the splitter's documented contract: split on `&`,
   * each chunk split on `=` into exactly two parts, raw keys pairwise distinct, else
   * IllegalArgumentException. The pairs keep encounter order.
   */
  function SplitPairs(value: string): Result<seq<(string, string)>, Error> {
    PairsOf(Split(value, '&'))
  }

  /**
   * PURL_PATTERN lets a qualifier value hold `=` (QUALIFIER_VALUE is `[^&]+?`), but the
   * splitter then refuses the chunk: `k=a=b` is a qualifiers group that `parse` fails on
   * with IllegalArgumentException, not InvalidException.
   */
  lemma EqualsSignInValue()
    ensures IsQualifiersText("k=a=b")
    ensures SplitPairs("k=a=b") == Failure(IllegalArgument)
  {
    assert "k=a=b" == "k" + ['='] + ("a" + ['='] + "b");
    SecondEqualsSign("k=a=b", "k", "a", "b");
  }

  /** A chunk `key=a=b` matches QUALIFIER, but splits into three fields and is refused. */
  lemma SecondEqualsSign(q: string, k: string, a: string, b: string)
    requires q == k + ['='] + (a + ['='] + b) && '&' !in q
    requires IsQualifierKey(k) && '=' !in a && '=' !in b
    ensures IsQualifiersText(q)
    ensures SplitPairs(q) == Failure(IllegalArgument)
  {
    var v := a + ['='] + b;
    assert Split(q, '&') == [q] by {
      SplitNoSeparator(q, '&');
    }
    assert IsQualifier(q) by {
      KeyHasNoSeparators(k);
      IndexOfAfter(k, '=', v);
      assert q[..|k|] == k && q[|k| + 1..] == v;
    }
    assert |Split(q, '=')| == 3 by {
      KeyHasNoSeparators(k);
      SplitAfter(k, '=', v);
      SplitAfter(a, '=', b);
      SplitNoSeparator(b, '=');
    }
    assert Split(q, '&')[..0] == [];
  }

  /**
   * Lower-casing happens before any key check: the raw key KELVIN SIGN (U+212A), which
   * QUALIFIER_KEY refuses, lower-cases to `k`, which it accepts. `qualifiers(String)` on
   * the builder reaches this without the regex in front.
   */
  lemma KelvinSignKey(c: Codec)
    requires c.decode("1") == "1"
    ensures !IsQualifierKey("\U{212A}") && IsQualifierKey("k")
    ensures QualifiersOf(c, Some("\U{212A}=1")) == Success(Some([("k", "1")]))
  {
    var kelvin := "\U{212A}";
    assert !IsQualifierKey(kelvin) by {
      assert !IsKeyStart(kelvin[0]);
    }
    assert Lower(kelvin) == "k" by {
      assert LowerChar(kelvin[0]) == 'k';
    }
    assert kelvin + ['='] + "1" == "\U{212A}=1";
    SinglePair("\U{212A}=1", kelvin, "1");
  }

  /** A text with one `=` and no `&` is one pair for the splitter, collected as one entry. */
  lemma SinglePair(q: string, k: string, v: string)
    requires q == k + ['='] + v && '&' !in q && '=' !in k && '=' !in v
    ensures SplitPairs(q) == Success([(k, v)])
    ensures forall c: Codec :: v != "" ==> Collect(c, [(k, v)]) == [(Lower(k), c.decode(v))]
  {
    assert Split(q, '&') == [q] by {
      SplitNoSeparator(q, '&');
    }
    assert Split(q, '=') == [k, v] by {
      SplitAfter(k, '=', v);
      SplitNoSeparator(v, '=');
    }
    assert PairsOf([q][..0]) == Success([]) by {
      assert [q][..0] == [];
    }
    assert Keys([]) == [];
    assert [] + [(k, v)] == [(k, v)];
    assert [(k, v)][..0] == [];
  }

  /** The specification of `parseQualifiers(value)`; `None` is Java's `null`. */
  function QualifiersOf(c: Codec, value: Option<string>): Result<Option<QualifierMap>, Error> {
    match value
    case None => Success(None)
    case Some(v) =>
      match SplitPairs(v)
      case Failure(e) => Failure(e)
      case Success(pairs) => Success(Some(Collect(c, pairs)))
  }

  /**
   * `parseQualifiers` (lines 333-352): `null` stays `null`; otherwise split into raw pairs
   * and `put` each pair with a non-empty raw value under its lower-cased key, decoded.
   */
  method ParseQualifiers(c: Codec, value: Option<string>) returns (r: Result<Option<QualifierMap>, Error>)
    ensures r == QualifiersOf(c, value)
  {
    if value.None? {
      return Success(None);
    }
    var split := SplitPairs(value.value);
    if split.Failure? {
      return Failure(split.error);
    }
    var pairs := split.value;
    var result: QualifierMap := [];
    for i := 0 to |pairs|
      invariant result == Collect(c, pairs[..i])
    {
      CollectStep(c, pairs, i);
      var (k, v) := pairs[i];
      if v != "" {
        result := Put(result, Lower(k), c.decode(v));
      }
    }
    assert pairs[..|pairs|] == pairs;
    return Success(Some(result));
  }

  /** The `key=value` text `toString` writes for one entry (line 216). */
  function RenderEntry(c: Codec, entry: (string, string)): string {
    entry.0 + "=" + c.encode(entry.1)
  }

  /** What `toString` writes after `?`: the rendered entries joined by `&`, in map order. */
  function RenderQualifiers(c: Codec, q: QualifierMap): string {
    Join(Entries(c, q), '&')
  }

  /** The rendered entries, in map order. */
  function Entries(c: Codec, q: QualifierMap): (r: seq<string>)
    ensures |r| == |q|
  {
    seq(|q|, i requires 0 <= i < |q| => RenderEntry(c, q[i]))
  }

  /** Chunks that each split into exactly the given pair, with distinct keys, are accepted as those pairs. */
  lemma {:induction false} PairsOfExact(chunks: seq<string>, ps: seq<(string, string)>)
    requires |chunks| == |ps| && DistinctKeys(ps)
    requires forall i :: 0 <= i < |chunks| ==> Split(chunks[i], '=') == [ps[i].0, ps[i].1]
    ensures PairsOf(chunks) == Success(ps)
    decreases |chunks|
  {
    if chunks != [] {
      var n := |chunks| - 1;
      PairsOfExact(chunks[..n], ps[..n]);
      assert ps[n].0 !in Keys(ps[..n]);
      assert ps[..n] + [ps[n]] == ps;
    }
  }

  /** Collecting kept pairs with distinct lower-case keys appends them one by one. */
  lemma {:induction false} CollectFresh(c: Codec, pairs: seq<(string, string)>, q: QualifierMap)
    requires |pairs| == |q|
    requires forall i :: 0 <= i < |q| ==>
      Kept(pairs[i]) && Lower(pairs[i].0) == q[i].0 && c.decode(pairs[i].1) == q[i].1
    ensures Collect(c, pairs) == q
    decreases |pairs|
  {
    if pairs != [] {
      var n := |pairs| - 1;
      var init: QualifierMap := q[..n];
      CollectFresh(c, pairs[..n], init);
      assert q[n].0 !in Keys(init);
      assert init + [q[n]] == q;
    }
  }

  /**
   * Rendering and parsing qualifiers are inverse when the keys are valid lower-case keys
   * and the codec behaves on the values: each encoding is non-empty, holds neither `&` nor
   * `=`, and decodes back to the value.
   */
  lemma QualifiersRoundTrip(c: Codec, q: QualifierMap)
    requires |q| >= 1
    requires forall i :: 0 <= i < |q| ==>
      && IsQualifierKey(q[i].0) && Lower(q[i].0) == q[i].0
      && c.encode(q[i].1) != "" && '&' !in c.encode(q[i].1) && '=' !in c.encode(q[i].1)
      && c.decode(c.encode(q[i].1)) == q[i].1
    ensures QualifiersOf(c, Some(RenderQualifiers(c, q))) == Success(Some(q))
  {
    RenderedPairs(c, q);
    CollectFresh(c, EncodedPairs(c, q), q);
  }

  /** Each entry with its value encoded, as the splitter hands it back. */
  function EncodedPairs(c: Codec, q: QualifierMap): seq<(string, string)> {
    seq(|q|, i requires 0 <= i < |q| => (q[i].0, c.encode(q[i].1)))
  }

  /** The rendered map splits back into its keys and encoded values. */
  lemma RenderedPairs(c: Codec, q: QualifierMap)
    requires |q| >= 1
    requires forall i :: 0 <= i < |q| ==>
      IsQualifierKey(q[i].0) && '&' !in c.encode(q[i].1) && '=' !in c.encode(q[i].1)
    ensures SplitPairs(RenderQualifiers(c, q)) == Success(EncodedPairs(c, q))
  {
    var chunks := Entries(c, q);
    var ps := EncodedPairs(c, q);
    EntriesSplit(c, q);
    SplitJoin(chunks, '&');
    assert Keys(ps) == Keys(q);
    PairsOfExact(chunks, ps);
  }

  /** Every rendered entry is free of `&` and splits at its one `=`. */
  lemma EntriesSplit(c: Codec, q: QualifierMap)
    requires forall i :: 0 <= i < |q| ==>
      IsQualifierKey(q[i].0) && '&' !in c.encode(q[i].1) && '=' !in c.encode(q[i].1)
    ensures forall i :: 0 <= i < |q| ==>
      '&' !in Entries(c, q)[i] && Split(Entries(c, q)[i], '=') == [q[i].0, c.encode(q[i].1)]
  {
    forall i | 0 <= i < |q|
      ensures '&' !in Entries(c, q)[i] && Split(Entries(c, q)[i], '=') == [q[i].0, c.encode(q[i].1)]
    {
      EntrySplits(c, q[i]);
    }
  }


  /** One rendered entry splits back into its key and encoded value. */
  lemma EntrySplits(c: Codec, entry: (string, string))
    requires IsQualifierKey(entry.0) && '&' !in c.encode(entry.1) && '=' !in c.encode(entry.1)
    ensures '&' !in RenderEntry(c, entry)
    ensures Split(RenderEntry(c, entry), '=') == [entry.0, c.encode(entry.1)]
  {
    KeyHasNoSeparators(entry.0);
    SplitAfter(entry.0, '=', c.encode(entry.1));
    SplitNoSeparator(c.encode(entry.1), '=');
  }

  /** A qualifier key holds neither `&` nor `=`. */
  lemma KeyHasNoSeparators(k: string)
    requires IsQualifierKey(k)
    ensures '&' !in k && '=' !in k
  {
    forall i | 0 <= i < |k| ensures k[i] != '&' && k[i] != '=' {
      assert i == 0 || IsKeyStart(k[i]) || IsAsciiDigit(k[i]);
    }
  }
}
