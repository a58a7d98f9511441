/**
 * Namespace and subpath segments: `stripSlashes`, `parseSegments` with its two uses
 * `parseNamespace` and `parseSubpath`, and `renderSegments` (lines 231-243, 354-415).
 */
module Segments {
  import opened Wrappers
  import opened Text
  import opened Urls
  import opened Errors

  /** The decoded values `parseSubpath` forbids (line 367); `parseNamespace` forbids none. */
  const SubpathInvalids: seq<string> := [".", ".."]

  /**
   * `stripSlashes`: drops one leading and one trailing `/`. `charAt(0)` fails on `""`, and
   * `charAt(length - 1)` fails on what is left of `"/"`.
   */
  function StripSlashes(value: string): (r: Result<string, Error>)
    ensures r.Failure? <==> value == "" || value == "/"
    ensures r.Failure? ==> r.error == IndexOutOfBounds
    ensures r.Success? ==>
      value == (if value[0] == '/' then "/" else "") + r.value + (if value[|value| - 1] == '/' then "/" else "")
  {
    if value == "" then Failure(IndexOutOfBounds)
    else
      var v := if value[0] == '/' then value[1..] else value;
      if v == "" then Failure(IndexOutOfBounds)
      else if v[|v| - 1] == '/' then Success(v[..|v| - 1])
      else Success(v)
  }

  /** The check each raw part of `value` goes through (lines 382-398). */
  function CheckPart(c: Codec, value: string, part: string, invalids: seq<string>): Result<string, Error>
  {
    if part == "" then Failure(EmptySegment(value))
    else
      var decoded := c.decode(part);
      if '/' in decoded then Failure(IllegalSegmentContent("/", value))
      else if decoded in invalids then Failure(IllegalSegmentContent(decoded, value))
      else Success(decoded)
  }

  /** `ds` put in front of the segments of a successful result. */
  function Prepend(ds: seq<string>, r: Result<seq<string>, Error>): Result<seq<string>, Error>
  {
    match r
    case Success(rest) => Success(ds + rest)
    case Failure(e) => Failure(e)
  }

  /** Prepending nothing changes nothing. */
  lemma PrependNothing(r: Result<seq<string>, Error>)
    ensures Prepend([], r) == r
  {
    if r.Success? {
      assert [] + r.value == r.value;
    }
  }

  /** Prepending twice is prepending the concatenation. */
  lemma PrependTwice(a: seq<string>, b: seq<string>, r: Result<seq<string>, Error>)
    ensures Prepend(a, Prepend(b, r)) == Prepend(a + b, r)
  {
    if r.Success? {
      assert a + (b + r.value) == (a + b) + r.value;
    }
  }

  /** The parts checked in order; the first that fails decides the exception. */
  function CheckParts(c: Codec, value: string, parts: seq<string>, invalids: seq<string>): Result<seq<string>, Error>
  {
    if parts == [] then Success([])
    else
      match CheckPart(c, value, parts[0], invalids)
      case Failure(e) => Failure(e)
      case Success(d) => Prepend([d], CheckParts(c, value, parts[1..], invalids))
  }

  /** The specification of `parseSegments(value, invalids...)`; `None` is Java's `null`. */
  function SegmentsOf(c: Codec, value: Option<string>, invalids: seq<string>): Result<Option<seq<string>>, Error>
  {
    match value
    case None => Success(None)
    case Some(v) =>
      match StripSlashes(v)
      case Failure(e) => Failure(e)
      case Success(stripped) =>
        match CheckParts(c, v, Split(stripped, '/'), invalids)
        case Failure(e) => Failure(e)
        case Success(segs) => Success(Some(segs))
  }

  /**
   * The parts pass all at once or not at all: success exactly when every part passes,
   * and then one segment per part, in order, each the decoded part.
   */
  lemma {:induction false} CheckPartsSucceed(c: Codec, value: string, parts: seq<string>, invalids: seq<string>)
    ensures CheckParts(c, value, parts, invalids).Success? <==>
      forall i :: 0 <= i < |parts| ==> CheckPart(c, value, parts[i], invalids).Success?
    ensures CheckParts(c, value, parts, invalids).Success? ==>
      var segs := CheckParts(c, value, parts, invalids).value;
      |segs| == |parts| && forall i :: 0 <= i < |parts| ==> segs[i] == c.decode(parts[i])
    decreases |parts|
  {
    if parts != [] {
      CheckPartsSucceed(c, value, parts[1..], invalids);
      if CheckPart(c, value, parts[0], invalids).Success? {
        assert forall i :: 1 <= i < |parts| ==> parts[i] == parts[1..][i - 1];
      }
    }
  }

  /** A failure is the exception of the first part that fails, all parts before it passing. */
  lemma {:induction false} CheckPartsFail(c: Codec, value: string, parts: seq<string>, invalids: seq<string>)
    requires CheckParts(c, value, parts, invalids).Failure?
    ensures exists i :: (0 <= i < |parts|
      && CheckPart(c, value, parts[i], invalids) == Failure(CheckParts(c, value, parts, invalids).error)
      && forall j :: 0 <= j < i ==> CheckPart(c, value, parts[j], invalids).Success?)
    decreases |parts|
  {
    var e := CheckParts(c, value, parts, invalids).error;
    if CheckPart(c, value, parts[0], invalids).Failure? {
      assert CheckPart(c, value, parts[0], invalids) == Failure(e);
    } else {
      CheckPartsFail(c, value, parts[1..], invalids);
      var i :| 0 <= i < |parts[1..]|
        && CheckPart(c, value, parts[1..][i], invalids) == Failure(e)
        && forall j :: 0 <= j < i ==> CheckPart(c, value, parts[1..][j], invalids).Success?;
      assert forall j :: 1 <= j < i + 1 ==> parts[j] == parts[1..][j - 1];
      assert CheckPart(c, value, parts[i + 1], invalids) == Failure(e);
    }
  }

  /**
   * What `parseSegments` can throw: an EmptySegmentException or IllegalSegmentContent for
   * a bad part, or, from `stripSlashes`, StringIndexOutOfBoundsException on `""` and `"/"`
   * only. `null` never fails and stays `null`.
   */
  lemma SegmentsOfErrors(c: Codec, value: Option<string>, invalids: seq<string>)
    ensures var r := SegmentsOf(c, value, invalids);
      && (r.Success? ==> (r.value.Some? <==> value.Some?))
      && (r.Failure? ==> value.Some? && (r.error.EmptySegment? || r.error.IllegalSegmentContent? || r.error == IndexOutOfBounds))
      && (r.Failure? && r.error == IndexOutOfBounds <==> value == Some("") || value == Some("/"))
  {
    if value.Some? && StripSlashes(value.value).Success? {
      var parts := Split(StripSlashes(value.value).value, '/');
      if CheckParts(c, value.value, parts, invalids).Failure? {
        CheckPartsFail(c, value.value, parts, invalids);
      }
    }
  }

  /**
   * What `parseSegments` promises on success: one segment per `/`-separated part of the
   * stripped input, each the decoded part, whose raw text was non-empty and whose decoded
   * text holds no `/` and is none of the forbidden values. There is at least one segment.
   */
  lemma SegmentsOfSucceed(c: Codec, value: string, invalids: seq<string>)
    requires SegmentsOf(c, Some(value), invalids).Success?
    ensures StripSlashes(value).Success?
    ensures var parts := Split(StripSlashes(value).value, '/');
      var segs := SegmentsOf(c, Some(value), invalids).value;
      && segs.Some? && |segs.value| == |parts| >= 1
      && forall i :: 0 <= i < |parts| ==>
           && parts[i] != "" && segs.value[i] == c.decode(parts[i])
           && '/' !in segs.value[i] && segs.value[i] !in invalids
  {
    var parts := Split(StripSlashes(value).value, '/');
    CheckPartsSucceed(c, value, parts, invalids);
    forall i | 0 <= i < |parts| ensures parts[i] != "" {
      assert CheckPart(c, value, parts[i], invalids).Success?;
    }
  }

  /**
   * `parseSegments` (lines 374-402): `null` stays `null`; otherwise strip, split on `/`,
   * and check, decode and collect each part, throwing at the first bad one.
   */
  method ParseSegments(c: Codec, value: Option<string>, invalids: seq<string>)
    returns (r: Result<Option<seq<string>>, Error>)
    ensures r == SegmentsOf(c, value, invalids)
  {
    if value.None? {
      return Success(None);
    }
    var stripped := StripSlashes(value.value);
    if stripped.Failure? {
      return Failure(stripped.error);
    }
    var segs := ParseParts(c, value.value, Split(stripped.value, '/'), invalids);
    if segs.Failure? {
      return Failure(segs.error);
    }
    return Success(Some(segs.value));
  }

  /** The loop of `parseSegments` (lines 381-399) over the split parts. */
  method ParseParts(c: Codec, value: string, parts: seq<string>, invalids: seq<string>)
    returns (r: Result<seq<string>, Error>)
    ensures r == CheckParts(c, value, parts, invalids)
  {
    var result: seq<string> := [];
    var i := 0;
    assert parts[0..] == parts;
    assert CheckParts(c, value, parts, invalids) == Prepend([], CheckParts(c, value, parts, invalids)) by {
      PrependNothing(CheckParts(c, value, parts, invalids));
    }
    while i < |parts|
      invariant 0 <= i <= |parts|
      invariant CheckParts(c, value, parts, invalids) == Prepend(result, CheckParts(c, value, parts[i..], invalids))
    {
      assert parts[i..][1..] == parts[i + 1..];
      var checked := ParsePart(c, value, parts[i], invalids);
      if checked.Failure? {
        return Failure(checked.error);
      }
      PrependTwice(result, [checked.value], CheckParts(c, value, parts[i + 1..], invalids));
      result := result + [checked.value];
      i := i + 1;
    }
    assert parts[i..] == [];
    assert result + [] == result;
    return Success(result);
  }

  /** The body of the loop of `parseSegments` (lines 382-398): check and decode one part. */
  method ParsePart(c: Codec, value: string, part: string, invalids: seq<string>) returns (r: Result<string, Error>)
    ensures r == CheckPart(c, value, part, invalids)
  {
    if part == "" {
      return Failure(EmptySegment(value));
    }
    var decoded := c.decode(part);
    if '/' in decoded {
      return Failure(IllegalSegmentContent("/", value));
    }
    var k := 0;
    while k < |invalids|
      invariant 0 <= k <= |invalids|
      invariant decoded !in invalids[..k]
    {
      if decoded == invalids[k] {
        return Failure(IllegalSegmentContent(invalids[k], value));
      }
      assert invalids[..k + 1] == invalids[..k] + [invalids[k]];
      k := k + 1;
    }
    assert invalids[..k] == invalids;
    return Success(decoded);
  }

  /** `parseNamespace` (lines 358-360): segments with no forbidden values. */
  method ParseNamespace(c: Codec, value: Option<string>) returns (r: Result<Option<seq<string>>, Error>)
    ensures r == SegmentsOf(c, value, [])
  {
    r := ParseSegments(c, value, []);
  }

  /** `parseSubpath` (lines 366-368): segments that may not decode to `.` or `..`. */
  method ParseSubpath(c: Codec, value: Option<string>) returns (r: Result<Option<seq<string>>, Error>)
    ensures r == SegmentsOf(c, value, SubpathInvalids)
  {
    r := ParseSegments(c, value, SubpathInvalids);
  }

  /** A parsed subpath never holds a `.` or `..` segment. */
  lemma SubpathHasNoTraversal(c: Codec, value: string)
    requires SegmentsOf(c, Some(value), SubpathInvalids).Success?
    ensures var segs := SegmentsOf(c, Some(value), SubpathInvalids).value.value;
      forall i :: 0 <= i < |segs| ==> segs[i] != "." && segs[i] != ".."
  {
    SegmentsOfSucceed(c, value, SubpathInvalids);
  }

  /** The subpath `../etc` is refused for its `..` segment, whatever `etc` decodes to. */
  lemma SubpathTraversalExample(c: Codec)
    requires c.decode("..") == ".."
    ensures SegmentsOf(c, Some("../etc"), SubpathInvalids) == Failure(IllegalSegmentContent("..", "../etc"))
  {
    var v := "../etc";
    assert StripSlashes(v) == Success(v);
    IndexOfUnique(v, '/', 2);
    assert v[..2] == ".." && v[3..] == "etc";
    assert Split(v, '/')[0] == "..";
  }

  /** The namespace `a//b` is refused for its empty middle part, once `a` decodes without `/`. */
  lemma EmptyNamespaceSegmentExample(c: Codec)
    requires '/' !in c.decode("a")
    ensures SegmentsOf(c, Some("a//b"), []) == Failure(EmptySegment("a//b"))
  {
    var v := "a//b";
    assert StripSlashes(v) == Success(v);
    IndexOfUnique(v, '/', 1);
    assert v[..1] == "a" && v[2..] == "/b";
    IndexOfUnique("/b", '/', 0);
    assert "/b"[..0] == "";
    var parts := Split(v, '/');
    assert parts[0] == "a" && parts[1] == "";
    assert CheckPart(c, v, parts[0], []) == Success(c.decode("a"));
    assert parts[1..][0] == "";
    assert CheckParts(c, v, parts[1..], []) == Failure(EmptySegment(v));
  }

  /** Each segment through the codec's encoder. */
  function EncodeAll(c: Codec, segs: seq<string>): (r: seq<string>)
    ensures |r| == |segs|
  {
    seq(|segs|, i requires 0 <= i < |segs| => c.encode(segs[i]))
  }

  /** What `renderSegments` appends: the encoded segments joined by `/`. */
  function RenderSegments(c: Codec, segs: seq<string>): string
  {
    Join(EncodeAll(c, segs), '/')
  }

  /**
   * `renderSegments` (lines 234-243): append each encoded segment to the buffer, with a
   * `/` after every one but the last.
   */
  method AppendSegments(c: Codec, buff: string, segs: seq<string>) returns (out: string)
    ensures out == buff + RenderSegments(c, segs)
  {
    out := buff;
    var i := 0;
    while i < |segs|
      invariant 0 <= i <= |segs|
      invariant out == buff + Join(EncodeAll(c, segs[..i]), '/') + (if 0 < i < |segs| then "/" else "")
    {
      var enc := c.encode(segs[i]);
      assert EncodeAll(c, segs[..i + 1]) == EncodeAll(c, segs[..i]) + [enc];
      if i > 0 {
        JoinSnoc(EncodeAll(c, segs[..i]), '/', enc);
      }
      out := out + enc;
      if i + 1 < |segs| {
        out := out + "/";
      }
      i := i + 1;
    }
    assert segs[..i] == segs;
  }

  /**
   * Rendering and parsing segments are inverse when the codec behaves on them: each
   * segment is neither empty nor forbidden and holds no `/`, its encoding is non-empty and
   * holds no `/`, and decoding the encoding gives it back.
   */
  lemma {:induction false} SegmentsRoundTrip(c: Codec, segs: seq<string>, invalids: seq<string>)
    requires |segs| >= 1
    requires forall i :: 0 <= i < |segs| ==>
      && segs[i] !in invalids && '/' !in segs[i]
      && c.encode(segs[i]) != "" && '/' !in c.encode(segs[i])
      && c.decode(c.encode(segs[i])) == segs[i]
    ensures SegmentsOf(c, Some(RenderSegments(c, segs)), invalids) == Success(Some(segs))
  {
    var enc := EncodeAll(c, segs);
    var text := RenderSegments(c, segs);
    JoinBounds(enc, '/');
    assert StripSlashes(text) == Success(text);
    SplitJoin(enc, '/');
    CheckPartsSucceed(c, text, enc, invalids);
    assert forall i :: 0 <= i < |enc| ==> CheckPart(c, text, enc[i], invalids) == Success(segs[i]);
    assert CheckParts(c, text, enc, invalids).value == segs;
  }

  /** A join of non-empty parts without the separator neither starts nor ends with it. */
  lemma {:induction false} JoinBounds(parts: seq<string>, sep: char)
    requires |parts| >= 1
    requires forall i :: 0 <= i < |parts| ==> parts[i] != "" && sep !in parts[i]
    ensures var s := Join(parts, sep); |s| > 0 && s[0] != sep && s[|s| - 1] != sep
    decreases |parts|
  {
    if |parts| > 1 {
      JoinBounds(parts[1..], sep);
      assert parts[0][0] in parts[0];
    } else {
      assert parts[0][|parts[0]| - 1] in parts[0];
    }
  }
}
