/**
 * The package URL value object: its six fields, the validating constructor (lines 65-114,
 * 421-448) and `equals` (lines 167-177).
 */
module PackageUrls {
  import opened Wrappers
  import opened Text
  import opened Grammar
  import opened Urls
  import opened Errors
  import opened Segments
  import opened Qualifiers

  /** `None` stands for a `null` field; `Some([])` is a present but empty list. */
  datatype PackageUrl = PackageUrl(
    purlType: string,
    namespace: Option<seq<string>>,
    name: string,
    version: Option<string>,
    qualifiers: Option<QualifierMap>,
    subpath: Option<seq<string>>)

  predicate SegmentsValid(segs: Option<seq<string>>) {
    segs.Some? ==> forall i :: 0 <= i < |segs.value| ==> IsSegment(segs.value[i])
  }

  predicate QualifiersValid(q: Option<QualifierMap>) {
    q.Some? ==> forall i :: 0 <= i < |q.value| ==> IsQualifierKey(q.value[i].0) && IsQualifierValue(q.value[i].1)
  }

  /** What the constructor checks of its arguments, and so what every instance satisfies. */
  predicate Valid(p: PackageUrl) {
    && IsType(p.purlType)
    && SegmentsValid(p.namespace)
    && IsName(p.name)
    && (p.version.Some? ==> IsVersion(p.version.value))
    && QualifiersValid(p.qualifiers)
    && SegmentsValid(p.subpath)
  }

  /** Index of the first segment that is not `[^/]+`, or the length when all are. */
  function FirstInvalidSegment(segs: seq<string>): (i: nat)
    ensures i <= |segs|
    ensures forall j :: 0 <= j < i ==> IsSegment(segs[j])
    ensures i < |segs| ==> !IsSegment(segs[i])
  {
    if segs == [] then 0
    else if !IsSegment(segs[0]) then 0
    else 1 + FirstInvalidSegment(segs[1..])
  }

  /** The exception `validateNamespace` / `validateSubpath` throws, if any. */
  function SegmentsError(field: string, segs: seq<string>): Option<Error> {
    var i := FirstInvalidSegment(segs);
    if i < |segs| then Some(InvalidField(field, segs[i])) else None
  }

  /** Index of the first entry whose key or value fails its pattern, or the length when none does. */
  function FirstInvalidQualifier(q: QualifierMap): (i: nat)
    ensures i <= |q|
    ensures forall j :: 0 <= j < i ==> IsQualifierKey(q[j].0) && IsQualifierValue(q[j].1)
    ensures i < |q| ==> !IsQualifierKey(q[i].0) || !IsQualifierValue(q[i].1)
  {
    if q == [] then 0
    else if !IsQualifierKey(q[0].0) || !IsQualifierValue(q[0].1) then 0
    else
      var tail: QualifierMap := q[1..];
      1 + FirstInvalidQualifier(tail)
  }

  /** The exception `validateQualifiers` throws, if any: the key is checked before the value. */
  function QualifiersError(q: QualifierMap): Option<Error> {
    var i := FirstInvalidQualifier(q);
    if i == |q| then None
    else if !IsQualifierKey(q[i].0) then Some(InvalidField("qualifier.key", q[i].0))
    else Some(InvalidField("qualifier.value", q[i].1))
  }

  /**
   * The constructor of lines 65-103: the fields are checked in declaration order and the
   * first failure is thrown, so no instance exists unless every check passes.
   */
  function Construct(
    purlType: string, namespace: Option<seq<string>>, name: string,
    version: Option<string>, qualifiers: Option<QualifierMap>, subpath: Option<seq<string>>)
    : (r: Result<PackageUrl, Error>)
    ensures r.Success? <==> Valid(PackageUrl(purlType, namespace, name, version, qualifiers, subpath))
    ensures r.Success? ==> r.value == PackageUrl(purlType, namespace, name, version, qualifiers, subpath)
    ensures r.Failure? ==> r.error.Invalid?
  {
    if !IsType(purlType) then Failure(InvalidField("type", purlType))
    else if namespace.Some? && SegmentsError("namespace.segment", namespace.value).Some? then
      Failure(SegmentsError("namespace.segment", namespace.value).value)
    else if !IsName(name) then Failure(InvalidField("name", name))
    else if version.Some? && !IsVersion(version.value) then Failure(InvalidField("version", version.value))
    else if qualifiers.Some? && QualifiersError(qualifiers.value).Some? then
      Failure(QualifiersError(qualifiers.value).value)
    else if subpath.Some? && SegmentsError("subpath.segment", subpath.value).Some? then
      Failure(SegmentsError("subpath.segment", subpath.value).value)
    else Success(PackageUrl(purlType, namespace, name, version, qualifiers, subpath))
  }

  /** `validateNamespace` / `validateSubpath` (lines 428-433, 443-448). */
  method ValidateSegments(field: string, segs: seq<string>) returns (err: Option<Error>)
    ensures err == SegmentsError(field, segs)
  {
    for i := 0 to |segs|
      invariant forall j :: 0 <= j < i ==> IsSegment(segs[j])
    {
      if !IsSegment(segs[i]) {
        return Some(InvalidField(field, segs[i]));
      }
    }
    return None;
  }

  /** `validateQualifiers` (lines 435-441). */
  method ValidateQualifiers(q: QualifierMap) returns (err: Option<Error>)
    ensures err == QualifiersError(q)
  {
    for i := 0 to |q|
      invariant forall j :: 0 <= j < i ==> IsQualifierKey(q[j].0) && IsQualifierValue(q[j].1)
    {
      if !IsQualifierKey(q[i].0) {
        return Some(InvalidField("qualifier.key", q[i].0));
      }
      if !IsQualifierValue(q[i].1) {
        return Some(InvalidField("qualifier.value", q[i].1));
      }
    }
    return None;
  }

  /** The constructor of lines 65-103, running the validation loops. */
  method NewPackageUrl(
    purlType: string, namespace: Option<seq<string>>, name: string,
    version: Option<string>, qualifiers: Option<QualifierMap>, subpath: Option<seq<string>>)
    returns (r: Result<PackageUrl, Error>)
    ensures r == Construct(purlType, namespace, name, version, qualifiers, subpath)
  {
    if !IsType(purlType) {
      return Failure(InvalidField("type", purlType));
    }
    if namespace.Some? {
      var err := ValidateSegments("namespace.segment", namespace.value);
      if err.Some? {
        return Failure(err.value);
      }
    }
    if !IsName(name) {
      return Failure(InvalidField("name", name));
    }
    if version.Some? && !IsVersion(version.value) {
      return Failure(InvalidField("version", version.value));
    }
    if qualifiers.Some? {
      var err := ValidateQualifiers(qualifiers.value);
      if err.Some? {
        return Failure(err.value);
      }
    }
    if subpath.Some? {
      var err := ValidateSegments("subpath.segment", subpath.value);
      if err.Some? {
        return Failure(err.value);
      }
    }
    return Success(PackageUrl(purlType, namespace, name, version, qualifiers, subpath));
  }

  /**
   * The constructor of lines 106-114, which takes namespace and subpath as text: it parses
   * the namespace, then the subpath, then runs the main constructor.
   */
  method NewPackageUrlFromText(
    c: Codec, purlType: string, namespace: Option<string>, name: string,
    version: Option<string>, qualifiers: Option<QualifierMap>, subpath: Option<string>)
    returns (r: Result<PackageUrl, Error>)
    ensures SegmentsOf(c, namespace, []).Failure? ==> r == Failure(SegmentsOf(c, namespace, []).error)
    ensures SegmentsOf(c, namespace, []).Success? && SegmentsOf(c, subpath, SubpathInvalids).Failure? ==>
      r == Failure(SegmentsOf(c, subpath, SubpathInvalids).error)
    ensures SegmentsOf(c, namespace, []).Success? && SegmentsOf(c, subpath, SubpathInvalids).Success? ==>
      r == Construct(purlType, SegmentsOf(c, namespace, []).value, name, version, qualifiers,
                     SegmentsOf(c, subpath, SubpathInvalids).value)
  {
    var ns := ParseNamespace(c, namespace);
    if ns.Failure? {
      return Failure(ns.error);
    }
    var sp := ParseSubpath(c, subpath);
    if sp.Failure? {
      return Failure(sp.error);
    }
    r := NewPackageUrl(purlType, ns.value, name, version, qualifiers, sp.value);
  }

  /**
   * `equals`: every field compared with `Objects.equals`. Lists compare in order; the
   * qualifier maps compare as maps, whatever their iteration order.
   */
  function Equals(a: PackageUrl, b: PackageUrl): bool {
    && a.purlType == b.purlType
    && a.namespace == b.namespace
    && a.name == b.name
    && a.version == b.version
    && (match (a.qualifiers, b.qualifiers)
        case (None, None) => true
        case (Some(x), Some(y)) => AsMap(x) == AsMap(y)
        case _ => false)
    && a.subpath == b.subpath
  }

  /** `equals` is an equivalence relation that holds of identical values. */
  lemma EqualsIsEquivalence(a: PackageUrl, b: PackageUrl, d: PackageUrl)
    ensures Equals(a, a)
    ensures Equals(a, b) ==> Equals(b, a)
    ensures Equals(a, b) && Equals(b, d) ==> Equals(a, d)
  {
  }

  /**
   * Where both qualifier maps iterate their keys in the same order, `equals` is identity of
   * all six fields.
   */
  lemma EqualsIsIdentityForSameOrder(a: PackageUrl, b: PackageUrl)
    requires a.qualifiers.Some? && b.qualifiers.Some? ==> Keys(a.qualifiers.value) == Keys(b.qualifiers.value)
    ensures Equals(a, b) <==> a == b
  {
    if Equals(a, b) && a.qualifiers.Some? {
      SameOrderSameMap(a.qualifiers.value, b.qualifiers.value);
    }
  }

  /** Two instances whose qualifiers differ only in order are equal but not identical. */
  lemma EqualsIgnoresQualifierOrder()
    ensures var a := PackageUrl("t", None, "n", None, Some([("a", "1"), ("b", "2")]), None);
      var b := PackageUrl("t", None, "n", None, Some([("b", "2"), ("a", "1")]), None);
      Equals(a, b) && a != b
  {
    var x: QualifierMap := [("a", "1"), ("b", "2")];
    var y: QualifierMap := [("b", "2"), ("a", "1")];
    SwappedPairSameMap(x, y);
  }

  /** A two-entry map and its reversal are the same map. */
  lemma SwappedPairSameMap(x: QualifierMap, y: QualifierMap)
    requires |x| == 2 && y == [x[1], x[0]]
    ensures AsMap(x) == AsMap(y)
  {
    LookupAt(x, 0);
    LookupAt(x, 1);
    LookupAt(y, 0);
    LookupAt(y, 1);
    assert Keys(x) == [x[0].0, x[1].0] && Keys(y) == [x[1].0, x[0].0];
  }
}
