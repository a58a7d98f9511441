/**
 * `PackageUrl.Builder` (lines 457-531): six nullable fields set one by one, and `build`,
 * which checks that type and name are set and runs the constructor.
 */
module Builders {
  import opened Wrappers
  import opened Urls
  import opened Errors
  import opened Grammar
  import opened Segments
  import opened Qualifiers
  import opened PackageUrls
  import opened Parsing

  /**
   * `build` as written (lines 526-530): `checkState` on type, then on name, then the
   * constructor, which receives the name in the type's place.
   */
  function Built(
    purlType: Option<string>, namespace: Option<seq<string>>, name: Option<string>,
    version: Option<string>, qualifiers: Option<QualifierMap>, subpath: Option<seq<string>>)
    : (r: Result<PackageUrl, Error>)
    ensures purlType.None? ==> r == Failure(IllegalState("Missing: type"))
    ensures purlType.Some? && name.None? ==> r == Failure(IllegalState("Missing: name"))
    ensures r.Success? <==>
      purlType.Some? && name.Some?
      && Valid(PackageUrl(name.value, namespace, name.value, version, qualifiers, subpath))
    ensures r.Success? ==> r.value == PackageUrl(name.value, namespace, name.value, version, qualifiers, subpath)
  {
    if purlType.None? then Failure(IllegalState("Missing: type"))
    else if name.None? then Failure(IllegalState("Missing: name"))
    else Construct(name.value, namespace, name.value, version, qualifiers, subpath)
  }

  /** `build` as evidently intended: the type field is passed as the type. */
  function BuiltAsIntended(
    purlType: Option<string>, namespace: Option<seq<string>>, name: Option<string>,
    version: Option<string>, qualifiers: Option<QualifierMap>, subpath: Option<seq<string>>)
    : (r: Result<PackageUrl, Error>)
    ensures purlType.None? ==> r == Failure(IllegalState("Missing: type"))
    ensures purlType.Some? && name.None? ==> r == Failure(IllegalState("Missing: name"))
    ensures r.Success? ==> Valid(r.value)
  {
    if purlType.None? then Failure(IllegalState("Missing: type"))
    else if name.None? then Failure(IllegalState("Missing: name"))
    else Construct(purlType.value, namespace, name.value, version, qualifiers, subpath)
  }

  class Builder {
    var purlType: Option<string>
    var namespace: Option<seq<string>>
    var name: Option<string>
    var version: Option<string>
    var qualifiers: Option<QualifierMap>
    var subpath: Option<seq<string>>

    /** A new builder has every field `null`. */
    constructor()
      ensures purlType == None && namespace == None && name == None
      ensures version == None && qualifiers == None && subpath == None
    {
      purlType := None;
      namespace := None;
      name := None;
      version := None;
      qualifiers := None;
      subpath := None;
    }

    /** `type(String)` (lines 471-474). */
    method SetType(t: Option<string>)
      modifies this
      ensures purlType == t
      ensures namespace == old(namespace) && name == old(name) && version == old(version)
      ensures qualifiers == old(qualifiers) && subpath == old(subpath)
    {
      purlType := t;
    }

    /** `namespace(List)` (lines 476-479). */
    method SetNamespace(ns: Option<seq<string>>)
      modifies this
      ensures namespace == ns
      ensures purlType == old(purlType) && name == old(name) && version == old(version)
      ensures qualifiers == old(qualifiers) && subpath == old(subpath)
    {
      namespace := ns;
    }

    /**
     * `namespace(String)` (lines 481-483): the text goes through `parseNamespace`; when
     * that throws, the exception is returned and the builder is left as it was.
     */
    method SetNamespaceText(c: Codec, text: Option<string>) returns (err: Option<Error>)
      modifies this
      ensures SegmentsOf(c, text, []).Success? ==> err.None? && namespace == SegmentsOf(c, text, []).value
      ensures SegmentsOf(c, text, []).Failure? ==>
        err == Some(SegmentsOf(c, text, []).error) && namespace == old(namespace)
      ensures purlType == old(purlType) && name == old(name) && version == old(version)
      ensures qualifiers == old(qualifiers) && subpath == old(subpath)
    {
      var r := ParseNamespace(c, text);
      if r.Failure? {
        return Some(r.error);
      }
      namespace := r.value;
      return None;
    }

    /** `name(String)` (lines 485-488). */
    method SetName(n: Option<string>)
      modifies this
      ensures name == n
      ensures purlType == old(purlType) && namespace == old(namespace) && version == old(version)
      ensures qualifiers == old(qualifiers) && subpath == old(subpath)
    {
      name := n;
    }

    /** `version(String)` (lines 490-493). */
    method SetVersion(v: Option<string>)
      modifies this
      ensures version == v
      ensures purlType == old(purlType) && namespace == old(namespace) && name == old(name)
      ensures qualifiers == old(qualifiers) && subpath == old(subpath)
    {
      version := v;
    }

    /** `qualifiers(Map)` (lines 495-498). */
    method SetQualifiers(q: Option<QualifierMap>)
      modifies this
      ensures qualifiers == q
      ensures purlType == old(purlType) && namespace == old(namespace) && name == old(name)
      ensures version == old(version) && subpath == old(subpath)
    {
      qualifiers := q;
    }

    /** `qualifiers(String)` (lines 500-502): the text goes through `parseQualifiers`. */
    method SetQualifiersText(c: Codec, text: Option<string>) returns (err: Option<Error>)
      modifies this
      ensures QualifiersOf(c, text).Success? ==> err.None? && qualifiers == QualifiersOf(c, text).value
      ensures QualifiersOf(c, text).Failure? ==>
        err == Some(QualifiersOf(c, text).error) && qualifiers == old(qualifiers)
      ensures purlType == old(purlType) && namespace == old(namespace) && name == old(name)
      ensures version == old(version) && subpath == old(subpath)
    {
      var r := ParseQualifiers(c, text);
      if r.Failure? {
        return Some(r.error);
      }
      qualifiers := r.value;
      return None;
    }

    /**
     * `qualifer(String, String)` (lines 504-510): a missing map is created empty first;
     * then the entry is put, replacing the value of an existing key in its place.
     */
    method Qualifier(k: string, v: string)
      modifies this
      ensures qualifiers.Some?
      ensures Lookup(qualifiers.value, k) == Some(v)
      ensures forall k' :: k' != k ==>
        Lookup(qualifiers.value, k') == if old(qualifiers).Some? then Lookup(old(qualifiers).value, k') else None
      ensures old(qualifiers).Some? ==> qualifiers.value == Put(old(qualifiers).value, k, v)
      ensures old(qualifiers).None? ==> qualifiers.value == [(k, v)]
      ensures purlType == old(purlType) && namespace == old(namespace) && name == old(name)
      ensures version == old(version) && subpath == old(subpath)
    {
      var m: QualifierMap := if qualifiers.Some? then qualifiers.value else [];
      forall k' ensures Lookup(Put(m, k, v), k') == if k' == k then Some(v) else Lookup(m, k') {
        PutLookup(m, k, v, k');
      }
      qualifiers := Some(Put(m, k, v));
    }

    /** `subpath(List)` (lines 512-515). */
    method SetSubpath(sp: Option<seq<string>>)
      modifies this
      ensures subpath == sp
      ensures purlType == old(purlType) && namespace == old(namespace) && name == old(name)
      ensures version == old(version) && qualifiers == old(qualifiers)
    {
      subpath := sp;
    }

    /** `subpath(String)` (lines 517-519): the text goes through `parseSubpath`. */
    method SetSubpathText(c: Codec, text: Option<string>) returns (err: Option<Error>)
      modifies this
      ensures SegmentsOf(c, text, SubpathInvalids).Success? ==>
        err.None? && subpath == SegmentsOf(c, text, SubpathInvalids).value
      ensures SegmentsOf(c, text, SubpathInvalids).Failure? ==>
        err == Some(SegmentsOf(c, text, SubpathInvalids).error) && subpath == old(subpath)
      ensures purlType == old(purlType) && namespace == old(namespace) && name == old(name)
      ensures version == old(version) && qualifiers == old(qualifiers)
    {
      var r := ParseSubpath(c, text);
      if r.Failure? {
        return Some(r.error);
      }
      subpath := r.value;
      return None;
    }

    /** `build` (lines 526-530), as written. */
    method Build() returns (r: Result<PackageUrl, Error>)
      ensures r == Built(purlType, namespace, name, version, qualifiers, subpath)
    {
      if purlType.None? {
        return Failure(IllegalState("Missing: type"));
      }
      if name.None? {
        return Failure(IllegalState("Missing: name"));
      }
      r := NewPackageUrl(name.value, namespace, name.value, version, qualifiers, subpath);
    }

    /** `build` with the type field passed as the type. */
    method BuildAsIntended() returns (r: Result<PackageUrl, Error>)
      ensures r == BuiltAsIntended(purlType, namespace, name, version, qualifiers, subpath)
    {
      if purlType.None? {
        return Failure(IllegalState("Missing: type"));
      }
      if name.None? {
        return Failure(IllegalState("Missing: name"));
      }
      r := NewPackageUrl(purlType.value, namespace, name.value, version, qualifiers, subpath);
    }
  }

  /**
   * As written, the type field set on the builder is only checked for `null`: a builder
   * with type `maven` and name `foo_bar` fails with a message about an invalid type
   * `foo_bar`, and one with name `guava` builds a package URL of type `guava`.
   */
  lemma BuildUsesNameAsType()
    ensures Built(Some("maven"), None, Some("foo_bar"), None, None, None)
      == Failure(Invalid("Invalid type: foo_bar"))
    ensures Built(Some("maven"), None, Some("guava"), None, None, None)
      == Success(PackageUrl("guava", None, "guava", None, None, None))
  {
    assert "foo_bar"[3] == '_' && !IsTypeChar('_');
    assert !IsType("foo_bar");
    assert "Invalid " + "type" + ": " + "foo_bar" == "Invalid type: foo_bar";
    assert IsType("guava") && IsName("guava");
  }

  /**
   * As intended, `build` is the constructor on the fields set: it succeeds exactly when
   * type and name are set and the fields are valid, and then holds those fields.
   */
  lemma BuiltAsIntendedIsConstructor(
    purlType: Option<string>, namespace: Option<seq<string>>, name: Option<string>,
    version: Option<string>, qualifiers: Option<QualifierMap>, subpath: Option<seq<string>>)
    ensures var r := BuiltAsIntended(purlType, namespace, name, version, qualifiers, subpath);
      r.Success? <==>
        purlType.Some? && name.Some?
        && Valid(PackageUrl(purlType.value, namespace, name.value, version, qualifiers, subpath))
    ensures var r := BuiltAsIntended(purlType, namespace, name, version, qualifiers, subpath);
      r.Success? ==> r.value == PackageUrl(purlType.value, namespace, name.value, version, qualifiers, subpath)
  {
  }

  /**
   * Whenever the intended `build` succeeds, the one as written agrees with it exactly when
   * type and name are equal. How the two fail is the subject of `BuildersFailAlike` and
   * `BuildersFailApart`.
   */
  lemma BuildersAgreeOnlyWhenTypeIsName(
    purlType: string, namespace: Option<seq<string>>, name: string,
    version: Option<string>, qualifiers: Option<QualifierMap>, subpath: Option<seq<string>>)
    requires BuiltAsIntended(Some(purlType), namespace, Some(name), version, qualifiers, subpath).Success?
    ensures Built(Some(purlType), namespace, Some(name), version, qualifiers, subpath)
      == BuiltAsIntended(Some(purlType), namespace, Some(name), version, qualifiers, subpath)
      <==> purlType == name
  {
  }

  /**
   * When both the type and the name are valid types, the two builds fail on the same
   * inputs and with the same error: the constructor checks the type first, and every
   * later check sees the same fields.
   */
  lemma BuildersFailAlike(
    purlType: Option<string>, namespace: Option<seq<string>>, name: Option<string>,
    version: Option<string>, qualifiers: Option<QualifierMap>, subpath: Option<seq<string>>)
    requires purlType.Some? ==> IsType(purlType.value)
    requires name.Some? ==> IsType(name.value)
    ensures Built(purlType, namespace, name, version, qualifiers, subpath).Failure?
      <==> BuiltAsIntended(purlType, namespace, name, version, qualifiers, subpath).Failure?
    ensures Built(purlType, namespace, name, version, qualifiers, subpath).Failure? ==>
      Built(purlType, namespace, name, version, qualifiers, subpath).error
        == BuiltAsIntended(purlType, namespace, name, version, qualifiers, subpath).error
  {
  }

  /**
   * Otherwise the failures can differ: with type `maven`, name `foo_bar` and the namespace
   * `[""]`, the intended build fails on the namespace segment and the one as written on
   * the type.
   */
  lemma BuildersFailApart()
    ensures BuiltAsIntended(Some("maven"), Some([""]), Some("foo_bar"), None, None, None)
      == Failure(Invalid("Invalid namespace.segment: "))
    ensures Built(Some("maven"), Some([""]), Some("foo_bar"), None, None, None)
      == Failure(Invalid("Invalid type: foo_bar"))
  {
    assert IsType("maven") && !IsSegment("");
    assert "Invalid " + "namespace.segment" + ": " + "" == "Invalid namespace.segment: ";
    assert "foo_bar"[3] == '_' && !IsTypeChar('_');
    assert "Invalid " + "type" + ": " + "foo_bar" == "Invalid type: foo_bar";
  }

  /** The builder example of `BuildUsesNameAsType`, built as intended, keeps type `maven`. */
  lemma GuavaBuiltAsIntended()
    ensures BuiltAsIntended(Some("maven"), None, Some("guava"), None, None, None)
      == Success(PackageUrl("maven", None, "guava", None, None, None))
  {
    assert IsType("maven") && IsName("guava");
  }

  /**
   * Builder parity on `maven:junit@4.12`: building type `maven`, name `junit` and version
   * `4.12` as intended gives what parsing that text gives; as written it does not.
   */
  lemma BuilderParity(c: Codec)
    requires c.decode("junit") == "junit" && c.decode("4.12") == "4.12"
    ensures var m := Some(Groups("maven", false, None, "junit", Some("4.12"), None, None));
      && Sound("maven:junit@4.12", m)
      && Parsed(c, "maven:junit@4.12", m)
         == BuiltAsIntended(Some("maven"), None, Some("junit"), Some("4.12"), None, None)
      && Parsed(c, "maven:junit@4.12", m)
         != Built(Some("maven"), None, Some("junit"), Some("4.12"), None, None)
  {
    var g := Groups("maven", false, None, "junit", Some("4.12"), None, None);
    assert IsType("maven") && IsName("junit") && IsVersion("4.12");
    assert Head(g) == "maven:junit";
    assert Tail(g) == "@4.12";
  }
}
