/**
 * `parse` (lines 304-327): match the whole input against PURL_PATTERN, then turn the groups
 * into fields (segments, decoded name and version, qualifier map) and run the constructor.
 *
 * The regex engine is a parameter: `m` is its verdict on the input, `None` when
 * `matches()` is false and the groups it captured otherwise.
 */
module Parsing {
  import opened Wrappers
  import opened Text
  import opened Grammar
  import opened Urls
  import opened Errors
  import opened Segments
  import opened Qualifiers
  import opened PackageUrls
  import opened Rendering

  /**
   * A verdict that can only be right: captured groups always spell the input out, so a
   * verdict with groups is only ever given on input that `Matches`.
   */
  predicate Sound(value: string, m: Option<Groups>) {
    m.Some? ==> Decomposes(value, m.value)
  }

  /** The version group decoded when it matched; `null` stays `null`. */
  function DecodedVersion(c: Codec, version: Option<string>): (r: Option<string>)
    ensures r.Some? <==> version.Some?
    ensures r.Some? ==> r.value == c.decode(version.value)
  {
    match version
    case None => None
    case Some(v) => Some(c.decode(v))
  }

  /**
   * The specification of `parse`: no match is an InvalidException carrying the input;
   * otherwise namespace, name, version, qualifiers and subpath are converted in that order,
   * the first exception wins, and the constructor has the last word.
   */
  function Parsed(c: Codec, value: string, m: Option<Groups>): (r: Result<PackageUrl, Error>)
    ensures m.None? ==> r == Failure(Invalid(value))
    ensures r.Success? ==> m.Some? && Valid(r.value)
    ensures r.Success? ==>
      && r.value.purlType == m.value.purlType
      && r.value.name == c.decode(m.value.name)
      && r.value.version == DecodedVersion(c, m.value.version)
      && (r.value.namespace.Some? <==> m.value.namespace.Some?)
      && (r.value.qualifiers.Some? <==> m.value.qualifiers.Some?)
      && (r.value.subpath.Some? <==> m.value.subpath.Some?)
  {
    match m
    case None => Failure(Invalid(value))
    case Some(g) =>
      match SegmentsOf(c, g.namespace, [])
      case Failure(e) => Failure(e)
      case Success(namespace) =>
        match QualifiersOf(c, g.qualifiers)
        case Failure(e) => Failure(e)
        case Success(qualifiers) =>
          match SegmentsOf(c, g.subpath, SubpathInvalids)
          case Failure(e) => Failure(e)
          case Success(subpath) =>
            Construct(g.purlType, namespace, c.decode(g.name), DecodedVersion(c, g.version), qualifiers, subpath)
  }

  /** `parse` (lines 304-327), calling the parsers of each group and the constructor. */
  method Parse(c: Codec, value: string, m: Option<Groups>) returns (r: Result<PackageUrl, Error>)
    ensures r == Parsed(c, value, m)
  {
    if m.None? {
      return Failure(Invalid(value));
    }
    var g := m.value;
    var namespace := ParseNamespace(c, g.namespace);
    if namespace.Failure? {
      return Failure(namespace.error);
    }
    var name := c.decode(g.name);
    var version := g.version;
    if version.Some? {
      version := Some(c.decode(version.value));
    }
    var qualifiers := ParseQualifiers(c, g.qualifiers);
    if qualifiers.Failure? {
      return Failure(qualifiers.error);
    }
    var subpath := ParseSubpath(c, g.subpath);
    if subpath.Failure? {
      return Failure(subpath.error);
    }
    r := NewPackageUrl(g.purlType, namespace.value, name, version, qualifiers.value, subpath.value);
  }

  /**
   * What `parse` throws: an InvalidException (or one of its two subclasses), except that
   * Guava's splitter throws IllegalArgumentException on a qualifiers group it cannot split,
   * and `stripSlashes` throws StringIndexOutOfBoundsException on a namespace or subpath
   * group that is exactly `/`.
   */
  lemma ParseFailureKinds(c: Codec, value: string, m: Option<Groups>)
    requires Sound(value, m) && Parsed(c, value, m).Failure?
    ensures var e := Parsed(c, value, m).error;
      || e.IsInvalidException()
      || (e == IllegalArgument && m.value.qualifiers.Some? && SplitPairs(m.value.qualifiers.value).Failure?)
      || (e == IndexOutOfBounds && (m.value.namespace == Some("/") || m.value.subpath == Some("/")))
  {
    if m.Some? {
      var g := m.value;
      SegmentsOfErrors(c, g.namespace, []);
      SegmentsOfErrors(c, g.subpath, SubpathInvalids);
    }
  }

  /**
   * An input without `:` does not match (`NoColonNoMatch`), so under a sound verdict the
   * parse fails with the input as message.
   */
  lemma ParseRejectsNoColon(c: Codec, value: string, m: Option<Groups>)
    requires Sound(value, m) && ':' !in value
    ensures Parsed(c, value, m) == Failure(Invalid(value))
  {
    if m.Some? {
      TypeBeforeFirstColon(value, m.value);
    }
  }

  /** The parsed type is the text before the first `:`, undecoded and in its original case. */
  lemma ParsedTypeBeforeFirstColon(c: Codec, value: string, m: Option<Groups>)
    requires Sound(value, m) && Parsed(c, value, m).Success?
    ensures ':' in value
    ensures Parsed(c, value, m).value.purlType == value[..IndexOf(value, ':')]
  {
    TypeBeforeFirstColon(value, m.value);
  }

  /**
   * Whatever cut the engine chooses, the type is the same: on one input every successful
   * parse yields the same type.
   */
  lemma ParsedTypeUnique(c: Codec, value: string, m: Option<Groups>, m': Option<Groups>)
    requires Sound(value, m) && Sound(value, m')
    requires Parsed(c, value, m).Success? && Parsed(c, value, m').Success?
    ensures Parsed(c, value, m).value.purlType == Parsed(c, value, m').value.purlType
  {
    TypeGroupUnique(value, m.value, m'.value);
  }

  /**
   * A parsed version is the decoded text that starts right after the first `@` of the
   * input, and an input without `@` parses to no version.
   */
  lemma ParsedVersion(c: Codec, value: string, m: Option<Groups>)
    requires Sound(value, m) && Parsed(c, value, m).Success?
    ensures '@' !in value ==> Parsed(c, value, m).value.version.None?
    ensures Parsed(c, value, m).value.version.Some? ==>
      var at := |Head(m.value)|;
      var raw := m.value.version.value;
      && at < |value| && value[at] == '@' && '@' !in value[..at]
      && at + 1 + |raw| <= |value| && value[at + 1..at + 1 + |raw|] == raw
      && Parsed(c, value, m).value.version.value == c.decode(raw)
  {
    if '@' !in value {
      NoAtNoVersion(value, m.value);
    }
    if m.value.version.Some? {
      VersionAfterFirstAt(value, m.value);
    }
  }

  /**
   * A parsed namespace or subpath, when present, has at least one segment, and every
   * segment is non-empty and free of `/`; a parsed subpath holds no `.` or `..`.
   */
  lemma ParsedSegments(c: Codec, value: string, m: Option<Groups>)
    requires Parsed(c, value, m).Success?
    ensures var p := Parsed(c, value, m).value;
      && (p.namespace.Some? ==> |p.namespace.value| >= 1)
      && (p.subpath.Some? ==> |p.subpath.value| >= 1)
      && (p.subpath.Some? ==> forall i :: 0 <= i < |p.subpath.value| ==> p.subpath.value[i] !in SubpathInvalids)
  {
    var g := m.value;
    if g.namespace.Some? {
      SegmentsOfSucceed(c, g.namespace.value, []);
    }
    if g.subpath.Some? {
      SegmentsOfSucceed(c, g.subpath.value, SubpathInvalids);
    }
  }

  /**
   * `toString` of a parsed package URL starts with the lower-cased text before the first
   * `:` of the input, followed by that `:`.
   */
  lemma RenderParsedType(c: Codec, value: string, m: Option<Groups>)
    requires Sound(value, m) && Parsed(c, value, m).Success?
    ensures var t := value[..IndexOf(value, ':')];
      var s := Render(c, Parsed(c, value, m).value);
      ':' in value && |t| < |s| && s[..|t|] == Lower(t) && s[|t|] == ':'
  {
    var p := Parsed(c, value, m).value;
    TypeBeforeFirstColon(value, m.value);
    RenderTypePrefix(c, p);
    assert Render(c, p)[IndexOf(Render(c, p), ':')] == ':';
  }

  /**
   * NAME admits `?`: with the cut Java's greedy engine takes for `t:a?k=v` the whole
   * `a?k=v` becomes the name and no qualifiers are parsed.
   */
  lemma NameSwallowsQualifiers(c: Codec)
    requires c.decode("a?k=v") == "a?k=v"
    ensures var m := Some(Groups("t", false, None, "a?k=v", None, None, None));
      && Sound("t:a?k=v", m)
      && Parsed(c, "t:a?k=v", m) == Success(PackageUrl("t", None, "a?k=v", None, None, None))
  {
    NameAdmitsQuestionMark();
  }

  /**
   * Four slashes after the `:` can be cut as `//`, namespace `/` and name: stripping
   * the namespace `/` then runs off the end of the string, and `parse` throws a
   * StringIndexOutOfBoundsException rather than an InvalidException.
   */
  lemma SlashNamespaceOutOfBounds(c: Codec)
    ensures var m := Some(Groups("t", true, Some("/"), "n", None, None, None));
      && Sound("t:////n", m)
      && Parsed(c, "t:////n", m) == Failure(IndexOutOfBounds)
  {
    var g := Groups("t", true, Some("/"), "n", None, None, None);
    assert IsType("t") && IsNamespaceText("/") && IsName("n");
    assert Head(g) == "t:////n";
  }

  /** A Maven coordinate, parsed with a codec that leaves its plain words alone. */
  lemma MavenExample(c: Codec)
    requires c.decode("junit") == "junit" && c.decode("4.12") == "4.12"
    ensures var value := "maven:junit/junit@4.12";
      var m := Some(Groups("maven", false, Some("junit"), "junit", Some("4.12"), None, None));
      && Sound(value, m)
      && Parsed(c, value, m) == Success(PackageUrl("maven", Some(["junit"]), "junit", Some("4.12"), None, None))
  {
    MavenGroups();
    SingleSegment(c, "junit");
  }

  /** `maven:junit/junit@4.12` cut into its groups. */
  lemma MavenGroups()
    ensures Decomposes("maven:junit/junit@4.12", Groups("maven", false, Some("junit"), "junit", Some("4.12"), None, None))
  {
    var g := Groups("maven", false, Some("junit"), "junit", Some("4.12"), None, None);
    assert GroupsMatch(g) by {
      assert IsType("maven") && IsNamespaceText("junit") && IsName("junit") && IsVersion("4.12");
    }
    assert Spelled(g) == "maven:junit/junit@4.12" by {
      assert Head(g) == "maven:junit/junit";
      assert Tail(g) == "@4.12";
    }
  }

  /** A namespace text without `/` that decodes to itself is one segment. */
  lemma SingleSegment(c: Codec, ns: string)
    requires IsSegment(ns) && c.decode(ns) == ns
    ensures SegmentsOf(c, Some(ns), []) == Success(Some([ns]))
  {
    assert StripSlashes(ns) == Success(ns);
    SplitNoSeparator(ns, '/');
    assert CheckPart(c, ns, ns, []) == Success(ns);
    assert [ns][1..] == [];
    assert CheckParts(c, ns, [ns], []) == Prepend([ns], Success([]));
    assert [ns] + [] == [ns];
  }
}
