/** The canonical text of a package URL: `toString` and the `get*AsString` getters (lines 125-243). */
module Rendering {
  import opened Wrappers
  import opened Text
  import opened Grammar
  import opened Urls
  import opened Segments
  import opened Qualifiers
  import opened PackageUrls

  /** `toString` (lines 196-229): lower-cased type and `:`, then everything after the `:`. */
  function Render(c: Codec, p: PackageUrl): string {
    Lower(p.purlType) + ":" + NamespacePart(c, p) + c.encode(p.name)
    + VersionPart(c, p) + QualifiersPart(c, p) + SubpathPart(c, p)
  }

  /** The rendered text is the type part, `:` and the body. */
  lemma RenderTypeThenBody(c: Codec, p: PackageUrl)
    ensures Render(c, p) == Lower(p.purlType) + ":" + RenderBody(c, p)
  {
    var head := Lower(p.purlType) + ":" + NamespacePart(c, p);
    var name := c.encode(p.name);
    var version, qualifiers, subpath := VersionPart(c, p), QualifiersPart(c, p), SubpathPart(c, p);
    assert head + name + version == head + (name + version);
    assert head + (name + version) + qualifiers == head + (name + version + qualifiers);
    assert head + (name + version + qualifiers) + subpath == head + (name + version + qualifiers + subpath);
    assert Lower(p.purlType) + ":" + NamespacePart(c, p) + AfterNamespace(c, p)
      == Lower(p.purlType) + ":" + (NamespacePart(c, p) + AfterNamespace(c, p));
  }

  /** Namespace and `/`, encoded name, then version, qualifiers and subpath where present. */
  function RenderBody(c: Codec, p: PackageUrl): string {
    NamespacePart(c, p) + AfterNamespace(c, p)
  }

  /** Encoded name, then version, qualifiers and subpath where present. */
  function AfterNamespace(c: Codec, p: PackageUrl): string {
    c.encode(p.name) + VersionPart(c, p) + QualifiersPart(c, p) + SubpathPart(c, p)
  }

  /** Lines 200-203: the joined namespace and a `/`, when the namespace is present and not empty. */
  function NamespacePart(c: Codec, p: PackageUrl): string {
    if p.namespace.Some? && p.namespace.value != [] then RenderSegments(c, p.namespace.value) + "/" else ""
  }

  /** Lines 207-209: `@` and the encoded version, whenever the version is not `null`. */
  function VersionPart(c: Codec, p: PackageUrl): string {
    if p.version.Some? then "@" + c.encode(p.version.value) else ""
  }

  /** Lines 211-221: `?` and the entries, when the map is present and not empty. */
  function QualifiersPart(c: Codec, p: PackageUrl): string {
    if p.qualifiers.Some? && p.qualifiers.value != [] then "?" + RenderQualifiers(c, p.qualifiers.value) else ""
  }

  /** Lines 223-226: `#` and the joined subpath, when the subpath is present and not empty. */
  function SubpathPart(c: Codec, p: PackageUrl): string {
    if p.subpath.Some? && p.subpath.value != [] then "#" + RenderSegments(c, p.subpath.value) else ""
  }

  /** `toString` (lines 196-229), appending to a buffer. */
  method ToString(c: Codec, p: PackageUrl) returns (s: string)
    ensures s == Render(c, p)
  {
    var buff := AppendNamespace(c, Lower(p.purlType) + ":", p);
    buff := buff + c.encode(p.name);
    buff := AppendVersion(c, buff, p);
    buff := AppendQualifiersPart(c, buff, p);
    s := AppendSubpath(c, buff, p);
  }

  /** Lines 200-203 of `toString`. */
  method AppendNamespace(c: Codec, buff: string, p: PackageUrl) returns (out: string)
    ensures out == buff + NamespacePart(c, p)
  {
    out := buff;
    if p.namespace.Some? && p.namespace.value != [] {
      out := AppendSegments(c, out, p.namespace.value);
      out := out + "/";
    }
  }

  /** Lines 207-209 of `toString`. */
  method AppendVersion(c: Codec, buff: string, p: PackageUrl) returns (out: string)
    ensures out == buff + VersionPart(c, p)
  {
    out := buff;
    if p.version.Some? {
      out := out + "@" + c.encode(p.version.value);
    }
  }

  /** Lines 211-221 of `toString`. */
  method AppendQualifiersPart(c: Codec, buff: string, p: PackageUrl) returns (out: string)
    ensures out == buff + QualifiersPart(c, p)
  {
    out := buff;
    if p.qualifiers.Some? && p.qualifiers.value != [] {
      out := AppendQualifiers(c, out + "?", p.qualifiers.value);
    }
  }

  /** Lines 223-226 of `toString`. */
  method AppendSubpath(c: Codec, buff: string, p: PackageUrl) returns (out: string)
    ensures out == buff + SubpathPart(c, p)
  {
    out := buff;
    if p.subpath.Some? && p.subpath.value != [] {
      out := AppendSegments(c, out + "#", p.subpath.value);
    }
  }

  /**
   * The qualifier loop of `toString` (lines 213-220): each entry as `key=encoded value`,
   * with an `&` after every one but the last.
   */
  method AppendQualifiers(c: Codec, buff: string, q: QualifierMap) returns (out: string)
    ensures out == buff + RenderQualifiers(c, q)
  {
    ghost var entries := Entries(c, q);
    out := buff;
    var i := 0;
    while i < |q|
      invariant 0 <= i <= |q|
      invariant out == buff + Join(entries[..i], '&') + (if 0 < i < |q| then "&" else "")
    {
      var entry := q[i].0 + "=" + c.encode(q[i].1);
      assert entries[..i + 1] == entries[..i] + [entry];
      if i > 0 {
        JoinSnoc(entries[..i], '&', entry);
      }
      out := out + entry;
      if i + 1 < |q| {
        out := out + "&";
      }
      i := i + 1;
    }
    assert entries[..i] == entries;
  }

  /** The lower-cased type text holds no `:`. */
  lemma LowerTypeHasNoColon(t: string)
    requires IsType(t)
    ensures ':' !in Lower(t)
  {
    forall i | 0 <= i < |t| ensures Lower(t)[i] != ':' {
      assert i == 0 || IsTypeChar(t[i]);
    }
  }

  /**
   * The rendered text starts with the lower-cased type, and its first `:` follows it:
   * whatever the codec does to the other fields, the type reads back from before the
   * first `:`.
   */
  lemma RenderTypePrefix(c: Codec, p: PackageUrl)
    requires IsType(p.purlType)
    ensures ':' in Render(c, p)
    ensures IndexOf(Render(c, p), ':') == |p.purlType|
    ensures Render(c, p)[..|p.purlType|] == Lower(p.purlType)
  {
    RenderTypeThenBody(c, p);
    LowerTypeHasNoColon(p.purlType);
    IndexOfAfter(Lower(p.purlType), ':', RenderBody(c, p));
  }

  /** Only the lower-cased type is rendered: the case of the type never shows. */
  lemma RenderIgnoresTypeCase(c: Codec, p: PackageUrl)
    ensures Render(c, p) == Render(c, p.(purlType := Lower(p.purlType)))
  {
    LowerIdempotent(p.purlType);
  }

  /** A present but empty namespace, qualifier map or subpath renders as an absent one. */
  lemma RenderEmptyAsAbsent(c: Codec, p: PackageUrl)
    ensures Render(c, p.(namespace := Some([]))) == Render(c, p.(namespace := None))
    ensures var empty: QualifierMap := []; Render(c, p.(qualifiers := Some(empty))) == Render(c, p.(qualifiers := None))
    ensures Render(c, p.(subpath := Some([]))) == Render(c, p.(subpath := None))
  {
  }

  /** `getNamespaceAsString` (lines 129-134): `null` when absent or empty, else the joined segments. */
  function NamespaceAsString(c: Codec, p: PackageUrl): (r: Option<string>)
    ensures r.None? <==> p.namespace.None? || p.namespace.value == []
  {
    if p.namespace.Some? && p.namespace.value != [] then Some(RenderSegments(c, p.namespace.value)) else None
  }

  /** `getSubpathAsString` (lines 159-164): `null` when absent or empty, else the joined segments. */
  function SubpathAsString(c: Codec, p: PackageUrl): (r: Option<string>)
    ensures r.None? <==> p.subpath.None? || p.subpath.value == []
  {
    if p.subpath.Some? && p.subpath.value != [] then Some(RenderSegments(c, p.subpath.value)) else None
  }

  /** The namespace string is the text `toString` prints between the `:` and the `/` before the name. */
  lemma RenderShowsNamespace(c: Codec, p: PackageUrl)
    requires IsType(p.purlType) && NamespaceAsString(c, p).Some?
    ensures var ns := NamespaceAsString(c, p).value;
      var at := |p.purlType| + 1;
      at + |ns| < |Render(c, p)| && Render(c, p)[at..at + |ns|] == ns && Render(c, p)[at + |ns|] == '/'
  {
    var ns := NamespaceAsString(c, p).value;
    var rest := "/" + AfterNamespace(c, p);
    assert RenderBody(c, p) == ns + rest;
    RenderTypeThenBody(c, p);
    LowerTypeHasNoColon(p.purlType);
    var r := Render(c, p);
    assert r == Lower(p.purlType) + [':'] + (ns + rest);
    SliceAfterFirst(r, Lower(p.purlType), ':', ns, rest);
    assert r[|p.purlType| + 1 + |ns|] == rest[0];
  }

  /**
   * The namespace string parses back to the namespace when the codec behaves on its
   * segments (as in `SegmentsRoundTrip`); likewise the subpath string.
   */
  lemma NamespaceAsStringRoundTrip(c: Codec, p: PackageUrl)
    requires p.namespace.Some? && p.namespace.value != []
    requires var segs := p.namespace.value;
      forall i :: 0 <= i < |segs| ==>
        && '/' !in segs[i] && c.encode(segs[i]) != "" && '/' !in c.encode(segs[i])
        && c.decode(c.encode(segs[i])) == segs[i]
    ensures SegmentsOf(c, NamespaceAsString(c, p), []) == Success(p.namespace)
  {
    SegmentsRoundTrip(c, p.namespace.value, []);
  }

  lemma SubpathAsStringRoundTrip(c: Codec, p: PackageUrl)
    requires p.subpath.Some? && p.subpath.value != []
    requires var segs := p.subpath.value;
      forall i :: 0 <= i < |segs| ==>
        && segs[i] !in SubpathInvalids && '/' !in segs[i]
        && c.encode(segs[i]) != "" && '/' !in c.encode(segs[i])
        && c.decode(c.encode(segs[i])) == segs[i]
    ensures SegmentsOf(c, SubpathAsString(c, p), SubpathInvalids) == Success(p.subpath)
  {
    SegmentsRoundTrip(c, p.subpath.value, SubpathInvalids);
  }
}
