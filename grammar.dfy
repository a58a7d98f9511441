/**
 * The field patterns of lines 249-287 as predicates over whole strings (`Matcher.matches()`
 * is a full match), and the composite PURL_PATTERN of lines 289-297 as a relation between an
 * input and the groups it can be cut into. Which of several decompositions Java's backtracking
 * engine prefers is not modelled; every statement below holds for all of them.
 */
module Grammar {
  import opened Wrappers
  import opened Text

  predicate IsAsciiLetter(ch: char) {
    'a' <= ch <= 'z' || 'A' <= ch <= 'Z'
  }

  /** `\d` without UNICODE_CHARACTER_CLASS. */
  predicate IsAsciiDigit(ch: char) {
    '0' <= ch <= '9'
  }

  /** The characters Java's `.` does not match (neither DOTALL nor UNIX_LINES is set). */
  predicate IsLineTerminator(ch: char) {
    ch == '\n' || ch == '\r' || ch == '\U{0085}' || ch == '\U{2028}' || ch == '\U{2029}'
  }

  predicate IsTypeChar(ch: char) {
    IsAsciiLetter(ch) || IsAsciiDigit(ch) || ch == '.' || ch == '+' || ch == '-'
  }

  /** TYPE, `[a-zA-Z][a-zA-Z\d.+-]*`. */
  predicate IsType(s: string) {
    |s| > 0 && IsAsciiLetter(s[0]) && forall i :: 1 <= i < |s| ==> IsTypeChar(s[i])
  }

  /** NAMESPACE, `[^@#]+`: the raw namespace group, before it is cut into segments. */
  predicate IsNamespaceText(s: string) {
    |s| > 0 && '@' !in s && '#' !in s
  }

  /** NAMESPACE_SEGMENT and SUBPATH_SEGMENT, both `[^/]+`. */
  predicate IsSegment(s: string) {
    |s| > 0 && '/' !in s
  }

  /** NAME, `[^/@]+`; it does not exclude `?` or `#`. */
  predicate IsName(s: string) {
    |s| > 0 && '/' !in s && '@' !in s
  }

  /** `.+` and `.+?` matched in full: SUBPATH, and VERSION below. */
  predicate IsLine(s: string) {
    |s| > 0 && forall i :: 0 <= i < |s| ==> !IsLineTerminator(s[i])
  }

  /** VERSION, `.+?`. */
  predicate IsVersion(s: string) {
    IsLine(s)
  }

  predicate IsKeyStart(ch: char) {
    IsAsciiLetter(ch) || ch == '.' || ch == '-' || ch == '_'
  }

  /** QUALIFIER_KEY, `[a-zA-Z.\-_][a-zA-Z\d.\-_]*`. */
  predicate IsQualifierKey(s: string) {
    |s| > 0 && IsKeyStart(s[0]) && forall i :: 1 <= i < |s| ==> IsKeyStart(s[i]) || IsAsciiDigit(s[i])
  }

  /** QUALIFIER_VALUE, `[^&]+?`. */
  predicate IsQualifierValue(s: string) {
    |s| > 0 && '&' !in s
  }

  /** QUALIFIER, `key=value`: a key holds no `=`, so it ends at the first one. */
  predicate IsQualifier(s: string) {
    '=' in s && IsQualifierKey(s[..IndexOf(s, '=')]) && IsQualifierValue(s[IndexOf(s, '=') + 1..])
  }

  /**
   * QUALIFIERS, `QUALIFIER(&QUALIFIER)*`: neither keys nor values hold `&`, so the `&`s are
   * exactly the separators between the qualifiers.
   */
  predicate IsQualifiersText(s: string) {
    var chunks := Split(s, '&');
    forall i :: 0 <= i < |chunks| ==> IsQualifier(chunks[i])
  }

  /** The named groups of PURL_PATTERN, plus whether the optional `//` after `:` matched. */
  datatype Groups = Groups(
    purlType: string,
    slashes: bool,
    namespace: Option<string>,
    name: string,
    version: Option<string>,
    qualifiers: Option<string>,
    subpath: Option<string>)

  /** The text a choice of groups spells out under PURL_PATTERN. */
  function Spelled(g: Groups): string {
    Head(g) + Tail(g)
  }

  /** Type, `:`, the optional `//`, the optional `namespace/` and the name. */
  function Head(g: Groups): string {
    g.purlType + ":" + (if g.slashes then "//" else "")
    + (if g.namespace.Some? then g.namespace.value + "/" else "")
    + g.name
  }

  /** The optional `@version`, then the rest. */
  function Tail(g: Groups): string {
    (if g.version.Some? then "@" + g.version.value else "") + AfterVersion(g)
  }

  /** The optional `?qualifiers` and `#subpath`. */
  function AfterVersion(g: Groups): string {
    (if g.qualifiers.Some? then "?" + g.qualifiers.value else "")
    + (if g.subpath.Some? then "#" + g.subpath.value else "")
  }

  /** Every captured group matches its sub-pattern. */
  predicate GroupsMatch(g: Groups) {
    && IsType(g.purlType)
    && (g.namespace.Some? ==> IsNamespaceText(g.namespace.value))
    && IsName(g.name)
    && (g.version.Some? ==> IsVersion(g.version.value))
    && (g.qualifiers.Some? ==> IsQualifiersText(g.qualifiers.value))
    && (g.subpath.Some? ==> IsLine(g.subpath.value))
  }

  /** `value` matches PURL_PATTERN in full with groups `g`. */
  predicate Decomposes(value: string, g: Groups) {
    GroupsMatch(g) && value == Spelled(g)
  }

  /** `PURL_PATTERN.matcher(value).matches()`. */
  ghost predicate Matches(value: string) {
    exists g :: Decomposes(value, g)
  }

  /**
   * TYPE cannot hold `:`, so in every decomposition the type group is exactly the text
   * before the first `:` of the input, in its original case.
   */
  lemma TypeBeforeFirstColon(value: string, g: Groups)
    requires Decomposes(value, g)
    ensures ':' in value && IndexOf(value, ':') == |g.purlType|
    ensures value[..IndexOf(value, ':')] == g.purlType
  {
    var t := g.purlType;
    assert ':' !in t by {
      forall i | 0 <= i < |t| ensures t[i] != ':' {
        assert i == 0 || IsTypeChar(t[i]);
      }
    }
    var rest := value[|t| + 1..];
    assert value == t + [':'] + rest;
    IndexOfAfter(t, ':', rest);
  }

  /** Text without a `:` does not match PURL_PATTERN at all. */
  lemma NoColonNoMatch(value: string)
    requires ':' !in value
    ensures !Matches(value)
  {
    forall g | Decomposes(value, g) ensures false {
      TypeBeforeFirstColon(value, g);
    }
  }

  /** Two decompositions of one input agree on the type group. */
  lemma TypeGroupUnique(value: string, g: Groups, h: Groups)
    requires Decomposes(value, g) && Decomposes(value, h)
    ensures g.purlType == h.purlType
  {
    TypeBeforeFirstColon(value, g);
    TypeBeforeFirstColon(value, h);
  }

  /**
   * Before the version group only `@`-free groups stand, so a version group, when it
   * matched, starts right after the first `@` of the input.
   */
  lemma VersionAfterFirstAt(value: string, g: Groups)
    requires value == Spelled(g) && g.version.Some?
    requires IsType(g.purlType) && IsName(g.name)
    requires g.namespace.Some? ==> IsNamespaceText(g.namespace.value)
    ensures var at := |Head(g)|;
      at < |value| && value[at] == '@' && '@' !in value[..at]
    ensures var at := |Head(g)|;
      at + 1 + |g.version.value| <= |value| && value[at + 1..at + 1 + |g.version.value|] == g.version.value
  {
    HeadHasNoAt(g);
    SpelledAroundVersion(value, g);
    SliceAfterFirst(value, Head(g), '@', g.version.value, AfterVersion(g));
  }

  /** The spelled text cut at the `@` of a version group. */
  lemma SpelledAroundVersion(value: string, g: Groups)
    requires value == Spelled(g) && g.version.Some?
    ensures value == Head(g) + ['@'] + (g.version.value + AfterVersion(g))
  {
    assert Tail(g) == "@" + g.version.value + AfterVersion(g);
    assert "@" + g.version.value + AfterVersion(g) == "@" + (g.version.value + AfterVersion(g));
    assert Head(g) + "@" + (g.version.value + AfterVersion(g)) == Head(g) + ("@" + (g.version.value + AfterVersion(g)));
  }

  /** No group before the version can hold `@`. */
  lemma HeadHasNoAt(g: Groups)
    requires IsType(g.purlType) && IsName(g.name)
    requires g.namespace.Some? ==> IsNamespaceText(g.namespace.value)
    ensures '@' !in Head(g)
  {
    var t := g.purlType;
    assert '@' !in t by {
      forall i | 0 <= i < |t| ensures t[i] != '@' {
        assert i == 0 || IsTypeChar(t[i]);
      }
    }
  }

  /** Without an `@` in the input no decomposition has a version group. */
  lemma NoAtNoVersion(value: string, g: Groups)
    requires Decomposes(value, g) && '@' !in value
    ensures g.version.None?
  {
    if g.version.Some? {
      VersionAfterFirstAt(value, g);
    }
  }

  /**
   * NAME is greedy and admits `?`: an input without `@` such as `t:a?k=v` can be cut with
   * the whole `a?k=v` as name and no qualifiers group (the cut Java's engine takes), as well
   * as into name `a` and qualifiers `k=v`.
   */
  lemma NameAdmitsQuestionMark()
    ensures Decomposes("t:a?k=v", Groups("t", false, None, "a?k=v", None, None, None))
    ensures Decomposes("t:a?k=v", Groups("t", false, None, "a", None, Some("k=v"), None))
  {
    var whole := Groups("t", false, None, "a?k=v", None, None, None);
    var split := Groups("t", false, None, "a", None, Some("k=v"), None);
    assert Decomposes("t:a?k=v", whole) by {
      assert IsType("t") && IsName("a?k=v");
      assert Head(whole) == "t:a?k=v";
    }
    assert IsQualifiersText("k=v") by {
      assert IsQualifier("k=v") by {
        IndexOfUnique("k=v", '=', 1);
      }
      SplitNoSeparator("k=v", '&');
    }
    assert Spelled(split) == "t:a?k=v" by {
      assert Head(split) == "t:a" && Tail(split) == "?k=v";
    }
  }

  /** A qualifier value cannot be empty, so `x=&y=1` is not a qualifiers group. */
  lemma EmptyQualifierValueIsNoQualifiers()
    ensures !IsQualifiersText("x=&y=1")
  {
    var q := "x=&y=1";
    IndexOfUnique(q, '&', 2);
    assert q[..2] == "x=";
    var first := Split(q, '&')[0];
    assert first == "x=";
    IndexOfUnique(first, '=', 1);
    assert first[2..] == "";
    assert !IsQualifier(first);
  }

  /** The cut of `pkg:type/name?x=&y=1` that exists: namespace `type`, name `name?x=&y=1`. */
  lemma EmptyQualifierValueInName()
    ensures Decomposes("pkg:type/name?x=&y=1", Groups("pkg", false, Some("type"), "name?x=&y=1", None, None, None))
  {
    var g := Groups("pkg", false, Some("type"), "name?x=&y=1", None, None, None);
    assert GroupsMatch(g) by {
      assert IsType("pkg") && IsNamespaceText("type") && IsName("name?x=&y=1");
    }
    assert Spelled(g) == "pkg:type/name?x=&y=1" by {
      assert Head(g) == "pkg:type/name?x=&y=1";
    }
  }
}
