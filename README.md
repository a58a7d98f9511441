# Package URL model

A Dafny model of `PackageUrl`, the Java value class for Package URLs (purls) shaped like
`type:namespace/name@version?qualifiers#subpath`. It covers the following, with proofs of
what each promises:

- the field grammars and the composite pattern `PURL_PATTERN`;
- segment parsing of namespace and subpath (`stripSlashes`, `parseSegments`);
- qualifier parsing (`parseQualifiers`);
- the validating constructors;
- the canonical rendering (`toString`, `renderSegments`, `get*AsString`);
- `parse`;
- `equals`;
- the mutable `Builder`.

Modules, one per file:

- `Wrappers` holds `Option` and `Result`.
- `Errors` holds the exceptions as values.
- `Text` holds index, split, join and lower-casing on strings.
- `Urls` is the codec.
- `Grammar` holds the patterns. `PURL_PATTERN` is a relation `Decomposes(value, groups)` between an input and the groups it can be cut into.
- `Segments`, `Qualifiers`, `PackageUrls`, `Rendering` and `Parsing` hold the operations.
- `Builders` holds the `Builder` class.

How the model is built:

- **Codec.** `Urls.encode` / `Urls.decode` are a `Codec` parameter: two arbitrary total functions on strings. A lemma that needs the codec to behave states that as a hypothesis on the strings it concerns.
- **Regex engine.** `parse` receives the regex engine's verdict as a parameter `m: Option<Groups>`. `Sound` says that the captured groups spell the input out; every property of `parse` holds for any sound verdict.
- **Loops as methods.** Every loop of the source is a method proved equal to a specification function: `ParseParts` and `ParsePart` (the loops of `parseSegments`), `ParseQualifiers`, `ValidateSegments`, `ValidateQualifiers`, `AppendSegments` and `AppendQualifiers`. The methods that call them, such as `ParseSegments` and `ToString`, are proved equal to their specifications in the same way. The properties are proved as lemmas about those functions.
- **Maps.** `LinkedHashMap` and `ImmutableMap` are an association list with distinct keys (`QualifierMap`). `Put` keeps the position of a key already present, as `LinkedHashMap.put` does.
- **Null.** `null` is `None`. A present but empty list is `Some([])`.

Behaviour worth knowing:

- **Malformed qualifiers.** A qualifier chunk the splitter cannot cut fails with Guava's IllegalArgumentException. It is not an InvalidException. This includes a second `=` in a value (`k=a=b`, `EqualsSignInValue`) and a repeated raw key.
- **Empty qualifier values.** `parseQualifiers` drops a pair when its raw value is empty. The decoded value is not looked at for this.
- **`pkg:type/name?x=&y=1`.** This text has no qualifiers group, because `x=` is not a qualifier (`EmptyQualifierValueIsNoQualifiers`). Its cut takes `name?x=&y=1` as the name (`EmptyQualifierValueInName`), so it parses with no qualifiers at all.
- **Empty lists.** The constructor accepts a present but empty namespace or subpath (`Some([])`). Text is never parsed into one; only the list-taking constructor and setters accept it.
- **`stripSlashes`.** On `""` and on `"/"` it throws StringIndexOutOfBoundsException.
- **Missing type or name.** `build` throws IllegalStateException (`checkState`) when either is missing.
- **Type passed to the constructor.** `build` passes the name as the type (see Findings).
- **Lower-cased keys.** Qualifier keys are lower-cased before they are checked. The raw key KELVIN SIGN (U+212A) fails QUALIFIER_KEY but lower-cases to `k`, so `qualifiers("\u212A=1")` on the builder, where no regex runs first, yields the key `k` (`KelvinSignKey`).

## Model

Every source path below is `src/main/java/org/sonatype/goodies/packageurl/PackageUrl.java`.

| member | source | states |
|---|---|---|
| Grammar.IsType | src/main/java/org/sonatype/goodies/packageurl/PackageUrl.java:249 | TYPE: an ASCII letter, then letters, digits, `.`, `+` or `-` |
| Grammar.IsNamespaceText | src/main/java/org/sonatype/goodies/packageurl/PackageUrl.java:253 | NAMESPACE: non-empty, without `@` or `#` |
| Grammar.IsSegment | src/main/java/org/sonatype/goodies/packageurl/PackageUrl.java:255-283 | NAMESPACE_SEGMENT and SUBPATH_SEGMENT: non-empty, without `/` |
| Grammar.IsName | src/main/java/org/sonatype/goodies/packageurl/PackageUrl.java:259 | NAME: non-empty, without `/` or `@`; `?` and `#` are allowed |
| Grammar.IsVersion | src/main/java/org/sonatype/goodies/packageurl/PackageUrl.java:263 | VERSION: one or more characters other than the line terminators `.` excludes |
| Grammar.IsQualifierKey | src/main/java/org/sonatype/goodies/packageurl/PackageUrl.java:267 | QUALIFIER_KEY: a letter, `.`, `-` or `_`, then those or digits |
| Grammar.IsQualifierValue | src/main/java/org/sonatype/goodies/packageurl/PackageUrl.java:271 | QUALIFIER_VALUE: non-empty, without `&` |
| Grammar.IsQualifiersText | src/main/java/org/sonatype/goodies/packageurl/PackageUrl.java:275-277 | QUALIFIERS: every `&`-separated chunk is a key, `=`, and a value |
| Grammar.Decomposes | src/main/java/org/sonatype/goodies/packageurl/PackageUrl.java:289-297 | The input is the concatenation PURL_PATTERN spells from the groups, and every group matches its sub-pattern |
| Grammar.TypeBeforeFirstColon | src/main/java/org/sonatype/goodies/packageurl/PackageUrl.java:289-297 | In every cut of the input by PURL_PATTERN the type group is exactly the text before the first `:`, because TYPE cannot hold `:` |
| Grammar.TypeGroupUnique | src/main/java/org/sonatype/goodies/packageurl/PackageUrl.java:289-297 | Two cuts of one input agree on the type group |
| Grammar.NoColonNoMatch | src/main/java/org/sonatype/goodies/packageurl/PackageUrl.java:289-297 | Text without `:` does not match PURL_PATTERN, since TYPE is followed by a literal `:` |
| Grammar.VersionAfterFirstAt | src/main/java/org/sonatype/goodies/packageurl/PackageUrl.java:253-297 | The groups before the version (TYPE, NAMESPACE, NAME) exclude `@`, so the `@` that ends the head is the first `@` of the input, and the version group follows it |
| Grammar.NoAtNoVersion | src/main/java/org/sonatype/goodies/packageurl/PackageUrl.java:289-297 | An input without `@` has no version group in any cut |
| Grammar.NameAdmitsQuestionMark | src/main/java/org/sonatype/goodies/packageurl/PackageUrl.java:259-297 | NAME does not exclude `?`: `t:a?k=v` can be cut with name `a?k=v` and no qualifiers, as well as with name `a` and qualifiers `k=v` |
| Grammar.EmptyQualifierValueIsNoQualifiers | src/main/java/org/sonatype/goodies/packageurl/PackageUrl.java:271-277 | QUALIFIER_VALUE needs one character, so `x=&y=1` does not match QUALIFIERS |
| Grammar.EmptyQualifierValueInName | src/main/java/org/sonatype/goodies/packageurl/PackageUrl.java:253-297 | `pkg:type/name?x=&y=1` is cut with namespace `type` and the whole `name?x=&y=1` as name |
| Segments.StripSlashes | src/main/java/org/sonatype/goodies/packageurl/PackageUrl.java:407-415 | Fails with an index error exactly on `""` and `"/"`; otherwise the input is the result with at most one `/` in front and one behind, and the middle is unchanged |
| Segments.CheckPartsSucceed | src/main/java/org/sonatype/goodies/packageurl/PackageUrl.java:381-399 | The part loop succeeds iff every part passes; then it returns one decoded segment per part, in order |
| Segments.CheckPartsFail | src/main/java/org/sonatype/goodies/packageurl/PackageUrl.java:381-399 | A failure is the exception of the first failing part; every part before it passes |
| Segments.SegmentsOfErrors | src/main/java/org/sonatype/goodies/packageurl/PackageUrl.java:374-415 | `null` gives `null` and never fails. Failures are EmptySegment, IllegalSegmentContent or the index error, and the index error happens iff the value is `""` or `"/"` |
| Segments.SegmentsOfSucceed | src/main/java/org/sonatype/goodies/packageurl/PackageUrl.java:374-402 | On success there is one segment per `/`-separated part of the stripped input (at least one), in order. Each segment is the decoded part, its raw part non-empty, free of `/` and not a forbidden value |
| Segments.ParseSegments | src/main/java/org/sonatype/goodies/packageurl/PackageUrl.java:374-402 | `null` stays `null`; otherwise strip, split and check: the method computes the segment specification |
| Segments.ParseParts | src/main/java/org/sonatype/goodies/packageurl/PackageUrl.java:381-399 | The loop over the parts collects the decoded parts in order and stops at the first part that fails, with its exception |
| Segments.ParsePart | src/main/java/org/sonatype/goodies/packageurl/PackageUrl.java:382-398 | The check of one part, with its inner loop over the forbidden values, computes `CheckPart`: empty part, then `/` in the decoded text, then a forbidden value, else the decoded part |
| Segments.ParseNamespace | src/main/java/org/sonatype/goodies/packageurl/PackageUrl.java:358-360 | Namespace parsing is segment parsing with no forbidden values |
| Segments.ParseSubpath | src/main/java/org/sonatype/goodies/packageurl/PackageUrl.java:366-368 | Subpath parsing is segment parsing forbidding `.` and `..` |
| Segments.SubpathHasNoTraversal | src/main/java/org/sonatype/goodies/packageurl/PackageUrl.java:366-368 | A parsed subpath never holds `.` or `..` |
| Segments.SubpathTraversalExample | src/main/java/org/sonatype/goodies/packageurl/PackageUrl.java:393-396 | `../etc` as subpath fails with IllegalSegmentContent for `..` |
| Segments.EmptyNamespaceSegmentExample | src/main/java/org/sonatype/goodies/packageurl/PackageUrl.java:381-384 | `a//b` as namespace fails with EmptySegmentException |
| Segments.RenderSegments | src/main/java/org/sonatype/goodies/packageurl/PackageUrl.java:234-243 | What `renderSegments` appends: the encoded segments joined by `/` |
| Segments.AppendSegments | src/main/java/org/sonatype/goodies/packageurl/PackageUrl.java:234-243 | The render loop appends the encoded segments joined by `/` |
| Segments.SegmentsRoundTrip | src/main/java/org/sonatype/goodies/packageurl/PackageUrl.java:234-243 | A non-empty list of segments, each `/`-free and not one of the forbidden values, whose encodings are non-empty, `/`-free and decode back, renders to a text that parses back to the same segments |
| Qualifiers.Put | src/main/java/org/sonatype/goodies/packageurl/PackageUrl.java:347-348 | `LinkedHashMap.put` keeps the key order of a key already present, and appends a new key at the end |
| Qualifiers.PutLookup | src/main/java/org/sonatype/goodies/packageurl/PackageUrl.java:347-348 | After `put(k, v)` the key `k` maps to `v` and every other key keeps its value |
| Qualifiers.CollectKeyOrder | src/main/java/org/sonatype/goodies/packageurl/PackageUrl.java:338-351 | The keys of the parsed map are the lower-cased raw keys with non-empty raw values, in first-encounter order, without repeats |
| Qualifiers.CollectDomain | src/main/java/org/sonatype/goodies/packageurl/PackageUrl.java:338-351 | A key is in the parsed map iff some pair has that lower-cased key and a non-empty raw value |
| Qualifiers.CollectLastWins | src/main/java/org/sonatype/goodies/packageurl/PackageUrl.java:338-351 | A key maps to the decoded value of the last kept pair with that lower-cased key |
| Qualifiers.PairsOf | src/main/java/org/sonatype/goodies/packageurl/PackageUrl.java:279 | The splitter's contract: each chunk is `key=value` with no further `=`, raw keys are distinct, and any failure is IllegalArgumentException |
| Qualifiers.EqualsSignInValue | src/main/java/org/sonatype/goodies/packageurl/PackageUrl.java:271-279 | `k=a=b` matches QUALIFIERS but the splitter refuses it |
| Qualifiers.SinglePair | src/main/java/org/sonatype/goodies/packageurl/PackageUrl.java:279-348 | A text with one `=` and no `&` splits into that one pair, and a pair with a non-empty value is collected as its lower-cased key with the decoded value |
| Qualifiers.KelvinSignKey | src/main/java/org/sonatype/goodies/packageurl/PackageUrl.java:348 | The raw key KELVIN SIGN fails QUALIFIER_KEY, yet `\u212A=1` parses to the one entry `k` = `1`, since the key is lower-cased first |
| Qualifiers.SecondEqualsSign | src/main/java/org/sonatype/goodies/packageurl/PackageUrl.java:271-279 | Any chunk `key=a=b` with a valid key and `&`-free text matches QUALIFIERS, yet the splitter fails on it with IllegalArgumentException |
| Qualifiers.ParseQualifiers | src/main/java/org/sonatype/goodies/packageurl/PackageUrl.java:333-352 | The loop over the split pairs computes the qualifier specification; `null` stays `null` |
| Qualifiers.QualifiersRoundTrip | src/main/java/org/sonatype/goodies/packageurl/PackageUrl.java:211-221 | A non-empty map whose keys are valid and already lower-case, and whose values have encodings that are `&`/`=`-free, non-empty and decode back, renders to a text that parses back to the same map |
| Qualifiers.RenderedPairs | src/main/java/org/sonatype/goodies/packageurl/PackageUrl.java:211-221 | The rendered entries split back, through the splitter, into the keys with their encoded values, in order |
| Qualifiers.KeyHasNoSeparators | src/main/java/org/sonatype/goodies/packageurl/PackageUrl.java:267 | A valid qualifier key holds neither `&` nor `=` |
| PackageUrls.FirstInvalidSegment | src/main/java/org/sonatype/goodies/packageurl/PackageUrl.java:428-433 | The validation loop stops at the first segment that fails `[^/]+`; all before it pass |
| PackageUrls.FirstInvalidQualifier | src/main/java/org/sonatype/goodies/packageurl/PackageUrl.java:435-441 | The validation loop stops at the first entry whose key or value fails; all before it pass |
| PackageUrls.Construct | src/main/java/org/sonatype/goodies/packageurl/PackageUrl.java:65-103 | Construction succeeds iff type, each namespace segment, name, version, each qualifier key and value and each subpath segment are valid. It then keeps the fields unchanged, with `null` staying `null`; otherwise it throws InvalidException |
| PackageUrls.ValidateSegments | src/main/java/org/sonatype/goodies/packageurl/PackageUrl.java:428-433 | The segment loop throws `Invalid <field>: <segment>` for the first bad segment |
| PackageUrls.ValidateQualifiers | src/main/java/org/sonatype/goodies/packageurl/PackageUrl.java:435-441 | The entry loop checks the key before the value and throws for the first bad one |
| PackageUrls.NewPackageUrl | src/main/java/org/sonatype/goodies/packageurl/PackageUrl.java:65-103 | The constructor, running its validation loops in field order, computes `Construct` |
| PackageUrls.NewPackageUrlFromText | src/main/java/org/sonatype/goodies/packageurl/PackageUrl.java:106-114 | The text constructor parses the namespace, then the subpath, then constructs; the first exception wins |
| PackageUrls.Equals | src/main/java/org/sonatype/goodies/packageurl/PackageUrl.java:167-177 | `equals`: type, namespace, name, version and subpath are equal, and the qualifier maps are both `null` or equal as maps |
| PackageUrls.EqualsIsEquivalence | src/main/java/org/sonatype/goodies/packageurl/PackageUrl.java:167-177 | `equals` is reflexive, symmetric and transitive |
| PackageUrls.EqualsIsIdentityForSameOrder | src/main/java/org/sonatype/goodies/packageurl/PackageUrl.java:167-177 | With qualifier keys in the same order, `equals` is field-by-field equality |
| PackageUrls.EqualsIgnoresQualifierOrder | src/main/java/org/sonatype/goodies/packageurl/PackageUrl.java:167-177 | Two URLs whose qualifiers differ only in order are equal |
| Rendering.Render | src/main/java/org/sonatype/goodies/packageurl/PackageUrl.java:196-229 | The text of `toString`: the lower-cased type, `:`, the namespace part, the encoded name, then the version, qualifier and subpath parts |
| Rendering.ToString | src/main/java/org/sonatype/goodies/packageurl/PackageUrl.java:196-229 | The buffer-appending `toString` computes the canonical text: the lower-cased type, `:`, the namespace part, the encoded name, then the version, qualifier and subpath parts |
| Rendering.AppendNamespace | src/main/java/org/sonatype/goodies/packageurl/PackageUrl.java:200-203 | Joined encoded namespace and `/`, only when present and non-empty |
| Rendering.AppendVersion | src/main/java/org/sonatype/goodies/packageurl/PackageUrl.java:207-209 | `@` and the encoded version exactly when the version is not `null` |
| Rendering.AppendQualifiersPart | src/main/java/org/sonatype/goodies/packageurl/PackageUrl.java:211-221 | `?` and the entries only when the map is present and non-empty |
| Rendering.AppendQualifiers | src/main/java/org/sonatype/goodies/packageurl/PackageUrl.java:213-220 | The entry loop appends `key=encode(value)` entries joined by `&`, in map order |
| Rendering.AppendSubpath | src/main/java/org/sonatype/goodies/packageurl/PackageUrl.java:223-226 | `#` and the joined encoded subpath only when present and non-empty |
| Rendering.RenderTypePrefix | src/main/java/org/sonatype/goodies/packageurl/PackageUrl.java:199 | The rendered text starts with the lower-cased type, and its first `:` follows it |
| Rendering.RenderIgnoresTypeCase | src/main/java/org/sonatype/goodies/packageurl/PackageUrl.java:199 | The case of the type never shows in the rendered text |
| Rendering.RenderEmptyAsAbsent | src/main/java/org/sonatype/goodies/packageurl/PackageUrl.java:200-226 | A present but empty namespace, qualifier map or subpath renders as an absent one |
| Rendering.NamespaceAsString | src/main/java/org/sonatype/goodies/packageurl/PackageUrl.java:129-134 | `null` exactly when the namespace is absent or empty |
| Rendering.SubpathAsString | src/main/java/org/sonatype/goodies/packageurl/PackageUrl.java:159-164 | `null` exactly when the subpath is absent or empty |
| Rendering.RenderShowsNamespace | src/main/java/org/sonatype/goodies/packageurl/PackageUrl.java:196-203 | The namespace string is the text `toString` writes between the `:` and the `/` before the name |
| Rendering.NamespaceAsStringRoundTrip | src/main/java/org/sonatype/goodies/packageurl/PackageUrl.java:129-134 | A present, non-empty namespace whose segments are `/`-free and have encodings that are non-empty, `/`-free and decode back: its namespace string parses back to the namespace |
| Rendering.SubpathAsStringRoundTrip | src/main/java/org/sonatype/goodies/packageurl/PackageUrl.java:159-164 | A present, non-empty subpath whose segments are `/`-free, neither `.` nor `..`, and have encodings that are non-empty, `/`-free and decode back: its subpath string parses back to the subpath |
| Parsing.DecodedVersion | src/main/java/org/sonatype/goodies/packageurl/PackageUrl.java:315-318 | The version is decoded exactly when present |
| Parsing.Parsed | src/main/java/org/sonatype/goodies/packageurl/PackageUrl.java:304-327 | No match fails with InvalidException carrying the input. On success the result is valid, keeps the matched type, has the decoded name and decoded version, and is present in namespace, qualifiers and subpath exactly where the groups matched |
| Parsing.Parse | src/main/java/org/sonatype/goodies/packageurl/PackageUrl.java:304-327 | `parse`, calling each group's parser and the constructor, computes `Parsed` |
| Parsing.ParseFailureKinds | src/main/java/org/sonatype/goodies/packageurl/PackageUrl.java:304-327 | `parse` fails with an InvalidException except for two cases: IllegalArgumentException from an unsplittable qualifiers group, and the index error from a namespace or subpath group that is exactly `/` |
| Parsing.ParseRejectsNoColon | src/main/java/org/sonatype/goodies/packageurl/PackageUrl.java:308-326 | An input without `:` fails with InvalidException carrying the input |
| Parsing.ParsedTypeBeforeFirstColon | src/main/java/org/sonatype/goodies/packageurl/PackageUrl.java:309 | The parsed type is exactly the original-case text before the first `:` |
| Parsing.ParsedTypeUnique | src/main/java/org/sonatype/goodies/packageurl/PackageUrl.java:309 | Whatever cut the engine picks, successful parses of one input agree on the type |
| Parsing.ParsedVersion | src/main/java/org/sonatype/goodies/packageurl/PackageUrl.java:315-318 | No `@` means no version. A parsed version is the decoded group that starts right after the first `@` of the input |
| Parsing.ParsedSegments | src/main/java/org/sonatype/goodies/packageurl/PackageUrl.java:311-322 | A parsed namespace or subpath is never present-but-empty, and a parsed subpath holds no `.` or `..` |
| Parsing.RenderParsedType | src/main/java/org/sonatype/goodies/packageurl/PackageUrl.java:199 | `toString` of a parsed URL starts with the lower-cased text before the input's first `:`, then `:` |
| Parsing.NameSwallowsQualifiers | src/main/java/org/sonatype/goodies/packageurl/PackageUrl.java:259 | With the greedy cut of `t:a?k=v`, the name is `a?k=v` and there are no qualifiers |
| Parsing.SlashNamespaceOutOfBounds | src/main/java/org/sonatype/goodies/packageurl/PackageUrl.java:407-415 | `t:////n` can be cut with namespace group `/`, and then `parse` throws the index error rather than InvalidException |
| Parsing.MavenExample | src/main/java/org/sonatype/goodies/packageurl/PackageUrl.java:304-327 | With a codec that leaves the plain words alone, `maven:junit/junit@4.12` parses to type `maven`, namespace `[junit]`, name `junit`, version `4.12`, and no qualifiers or subpath |
| Builders.Built | src/main/java/org/sonatype/goodies/packageurl/PackageUrl.java:526-530 | Missing type, then missing name, is IllegalStateException with its message. It succeeds iff type and name are set and the fields, with the name in the type's place, are valid; a success holds exactly those fields |
| Builders.BuiltAsIntended | src/main/java/org/sonatype/goodies/packageurl/PackageUrl.java:526-530 | The same checks, passing the type field as the type |
| Builders.Builder.constructor | src/main/java/org/sonatype/goodies/packageurl/PackageUrl.java:457-469 | A new builder has every field `null` |
| Builders.Builder.SetType | src/main/java/org/sonatype/goodies/packageurl/PackageUrl.java:471-474 | Sets the type, nothing else changes |
| Builders.Builder.SetNamespace | src/main/java/org/sonatype/goodies/packageurl/PackageUrl.java:476-479 | Sets the namespace list, nothing else changes |
| Builders.Builder.SetNamespaceText | src/main/java/org/sonatype/goodies/packageurl/PackageUrl.java:481-483 | Sets the parsed namespace; on a parse exception returns it and changes nothing |
| Builders.Builder.SetName | src/main/java/org/sonatype/goodies/packageurl/PackageUrl.java:485-488 | Sets the name, nothing else changes |
| Builders.Builder.SetVersion | src/main/java/org/sonatype/goodies/packageurl/PackageUrl.java:490-493 | Sets the version, nothing else changes |
| Builders.Builder.SetQualifiers | src/main/java/org/sonatype/goodies/packageurl/PackageUrl.java:495-498 | Sets the qualifier map, nothing else changes |
| Builders.Builder.SetQualifiersText | src/main/java/org/sonatype/goodies/packageurl/PackageUrl.java:500-502 | Sets the parsed qualifiers; on an exception returns it and changes nothing |
| Builders.Builder.Qualifier | src/main/java/org/sonatype/goodies/packageurl/PackageUrl.java:504-510 | Creates the map on first use and inserts or overwrites only the given key; other keys keep their values |
| Builders.Builder.SetSubpath | src/main/java/org/sonatype/goodies/packageurl/PackageUrl.java:512-515 | Sets the subpath list, nothing else changes |
| Builders.Builder.SetSubpathText | src/main/java/org/sonatype/goodies/packageurl/PackageUrl.java:517-519 | Sets the parsed subpath; on an exception returns it and changes nothing |
| Builders.Builder.Build | src/main/java/org/sonatype/goodies/packageurl/PackageUrl.java:526-530 | `build` as written computes `Built` on the current fields and changes nothing |
| Builders.Builder.BuildAsIntended | src/main/java/org/sonatype/goodies/packageurl/PackageUrl.java:526-530 | `build` with the type passed as type computes `BuiltAsIntended` |
| Builders.BuildUsesNameAsType | src/main/java/org/sonatype/goodies/packageurl/PackageUrl.java:529 | Type `maven` with name `foo_bar` fails with `Invalid type: foo_bar`; with name `guava` it builds type `guava` |
| Builders.BuiltAsIntendedIsConstructor | src/main/java/org/sonatype/goodies/packageurl/PackageUrl.java:526-530 | The intended build succeeds iff type and name are set and the fields are valid, and then holds exactly those fields |
| Builders.BuildersAgreeOnlyWhenTypeIsName | src/main/java/org/sonatype/goodies/packageurl/PackageUrl.java:529 | When the intended build succeeds, the as-written and the intended build agree exactly when type equals name |
| Builders.GuavaBuiltAsIntended | src/main/java/org/sonatype/goodies/packageurl/PackageUrl.java:526-530 | Type `maven` with name `guava`, built as intended, gives a package URL of type `maven` and name `guava` |
| Builders.BuildersFailAlike | src/main/java/org/sonatype/goodies/packageurl/PackageUrl.java:526-530 | When the type and the name are both valid types, the as-written and the intended build fail on exactly the same inputs, with the same error |
| Builders.BuildersFailApart | src/main/java/org/sonatype/goodies/packageurl/PackageUrl.java:526-530 | Type `maven`, name `foo_bar`, namespace `[""]`: the intended build fails on the namespace segment, the one as written on the type `foo_bar` |
| Builders.BuilderParity | src/main/java/org/sonatype/goodies/packageurl/PackageUrl.java:526-530 | Building `maven`/`junit`/`4.12` as intended equals parsing `maven:junit@4.12`; as written it does not |

## Left out

- `Urls.encode` / `Urls.decode`: the codec source is not part of this model. It is an arbitrary pair of total functions, so a decode failure is not modelled. Lemmas that need the codec to round-trip or to leave a word alone say so in their hypotheses.
- Which cut Java's backtracking engine picks among several is not modelled. `parse` takes the engine's verdict as a parameter, and every property holds for any sound verdict. The greedy cuts named in `NameSwallowsQualifiers` and `SlashNamespaceOutOfBounds` follow from the engine's greedy-then-backtrack order; that order is not proved here.
- A full parse of a render is not stated: the unshown codec and the greedy NAME group (`t:a?k=v`) break it. Only the per-field round trips are proved (`SegmentsRoundTrip`, `QualifiersRoundTrip`, `*AsStringRoundTrip`).
- Guava's `MapSplitter` is modelled by its documented contract (`PairsOf`), not by its code.
- The defensive copies (`ImmutableList.copyOf`, `ImmutableMap.copyOf`) are implicit: values in Dafny are immutable.
- `hashCode`, `explain`, `Serializable` and the getters that only return a field are left out.
- NullPointerExceptions are left out. These come from a `null` type or name (`checkNotNull`, the matcher), from `null` elements inside lists and maps, and from `parse(null)`. Type and name are plain strings in the model.
- `Text.Lower` maps the ASCII capitals and KELVIN SIGN, the one character outside ASCII that `toLowerCase(Locale.ENGLISH)` maps to an ASCII letter. Other non-ASCII letters keep their case in the model, and characters whose lower case is longer (U+0130) keep their length. A raw qualifier key holding such a letter is rejected by QUALIFIER_KEY in both, but the InvalidException message shows the key as the model lower-cases it, and two raw keys that differ only in such letters are merged by Java and kept apart by the model.
- Java strings are UTF-16 code units; the model uses Dafny characters (Unicode scalar values).
- `Builders.Builder.Qualifier`: the builder keeps the caller's map object. Aliasing with it is not modelled, and neither is the UnsupportedOperationException `qualifer` throws on a map that cannot be changed. The map is modelled as a `LinkedHashMap` whatever the caller passed, so the insertion order of a caller's `HashMap` is not modelled either.
- `Builders.Builder.SetNamespace`, `Builders.Builder.SetSubpath`: a list the caller later changes is not seen by the model.
- Exceptions are returned as values. `Builder` methods that throw leave the builder unchanged and return the exception instead of the builder.

## Findings

| source | as written | input that shows it | evidently intended | confidence | as-written member | corrected member |
|---|---|---|---|---|---|---|
| src/main/java/org/sonatype/goodies/packageurl/PackageUrl.java:529 | `build` passes the name field as the type argument of the constructor, so the type set on the builder is only checked for `null` | type `maven`, name `foo_bar`: fails with `Invalid type: foo_bar`; type `maven`, name `junit`, version `4.12`: builds type `junit`, unlike parsing `maven:junit@4.12` | pass the type field as the type, so that `build` is the constructor on the fields set | high (not executed) | Builders.BuildUsesNameAsType | Builders.BuiltAsIntendedIsConstructor |
