/** How the add action reads a library specifier such as `@scope/name@tag`,
    `name@tag` or `name/sub`: the package portion, the collection name with the
    version removed, and the tag handed to the package manager. Both
    `installPackage` and `addLibrary` derive the collection name with the same
    expressions, so the model defines them once. */
module PackageSpecifier {
  import opened Wrappers
  import opened JsBuiltins

  /** The tag used when the specifier names none. */
  const DefaultTag := "latest"

  /** `s.startsWith('@')`: the specifier names a scoped package. */
  predicate IsScoped(s: string) { StartsWith(s, "@") }

  /** The package portion: for a scoped specifier the first two `/`-pieces
      rejoined, otherwise the first `/`-piece. */
  function PackagePortion(library: string): string
  {
    if IsScoped(library) then Join(Split(library, '/', 2), '/')
    else Split(library, '/', 1)[0]
  }

  /** The package portion with its `@version` removed: for a scoped name the first
      two `@`-pieces rejoined (the first one is the empty text before the scope's
      `@`), otherwise the first `@`-piece. */
  function StripVersion(pkg: string): string
  {
    if IsScoped(pkg) then Join(Split(pkg, '@', 2), '@')
    else Join(Split(pkg, '@', 1), '@')
  }

  /** The collection name: the version-stripped package portion followed by
      whatever of the specifier comes after the package portion. */
  function CollectionName(library: string): string
  {
    var pkg := PackagePortion(library);
    StripVersion(pkg) + Slice(library, |pkg|)
  }

  /** The `@`-piece of the package portion read as the tag: the third one of a
      scoped name, the second one otherwise; `None` when there is none. */
  function TagPiece(pkg: string): Option<string>
  {
    if IsScoped(pkg) then At(Split(pkg, '@', 3), 2)
    else At(Split(pkg, '@', 2), 1)
  }

  /** `tagName || 'latest'`: a missing or empty tag piece gives the default tag. */
  function TagName(library: string): (tag: string)
    ensures tag != ""
  {
    var piece := TagPiece(PackagePortion(library));
    if piece.Some? && piece.value != "" then piece.value else DefaultTag
  }

  // ---------------------------------------------------------------------------
  // General shape of the three results

  /** The package portion is a prefix of the specifier. An unscoped one holds no
      `/` and stops at the first `/`; a scoped one holds at most one `/` and
      stops at the second. */
  lemma PackagePortionShape(library: string)
    ensures PackagePortion(library) <= library
    ensures IsScoped(PackagePortion(library)) == IsScoped(library)
    ensures var pkg := PackagePortion(library);
      !IsScoped(library) ==> '/' !in pkg && (|pkg| < |library| ==> library[|pkg|] == '/')
    ensures var pkg := PackagePortion(library);
      IsScoped(library) ==>
        Count(pkg, '/') <= 1 && (|pkg| < |library| ==> library[|pkg|] == '/' && Count(pkg, '/') == 1)
  {
    var pkg := PackagePortion(library);
    if IsScoped(library) {
      JoinSplitPrefix(library, '/', 2);
      JoinSplitCount(library, '/', 2);
      assert library[0] == '@';
      assert |pkg| > 0;
      assert pkg[0] == library[0];
    } else {
      JoinSplitPrefix(library, '/', 1);
      JoinSplitCount(library, '/', 1);
      assert pkg == Join(Split(library, '/', 1), '/');
      if |pkg| > 0 { assert pkg[0] == library[0]; }
    }
  }

  /** Removing the version keeps a prefix of the package portion that ends where
      its `@version` starts: an unscoped result holds no `@`, a scoped one only
      the scope's. Nothing is removed exactly when there is no version `@`. */
  lemma StripVersionShape(pkg: string)
    ensures StripVersion(pkg) <= pkg
    ensures var v := StripVersion(pkg);
      IsScoped(pkg) ==> IsScoped(v) && Count(v, '@') == 1
    ensures !IsScoped(pkg) ==> '@' !in StripVersion(pkg)
    ensures var v := StripVersion(pkg);
      |v| < |pkg| ==> pkg[|v|] == '@'
    ensures StripVersion(pkg) == pkg <==> Count(pkg, '@') < VersionAt(pkg)
  {
    var v := StripVersion(pkg);
    if IsScoped(pkg) {
      JoinSplitPrefix(pkg, '@', 2);
      JoinSplitCount(pkg, '@', 2);
      assert pkg[0] == '@';
      assert Count(pkg, '@') >= 1;
      assert |v| > 0;
      assert v[0] == pkg[0];
    } else {
      JoinSplitPrefix(pkg, '@', 1);
      JoinSplitCount(pkg, '@', 1);
    }
  }

  /** Which `@` of a package portion, counted from one, starts its version: the
      second of a scoped name (the first belongs to the scope), the first
      otherwise. The portion carries a version exactly when it holds at least
      that many `@`s. */
  function VersionAt(pkg: string): nat
  {
    if IsScoped(pkg) then 2 else 1
  }

  /** The collection name is the specifier with exactly the package portion's
      `@version` cut out; the part cut out is empty or starts with `@`. */
  lemma CollectionNameShape(library: string)
    ensures var pkg := PackagePortion(library);
      var v := StripVersion(pkg);
      |v| <= |pkg| <= |library| &&
      CollectionName(library) == library[..|v|] + library[|pkg|..] &&
      (|v| < |pkg| ==> library[|v|] == '@')
  {
    var pkg := PackagePortion(library);
    var v := StripVersion(pkg);
    PackagePortionShape(library);
    StripVersionShape(pkg);
    assert library[..|v|] == v;
  }

  /** The tag comes from the package portion only: a tag piece exists exactly
      when the package portion carries a version, and then it is the text right
      after the version-stripped name and its `@`, up to the next `@`. The tag is
      that piece unless it is missing or empty, and then it is `latest`. */
  lemma TagShape(library: string)
    ensures var pkg := PackagePortion(library);
      TagPiece(pkg).None? <==> StripVersion(pkg) == pkg
    ensures var pkg := PackagePortion(library);
      var v := StripVersion(pkg);
      TagPiece(pkg).Some? ==>
        var t := TagPiece(pkg).value;
        v + "@" + t <= pkg && '@' !in t &&
        (|v| + 1 + |t| < |pkg| ==> pkg[|v| + 1 + |t|] == '@')
    ensures var piece := TagPiece(PackagePortion(library));
      TagName(library) == (if piece.Some? && piece.value != "" then piece.value else DefaultTag)
  {
    var pkg := PackagePortion(library);
    var k := VersionAt(pkg);
    var v := StripVersion(pkg);
    assert v == Join(Split(pkg, '@', k), '@');
    assert TagPiece(pkg) == At(Split(pkg, '@', k + 1), k);
    SplitAllCount(pkg, '@');
    assert TagPiece(pkg).Some? <==> |SplitAll(pkg, '@')| > k;
    assert v == pkg <==> Count(pkg, '@') < k by { JoinSplitPrefix(pkg, '@', k); }
    if |SplitAll(pkg, '@')| > k {
      assert TagPiece(pkg).value == SplitAll(pkg, '@')[k];
      NextPiece(pkg, '@', k);
    }
  }

  /** Without any `@` but a leading scope `@`, the collection name is the whole
      specifier and the tag is `latest`. */
  lemma WithoutVersion(library: string)
    requires forall i :: 0 < i < |library| ==> library[i] != '@'
    ensures CollectionName(library) == library
    ensures TagName(library) == DefaultTag
  {
    var pkg := PackagePortion(library);
    NoVersionAt(library);
    StripVersionShape(pkg);
    CollectionNameShape(library);
    TagShape(library);
  }

  /** Such a specifier's package portion holds fewer `@`s than its version needs. */
  lemma NoVersionAt(library: string)
    requires forall i :: 0 < i < |library| ==> library[i] != '@'
    ensures Count(PackagePortion(library), '@') < VersionAt(PackagePortion(library))
  {
    var pkg := PackagePortion(library);
    PackagePortionShape(library);
    if |pkg| > 0 {
      assert pkg == [pkg[0]] + pkg[1..];
      assert '@' !in pkg[1..] by {
        forall i | 0 <= i < |pkg| - 1 ensures pkg[1..][i] != '@' {
          assert pkg[1..][i] == library[i + 1];
        }
      }
      assert multiset(pkg) == multiset([pkg[0]]) + multiset(pkg[1..]);
    }
  }

  // ---------------------------------------------------------------------------
  // The specifier forms

  /** Text free of both separators. */
  predicate Plain(s: string) { '/' !in s && '@' !in s }

  /** Splitting `a sep b` where neither part holds the separator. */
  lemma SplitPair(a: string, sep: char, b: string)
    requires sep !in a && sep !in b
    ensures SplitAll(a + [sep] + b, sep) == [a, b]
  {
    SplitAllCons(a, sep, b);
    SplitAllNoSep(b, sep);
  }

  /** An unscoped specifier without `/` is its own package portion. */
  lemma PortionWithoutSlash(library: string)
    requires !IsScoped(library) && '/' !in library
    ensures PackagePortion(library) == library
  {
    SplitAllNoSep(library, '/');
  }

  /** A scoped specifier with a single `/` is its own package portion. */
  lemma PortionOfScopedName(scope: string, name: string)
    requires IsScoped(scope) && '/' !in scope && '/' !in name
    ensures PackagePortion(scope + "/" + name) == scope + "/" + name
  {
    var library := scope + "/" + name;
    assert library[..|scope|] == scope;
    assert IsScoped(library);
    SplitPair(scope, '/', name);
    assert Split(library, '/', 2) == [scope, name];
    JoinPair(scope, name, '/');
  }

  /** A scoped specifier followed by a sub-path keeps only `@scope/name`. */
  lemma PortionOfScopedSubPath(scope: string, name: string, rest: string)
    requires IsScoped(scope) && '/' !in scope && '/' !in name
    ensures PackagePortion(scope + "/" + name + "/" + rest) == scope + "/" + name
  {
    var library := scope + "/" + name + "/" + rest;
    assert library[..|scope|] == scope;
    assert IsScoped(library);
    assert library == scope + ['/'] + (name + ['/'] + rest);
    SplitAllCons(scope, '/', name + ['/'] + rest);
    SplitAllCons(name, '/', rest);
    assert Split(library, '/', 2) == [scope, name];
    JoinPair(scope, name, '/');
  }

  /** An unscoped name followed by a sub-path keeps only the name. */
  lemma PortionOfSubPath(name: string, rest: string)
    requires '/' !in name && '@' !in name
    ensures PackagePortion(name + "/" + rest) == name
  {
    var library := name + "/" + rest;
    assert !IsScoped(library) by {
      if name != "" { assert library[0] == name[0]; } else { assert library[0] == '/'; }
    }
    SplitAllCons(name, '/', rest);
  }

  /** `@bare@tag`: the version-stripped name is `@bare` and the tag piece `tag`. */
  lemma ScopedVersion(bare: string, tag: string)
    requires '@' !in bare && '@' !in tag
    ensures StripVersion("@" + bare + "@" + tag) == "@" + bare
    ensures TagPiece("@" + bare + "@" + tag) == Some(tag)
  {
    var pkg := "@" + bare + "@" + tag;
    assert IsScoped(pkg);
    assert pkg == "" + ['@'] + (bare + ['@'] + tag);
    SplitAllCons("", '@', bare + ['@'] + tag);
    SplitPair(bare, '@', tag);
    var pieces := SplitAll(pkg, '@');
    assert pieces == ["", bare, tag];
    assert Split(pkg, '@', 2) == ["", bare];
    JoinPair("", bare, '@');
    assert Split(pkg, '@', 3) == pieces;
  }

  /** `@bare` without a version: nothing is stripped and there is no tag piece. */
  lemma ScopedNoVersion(bare: string)
    requires '@' !in bare
    ensures StripVersion("@" + bare) == "@" + bare
    ensures TagPiece("@" + bare) == None
  {
    var pkg := "@" + bare;
    assert IsScoped(pkg);
    assert pkg == "" + ['@'] + bare;
    SplitPair("", '@', bare);
    assert Split(pkg, '@', 2) == ["", bare];
    JoinPair("", bare, '@');
  }

  /** `name@tag@rest` unscoped: the version-stripped name is `name` and the tag
      piece `tag`; `rest` is never looked at. */
  lemma UnscopedVersion(name: string, tag: string, rest: Option<string>)
    requires name != "" && '@' !in name && '@' !in tag
    ensures var pkg := name + "@" + tag + (if rest.Some? then "@" + rest.value else "");
      StripVersion(pkg) == name && TagPiece(pkg) == Some(tag)
  {
    var pkg := name + "@" + tag + (if rest.Some? then "@" + rest.value else "");
    assert !IsScoped(pkg) by { assert pkg[0] == name[0]; }
    assert SplitAll(pkg, '@')[..2] == [name, tag] by {
      if rest.Some? {
        assert pkg == name + ['@'] + (tag + ['@'] + rest.value);
        SplitAllCons(name, '@', tag + ['@'] + rest.value);
        SplitAllCons(tag, '@', rest.value);
      } else {
        assert pkg == name + ['@'] + tag;
        SplitPair(name, '@', tag);
      }
    }
    UnscopedPieces(pkg, name, tag);
  }

  /** An unscoped package portion whose first two `@`-pieces are `name` and `tag`. */
  lemma UnscopedPieces(pkg: string, name: string, tag: string)
    requires !IsScoped(pkg)
    requires |SplitAll(pkg, '@')| >= 2 && SplitAll(pkg, '@')[..2] == [name, tag]
    ensures StripVersion(pkg) == name && TagPiece(pkg) == Some(tag)
  {
    var all := SplitAll(pkg, '@');
    assert all[0] == name && all[1] == tag;
    assert Split(pkg, '@', 1) == [name];
    assert Split(pkg, '@', 2) == [name, tag];
  }

  /** An unscoped name without `@`: nothing is stripped and there is no tag piece. */
  lemma UnscopedNoVersion(name: string)
    requires '@' !in name
    ensures StripVersion(name) == name && TagPiece(name) == None
  {
    assert !IsScoped(name) by { if name != "" { assert name[0] in name; } }
    SplitAllNoSep(name, '@');
  }

  /** `@scope/name@tag` installs `@scope/name` at `tag`. */
  lemma ScopedTagged(scope: string, name: string, tag: string)
    requires Plain(scope) && Plain(name) && Plain(tag) && tag != ""
    ensures var library := "@" + scope + "/" + name + "@" + tag;
      CollectionName(library) == "@" + scope + "/" + name && TagName(library) == tag
  {
    ScopedTaggedParts(scope, name, tag);
    WholePortion("@" + scope + "/" + name + "@" + tag, "@" + scope + "/" + name, tag);
  }

  /** The package portion, version-stripped name and tag piece of `@scope/name@tag`. */
  lemma ScopedTaggedParts(scope: string, name: string, tag: string)
    requires Plain(scope) && Plain(name) && Plain(tag)
    ensures var library := "@" + scope + "/" + name + "@" + tag;
      PackagePortion(library) == library &&
      StripVersion(library) == "@" + scope + "/" + name && TagPiece(library) == Some(tag)
  {
    ScopedTaggedPortion(scope, name, tag);
    ScopedTaggedVersion(scope, name, tag);
  }

  lemma ScopedTaggedPortion(scope: string, name: string, tag: string)
    requires Plain(scope) && Plain(name) && Plain(tag)
    ensures var library := "@" + scope + "/" + name + "@" + tag;
      PackagePortion(library) == library
  {
    var library := "@" + scope + "/" + name + "@" + tag;
    assert library == ("@" + scope) + "/" + (name + "@" + tag);
    PortionOfScopedName("@" + scope, name + "@" + tag);
  }

  lemma ScopedTaggedVersion(scope: string, name: string, tag: string)
    requires Plain(scope) && Plain(name) && Plain(tag)
    ensures var library := "@" + scope + "/" + name + "@" + tag;
      StripVersion(library) == "@" + scope + "/" + name && TagPiece(library) == Some(tag)
  {
    var bare := scope + "/" + name;
    assert "@" + scope + "/" + name + "@" + tag == "@" + bare + "@" + tag;
    assert "@" + bare == "@" + scope + "/" + name;
    ScopedVersion(bare, tag);
  }

  /** A specifier that is its own package portion and carries a non-empty tag. */
  lemma WholePortion(library: string, collection: string, tag: string)
    requires PackagePortion(library) == library
    requires StripVersion(library) == collection && TagPiece(library) == Some(tag) && tag != ""
    ensures CollectionName(library) == collection && TagName(library) == tag
  {
    assert Slice(library, |library|) == "";
  }

  /** An unscoped `name@tag` installs `name` at `tag`. */
  lemma UnscopedTagged(name: string, tag: string)
    requires Plain(name) && name != "" && Plain(tag) && tag != ""
    ensures CollectionName(name + "@" + tag) == name && TagName(name + "@" + tag) == tag
  {
    var library := name + "@" + tag;
    assert library[0] == name[0];
    PortionWithoutSlash(library);
    UnscopedVersion(name, tag, None);
    assert library + "" == library;
    assert Slice(library, |library|) == "";
  }

  /** A tag written after a sub-path is not recognised: `name/rest` keeps the whole
      specifier as collection name, whatever `rest` holds, and installs `latest`. */
  lemma SubPathHidesTag(name: string, rest: string)
    requires Plain(name)
    ensures CollectionName(name + "/" + rest) == name + "/" + rest
    ensures TagName(name + "/" + rest) == DefaultTag
  {
    var library := name + "/" + rest;
    PortionOfSubPath(name, rest);
    UnscopedNoVersion(name);
    assert library[|name|..] == "/" + rest;
  }

  /** The same for a scoped name: `@scope/name/rest` keeps the whole specifier and
      installs `latest`. */
  lemma ScopedSubPathHidesTag(scope: string, name: string, rest: string)
    requires Plain(scope) && Plain(name)
    ensures var library := "@" + scope + "/" + name + "/" + rest;
      CollectionName(library) == library && TagName(library) == DefaultTag
  {
    var pkg := "@" + scope + "/" + name;
    ScopedSubPathParts(scope, name, rest);
    PortionThenRest("@" + scope + "/" + name + "/" + rest, pkg, "/" + rest);
  }

  /** The package portion of `@scope/name/rest` and what it carries. */
  lemma ScopedSubPathParts(scope: string, name: string, rest: string)
    requires Plain(scope) && Plain(name)
    ensures var pkg := "@" + scope + "/" + name;
      var library := "@" + scope + "/" + name + "/" + rest;
      library == pkg + "/" + rest && PackagePortion(library) == pkg &&
      StripVersion(pkg) == pkg && TagPiece(pkg) == None
  {
    var pkg := "@" + scope + "/" + name;
    PortionOfScopedSubPath("@" + scope, name, rest);
    assert pkg == "@" + (scope + "/" + name);
    ScopedNoVersion(scope + "/" + name);
  }

  /** A specifier that is its package portion followed by more text. */
  lemma PortionThenRest(library: string, pkg: string, tail: string)
    requires library == pkg + tail && PackagePortion(library) == pkg
    requires StripVersion(pkg) == pkg && TagPiece(pkg) == None
    ensures CollectionName(library) == library && TagName(library) == DefaultTag
  {
    assert Slice(library, |pkg|) == tail;
  }

  /** Extra `@` segments are dropped: `name@tag@rest` installs `name` at `tag`
      (or at `latest` when `tag` is empty) and forgets `rest`. */
  lemma ExtraAtDropped(name: string, tag: string, rest: string)
    requires Plain(name) && name != "" && Plain(tag) && '/' !in rest
    ensures var library := name + "@" + tag + "@" + rest;
      CollectionName(library) == name &&
      TagName(library) == (if tag == "" then DefaultTag else tag)
  {
    var library := name + "@" + tag + "@" + rest;
    assert library[0] == name[0];
    PortionWithoutSlash(library);
    UnscopedVersion(name, tag, Some(rest));
    assert library == name + "@" + tag + ("@" + rest);
    assert Slice(library, |library|) == "";
  }

  // ---------------------------------------------------------------------------
  // Examples
  //
  // Each specifier is written as its pieces joined with `+` (so
  // `"@" + "nestjs" + "/" + "graphql" + "@" + "8"` is `"@nestjs/graphql@8"`):
  // the general lemmas above then apply to the pieces directly, which keeps the
  // solver from taking the literal apart character by character.

  lemma ScopedExample()
    ensures var library := "@" + "nestjs" + "/" + "graphql" + "@" + "8";
      CollectionName(library) == "@" + "nestjs" + "/" + "graphql" && TagName(library) == "8"
  {
    ScopedTagged("nestjs", "graphql", "8");
  }

  lemma UnscopedExample()
    ensures CollectionName("lodash" + "@" + "4.17.0") == "lodash" && TagName("lodash" + "@" + "4.17.0") == "4.17.0"
  {
    UnscopedTagged("lodash", "4.17.0");
  }

  lemma UntaggedExample()
    ensures CollectionName("@nestjs/graphql") == "@nestjs/graphql" && TagName("@nestjs/graphql") == DefaultTag
  {
    WithoutVersion("@nestjs/graphql");
  }

  lemma SubPathExample()
    ensures CollectionName("lodash" + "/" + "fp@1") == "lodash" + "/" + "fp@1"
    ensures TagName("lodash" + "/" + "fp@1") == DefaultTag
  {
    SubPathHidesTag("lodash", "fp@1");
  }

  lemma ExtraAtExample()
    ensures CollectionName("name" + "@" + "1" + "@" + "2") == "name" && TagName("name" + "@" + "1" + "@" + "2") == "1"
  {
    ExtraAtDropped("name", "1", "2");
  }
}
