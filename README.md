# The `add` action of the Nest CLI, modelled in Dafny

`nest add <library>` installs an npm package and then runs the package's
`nest-add` schematic against the project's source tree. This project models the
action behind that command, `AddAction` in `actions/add.action.ts`, in six
modules:

- `Wrappers` (`wrappers.dfy`): the `Option` type that stands for JavaScript's
  `undefined`.
- `JsBuiltins` (`js_builtins.dfy`): the JavaScript built-ins the action relies
  on. These are `String.prototype.split` with a separator and a limit, `join`,
  `slice`, `startsWith`, `replace` with a string pattern and `Array.prototype.find`.
  It proves their round trips and how a split with a limit cuts a string.
- `CommandInput` (`command_input.dfy`): the `{ name, value }` inputs and how
  the action looks one up by name.
- `PackageSpecifier` (`package_specifier.dfy`): how a library specifier such as
  `@scope/name@tag`, `name@tag` or `name/sub` becomes a package portion, a
  collection name and a tag. `installPackage` and `addLibrary` repeat the same
  expressions, so they are defined once.
- `SourceRoot` (`source_root.dfy`): `getSourceRoot`. It covers the initial root,
  the `for…in` loop that labels the default project `" [ Default ]"`, and the
  rule under which the prompt's answer overrides the root.
- `AddAction` (`add_action.dfy`): `installPackage`, `addLibrary` and `handle`.
  The collaborators' answers are given as an `Environment`. The calls made on
  them are recorded as a trace of events. The caller's `options` array is the
  `InputList` class, which `handle` grows in place.

Behaviour pinned down by the proofs:

- A tag written after a sub-path is not recognised. `lodash/fp@1` installs
  `lodash/fp@1` at `latest`.
- Extra `@` segments are dropped. `name@1@2` installs `name` at `1`.
- A missing `library` input is not stopped by the discarded `Promise.reject`.
  Reading its `.value` throws a `TypeError` before `addProduction` is called.
- A missing `project` input makes `getSourceRoot` throw as well. The `!` at
  line 48 is a TypeScript assertion and checks nothing at run time.
- The answer to the project prompt, with the label removed, is compared with
  the top-level `sourceRoot` path, not with the default project's name. A
  project whose name equals that path can therefore never be chosen
  (`ProjectNamedLikeRootIgnored`).
- `addLibrary` reads the first `sourceRoot` option. One that the caller already
  passed wins over the one `handle` pushes.
- An error thrown by the schematic is reported and turned into a rejection
  only when it carries a non-empty message. Any other thrown value is
  swallowed, and `handle` exits with code 0.

## Model

| member | source | states |
|---|---|---|
| CommandInput.Lookup | actions/add.action.ts:99-101 | `find` by name returns an input with that name that no earlier input shares, and returns nothing exactly when no input has the name |
| CommandInput.LookupAfterPush | actions/add.action.ts:39 | after a push, a lookup still finds an earlier input of that name; the pushed input is found only when there is none |
| JsBuiltins.SplitAll | actions/add.action.ts:109 | splitting gives at least one piece, and no piece holds the separator |
| JsBuiltins.Split | actions/add.action.ts:109-110 | `split(sep, limit)` keeps at most `limit` pieces, and at least one when `limit >= 1` |
| JsBuiltins.IndexOf | actions/add.action.ts:84 | the position of the first occurrence of the pattern, or none exactly when it does not occur |
| JsBuiltins.Replace | actions/add.action.ts:84 | a string without the pattern comes back unchanged |
| JsBuiltins.FindIndex | actions/add.action.ts:99-101 | the index of the first element satisfying the test, or none exactly when no element does |
| JsBuiltins.Find | actions/add.action.ts:99-101 | the element found is the first one in the array that satisfies the test; none is found exactly when no element satisfies it |
| JsBuiltins.FindIndexAppend | actions/add.action.ts:161-163 | appending keeps an earlier match; otherwise the appended element is found exactly when it matches |
| JsBuiltins.JoinSplitAll | actions/add.action.ts:115-116 | joining the pieces of a split with the same separator gives back the string |
| JsBuiltins.SplitAllJoin | actions/add.action.ts:115-116 | splitting the join of separator-free pieces gives back the pieces |
| JsBuiltins.SplitAllCount | actions/add.action.ts:109 | there is exactly one more piece than there are separators |
| JsBuiltins.JoinSplitDecompose | actions/add.action.ts:109-110 | the string is the join of the kept pieces, followed, when pieces were dropped, by a separator and the join of the dropped ones |
| JsBuiltins.JoinSplitCount | actions/add.action.ts:115-116 | the rejoined kept pieces hold `min(limit - 1, count)` separators |
| JsBuiltins.JoinSplitPrefix | actions/add.action.ts:109-110 | the rejoined kept pieces are a prefix of the string; they are all of it exactly when it has fewer than `limit` separators, and otherwise a separator follows them |
| JsBuiltins.NextPiece | actions/add.action.ts:120-121 | the piece at index `limit` follows the rejoined first `limit` pieces and one separator, holds no separator, and is followed by a separator or the end |
| JsBuiltins.RemoveTrailingPattern | actions/add.action.ts:84 | removing the first occurrence of an unbordered pattern from `name + pattern` gives `name` back when `name` does not contain the pattern |
| PackageSpecifier.TagName | actions/add.action.ts:119-123 | the tag is never empty |
| PackageSpecifier.PackagePortionShape | actions/add.action.ts:108-110 | the package portion is a prefix of the specifier; an unscoped one holds no `/` and stops at the first `/`; a scoped one holds at most one `/` and stops at the second |
| PackageSpecifier.StripVersionShape | actions/add.action.ts:113-116 | removing the version keeps a prefix of the package portion that stops at an `@`; the result holds only the scope's `@` if scoped and no `@` otherwise; nothing is removed exactly when the portion has fewer `@` than its version needs |
| PackageSpecifier.CollectionNameShape | actions/add.action.ts:113-117 | the collection name is the specifier with exactly the package portion's `@version` cut out, and the part cut out starts with `@` |
| PackageSpecifier.TagShape | actions/add.action.ts:119-123 | a tag piece exists exactly when the package portion carries a version; it is the text after the stripped name and its `@`, up to the next `@`; a missing or empty piece gives `latest` |
| PackageSpecifier.WithoutVersion | actions/add.action.ts:113-123 | without any `@` except a leading scope `@`, the collection name is the whole specifier and the tag is `latest` |
| PackageSpecifier.PortionWithoutSlash | actions/add.action.ts:110 | an unscoped specifier without `/` is its own package portion |
| PackageSpecifier.PortionOfScopedName | actions/add.action.ts:109 | `@scope/name` with no further `/` is its own package portion |
| PackageSpecifier.PortionOfScopedSubPath | actions/add.action.ts:109 | `@scope/name/rest` has package portion `@scope/name` |
| PackageSpecifier.PortionOfSubPath | actions/add.action.ts:110 | `name/rest` has package portion `name` |
| PackageSpecifier.ScopedVersion | actions/add.action.ts:115-120 | `@bare@tag` strips to `@bare`, and its tag piece is `tag` |
| PackageSpecifier.ScopedNoVersion | actions/add.action.ts:115-120 | `@bare` without a version is not stripped and has no tag piece |
| PackageSpecifier.UnscopedVersion | actions/add.action.ts:116-121 | `name@tag`, with or without more `@` segments, strips to `name`, and its tag piece is `tag` |
| PackageSpecifier.UnscopedNoVersion | actions/add.action.ts:116-121 | a name without `@` is not stripped and has no tag piece |
| PackageSpecifier.ScopedTagged | actions/add.action.ts:108-123 | `@scope/name@tag` installs collection `@scope/name` at `tag` |
| PackageSpecifier.UnscopedTagged | actions/add.action.ts:108-123 | `name@tag` installs collection `name` at `tag` |
| PackageSpecifier.SubPathHidesTag | actions/add.action.ts:108-123 | `name/rest` keeps the whole specifier as collection name, whatever `rest` holds, and installs `latest` |
| PackageSpecifier.ScopedSubPathHidesTag | actions/add.action.ts:108-123 | `@scope/name/rest` keeps the whole specifier as collection name and installs `latest` |
| PackageSpecifier.ExtraAtDropped | actions/add.action.ts:108-123 | `name@tag@rest` installs `name` at `tag` (or at `latest` when `tag` is empty) and drops `rest` |
| PackageSpecifier.ScopedExample | actions/add.action.ts:108-123 | `@nestjs/graphql@8` gives collection `@nestjs/graphql` and tag `8` |
| PackageSpecifier.UnscopedExample | actions/add.action.ts:108-123 | `lodash@4.17.0` gives collection `lodash` and tag `4.17.0` |
| PackageSpecifier.UntaggedExample | actions/add.action.ts:108-123 | `@nestjs/graphql` gives collection `@nestjs/graphql` and tag `latest` |
| PackageSpecifier.SubPathExample | actions/add.action.ts:108-123 | `lodash/fp@1` gives collection `lodash/fp@1` and tag `latest` |
| PackageSpecifier.ExtraAtExample | actions/add.action.ts:108-123 | `name@1@2` gives collection `name` and tag `1` |
| SourceRoot.ProjectNamed | actions/add.action.ts:86 | `configurationProjects[name]` is a project with that name, and is missing exactly when no project has it; with distinct keys it is the project of that name |
| SourceRoot.DefaultProject | actions/add.action.ts:62-72 | the default is the first project, in iteration order, whose `sourceRoot` is the top-level one, or the top-level `sourceRoot` when no project has it |
| SourceRoot.LabelDefaultProject | actions/add.action.ts:61-72 | the loop with `break` yields the default project followed by the label |
| SourceRoot.ResolveSourceRoot | actions/add.action.ts:44-91 | a missing `project` input throws; without a prompt the result is the initial root, which is the top-level `sourceRoot` for a falsy project value; any result is the initial root or some project's `sourceRoot`; an answer that equals the top-level `sourceRoot` keeps the initial root |
| SourceRoot.GetSourceRoot | actions/add.action.ts:44-91 | the step-by-step procedure returns the resolved source root, or throws exactly where the resolution does |
| SourceRoot.DefaultLabelUnbordered | actions/add.action.ts:61 | no proper suffix of `" [ Default ]"` starts it again |
| SourceRoot.StripDefaultLabel | actions/add.action.ts:84 | when no name contains the label, removing it from the offered default name gives back the default project |
| SourceRoot.ChoosingDefaultKeepsRoot | actions/add.action.ts:51-87 | accepting the offered default keeps the top-level `sourceRoot` when the project value is falsy, the keys are distinct and free of the label |
| SourceRoot.ChoosingOtherProject | actions/add.action.ts:84-87 | choosing a project by its plain name, other than the top-level source root, gives that project's `sourceRoot` |
| SourceRoot.ProjectNamedLikeRootIgnored | actions/add.action.ts:84-87 | choosing a project named like the top-level `sourceRoot` keeps the initial root, whatever that project's own `sourceRoot` |
| SourceRoot.UnknownProjectThrows | actions/add.action.ts:84-86 | an answer that names no project and differs from the top-level `sourceRoot` throws |
| AddAction.InputList.Push | actions/add.action.ts:39 | `push` appends the input at the end and changes nothing else |
| AddAction.FlagsString | actions/add.action.ts:166 | the flags string is `undefined` exactly when the flags are |
| AddAction.FlagsRoundTrip | actions/add.action.ts:166 | flags without spaces split back from the space-joined string |
| AddAction.InstallPackage | actions/add.action.ts:93-126 | with no package manager it rejects and installs nothing; with a missing or non-string library it throws before `addProduction`; otherwise it calls `addProduction` once, with the one-element list of the collection name and a non-empty tag, and resolves exactly when that call does |
| AddAction.AddLibrary | actions/add.action.ts:128-179 | a missing library throws before anything is created; otherwise it creates the collection with the same collection name as the install; it runs `nest-add` exactly when a `sourceRoot` option exists, using the first one and the joined flags; without a `sourceRoot` option the trace ends with the engine's `TypeError` message; otherwise `nest-add` runs once, and the trace ends with the error's message, printed, exactly when that error is reported; it resolves exactly when the schematic ran and its error is not reported; it never installs or creates anything else |
| AddAction.RunSchematic | actions/add.action.ts:154-178 | without a `sourceRoot` option the `TypeError` is reported and rejected; otherwise `nest-add` runs with that option and the flags; an error with a non-empty message is printed and rejected, and anything else resolves |
| AddAction.Handle | actions/add.action.ts:31-42 | `options` gains exactly one `sourceRoot` entry at its end, holding the resolved root, when installing and resolving succeed, and is unchanged otherwise; install, create and execute are called in that order with the same collection name; the schematic receives the first `sourceRoot` option; once the package manager is found and the library is a string, `addProduction` is called, and never again after the first event; after the schematic runs, the trace has a fourth event, the printed error message, exactly when the error is reported; the process exits with 0 exactly when install and resolution succeed and the schematic's error is not reported; a failure carries its cause: no package manager, a `TypeError` for a missing or non-string library, `addProduction`'s rejection, a `TypeError` from resolving the source root, or else `addLibrary`'s reported rejection |

## Left out

- Console output (`console.log`, `console.info`), `chalk` colouring and the
  wording of messages are not modelled. The only exception is the engine's
  `TypeError` message, which `addLibrary` prints in red. Its wording is that
  of V8 in Node.js 16.9 and later. Older versions print "Cannot read property
  'value' of undefined". That message is non-empty too, so the outcome is the same.
- `process.exit(0)` is the `Exited(0)` outcome. The async machinery is
  sequential code, and a rejected promise is a `Failed` or `Rejected` result.
- `PackageManagerFactory.find`, `addProduction`, `CollectionFactory.create` and
  `collection.execute` are collaborators. Their answers are fields of
  `Environment` and their calls are trace events. `CollectionFactory.create`
  is assumed not to throw.
- `loadConfiguration` is replaced by a `Configuration` value. `getValueOrDefault`,
  `shouldAskForProject` and the inquirer prompt are parameters.
  `moveDefaultProjectToStart` only reorders the list the prompt shows, so it is
  part of the `choose` parameter.
- The `for…in` loop visits object keys in the order of the `projects`
  sequence. The model does not capture JavaScript putting integer-like keys
  first, nor keys inherited from `Object.prototype`.
- The configuration's top-level `sourceRoot` is always a string. A project may
  lack a `sourceRoot`, and then the option holds `undefined`.
- `getValueOrDefault` returns whatever value the parameter gives. Its own
  lookup is not part of this model.
- A `TypeError` thrown outside any `try` is one failure kind. Which property
  read threw it is not recorded.
- JsBuiltins.Split: only one-character separators are modelled, which are the
  only ones the action uses (`/` and `@`). The limit is a non-negative integer.
- JsBuiltins.Replace: only the string-pattern form with a plain replacement is
  modelled. Special `$` sequences cannot occur, because the replacement is
  always empty.
- Strings are sequences of Dafny `char`, which are Unicode scalar values,
  whereas JavaScript strings are sequences of UTF-16 code units. A character
  outside the Basic Multilingual Plane therefore has length 1 here and 2 in
  JavaScript, and lone surrogates cannot be represented. No result of the
  action depends on this: `/` and `@` are single code units, and the `slice`
  at line 117 cuts at the length of the package portion, which is a prefix of
  the specifier in either counting.
- `commands/build.command.ts` is not part of this model. It only maps
  command-line flags to inputs.
