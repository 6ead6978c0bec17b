/** The add action itself: `installPackage`, `addLibrary` and `handle`. The
    package manager, the schematic collection and the prompt are collaborators
    whose answers are given in an `Environment`; what the action asks of them
    is recorded as a trace of `Event`s. */
module AddAction {
  import opened Wrappers
  import opened JsBuiltins
  import opened CommandInput
  import opened PackageSpecifier
  import opened SourceRoot

  /** The schematic the action runs. */
  const SchematicName := "nest-add"

  /** What the engine says when `.value` is read from `undefined`. */
  const UndefinedValueMessage := "Cannot read properties of undefined (reading 'value')"

  /** A `SchematicOption`: a name and the value handed to the schematic. */
  datatype SchematicOption = SchematicOption(name: string, value: Value)

  /** The calls the action makes on its collaborators, and what it prints in red. */
  datatype Event =
    | AddProduction(packages: seq<string>, tag: string)
    | CreateCollection(name: string)
    | Execute(schematic: string, options: seq<SchematicOption>, extraFlags: Option<string>)
    | PrintError(message: string)

  /** Why a promise of the action rejects. */
  datatype Failure =
    | NoPackageManager  // `PackageManagerFactory.find` rejected
    | InstallFailed     // `addProduction` rejected
    | TypeError         // a property was read from `undefined` outside any `try`
    | Reported          // `addLibrary` printed the error and returned `Promise.reject()`

  /** How an awaited step ends. */
  datatype Completion = Resolved | Rejected(reason: Failure)

  /** How `handle` ends: the process exits, or its promise rejects. */
  datatype Outcome = Exited(code: int) | Failed(reason: Failure)

  /** What `collection.execute` throws: a falsy value, or an object whose
      `message` may be missing. */
  datatype Thrown = FalsyValue | ErrorObject(message: Option<string>)

  datatype Execution = Completed | Threw(error: Thrown)

  /** The answers of everything the action does not compute itself. */
  datatype Environment = Environment(
    managerFound: bool,               // `PackageManagerFactory.find` resolves
    installSucceeds: bool,            // `addProduction` resolves
    config: Configuration,            // what `loadConfiguration` returns
    valueOrDefault: Value -> Value,   // `getValueOrDefault(configuration, 'sourceRoot', ·)`
    shouldAsk: bool,                  // `shouldAskForProject`
    choose: string -> string,         // the prompt's answer, given the default name
    execution: Execution)             // how `collection.execute` ends

  /** The caller's `options` array, which `handle` grows in place. */
  class InputList {
    var items: seq<Input>

    constructor(items: seq<Input>)
      ensures this.items == items
    {
      this.items := items;
    }

    /** `options.push(input)`. */
    method Push(input: Input)
      modifies this
      ensures items == old(items) + [input]
    {
      items := items + [input];
    }
  }

  /** `inputs.find(input => input.name === 'library').value` when that is a
      string; `None` where reading it, or calling string methods on it, throws. */
  function LibraryName(inputs: seq<Input>): Option<string>
  {
    match Lookup(inputs, "library")
    case Some(Input(_, Str(text))) => Some(text)
    case _ => None
  }

  /** `extraFlags ? extraFlags.join(' ') : undefined`: every array is truthy. */
  function FlagsString(extraFlags: Option<seq<string>>): (r: Option<string>)
    ensures r.None? <==> extraFlags.None?
  {
    if extraFlags.Some? then Some(Join(extraFlags.value, ' ')) else None
  }

  /** The flags string splits back into the flags when none holds a space. */
  lemma FlagsRoundTrip(flags: seq<string>)
    requires |flags| >= 1 && forall k :: 0 <= k < |flags| ==> ' ' !in flags[k]
    ensures SplitAll(FlagsString(Some(flags)).value, ' ') == flags
  {
    SplitAllJoin(flags, ' ');
  }

  /** `error && error.message`: the catch block reports the error. */
  predicate Reports(execution: Execution)
  {
    execution.Threw? && execution.error.ErrorObject? &&
    execution.error.message.Some? && execution.error.message.value != ""
  }

  /** `installPackage`: find the package manager, read the library specifier and
      install its collection at its tag. */
  method InstallPackage(inputs: seq<Input>, managerFound: bool, installSucceeds: bool)
    returns (c: Completion, events: seq<Event>)
    ensures !managerFound ==> c == Rejected(NoPackageManager) && events == []
    ensures managerFound && LibraryName(inputs).None? ==> c == Rejected(TypeError) && events == []
    ensures managerFound && LibraryName(inputs).Some? ==>
      var library := LibraryName(inputs).value;
      events == [AddProduction([CollectionName(library)], TagName(library))] &&
      TagName(library) != "" &&
      (c.Resolved? <==> installSucceeds) && (c.Rejected? ==> c.reason == InstallFailed)
  {
    if !managerFound {
      return Rejected(NoPackageManager), [];
    }
    var library := LibraryName(inputs);
    if library.None? {
      // The rejected promise of lines 103-105 is discarded; reading the value throws.
      return Rejected(TypeError), [];
    }
    var collectionName := CollectionName(library.value);
    var tagName := TagName(library.value);
    events := [AddProduction([collectionName], tagName)];
    c := if installSucceeds then Resolved else Rejected(InstallFailed);
  }

  /** `addLibrary`: create the collection named by the specifier, then run the
      schematic. A library that cannot be read throws before the `try`. */
  method AddLibrary(inputs: seq<Input>, options: seq<Input>, extraFlags: Option<seq<string>>,
                    execution: Execution)
    returns (c: Completion, events: seq<Event>)
    ensures LibraryName(inputs).None? <==> events == []
    ensures LibraryName(inputs).None? ==> c == Rejected(TypeError)
    ensures LibraryName(inputs).Some? ==>
      |events| >= 2 && events[0] == CreateCollection(CollectionName(LibraryName(inputs).value)) &&
      (events[1].Execute? <==> Lookup(options, "sourceRoot").Some?) &&
      (events[1].Execute? ==>
         events[1] == Execute(SchematicName, [SchematicOption("sourceRoot", Lookup(options, "sourceRoot").value.value)],
                              FlagsString(extraFlags))) &&
      (c.Resolved? <==> events[1].Execute? && !Reports(execution)) &&
      (c.Rejected? ==> c.reason == Reported)
    ensures LibraryName(inputs).Some? && Lookup(options, "sourceRoot").None? ==>
      events == [CreateCollection(CollectionName(LibraryName(inputs).value)), PrintError(UndefinedValueMessage)]
    ensures LibraryName(inputs).Some? && Lookup(options, "sourceRoot").Some? ==>
      |events| <= 3 && (|events| == 3 <==> Reports(execution)) &&
      (|events| == 3 ==> events[2] == PrintError(execution.error.message.value))
    ensures events != [] ==> forall e :: e in events[1..] ==> e.Execute? || e.PrintError?
  {
    var library := LibraryName(inputs);
    if library.None? {
      return Rejected(TypeError), [];
    }
    var collectionName := CollectionName(library.value);
    var schematicEvents;
    c, schematicEvents := RunSchematic(options, extraFlags, execution);
    events := [CreateCollection(collectionName)] + schematicEvents;
    assert events[1..] == schematicEvents;
  }

  /** The `try` block of `addLibrary` and its `catch`: run `nest-add` with the
      first `sourceRoot` option and the joined extra flags; an error whose
      message is non-empty is printed and turns into a rejection, any other
      thrown value is swallowed. */
  method RunSchematic(options: seq<Input>, extraFlags: Option<seq<string>>, execution: Execution)
    returns (c: Completion, events: seq<Event>)
    ensures Lookup(options, "sourceRoot").None? ==>
      c == Rejected(Reported) && events == [PrintError(UndefinedValueMessage)]
    ensures Lookup(options, "sourceRoot").Some? ==>
      1 <= |events| <= 2 &&
      events[0] == Execute(SchematicName, [SchematicOption("sourceRoot", Lookup(options, "sourceRoot").value.value)],
                           FlagsString(extraFlags)) &&
      (c.Resolved? <==> !Reports(execution)) &&
      (c.Resolved? ==> |events| == 1) &&
      (c.Rejected? ==> c.reason == Reported && |events| == 2 && events[1] == PrintError(execution.error.message.value))
    ensures c.Rejected? ==> c.reason == Reported && events[|events| - 1].PrintError? && events[|events| - 1].message != ""
    ensures forall e :: e in events ==> e.Execute? || e.PrintError?
  {
    var sourceRootOption := Lookup(options, "sourceRoot");
    if sourceRootOption.None? {
      // Reading `.value` of `undefined` throws inside the `try`, and the engine's
      // message makes the catch block report it.
      return Rejected(Reported), [PrintError(UndefinedValueMessage)];
    }
    var schematicOptions: seq<SchematicOption> := [];
    schematicOptions := schematicOptions + [SchematicOption("sourceRoot", sourceRootOption.value.value)];
    var extraFlagsString := FlagsString(extraFlags);
    events := [Execute(SchematicName, schematicOptions, extraFlagsString)];
    if Reports(execution) {
      events := events + [PrintError(execution.error.message.value)];
      c := Rejected(Reported);
    } else {
      c := Resolved;
    }
  }

  /** The `sourceRoot` option `handle` pushes. */
  function SourceRootOption(root: Value): Input
  {
    Input("sourceRoot", root)
  }

  /** The package was installed, so `handle` goes on to resolve the source root. */
  predicate Installs(inputs: seq<Input>, env: Environment)
  {
    env.managerFound && LibraryName(inputs).Some? && env.installSucceeds
  }

  /** The source root `handle` resolves from the inputs and the options. */
  function HandleRoot(inputs: seq<Input>, options: seq<Input>, env: Environment): Option<Value>
  {
    ResolveSourceRoot(inputs + options, env.config, env.valueOrDefault, env.shouldAsk, env.choose)
  }

  /** The value of the first `sourceRoot` option once `root` has been pushed
      onto `options`: an earlier option of that name wins. */
  function FirstRoot(options: seq<Input>, root: Value): Value
  {
    match Lookup(options, "sourceRoot")
    case Some(earlier) => earlier.value
    case None => root
  }

  /** One install followed by a collection's creation, schematic runs and
      error messages installs nothing after its first event. */
  lemma OnlyFirstInstalls(install: Event, added: seq<Event>)
    requires added != [] && added[0].CreateCollection?
    requires forall e :: e in added[1..] ==> e.Execute? || e.PrintError?
    ensures forall k :: 1 <= k < |[install] + added| ==> !([install] + added)[k].AddProduction?
  {
    forall k | 1 <= k < |[install] + added|
      ensures !([install] + added)[k].AddProduction?
    {
      if k > 1 {
        assert ([install] + added)[k] == added[1..][k - 2] && added[1..][k - 2] in added[1..];
      }
    }
  }

  /** `handle`: install, resolve the source root, push it onto `options`, add the
      library, exit with code 0. */
  method Handle(inputs: seq<Input>, options: InputList, extraFlags: Option<seq<string>>, env: Environment)
    returns (outcome: Outcome, events: seq<Event>)
    modifies options
    ensures var root := HandleRoot(inputs, old(options.items), env);
      if Installs(inputs, env) && root.Some? then
        options.items == old(options.items) + [SourceRootOption(root.value)]
      else
        options.items == old(options.items)
    ensures !env.managerFound ==> outcome == Failed(NoPackageManager) && events == []
    ensures env.managerFound && LibraryName(inputs).None? ==> outcome == Failed(TypeError) && events == []
    ensures events != [] ==>
      var library := LibraryName(inputs).value;
      events[0] == AddProduction([CollectionName(library)], TagName(library))
    ensures |events| >= 2 <==> Installs(inputs, env) && HandleRoot(inputs, old(options.items), env).Some?
    ensures |events| >= 2 ==>
      var library := LibraryName(inputs).value;
      var root := HandleRoot(inputs, old(options.items), env).value;
      |events| >= 3 &&
      events[1] == CreateCollection(CollectionName(library)) &&
      events[2] == Execute(SchematicName, [SchematicOption("sourceRoot", FirstRoot(old(options.items), root))],
                           FlagsString(extraFlags))
    ensures |events| >= 2 ==>
      |events| <= 4 && (|events| == 4 <==> Reports(env.execution)) &&
      (|events| == 4 ==> events[3] == PrintError(env.execution.error.message.value))
    ensures env.managerFound && LibraryName(inputs).Some? ==> |events| >= 1
    ensures forall k :: 1 <= k < |events| ==> !events[k].AddProduction?
    ensures outcome.Exited? ==> outcome.code == 0
    ensures outcome.Failed? ==>
      outcome.reason == (if !env.managerFound then NoPackageManager
                         else if LibraryName(inputs).None? then TypeError
                         else if !env.installSucceeds then InstallFailed
                         else if HandleRoot(inputs, old(options.items), env).None? then TypeError
                         else Reported)
    ensures outcome == Exited(0) <==>
      Installs(inputs, env) && HandleRoot(inputs, old(options.items), env).Some? && !Reports(env.execution)
  {
    ghost var before := options.items;
    var installed, installEvents := InstallPackage(inputs, env.managerFound, env.installSucceeds);
    events := installEvents;
    if installed.Rejected? {
      return Failed(installed.reason), events;
    }
    var root := GetSourceRoot(inputs + options.items, env.config, env.valueOrDefault, env.shouldAsk, env.choose);
    if root.None? {
      return Failed(TypeError), events;
    }
    var pushed := SourceRootOption(root.value);
    options.Push(pushed);
    LookupAfterPush(before, pushed, "sourceRoot");
    assert Lookup(options.items, "sourceRoot").Some?;
    assert Lookup(options.items, "sourceRoot").value.value == FirstRoot(before, root.value);
    var added, addEvents := AddLibrary(inputs, options.items, extraFlags, env.execution);
    events := [installEvents[0]] + addEvents;
    assert 2 <= |addEvents| <= 3 && events[1..] == addEvents;
    OnlyFirstInstalls(installEvents[0], addEvents);
    if added.Rejected? {
      return Failed(added.reason), events;
    }
    return Exited(0), events;
  }
}
