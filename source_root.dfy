/** `getSourceRoot` of the add action: which source root the `nest-add`
    schematic receives. The configuration, the `getValueOrDefault` lookup, the
    `shouldAskForProject` decision and the project prompt are parameters. */
module SourceRoot {
  import opened Wrappers
  import opened JsBuiltins
  import opened CommandInput

  /** One entry of `configuration.projects`: its key and its `sourceRoot`, which
      a project may leave out. */
  datatype Project = Project(name: string, sourceRoot: Option<string>)

  /** The parts of the CLI configuration that `getSourceRoot` reads. The
      projects are listed in the order `for…in` visits their keys. */
  datatype Configuration = Configuration(sourceRoot: string, projects: seq<Project>)

  /** The label appended to the default project in the prompt. */
  const DefaultLabel := " [ Default ]"

  /** An object's keys are distinct. */
  predicate DistinctNames(projects: seq<Project>)
  {
    forall i, j :: 0 <= i < j < |projects| ==> projects[i].name != projects[j].name
  }

  /** Neither the top-level source root nor any project name contains the label. */
  predicate LabelFree(config: Configuration)
  {
    IndexOf(config.sourceRoot, DefaultLabel).None? &&
    forall i :: 0 <= i < |config.projects| ==> IndexOf(config.projects[i].name, DefaultLabel).None?
  }

  /** The loop's test: the project's `sourceRoot` is the top-level one. */
  function SharesRoot(root: string): Project -> bool
  {
    (p: Project) => p.sourceRoot == Some(root)
  }

  /** `configurationProjects[name]`: the project under that key, if any. */
  function ProjectNamed(projects: seq<Project>, name: string): (r: Option<Project>)
    ensures r.Some? ==> r.value in projects && r.value.name == name
    ensures r.None? <==> forall j :: 0 <= j < |projects| ==> projects[j].name != name
    ensures DistinctNames(projects) ==>
      forall i :: 0 <= i < |projects| && projects[i].name == name ==> r == Some(projects[i])
  {
    var r := Find(projects, (p: Project) => p.name == name);
    if r.Some? then
      var k := FindIndex(projects, (p: Project) => p.name == name).value;
      assert projects[k] == r.value;
      r
    else
      r
  }

  /** A project's `sourceRoot` as the value it gives the `sourceRoot` option:
      `undefined` when the project has none. */
  function RootValue(root: Option<string>): Value
  {
    if root.Some? then Str(root.value) else Undefined
  }

  /** The default project: the first project, in iteration order, whose
      `sourceRoot` is the top-level one, or the top-level source root itself
      when no project has it. */
  function DefaultProject(config: Configuration): (name: string)
    ensures forall i :: 0 <= i < |config.projects| && config.projects[i].sourceRoot == Some(config.sourceRoot) &&
                        (forall j :: 0 <= j < i ==> config.projects[j].sourceRoot != Some(config.sourceRoot))
                        ==> name == config.projects[i].name
    ensures (forall j :: 0 <= j < |config.projects| ==> config.projects[j].sourceRoot != Some(config.sourceRoot))
            ==> name == config.sourceRoot
  {
    match FindIndex(config.projects, SharesRoot(config.sourceRoot))
    case Some(i) => config.projects[i].name
    case None => config.sourceRoot
  }

  /** The name the prompt offers as default: the default project and the label. */
  function DefaultProjectName(config: Configuration): string
  {
    DefaultProject(config) + DefaultLabel
  }

  /** The `for…in` loop with `break` that labels the default project. */
  method LabelDefaultProject(config: Configuration) returns (defaultProjectName: string)
    ensures defaultProjectName == DefaultProjectName(config)
  {
    defaultProjectName := config.sourceRoot + DefaultLabel;
    var i := 0;
    while i < |config.projects|
      invariant 0 <= i <= |config.projects|
      invariant forall j :: 0 <= j < i ==> config.projects[j].sourceRoot != Some(config.sourceRoot)
      invariant defaultProjectName == config.sourceRoot + DefaultLabel
    {
      if config.projects[i].sourceRoot == Some(config.sourceRoot) {
        defaultProjectName := config.projects[i].name + DefaultLabel;
        break;
      }
      i := i + 1;
    }
  }

  /** The source root before any prompt: `getValueOrDefault(configuration,
      'sourceRoot', appName)` for a truthy project value, the top-level
      `sourceRoot` otherwise. */
  function InitialRoot(appName: Value, config: Configuration, valueOrDefault: Value -> Value): Value
  {
    if Truthy(appName) then valueOrDefault(appName) else Str(config.sourceRoot)
  }

  /** The prompt's answer with the first occurrence of the label removed. */
  function ChosenProject(config: Configuration, choose: string -> string): string
  {
    Replace(choose(DefaultProjectName(config)), DefaultLabel, "")
  }

  /** The value `getSourceRoot` puts in the `sourceRoot` option, or `None` where
      it throws a `TypeError`: no `project` input to read `.value` from, or a
      chosen name that is no key of `configuration.projects`. */
  function ResolveSourceRoot(inputs: seq<Input>, config: Configuration, valueOrDefault: Value -> Value,
                             shouldAsk: bool, choose: string -> string): (r: Option<Value>)
    ensures Lookup(inputs, "project").None? ==> r.None?
    ensures !shouldAsk ==>
      (r.Some? <==> Lookup(inputs, "project").Some?) &&
      (r.Some? ==> r.value == InitialRoot(Lookup(inputs, "project").value.value, config, valueOrDefault))
    ensures !shouldAsk && Lookup(inputs, "project").Some? && !Truthy(Lookup(inputs, "project").value.value) ==>
      r == Some(Str(config.sourceRoot))
    ensures r.Some? ==>
      r.value == InitialRoot(Lookup(inputs, "project").value.value, config, valueOrDefault) ||
      exists i :: 0 <= i < |config.projects| && r.value == RootValue(config.projects[i].sourceRoot)
    ensures shouldAsk && Lookup(inputs, "project").Some? && ChosenProject(config, choose) == config.sourceRoot ==>
      r == Some(InitialRoot(Lookup(inputs, "project").value.value, config, valueOrDefault))
  {
    match Lookup(inputs, "project")
    case None => None
    case Some(input) =>
      var initial := InitialRoot(input.value, config, valueOrDefault);
      if !shouldAsk then Some(initial)
      else
        var project := ChosenProject(config, choose);
        if project == config.sourceRoot then Some(initial)
        else match ProjectNamed(config.projects, project)
          case None => None
          case Some(p) => Some(RootValue(p.sourceRoot))
  }

  /** `getSourceRoot` step by step. */
  method GetSourceRoot(inputs: seq<Input>, config: Configuration, valueOrDefault: Value -> Value,
                       shouldAsk: bool, choose: string -> string) returns (r: Option<Value>)
    ensures r == ResolveSourceRoot(inputs, config, valueOrDefault, shouldAsk, choose)
  {
    var appInput := Lookup(inputs, "project");
    if appInput.None? {
      return None;
    }
    var sourceRoot := InitialRoot(appInput.value.value, config, valueOrDefault);
    if shouldAsk {
      var defaultProjectName := LabelDefaultProject(config);
      var project := Replace(choose(defaultProjectName), DefaultLabel, "");
      if project != config.sourceRoot {
        var chosen := ProjectNamed(config.projects, project);
        if chosen.None? {
          return None;
        }
        sourceRoot := RootValue(chosen.value.sourceRoot);
      }
    }
    return Some(sourceRoot);
  }

  // ---------------------------------------------------------------------------
  // Properties

  /** No proper suffix of the label starts it again. */
  lemma DefaultLabelUnbordered()
    ensures Unbordered(DefaultLabel)
  {
    var pat := DefaultLabel;
    forall n | 0 < n < |pat|
      ensures pat[n..] != pat[..|pat| - n]
    {
      if pat[n] != pat[0] {
        assert pat[n..][0] != pat[..|pat| - n][0];
      } else {
        assert pat[n..][1] != pat[..|pat| - n][1];
      }
    }
  }

  /** Removing the label from the offered default name gives back the default
      project. */
  lemma StripDefaultLabel(config: Configuration)
    requires LabelFree(config)
    ensures Replace(DefaultProjectName(config), DefaultLabel, "") == DefaultProject(config)
  {
    assert IndexOf(DefaultProject(config), DefaultLabel).None?;
    StripLabel(DefaultProject(config));
  }

  /** Removing the label from a label-free name followed by the label. */
  lemma StripLabel(name: string)
    requires IndexOf(name, DefaultLabel).None?
    ensures Replace(name + DefaultLabel, DefaultLabel, "") == name
  {
    DefaultLabelUnbordered();
    RemoveTrailingPattern(name, DefaultLabel);
  }

  /** Accepting the offered default keeps the top-level `sourceRoot` when the
      project value is empty or absent. */
  lemma ChoosingDefaultKeepsRoot(inputs: seq<Input>, config: Configuration, valueOrDefault: Value -> Value,
                                 choose: string -> string)
    requires Lookup(inputs, "project").Some? && !Truthy(Lookup(inputs, "project").value.value)
    requires DistinctNames(config.projects) && LabelFree(config)
    requires choose(DefaultProjectName(config)) == DefaultProjectName(config)
    ensures ResolveSourceRoot(inputs, config, valueOrDefault, true, choose) == Some(Str(config.sourceRoot))
  {
    StripDefaultLabel(config);
    var project := ChosenProject(config, choose);
    assert project == DefaultProject(config);
    match FindIndex(config.projects, SharesRoot(config.sourceRoot))
    case Some(i) =>
      assert ProjectNamed(config.projects, project) == Some(config.projects[i]);
    case None =>
  }

  /** Choosing another project by its plain name gives that project's
      `sourceRoot`, unless its name happens to equal the top-level source root. */
  lemma ChoosingOtherProject(inputs: seq<Input>, config: Configuration, valueOrDefault: Value -> Value,
                             choose: string -> string, k: nat)
    requires Lookup(inputs, "project").Some?
    requires DistinctNames(config.projects) && k < |config.projects|
    requires choose(DefaultProjectName(config)) == config.projects[k].name
    requires IndexOf(config.projects[k].name, DefaultLabel).None?
    requires config.projects[k].name != config.sourceRoot
    ensures ResolveSourceRoot(inputs, config, valueOrDefault, true, choose) ==
            Some(RootValue(config.projects[k].sourceRoot))
  {
    assert ChosenProject(config, choose) == config.projects[k].name;
  }

  /** A project whose name equals the top-level source root is never used: the
      answer is compared with a source root, not with the default name, so
      choosing it keeps the initial root whatever its own `sourceRoot` is. */
  lemma ProjectNamedLikeRootIgnored(inputs: seq<Input>, config: Configuration, valueOrDefault: Value -> Value,
                                    choose: string -> string, k: nat)
    requires Lookup(inputs, "project").Some?
    requires k < |config.projects| && config.projects[k].name == config.sourceRoot
    requires choose(DefaultProjectName(config)) == config.projects[k].name
    requires IndexOf(config.sourceRoot, DefaultLabel).None?
    ensures ResolveSourceRoot(inputs, config, valueOrDefault, true, choose) ==
            Some(InitialRoot(Lookup(inputs, "project").value.value, config, valueOrDefault))
  {
    assert ChosenProject(config, choose) == config.sourceRoot;
  }

  /** An answer naming no project, other than the top-level source root, makes
      the lookup `configurationProjects[project].sourceRoot` throw. */
  lemma UnknownProjectThrows(inputs: seq<Input>, config: Configuration, valueOrDefault: Value -> Value,
                             choose: string -> string)
    requires Lookup(inputs, "project").Some?
    requires ChosenProject(config, choose) != config.sourceRoot
    requires forall j :: 0 <= j < |config.projects| ==> config.projects[j].name != ChosenProject(config, choose)
    ensures ResolveSourceRoot(inputs, config, valueOrDefault, true, choose).None?
  {
    assert ProjectNamed(config.projects, ChosenProject(config, choose)).None?;
  }
}
