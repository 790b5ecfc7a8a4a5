/** Layered environment loading: which file layer each variable comes from, and what a reload undoes. */
module EnvFiles {
  import opened Common

  type Vars = map<string, string>

  datatype FileState = Missing | Unreadable | Parsed(vars: Vars)

  /** The files a load finds, by path. */
  type Disk = string -> FileState

  datatype EnvError = ReadFailed(path: string) | SetFailed

  function Lookup(vars: Vars, key: string): (value: string)
    ensures value == match Value(vars, key) case Some(v) => v case None => ""
  {
    if key in vars then vars[key] else ""
  }

  /** The first value that is not blank, trimmed. */
  function FirstNonEmpty(values: seq<string>): string {
    if values == [] then ""
    else if TrimSpace(values[0]) != "" then TrimSpace(values[0])
    else FirstNonEmpty(values[1..])
  }

  /** All values are blank, or the result is the trimmed value at the first position that is not. */
  lemma {:induction false} FirstNonEmptyIsFirst(values: seq<string>)
    ensures FirstNonEmpty(values) == "" <==> forall i :: 0 <= i < |values| ==> TrimSpace(values[i]) == ""
    ensures FirstNonEmpty(values) != "" ==>
      exists i :: 0 <= i < |values| && TrimSpace(values[i]) == FirstNonEmpty(values)
        && forall j :: 0 <= j < i ==> TrimSpace(values[j]) == ""
  {
    if values != [] {
      var rest := values[1..];
      FirstNonEmptyIsFirst(rest);
      assert forall i :: 1 <= i < |values| ==> values[i] == rest[i - 1];
      if TrimSpace(values[0]) != "" {
        assert TrimSpace(values[0]) == FirstNonEmpty(values);
      } else if FirstNonEmpty(rest) != "" {
        var i :| 0 <= i < |rest| && TrimSpace(rest[i]) == FirstNonEmpty(rest)
          && forall j :: 0 <= j < i ==> TrimSpace(rest[j]) == "";
        assert TrimSpace(values[i + 1]) == FirstNonEmpty(values);
        assert forall j :: 0 <= j < i + 1 ==> TrimSpace(values[j]) == "";
      }
    }
  }

  function ReadEnvFile(disk: Disk, path: string, required: bool): Result<Vars, EnvError> {
    match disk(path)
    case Missing => if required then Err(ReadFailed(path)) else Ok(map[])
    case Unreadable => Err(ReadFailed(path))
    case Parsed(vars) => Ok(vars)
  }

  /** os.Setenv accepts the pair. */
  predicate Settable(key: string, value: string) {
    key != "" && '=' !in key && '\0' !in key && '\0' !in value
  }

  /** The five file layers of a load and the environment they were selected for. */
  datatype Layers = Layers(selected: string, base: Vars, environment: Vars, local: Vars, localEnvironment: Vars,
                           explicit: Vars)

  function ProcessSelection(system: Vars): seq<string> {
    [Lookup(system, "APP_ENV"), Lookup(system, "GO_ENV"), Lookup(system, "GIN_MODE")]
  }

  /** Reads the layers in the order of the source; the first failing read decides the error. */
  function ReadLayers(system: Vars, disk: Disk): Result<Layers, EnvError> {
    var base := ReadEnvFile(disk, ".env", false);
    if base.Err? then Err(base.error) else
    var path := Lookup(system, "FASTBUILD_ENV_FILE");
    var explicit := if path == "" then Ok(map[]) else ReadEnvFile(disk, path, true);
    if explicit.Err? then Err(explicit.error) else
    var e := FirstNonEmpty(ProcessSelection(system) + ProcessSelection(explicit.value) + ProcessSelection(base.value));
    var environment := if e == "" then Ok(map[]) else ReadEnvFile(disk, ".env." + e, false);
    if environment.Err? then Err(environment.error) else
    var local := ReadEnvFile(disk, ".env.local", false);
    if local.Err? then Err(local.error) else
    var localEnvironment := if e == "" then Ok(map[]) else ReadEnvFile(disk, ".env." + e + ".local", false);
    if localEnvironment.Err? then Err(localEnvironment.error) else
    Ok(Layers(e, base.value, environment.value, local.value, localEnvironment.value, explicit.value))
  }

  predicate FilesIgnored(system: Vars) {
    Lookup(system, "FASTBUILD_IGNORE_ENV_FILES") == "true"
  }

  const IDENTITY_KEYS: set<string> := {"APP_ENV", "GO_ENV", "GIN_MODE"}

  /** The file values that survive merging, from lowest to highest priority. */
  function Merged(l: Layers): Vars {
    Pinned(l.base + l.environment + l.local + l.localEnvironment + l.explicit, l.selected)
  }

  function Pinned(all: Vars, selected: string): Vars {
    (all - IDENTITY_KEYS) + (if selected == "" then map[] else map["APP_ENV" := selected])
  }

  /** Overlaying nothing, at the start or for the layers of no environment, changes nothing. */
  lemma MergedInTurn(l: Layers)
    ensures map[] + l.base == l.base
    ensures forall v: Vars :: v + map[] == v
  {
    forall v: Vars ensures v + map[] == v {
    }
  }

  lemma PinnedByDeletion(all: Vars, selected: string)
    ensures Pinned(all, selected) ==
            var rest := all - {"GO_ENV"} - {"GIN_MODE"};
            if selected == "" then rest - {"APP_ENV"} else rest["APP_ENV" := selected]
  {
  }

  /** The file values a load sets: those the process does not define itself. */
  function Applied(system: Vars, l: Layers): Vars {
    Merged(l) - system.Keys
  }

  predicate AllSettable(vars: Vars) {
    forall k :: k in vars ==> Settable(k, vars[k])
  }

  /** What a load from a clean process leaves behind. */
  datatype Outcome = Outcome(process: Vars, fileValues: Vars, appEnv: string, err: Option<EnvError>)

  function Load(system: Vars, disk: Disk): Outcome {
    LoadFrom(system, FilesIgnored(system), ReadLayers(system, disk))
  }

  function LoadFrom(system: Vars, ignored: bool, l: Result<Layers, EnvError>): Outcome {
    var fallback := Outcome(system, map[], FirstNonEmpty(ProcessSelection(system)), None);
    if ignored then fallback
    else
      if l.Err? then fallback.(err := Some(l.error))
      else if !AllSettable(Applied(system, l.value)) then fallback.(err := Some(SetFailed))
      else Outcome(system + Applied(system, l.value), Applied(system, l.value), l.value.selected, None)
  }

  /** The process environment without the values that earlier loads set and nobody changed since. */
  function WithoutFileValues(process: Vars, fileValues: Vars): Vars {
    map k | k in process && !(k in fileValues && process[k] == fileValues[k]) :: process[k]
  }

  // ------------------------------------------------------------ laws

  function FirstDefined(layers: seq<Vars>, key: string): Option<string> {
    if layers == [] then None
    else if key in layers[0] then Some(layers[0][key])
    else FirstDefined(layers[1..], key)
  }

  function Value(vars: Vars, key: string): Option<string> {
    if key in vars then Some(vars[key]) else None
  }

  lemma FirstDefinedCons(a: Vars, rest: seq<Vars>, key: string)
    ensures FirstDefined([a] + rest, key) == if key in a then Some(a[key]) else FirstDefined(rest, key)
  {
    assert ([a] + rest)[1..] == rest;
  }

  lemma FirstDefinedOfSix(a: Vars, b: Vars, c: Vars, d: Vars, e: Vars, f: Vars, key: string)
    ensures FirstDefined([a, b, c, d, e, f], key)
         == if key in a then Some(a[key]) else if key in b then Some(b[key]) else if key in c then Some(c[key])
            else if key in d then Some(d[key]) else if key in e then Some(e[key]) else Value(f, key)
  {
    FirstDefinedCons(f, [], key);
    FirstDefinedCons(e, [f], key);
    FirstDefinedCons(d, [e, f], key);
    FirstDefinedCons(c, [d, e, f], key);
    FirstDefinedCons(b, [c, d, e, f], key);
    FirstDefinedCons(a, [b, c, d, e, f], key);
    assert FirstDefined([], key) == None;
    hide FirstDefined;
    assert [f] + [] == [f] && [e] + [f] == [e, f] && [d] + [e, f] == [d, e, f] && [c] + [d, e, f] == [c, d, e, f];
    assert [b] + [c, d, e, f] == [b, c, d, e, f] && [a] + [b, c, d, e, f] == [a, b, c, d, e, f];
  }

  lemma LayerOfSix(system: Vars, l: Layers, key: string)
    requires key !in IDENTITY_KEYS
    ensures Value(system + Applied(system, l), key)
         == FirstDefined([system, l.explicit, l.localEnvironment, l.local, l.environment, l.base], key)
  {
    hide FirstDefined;
    FirstDefinedOfSix(system, l.explicit, l.localEnvironment, l.local, l.environment, l.base, key);
    var all := l.base + l.environment + l.local + l.localEnvironment + l.explicit;
    assert Value(Pinned(all, l.selected), key) == Value(all, key);
  }

  /** The values of a file; none for a file that is missing or, like the layers of no environment, has no name. */
  function FileValues(disk: Disk, path: string): Vars {
    if path != "" && disk(path).Parsed? then disk(path).vars else map[]
  }

  /** The file of an environment, by its suffix; no name when no environment is selected. */
  function EnvironmentFile(e: string, suffix: string): string {
    if e == "" then "" else ".env." + e + suffix
  }

  lemma NineNames(a: Vars, b: Vars, c: Vars)
    ensures ProcessSelection(a) + ProcessSelection(b) + ProcessSelection(c) == [
      Lookup(a, "APP_ENV"), Lookup(a, "GO_ENV"), Lookup(a, "GIN_MODE"),
      Lookup(b, "APP_ENV"), Lookup(b, "GO_ENV"), Lookup(b, "GIN_MODE"),
      Lookup(c, "APP_ENV"), Lookup(c, "GO_ENV"), Lookup(c, "GIN_MODE")]
  {
  }

  /** What a load that succeeds has read. */
  lemma LoadedLayers(system: Vars, disk: Disk)
    requires ReadLayers(system, disk).Ok?
    ensures var l, path := ReadLayers(system, disk).value, Lookup(system, "FASTBUILD_ENV_FILE");
      && l.base == FileValues(disk, ".env") && l.explicit == FileValues(disk, path)
      && l.local == FileValues(disk, ".env.local")
      && l.environment == FileValues(disk, EnvironmentFile(l.selected, ""))
      && l.localEnvironment == FileValues(disk, EnvironmentFile(l.selected, ".local"))
      && var explicitFile, base := FileValues(disk, path), FileValues(disk, ".env");
      l.selected == FirstNonEmpty([
        Lookup(system, "APP_ENV"), Lookup(system, "GO_ENV"), Lookup(system, "GIN_MODE"),
        Lookup(explicitFile, "APP_ENV"), Lookup(explicitFile, "GO_ENV"), Lookup(explicitFile, "GIN_MODE"),
        Lookup(base, "APP_ENV"), Lookup(base, "GO_ENV"), Lookup(base, "GIN_MODE")])
  {
    hide FirstNonEmpty, Lookup, ProcessSelection;
    NineNames(system, FileValues(disk, Lookup(system, "FASTBUILD_ENV_FILE")), FileValues(disk, ".env"));
    var l := ReadLayers(system, disk).value;
    assert ".env." + l.selected + "" == ".env." + l.selected;
  }

  /** Each ordinary variable has the value of the first source that defines it: the process, then the files. */
  lemma LayersByPriority(system: Vars, disk: Disk, key: string)
    requires Value(system, "FASTBUILD_IGNORE_ENV_FILES") != Some("true") && Load(system, disk).err == None
    requires key !in {"APP_ENV", "GO_ENV", "GIN_MODE"}
    ensures var after, explicitFile := Load(system, disk), Lookup(system, "FASTBUILD_ENV_FILE");
      var e := after.appEnv;
      Value(after.process, key) == FirstDefined([system, FileValues(disk, explicitFile),
        FileValues(disk, EnvironmentFile(e, ".local")), FileValues(disk, ".env.local"),
        FileValues(disk, EnvironmentFile(e, "")), FileValues(disk, ".env")], key)
  {
    hide ReadLayers, FileValues, Applied, AllSettable, FirstDefined, EnvironmentFile, FirstNonEmpty;
    LoadedLayers(system, disk);
    LayerOfSix(system, ReadLayers(system, disk).value, key);
  }

  /** Reading the file fails the load. */
  predicate Fails(disk: Disk, path: string, required: bool) {
    path != "" && (disk(path).Unreadable? || (required && disk(path).Missing?))
  }

  /** A load fails on the first file, in the order of reading, that cannot be read, or on a value that cannot be set. */
  lemma LoadFailsExactly(system: Vars, disk: Disk)
    requires !FilesIgnored(system)
    ensures var path, err := Lookup(system, "FASTBUILD_ENV_FILE"), Load(system, disk).err;
      var e := FirstNonEmpty(ProcessSelection(system) + ProcessSelection(FileValues(disk, path))
                             + ProcessSelection(FileValues(disk, ".env")));
      if Fails(disk, ".env", false) then err == Some(ReadFailed(".env"))
      else if Fails(disk, path, true) then err == Some(ReadFailed(path))
      else if Fails(disk, EnvironmentFile(e, ""), false) then err == Some(ReadFailed(EnvironmentFile(e, "")))
      else if Fails(disk, ".env.local", false) then err == Some(ReadFailed(".env.local"))
      else if Fails(disk, EnvironmentFile(e, ".local"), false) then
        err == Some(ReadFailed(EnvironmentFile(e, ".local")))
      else
        var l := ReadLayers(system, disk);
        l.Ok? && err == if AllSettable(Applied(system, l.value)) then None else Some(SetFailed)
  {
    hide Applied, AllSettable, FirstNonEmpty, ProcessSelection, Lookup;
    forall e ensures ".env." + e + "" == ".env." + e {
    }
  }

  /** On request the files are left alone; then, as after a failure, the environment is selected by the process. */
  lemma IgnoredOrFailedSetsNothing(system: Vars, disk: Disk)
    requires Value(system, "FASTBUILD_IGNORE_ENV_FILES") == Some("true") || Load(system, disk).err.Some?
    ensures var after := Load(system, disk);
      && after.process == system && after.fileValues == map[]
      && after.appEnv
         == FirstNonEmpty([Lookup(system, "APP_ENV"), Lookup(system, "GO_ENV"), Lookup(system, "GIN_MODE")])
      && (Value(system, "FASTBUILD_IGNORE_ENV_FILES") == Some("true") ==> after.err == None)
  {
  }

  /** Where each value that a load sets comes from. */
  lemma AppliedValue(system: Vars, l: Layers, key: string)
    ensures Value(Applied(system, l), key) ==
      if key in system || key in {"GO_ENV", "GIN_MODE"} then None
      else if key == "APP_ENV" then if l.selected == "" then None else Some(l.selected)
      else FirstDefined([l.explicit, l.localEnvironment, l.local, l.environment, l.base], key)
  {
    hide FirstDefined;
    if key !in system && key !in IDENTITY_KEYS {
      LayerOfSix(system, l, key);
      assert [system] + [l.explicit, l.localEnvironment, l.local, l.environment, l.base]
          == [system, l.explicit, l.localEnvironment, l.local, l.environment, l.base];
      FirstDefinedCons(system, [l.explicit, l.localEnvironment, l.local, l.environment, l.base], key);
    }
  }

  /** Some source defines the variable, and its name is empty or holds '=' or NUL, or its value holds NUL. */
  predicate Refused(system: Vars, l: Layers, key: string) {
    var value := if key in system || key in {"GO_ENV", "GIN_MODE"} then None
                 else if key == "APP_ENV" then if l.selected == "" then None else Some(l.selected)
                 else FirstDefined([l.explicit, l.localEnvironment, l.local, l.environment, l.base], key);
    value.Some? && (key == "" || '=' in key || '\0' in key || '\0' in value.value)
  }

  /** Setting the values fails exactly if one of them is refused. */
  lemma SetFailsExactly(system: Vars, l: Layers)
    ensures !AllSettable(Applied(system, l)) <==> exists key :: Refused(system, l, key)
  {
    hide FirstDefined, Applied;
    var applied := Applied(system, l);
    if !AllSettable(applied) {
      var key :| key in applied && !Settable(key, applied[key]);
      AppliedValue(system, l, key);
      assert Refused(system, l, key);
    }
    forall key | Refused(system, l, key) ensures key in applied && !Settable(key, applied[key]) {
      AppliedValue(system, l, key);
    }
  }

  /** A reload first drops exactly the variables that earlier loads set and nobody has changed. */
  lemma OnlyUnchangedFileValuesGo(process: Vars, fileValues: Vars, key: string)
    ensures Value(WithoutFileValues(process, fileValues), key)
         == if key in process && key in fileValues && process[key] == fileValues[key] then None
            else if key in process then Some(process[key]) else None
  {
  }

  /** APP_ENV is the process value or else the selection; the other two names are never set from files. */
  lemma IdentityIsPinned(system: Vars, disk: Disk)
    requires !FilesIgnored(system) && ReadLayers(system, disk).Ok?
    requires AllSettable(Applied(system, ReadLayers(system, disk).value))
    ensures var l, after := ReadLayers(system, disk).value, Load(system, disk);
      && after.appEnv == l.selected
      && Value(after.process, "APP_ENV") == (if "APP_ENV" in system then Some(system["APP_ENV"])
                                             else if l.selected == "" then None else Some(l.selected))
      && Value(after.process, "GO_ENV") == Value(system, "GO_ENV")
      && Value(after.process, "GIN_MODE") == Value(system, "GIN_MODE")
  {
  }

  lemma LoadAddsFileValues(system: Vars, ignored: bool, l: Result<Layers, EnvError>)
    ensures var after := LoadFrom(system, ignored, l);
      && after.process == system + after.fileValues && after.fileValues.Keys !! system.Keys
      && (after.err.Some? ==> after.process == system && after.fileValues == map[])
  {
  }

  /** A load changes no variable that the process defines, and on failure no variable at all. */
  lemma ProcessValuesWin(system: Vars, disk: Disk)
    ensures var after := Load(system, disk);
      && (forall k :: k in system ==> k in after.process && after.process[k] == system[k])
      && (after.err.Some? ==> after.process == system && after.fileValues == map[])
  {
    LoadAddsFileValues(system, FilesIgnored(system), ReadLayers(system, disk));
  }

  /** Removing what a load set restores the process exactly. */
  lemma RemovalUndoesLoad(system: Vars, disk: Disk)
    ensures var after := Load(system, disk);
      WithoutFileValues(after.process, after.fileValues) == system
  {
    LoadAddsFileValues(system, FilesIgnored(system), ReadLayers(system, disk));
  }

  /** Reloading unchanged files changes nothing, whatever was loaded or edited before. */
  lemma ReloadIsStable(process: Vars, fileValues: Vars, disk: Disk)
    ensures var once := Load(WithoutFileValues(process, fileValues), disk);
      Load(WithoutFileValues(once.process, once.fileValues), disk) == once
  {
    RemovalUndoesLoad(WithoutFileValues(process, fileValues), disk);
  }

  // ------------------------------------------------------------ the loader

  class Loader {
    /** The process environment. */
    var process: Vars
    var loaded: bool
    var loadErr: Option<EnvError>
    var appEnv: string
    var loadedFileValues: Vars

    constructor (process: Vars)
      ensures this.process == process && !loaded && loadErr == None && appEnv == "" && loadedFileValues == map[]
    {
      this.process, loaded, loadErr, appEnv, loadedFileValues := process, false, None, "", map[];
    }

    /** The package state and the environment. */
    function Snapshot(): Outcome
      reads this
    {
      Outcome(process, loadedFileValues, appEnv, loadErr)
    }

    /** Loads once; later calls return the first result and touch nothing. */
    method LoadOnce(disk: Disk) returns (err: Option<EnvError>)
      requires !loaded ==> loadedFileValues == map[]
      modifies this
      ensures err == loadErr && loaded
      ensures Snapshot() == if old(loaded) then old(Snapshot()) else Load(old(process), disk)
    {
      if loaded {
        return loadErr;
      }
      loadErr := LoadEnvFiles(disk);
      loaded := true;
      return loadErr;
    }

    method LoadFresh(disk: Disk) returns (err: Option<EnvError>)
      modifies this
      ensures err == loadErr && loaded
      ensures Snapshot() == Load(WithoutFileValues(old(process), old(loadedFileValues)), disk)
    {
      RemoveLoadedFileValues();
      loadErr := LoadEnvFiles(disk);
      loaded := true;
      return loadErr;
    }

    method RemoveLoadedFileValues()
      modifies this`process, this`loadedFileValues
      ensures process == WithoutFileValues(old(process), old(loadedFileValues)) && loadedFileValues == map[]
    {
      var todo := loadedFileValues.Keys;
      while todo != {}
        invariant todo <= loadedFileValues.Keys && loadedFileValues == old(loadedFileValues)
        invariant process == map k | k in old(process) &&
          !(k in loadedFileValues && k !in todo && old(process)[k] == loadedFileValues[k]) :: old(process)[k]
      {
        var key :| key in todo;
        if key in process && process[key] == loadedFileValues[key] {
          process := process - {key};
        }
        todo := todo - {key};
      }
      loadedFileValues := map[];
    }

    method MergeEnv(target: Vars, source: Vars) returns (merged: Vars)
      ensures merged == target + source
    {
      merged := target;
      var todo := source.Keys;
      while todo != {}
        invariant todo <= source.Keys
        invariant merged == target + (source - todo)
      {
        var key :| key in todo;
        merged := merged[key := source[key]];
        todo := todo - {key};
      }
      assert source - {} == source;
    }

    method LoadEnvFiles(disk: Disk) returns (err: Option<EnvError>)
      requires loadedFileValues == map[]
      modifies this`process, this`appEnv, this`loadedFileValues
      ensures Outcome(process, loadedFileValues, appEnv, err) == Load(old(process), disk)
    {
      hide AllSettable, FirstNonEmpty;
      var system := process;
      appEnv := FirstNonEmpty(ProcessSelection(system));
      if FilesIgnored(system) {
        return None;
      }
      var base := ReadEnvFile(disk, ".env", false);
      if base.Err? {
        return Some(base.error);
      }
      var explicit: Result<Vars, EnvError> := Ok(map[]);
      var path := Lookup(system, "FASTBUILD_ENV_FILE");
      if path != "" {
        explicit := ReadEnvFile(disk, path, true);
        if explicit.Err? {
          return Some(explicit.error);
        }
      }
      var selected := FirstNonEmpty(ProcessSelection(system) + ProcessSelection(explicit.value)
                                    + ProcessSelection(base.value));
      var environment, localEnvironment: Result<Vars, EnvError> := Ok(map[]), Ok(map[]);
      var merged := MergeEnv(map[], base.value);
      if selected != "" {
        environment := ReadEnvFile(disk, ".env." + selected, false);
        if environment.Err? {
          return Some(environment.error);
        }
        merged := MergeEnv(merged, environment.value);
      }
      var local := ReadEnvFile(disk, ".env.local", false);
      if local.Err? {
        return Some(local.error);
      }
      merged := MergeEnv(merged, local.value);
      if selected != "" {
        localEnvironment := ReadEnvFile(disk, ".env." + selected + ".local", false);
        if localEnvironment.Err? {
          return Some(localEnvironment.error);
        }
        merged := MergeEnv(merged, localEnvironment.value);
      }
      merged := MergeEnv(merged, explicit.value);
      ghost var l := Layers(selected, base.value, environment.value, local.value, localEnvironment.value,
                            explicit.value);
      assert ReadLayers(system, disk) == Ok(l);
      MergedInTurn(l);
      assert merged == l.base + l.environment + l.local + l.localEnvironment + l.explicit;
      merged := PinIdentity(merged, selected);
      err := Apply(merged);
      if err.None? {
        appEnv := selected;
      }
    }

    /** Drops the identity variables that files may not set and pins the selected environment. */
    method PinIdentity(all: Vars, selected: string) returns (merged: Vars)
      ensures merged == Pinned(all, selected)
    {
      PinnedByDeletion(all, selected);
      merged := all - {"GO_ENV"};
      merged := merged - {"GIN_MODE"};
      if selected == "" {
        merged := merged - {"APP_ENV"};
      } else {
        merged := merged["APP_ENV" := selected];
      }
    }

    /** Sets the merged values that the process lacks; if one cannot be set, unsets those already set. */
    method Apply(merged: Vars) returns (err: Option<EnvError>)
      requires loadedFileValues == map[]
      modifies this`process, this`loadedFileValues
      ensures var applied := merged - old(process).Keys;
        if AllSettable(applied) then err == None && process == old(process) + applied && loadedFileValues == applied
        else err == Some(SetFailed) && process == old(process) && loadedFileValues == map[]
    {
      var system := process;
      var applied: Vars := map[];
      var todo := merged.Keys;
      while todo != {}
        invariant todo <= merged.Keys && system == old(process) && loadedFileValues == map[]
        invariant applied == merged - system.Keys - todo && AllSettable(applied)
        invariant process == system + applied
      {
        var key :| key in todo;
        if key !in system {
          if !Settable(key, merged[key]) {
            process := process - applied.Keys;
            assert key in merged - system.Keys;
            return Some(SetFailed);
          }
          process := process[key := merged[key]];
          applied := applied[key := merged[key]];
        }
        todo := todo - {key};
      }
      assert merged - system.Keys - {} == merged - system.Keys;
      loadedFileValues := applied;
      return None;
    }
  }
}
