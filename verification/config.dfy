/**
 * Job configuration and the shell commands prepared from it
 * (config/config.go and config/iniFileHandler.go).
 *
 * A job has a name, a CA section and a target section. Loading keeps the jobs
 * whose file could be read, in file order. Before a command runs on the
 * target, the `${<section>_<key>}` references in it are collected and a block
 * of `<section>_<key>="<value>"` assignments is put in front of it.
 *
 * The INI library and the reflection lookup of a field by its INI tag are not
 * part of this model: a job file is read by a `Loader` and a field value by a
 * `Lookup`, both parameters.
 */
module Config {
  import opened Wrappers
  import Text
  import Validity
  import opened ShellPreparation

  /** The [ca] section, as far as the modelled code reads it. */
  datatype Ca = Ca(caCert: string, caCertLoaded: string)

  /** The [target] section, as far as the modelled code reads it. */
  datatype Target = Target(
    csrCommand: string,
    setCertCommand: string,
    changeAfterRaw: string,
    changeAfter: nat,
    commandEnvList: seq<EnvVariable>)

  /** A Job value, as it is stored in Config.Jobs. */
  datatype JobData = JobData(name: string, enabled: bool, ca: Ca, target: Target)

  /** loadOneJobINI: the job read from one file, or None when it is unreadable, invalid or disabled. */
  type Loader = string -> Option<JobData>

  /** The struct a shell variable is looked up in. */
  datatype Source = JobFields | CaFields | TargetFields

  /** FieldByIniTag(...).String(): the text of the field with the given INI tag. */
  type Lookup = (Source, string) -> string

  // ---------------------------------------------------------------------
  // trimSlice

  /** The elements of `ins`, each trimmed, without those that are empty after trimming. */
  function Trimmed(ins: seq<string>): seq<string>
  {
    if ins == [] then []
    else
      var t := Text.TrimSpace(ins[|ins| - 1]);
      Trimmed(ins[..|ins| - 1]) + (if t != "" then [t] else [])
  }

  /** trimSlice */
  method TrimSlice(ins: seq<string>) returns (out: seq<string>)
    ensures out == Trimmed(ins)
  {
    out := [];
    for k := 0 to |ins|
      invariant out == Trimmed(ins[..k])
    {
      assert ins[..k + 1][..k] == ins[..k];
      var t := Text.TrimSpace(ins[k]);
      if t != "" {
        out := out + [t];
      }
    }
    assert ins[..|ins|] == ins;
  }

  /** Trimming works element by element: the order of the list is kept. */
  lemma {:induction false} TrimmedAppend(a: seq<string>, b: seq<string>)
    ensures Trimmed(a + b) == Trimmed(a) + Trimmed(b)
    decreases |b|
  {
    if b == [] {
      assert a + b == a;
    } else {
      var b' := b[..|b| - 1];
      assert (a + b)[..|a + b| - 1] == a + b';
      TrimmedAppend(a, b');
    }
  }

  /** The list never grows, and every element kept is non-empty and already trimmed. */
  lemma {:induction false} TrimmedClean(ins: seq<string>)
    ensures |Trimmed(ins)| <= |ins|
    ensures forall t :: t in Trimmed(ins) ==> t != "" && Text.TrimSpace(t) == t
  {
    if ins != [] {
      TrimmedClean(ins[..|ins| - 1]);
      Text.TrimSpaceIdempotent(ins[|ins| - 1]);
    }
  }

  /** Every element kept is the non-empty trimmed form of an input element. */
  lemma {:induction false} TrimmedSound(ins: seq<string>)
    ensures forall t :: t in Trimmed(ins) ==> t != "" && exists k :: 0 <= k < |ins| && Text.TrimSpace(ins[k]) == t
  {
    if ins != [] {
      var init := ins[..|ins| - 1];
      var n := |ins| - 1;
      var last := Text.TrimSpace(ins[n]);
      TrimmedSound(init);
      assert Trimmed(ins) == Trimmed(init) + (if last != "" then [last] else []);
      forall t | t in Trimmed(ins)
        ensures t != "" && exists k :: 0 <= k < |ins| && Text.TrimSpace(ins[k]) == t
      {
        if t in Trimmed(init) {
          var k :| 0 <= k < |init| && Text.TrimSpace(init[k]) == t;
          assert ins[k] == init[k];
        } else {
          assert Text.TrimSpace(ins[n]) == t;
        }
      }
    }
  }

  /** Every input element whose trimmed form is non-empty is kept, in that form. */
  lemma {:induction false} TrimmedComplete(ins: seq<string>)
    ensures forall k :: 0 <= k < |ins| && Text.TrimSpace(ins[k]) != "" ==> Text.TrimSpace(ins[k]) in Trimmed(ins)
  {
    if ins != [] {
      var init := ins[..|ins| - 1];
      TrimmedComplete(init);
      forall k | 0 <= k < |init|
        ensures Text.TrimSpace(ins[k]) == Text.TrimSpace(init[k])
      {
        assert ins[k] == init[k];
      }
    }
  }

  // ---------------------------------------------------------------------
  // GetShellVariables

  /** The struct a section name selects: "job", "ca", and the target for any other name. */
  function SourceOf(section: string): Source
  {
    if section == "job" then JobFields
    else if section == "ca" then CaFields
    else TargetFields
  }

  /** The assignment line of one entry. */
  function Line(e: EnvVariable, lookup: Lookup): string
  {
    e.iniSection + "_" + e.iniVariable + "=\"" + lookup(SourceOf(e.iniSection), e.iniVariable) + "\"" + "\n"
  }

  /** The assignment lines of `envs`, in list order. */
  function ShellBlock(envs: seq<EnvVariable>, lookup: Lookup): string
  {
    if envs == [] then "" else ShellBlock(envs[..|envs| - 1], lookup) + Line(envs[|envs| - 1], lookup)
  }

  /** GetShellVariables: one assignment line per CommandEnvList entry. */
  method GetShellVariables(envs: seq<EnvVariable>, lookup: Lookup) returns (result: string)
    ensures result == ShellBlock(envs, lookup)
  {
    result := "";
    for k := 0 to |envs|
      invariant result == ShellBlock(envs[..k], lookup)
    {
      assert envs[..k + 1][..k] == envs[..k];
      var e := envs[k];
      var value := lookup(SourceOf(e.iniSection), e.iniVariable);
      var line := e.iniSection + "_" + e.iniVariable + "=\"" + value + "\"";
      result := result + line + "\n";
    }
    assert envs[..|envs|] == envs;
  }

  /** The block of a list is the blocks of its parts, in order. */
  lemma {:induction false} ShellBlockAppend(a: seq<EnvVariable>, b: seq<EnvVariable>, lookup: Lookup)
    ensures ShellBlock(a + b, lookup) == ShellBlock(a, lookup) + ShellBlock(b, lookup)
    decreases |b|
  {
    if b == [] {
      assert a + b == a;
    } else {
      var b' := b[..|b| - 1];
      var last := b[|b| - 1];
      assert (a + b)[..|a + b| - 1] == a + b';
      assert (a + b)[|a + b| - 1] == last;
      ShellBlockAppend(a, b', lookup);
      assert ShellBlock(a + b, lookup) == ShellBlock(a + b', lookup) + Line(last, lookup);
    }
  }

  /** One entry gives its one line. */
  lemma ShellBlockSingle(e: EnvVariable, lookup: Lookup)
    ensures ShellBlock([e], lookup) == Line(e, lookup)
  {
    assert [e][..0] == [];
  }

  /**
   * A well-formed entry `<section>_<key>` assigns the shell variable of its
   * own name, with the value looked up in the struct its section selects.
   */
  lemma EntryLine(e: EnvVariable, lookup: Lookup)
    requires Splits(e.shellVariable, e.iniSection, e.iniVariable)
    ensures Line(e, lookup) == e.shellVariable + "=\"" + lookup(SourceOf(e.iniSection), e.iniVariable) + "\"\n"
    ensures e.iniSection == "job" ==> SourceOf(e.iniSection) == JobFields
    ensures e.iniSection == "ca" ==> SourceOf(e.iniSection) == CaFields
    ensures e.iniSection != "job" && e.iniSection != "ca" ==> SourceOf(e.iniSection) == TargetFields
  {
  }

  // ---------------------------------------------------------------------
  // Commands

  /** The script run on the target: the assignments for the references in `command`, then `command`. */
  function CommandFor(command: string, lookup: Lookup): string
  {
    ShellBlock(ExtractedVars(command), lookup) + command
  }

  /** The command ends the script verbatim, and a command without references is the whole script. */
  lemma CommandVerbatim(command: string, lookup: Lookup)
    ensures |CommandFor(command, lookup)| >= |command|
    ensures CommandFor(command, lookup)[|CommandFor(command, lookup)| - |command|..] == command
    ensures (forall p :: 0 <= p < |command| - 1 ==> !(command[p] == '$' && command[p + 1] == '{')) ==>
              CommandFor(command, lookup) == command
  {
    if forall p :: 0 <= p < |command| - 1 ==> !(command[p] == '$' && command[p + 1] == '{') {
      NoReferencesNoVars(command);
      assert ShellBlock([], lookup) == "";
    }
  }

  /** A command that is one well-formed reference is preceded by exactly that one assignment. */
  lemma SingleReferenceCommand(command: string, sec: string, key: string, lookup: Lookup)
    requires Splits(sec + "_" + key, sec, key)
    requires command == "${" + sec + "_" + key + "}"
    ensures CommandFor(command, lookup) ==
            sec + "_" + key + "=\"" + lookup(SourceOf(sec), key) + "\"\n" + command
  {
    SingleReference(command, sec, key);
    var e := EnvVariable(sec + "_" + key, sec, key);
    ShellBlockSingle(e, lookup);
  }

  /** A job being worked on; its methods update it in place. */
  class Job {
    var name: string
    var enabled: bool
    var ca: Ca
    var target: Target

    function Data(): JobData
      reads this
    {
      JobData(name, enabled, ca, target)
    }

    constructor(d: JobData)
      ensures Data() == d
    {
      name := d.name;
      enabled := d.enabled;
      ca := d.ca;
      target := d.target;
    }

    /**
     * Finalize: ChangeAfter becomes the value of ChangeAfterRaw in seconds.
     * `caFile` is the content of the CA certificate file when it exists and
     * can be read, and is then kept as CACertLoaded.
     */
    method Finalize(caFile: Option<string>)
      modifies this
      ensures target == old(target).(changeAfter := Validity.ValidityValue(old(target.changeAfterRaw)))
      ensures ca == if caFile.Some? then old(ca).(caCertLoaded := caFile.value) else old(ca)
      ensures name == old(name) && enabled == old(enabled)
    {
      var sec := Validity.ParseEJBCAValidity(target.changeAfterRaw);
      target := target.(changeAfter := sec);
      if caFile.Some? {
        ca := ca.(caCertLoaded := caFile.value);
      }
    }

    /** GetCSRCmd */
    method GetCSRCmd(lookup: Lookup) returns (cmd: string)
      modifies this
      ensures target == old(target).(commandEnvList := ExtractedVars(old(target.csrCommand)))
      ensures name == old(name) && enabled == old(enabled) && ca == old(ca)
      ensures cmd == CommandFor(target.csrCommand, lookup)
    {
      var envs := ExtractVars(target.csrCommand);
      target := target.(commandEnvList := envs);
      cmd := GetShellVariables(target.commandEnvList, lookup);
      cmd := cmd + target.csrCommand;
    }

    /** GetCertSetCmd */
    method GetCertSetCmd(lookup: Lookup) returns (cmd: string)
      modifies this
      ensures target == old(target).(commandEnvList := ExtractedVars(old(target.setCertCommand)))
      ensures name == old(name) && enabled == old(enabled) && ca == old(ca)
      ensures cmd == CommandFor(target.setCertCommand, lookup)
    {
      var envs := ExtractVars(target.setCertCommand);
      target := target.(commandEnvList := envs);
      cmd := GetShellVariables(target.commandEnvList, lookup);
      cmd := cmd + target.setCertCommand;
    }
  }

  // ---------------------------------------------------------------------
  // Load

  /** The jobs read from `files`, in file order, without the files that gave none. */
  function Loaded(files: seq<string>, load: Loader): seq<JobData>
  {
    if files == [] then []
    else
      var j := load(files[|files| - 1]);
      Loaded(files[..|files| - 1], load) + (if j.Some? then [j.value] else [])
  }

  /** Loading works file by file: the jobs of two lists are the jobs of each, in order. */
  lemma {:induction false} LoadedAppend(a: seq<string>, b: seq<string>, load: Loader)
    ensures Loaded(a + b, load) == Loaded(a, load) + Loaded(b, load)
    decreases |b|
  {
    if b == [] {
      assert a + b == a;
    } else {
      var b' := b[..|b| - 1];
      assert (a + b)[..|a + b| - 1] == a + b';
      LoadedAppend(a, b', load);
    }
  }

  /** A job is loaded exactly when some file gives it; there are never more jobs than files. */
  lemma {:induction false} LoadedElements(files: seq<string>, load: Loader)
    ensures |Loaded(files, load)| <= |files|
    ensures forall j :: j in Loaded(files, load) <==> exists k :: 0 <= k < |files| && load(files[k]) == Some(j)
  {
    if files != [] {
      var init := files[..|files| - 1];
      LoadedElements(init, load);
      forall j | exists k :: 0 <= k < |files| && load(files[k]) == Some(j)
        ensures j in Loaded(files, load)
      {
        var k :| 0 <= k < |files| && load(files[k]) == Some(j);
        if k < |init| {
          assert init[k] == files[k];
        }
      }
      forall j | j in Loaded(files, load)
        ensures exists k :: 0 <= k < |files| && load(files[k]) == Some(j)
      {
        if j in Loaded(init, load) {
          var k :| 0 <= k < |init| && load(init[k]) == Some(j);
          assert files[k] == init[k];
        }
      }
    }
  }

  /** When every file can be read, every file gives one job. */
  lemma {:induction false} LoadedAll(files: seq<string>, load: Loader)
    requires forall k :: 0 <= k < |files| ==> load(files[k]).Some?
    ensures |Loaded(files, load)| == |files|
    ensures forall k :: 0 <= k < |files| ==> Loaded(files, load)[k] == load(files[k]).value
  {
    if files != [] {
      var init := files[..|files| - 1];
      LoadedAll(init, load);
    }
  }

  /** The loaded configuration. */
  class Configuration {
    var jobs: seq<JobData>

    constructor()
      ensures jobs == []
    {
      jobs := [];
    }

    /**
     * Load: `files` are the *.conf files found, in directory order (getFiles
     * gives no list at all rather than an empty one). No files is an error
     * that leaves the jobs as they were.
     */
    method Load(files: seq<string>, load: Loader) returns (err: Option<string>)
      modifies this
      ensures files == [] ==> err == Some("File list was empty") && jobs == old(jobs)
      ensures files != [] ==> err == None && jobs == Loaded(files, load)
    {
      if files == [] {
        return Some("File list was empty");
      }
      var loaded: seq<JobData> := [];
      for k := 0 to |files|
        invariant loaded == Loaded(files[..k], load)
      {
        assert files[..k + 1][..k] == files[..k];
        var job := load(files[k]);
        if job.Some? {
          loaded := loaded + [job.value];
        }
      }
      assert files[..|files|] == files;
      jobs := loaded;
      return None;
    }
  }
}
