/**
  The build provider of the Atom package `build-asciidoc`: the settings it
  declares, the check that decides whether the active document is an
  AsciiDoc file, and the build descriptor it hands to the build host.

  The host's globals are parameters here: the active text editor is an
  `Option<TextEditor>` instead of `atom.workspace.getActiveTextEditor()`, and
  the two configuration strings are passed to `Settings` instead of being read
  from `atom.config`.
 */
module Asciidoc {
  import opened Wrappers
  import opened JsStrings

  // ---------------------------------------------------------------------
  // Declared settings (the exported `config` schema)
  // ---------------------------------------------------------------------

  datatype SettingValue = StringValue(str: string) | BooleanValue(flag: bool)

  /** One declared setting: its key and its default (its type is the
      default's constructor). Titles, descriptions and display order are
      not modelled. */
  datatype Setting = Setting(key: string, default: SettingValue)

  const ArgumentsKey: string := "asciidoctorArguments"
  const CommandKey: string := "asciidoctorCommand"
  const ManageDependenciesKey: string := "manageDependencies"
  const AlwaysEligibleKey: string := "alwaysEligible"

  const DefaultArguments: string := "{FILE_ACTIVE}"
  const DefaultCommand: string := "asciidoctor"

  const Config: seq<Setting> := [
    Setting(ArgumentsKey, StringValue(DefaultArguments)),
    Setting(CommandKey, StringValue(DefaultCommand)),
    Setting(ManageDependenciesKey, BooleanValue(true)),
    Setting(AlwaysEligibleKey, BooleanValue(false))
  ]

  /** The keys of the declared settings: the schema declares these four
      and no others. */
  function DeclaredKeys(): (keys: set<string>)
    ensures keys == {"asciidoctorArguments", "asciidoctorCommand", "manageDependencies", "alwaysEligible"}
  {
    var keys := set k | 0 <= k < |Config| :: Config[k].key;
    assert Config[0].key in keys && Config[1].key in keys && Config[2].key in keys && Config[3].key in keys;
    keys
  }

  /** The prefix the provider's constructor puts before a setting key when it
      subscribes to changes. */
  const PackagePrefix: string := "build-asciidoc."

  /** The two keys whose changes make the provider emit `refresh`. */
  function ObservedKeys(): (keys: seq<string>)
    ensures |keys| == 2
    ensures forall k :: 0 <= k < |keys| ==>
      |PackagePrefix| <= |keys[k]| && keys[k][..|PackagePrefix|] == PackagePrefix && keys[k][|PackagePrefix|..] in DeclaredKeys()
    ensures forall k :: 0 <= k < |keys| ==>
      |PackagePrefix| <= |keys[k]| && (keys[k][|PackagePrefix|..] == ArgumentsKey || keys[k][|PackagePrefix|..] == CommandKey)
    ensures keys[0][|PackagePrefix|..] == ArgumentsKey && keys[1][|PackagePrefix|..] == CommandKey
  {
    var keys := [PackagePrefix + ArgumentsKey, PackagePrefix + CommandKey];
    assert Config[0].key == ArgumentsKey && Config[1].key == CommandKey;
    assert keys[0][|PackagePrefix|..] == ArgumentsKey;
    assert keys[1][|PackagePrefix|..] == CommandKey;
    keys
  }

  /** The display name of the provider: non-empty, and the namespace of the
      command the build is bound to. */
  function NiceName(): (name: string)
    ensures name != ""
    ensures BuildCommandName == name + ":render"
  {
    "Asciidoc"
  }

  // ---------------------------------------------------------------------
  // Eligibility
  // ---------------------------------------------------------------------

  /** The active text editor as far as the provider looks at it: the path
      of its document, absent for an unsaved buffer. */
  datatype TextEditor = TextEditor(path: Option<string>)

  /** The file name endings the provider accepts, compared case-sensitively. */
  const Extensions: seq<string> := [".ad", ".adoc", ".asc"]

  /** `path` is some stem followed by one of the accepted endings. */
  ghost predicate HasAsciidocExtension(path: string) {
    exists stem, k :: 0 <= k < |Extensions| && path == stem + Extensions[k]
  }

  /** isEligible: false without an active editor or without a (non-empty)
      path; otherwise whether the path ends in `.ad`, `.adoc` or `.asc`.
      The `alwaysEligible` setting is declared but this check never reads it. */
  function IsEligible(activeEditor: Option<TextEditor>): (eligible: bool)
    ensures activeEditor.None? ==> !eligible
    ensures activeEditor.Some? && activeEditor.value.path.None? ==> !eligible
    ensures activeEditor == Some(TextEditor(Some(""))) ==> !eligible
  {
    // `!textEditor.getPath()` also holds of the empty path
    if activeEditor.None? || activeEditor.value.path.None? || activeEditor.value.path.value == "" then
      false
    else
      var path := activeEditor.value.path.value;
      EndsWith(path, ".ad") || EndsWith(path, ".adoc") || EndsWith(path, ".asc")
  }

  /** The provider is eligible exactly when there is an active editor whose
      path is a stem followed by one of the accepted endings. */
  lemma EligibleIff(activeEditor: Option<TextEditor>)
    ensures IsEligible(activeEditor) <==>
      activeEditor.Some? && activeEditor.value.path.Some? && HasAsciidocExtension(activeEditor.value.path.value)
  {
    if activeEditor.Some? && activeEditor.value.path.Some? {
      var path := activeEditor.value.path.value;
      if HasAsciidocExtension(path) {
        var stem, k :| 0 <= k < |Extensions| && path == stem + Extensions[k];
        ExtensionEndsPath(stem, k);
      }
      if IsEligible(activeEditor) {
        EndingGivesExtension(path);
      }
    }
  }

  lemma ExtensionEndsPath(stem: string, k: nat)
    requires k < |Extensions|
    ensures var path := stem + Extensions[k];
      path != "" && (EndsWith(path, ".ad") || EndsWith(path, ".adoc") || EndsWith(path, ".asc"))
  {
    var path := stem + Extensions[k];
    assert path[|path| - |Extensions[k]|..] == Extensions[k];
  }

  lemma EndingGivesExtension(path: string)
    requires EndsWith(path, ".ad") || EndsWith(path, ".adoc") || EndsWith(path, ".asc")
    ensures HasAsciidocExtension(path)
  {
    if EndsWith(path, ".ad") {
      WitnessExtension(path, 0);
    } else if EndsWith(path, ".adoc") {
      WitnessExtension(path, 1);
    } else {
      WitnessExtension(path, 2);
    }
  }

  lemma WitnessExtension(path: string, k: nat)
    requires k < |Extensions| && EndsWith(path, Extensions[k])
    ensures HasAsciidocExtension(path)
  {
    var stem := path[..|path| - |Extensions[k]|];
    assert path == stem + Extensions[k];
  }

  /** Near misses are not eligible: another extension, an accepted one with
      something after it, or an accepted one in another case. */
  lemma OtherEndingsNotEligible(stem: string)
    ensures !IsEligible(Some(TextEditor(Some(stem + ".txt"))))
    ensures !IsEligible(Some(TextEditor(Some(stem + ".adocx"))))
    ensures !IsEligible(Some(TextEditor(Some(stem + ".ADOC"))))
  {
    LastCharNotEligible(stem + ".txt");
    LastCharNotEligible(stem + ".adocx");
    LastCharNotEligible(stem + ".ADOC");
  }

  /** Every accepted ending finishes in `d` or `c`, so no path finishing in
      anything else is eligible. */
  lemma LastCharNotEligible(path: string)
    requires path != "" && path[|path| - 1] != 'd' && path[|path| - 1] != 'c'
    ensures !IsEligible(Some(TextEditor(Some(path))))
  {
  }

  // ---------------------------------------------------------------------
  // Descriptor resolution
  // ---------------------------------------------------------------------

  /** The build descriptor handed to the build host. `exec` and `args` are
      token lists; error matchers are regular-expression sources. */
  datatype Descriptor = Descriptor(
    name: string,
    exec: seq<string>,
    args: seq<string>,
    cwd: string,
    sh: bool,
    atomCommandName: string,
    errorMatch: seq<string>)

  /** `value.trim().split(' ')`: the space-separated tokens of the trimmed
      setting. Consecutive spaces give empty tokens. */
  function TrimSplit(value: string): (tokens: seq<string>)
    ensures 1 <= |tokens|
    ensures forall t :: t in tokens ==> ' ' !in t
    ensures var spaces := multiset(Trim(value))[' '];
      |tokens| == if spaces < SplitLimit then spaces + 1 else SplitLimit
  {
    StringSplit(Trim(value), ' ')
  }

  /** Below the split cap, the tokens joined by single spaces are the
      trimmed setting. */
  lemma TrimSplitJoinsBack(value: string)
    ensures multiset(Trim(value))[' '] < SplitLimit ==> Join(TrimSplit(value), ' ') == Trim(value)
  {
    JoinSplit(Trim(value), ' ');
  }

  /** An empty or blank setting, and only such a setting, gives the single
      empty token. */
  lemma TrimSplitBlank(value: string)
    ensures TrimSplit(value) == [""] <==> AllTrimmable(value)
  {
    TrimEmpty(value);
    if Trim(value) != "" {
      TrimSplitEnds(value);
    }
  }

  /** Trimming leaves no space at either end of a non-blank setting, so its
      first token is non-empty, and so is its last one below the split cap. */
  lemma TrimSplitEnds(value: string)
    requires Trim(value) != ""
    ensures TrimSplit(value)[0] != ""
    ensures multiset(Trim(value))[' '] < SplitLimit ==> TrimSplit(value)[|TrimSplit(value)| - 1] != ""
  {
    var trimmed := Trim(value);
    assert IsTrimmable(' ');
    assert trimmed[0] != ' ' && trimmed[|trimmed| - 1] != ' ';
    StringSplitEnds(trimmed, ' ');
  }

  /** Tokens without spaces, joined by single spaces into a string with no
      blank at either end, come back unchanged: placeholders such as
      `{FILE_ACTIVE}` pass through as they are. */
  lemma {:induction false} TrimSplitJoin(tokens: seq<string>)
    requires 1 <= |tokens| <= SplitLimit
    requires forall k :: 0 <= k < |tokens| ==> ' ' !in tokens[k]
    requires TrimmedEnds(Join(tokens, ' '))
    ensures TrimSplit(Join(tokens, ' ')) == tokens
  {
    var s := Join(tokens, ' ');
    assert s[0..0 + |s|] == s;
    assert PaddedAt(s, s, 0);
    TrimUnique(s, s);
    SplitJoin(tokens, ' ');
    SplitCount(s, ' ');
  }

  const BuildName: string := "Asciidoctor"
  const BuildCwd: string := "{FILE_ACTIVE_PATH}"
  const BuildCommandName: string := "Asciidoc:render"

  /** settings: exactly one descriptor, whatever the two setting values are.
      `argumentsValue` and `commandValue` are the argument template and the
      renderer command. `exec` is the split command and `args` the split
      arguments, the two values the method computes before building its
      result. The error matcher is commented out in the package, so
      `errorMatch` is empty. */
  function Settings(argumentsValue: string, commandValue: string): (builds: seq<Descriptor>)
    ensures |builds| == 1
    ensures builds[0].name == BuildName && builds[0].cwd == BuildCwd && !builds[0].sh
    ensures builds[0].atomCommandName == BuildCommandName && builds[0].errorMatch == []
    ensures multiset(Trim(argumentsValue))[' '] < SplitLimit ==> Join(builds[0].args, ' ') == Trim(argumentsValue)
    ensures multiset(Trim(commandValue))[' '] < SplitLimit ==> Join(builds[0].exec, ' ') == Trim(commandValue)
    ensures builds[0].args != [] && builds[0].exec != []
    ensures forall t :: t in builds[0].args ==> ' ' !in t
    ensures forall t :: t in builds[0].exec ==> ' ' !in t
  {
    var args := TrimSplit(argumentsValue);
    var exec := TrimSplit(commandValue);
    TrimSplitJoinsBack(argumentsValue);
    TrimSplitJoinsBack(commandValue);
    [Descriptor(BuildName, exec, args, BuildCwd, false, BuildCommandName, [])]
  }

  /** Settings built from words joined by single spaces carry exactly those
      words as `args` and `exec`. */
  lemma {:induction false} SettingsOfWords(argTokens: seq<string>, cmdTokens: seq<string>)
    requires 1 <= |argTokens| <= SplitLimit && 1 <= |cmdTokens| <= SplitLimit
    requires forall k :: 0 <= k < |argTokens| ==> ' ' !in argTokens[k]
    requires forall k :: 0 <= k < |cmdTokens| ==> ' ' !in cmdTokens[k]
    requires TrimmedEnds(Join(argTokens, ' ')) && TrimmedEnds(Join(cmdTokens, ' '))
    ensures var d := Settings(Join(argTokens, ' '), Join(cmdTokens, ' '))[0];
      d.args == argTokens && d.exec == cmdTokens
  {
    TrimSplitJoin(argTokens);
    TrimSplitJoin(cmdTokens);
  }

  /** With the declared defaults the renderer `asciidoctor` is run on the
      active file. */
  lemma DefaultSettings()
    ensures Settings(DefaultArguments, DefaultCommand) ==
      [Descriptor(BuildName, ["asciidoctor"], ["{FILE_ACTIVE}"], BuildCwd, false, BuildCommandName, [])]
  {
    assert Join([DefaultArguments], ' ') == DefaultArguments;
    assert Join([DefaultCommand], ' ') == DefaultCommand;
    SettingsOfWords([DefaultArguments], [DefaultCommand]);
  }

  /** Blank settings give one empty token each. */
  lemma BlankSettings(argumentsValue: string, commandValue: string)
    requires AllTrimmable(argumentsValue) && AllTrimmable(commandValue)
    ensures Settings(argumentsValue, commandValue)[0].args == [""]
    ensures Settings(argumentsValue, commandValue)[0].exec == [""]
  {
    TrimSplitBlank(argumentsValue);
    TrimSplitBlank(commandValue);
  }

  /** A command with options and a multi-word argument template are split
      into their words. */
  lemma MultiWordSettings()
    ensures Settings("-o out {FILE_ACTIVE}", "docker run x")[0].args == ["-o", "out", "{FILE_ACTIVE}"]
    ensures Settings("-o out {FILE_ACTIVE}", "docker run x")[0].exec == ["docker", "run", "x"]
  {
    MultiWordArguments();
    MultiWordCommand();
    SettingsTokens("-o out {FILE_ACTIVE}", "docker run x");
  }

  // The lemmas below up to `SettingsTokens` are proof steps of
  // `MultiWordSettings`: each keeps the literal strings of one step apart, so
  // that the verifier does not unfold the string functions on all of them at
  // once. They state no property of their own.

  /** The argument template of `MultiWordSettings` in tokens. */
  lemma MultiWordArguments()
    ensures TrimSplit("-o out {FILE_ACTIVE}") == ["-o", "out", "{FILE_ACTIVE}"]
  {
    MultiWordStrings();
    ThreeWords("-o", "out", "{FILE_ACTIVE}");
  }

  /** The command of `MultiWordSettings` in tokens. */
  lemma MultiWordCommand()
    ensures TrimSplit("docker run x") == ["docker", "run", "x"]
  {
    MultiWordStrings();
    ThreeWords("docker", "run", "x");
  }

  /** The two literals as words joined by spaces. */
  lemma MultiWordStrings()
    ensures "-o out {FILE_ACTIVE}" == "-o" + " " + "out" + " " + "{FILE_ACTIVE}"
    ensures "docker run x" == "docker" + " " + "run" + " " + "x"
  {
  }

  /** The descriptor's token lists are the two tokenised settings. */
  lemma SettingsTokens(argumentsValue: string, commandValue: string)
    ensures Settings(argumentsValue, commandValue)[0].args == TrimSplit(argumentsValue)
    ensures Settings(argumentsValue, commandValue)[0].exec == TrimSplit(commandValue)
  {
  }

  /** Three space-free words joined by single spaces, with no blank at the
      outer ends, split back into those three words. */
  lemma ThreeWords(a: string, b: string, c: string)
    requires ' ' !in a && ' ' !in b && ' ' !in c
    requires a != "" && !IsTrimmable(a[0]) && c != "" && !IsTrimmable(c[|c| - 1])
    ensures TrimSplit(a + " " + b + " " + c) == [a, b, c]
  {
    var words := [a, b, c];
    assert Join(words[2..], ' ') == c;
    assert Join(words[1..], ' ') == b + " " + c;
    var s := Join(words, ' ');
    assert s == a + " " + b + " " + c;
    assert s[0] == a[0] && s[|s| - 1] == c[|c| - 1];
    TrimSplitJoin(words);
  }

  // ---------------------------------------------------------------------
  // settings as the package writes it
  // ---------------------------------------------------------------------

  /** How evaluating `settings` can stop. */
  datatype JsError =
    | TypeError(message: string)        // `.trim()` called on `undefined`
    | ReferenceError(identifier: string) // an identifier bound nowhere

  /** settings exactly as written, over the configuration store's string
      values by full key (`store`) and the package's name. It reads two keys
      the schema does not declare, and then builds its result from
      identifiers no scope binds, so it always throws. */
  function SettingsAsWritten(store: map<string, string>, packageName: string): (r: Result<seq<Descriptor>, JsError>)
    ensures r.Failure?
    ensures packageName + ".customAsciidoctorArguments" in store && packageName + ".customAsciidocCommand" in store
      ==> r == Failure(ReferenceError("customAsciidoctorCommand"))
    ensures packageName + ".customAsciidoctorArguments" !in store || packageName + ".customAsciidocCommand" !in store
      ==> r.error.TypeError?
  {
    var argumentsKey := packageName + ".customAsciidoctorArguments";
    var commandKey := packageName + ".customAsciidocCommand";
    if argumentsKey !in store then
      Failure(TypeError("trim called on undefined"))
    else if commandKey !in store then
      Failure(TypeError("trim called on undefined"))
    else
      // `exec: customAsciidoctorCommand` is the first unbound name evaluated
      Failure(ReferenceError("customAsciidoctorCommand"))
  }

  /** The keys `settings` reads are not declared settings, so an unmodified
      store yields `undefined` for them. */
  lemma SettingsReadsUndeclaredKeys()
    ensures "customAsciidoctorArguments" !in DeclaredKeys()
    ensures "customAsciidocCommand" !in DeclaredKeys()
  {
    assert "customAsciidoctorArguments" != ArgumentsKey;
    assert "customAsciidocCommand" != CommandKey;
  }

  /** Even a store that holds every string the provider could read gives an
      error as written, where the corrected `Settings` gives its descriptor. */
  lemma SettingsAsWrittenFails(argumentsValue: string, commandValue: string)
    ensures var store := map[
        PackagePrefix + ArgumentsKey := argumentsValue,
        PackagePrefix + CommandKey := commandValue,
        PackagePrefix + "customAsciidoctorArguments" := argumentsValue,
        PackagePrefix + "customAsciidocCommand" := commandValue];
      SettingsAsWritten(store, "build-asciidoc").Failure? && |Settings(argumentsValue, commandValue)| == 1
  {
    assert PackagePrefix == "build-asciidoc" + ".";
  }
}
