# build-asciidoc provider, modelled in Dafny

`build-asciidoc` is an Atom package that plugs the `asciidoctor` renderer into
the `atom-build` build host. The package has two pieces of decision logic, and
this project models and proves both:

* `isEligible` decides whether the document in the active editor is an AsciiDoc
  file. It looks for the endings `.ad`, `.adoc` or `.asc`, compared
  case-sensitively.
* `settings` builds the single build descriptor the host runs. It has a fixed
  name, working directory, shell flag and command name. It also has the command
  and argument tokens, which come from `trim().split(' ')` on two settings.

The host's globals become parameters:

* the active editor is an `Option<TextEditor>` with an optional path;
* the two configuration strings are arguments of `Settings`.

The JavaScript string operations the provider uses are modelled in module
`JsStrings` as ECMA-262 (6th edition) defines them:

* `trim` is section 21.1.3.25. It removes WhiteSpace (section 11.2) and
  LineTerminator (section 11.3) characters.
* `split` is section 21.1.3.17, with a one-character separator and an
  undefined limit. That limit means at most 2^32 - 1 pieces.
* `endsWith` is section 21.1.3.6.

`Join`, the inverse of `Split`, is the reference that the round-trip proofs
use.

Files:

* `wrappers.dfy` holds `Option` and `Result`.
* `js_strings.dfy` holds the string operations.
* `asciidoc.dfy` holds the provider: the declared settings, eligibility,
  descriptor resolution, and `settings` as the package actually writes it.

Four facts about the code shape the model:

* **Setting keys.** The constructor observes the keys `asciidoctorArguments`
  and `asciidoctorCommand` (lines 75-76), the two string settings of the
  schema.
* **`alwaysEligible`.** The setting is declared but `isEligible` never reads
  it. So there is no "always eligible" bypass.
* **`exec`.** It is the command string after trim-and-split, as line 100
  computes it.
* **Blank settings.** An empty or blank setting yields the single empty token
  `[""]`, as `split` does on an empty string.

`settings` as written cannot run (see "## Findings"). `Settings` therefore
models the evident intent, and the source comments in `asciidoc.dfy` record
each choice:

* the two setting values are passed in as parameters;
* `exec` and `args` are the values computed at lines 100 and 99;
* `errorMatch` is empty, because its definition is commented out.

## Model

| member | source | states |
|---|---|---|
| `JsStrings.Trim` | lib/asciidoc.js:99-100 | the trimmed string is the input minus WhiteSpace/LineTerminator padding on both sides, and neither of its ends is such a character |
| `JsStrings.TrimUnique` | lib/asciidoc.js:99-100 | any split of the input into blank padding around a middle with non-blank ends gives that middle as the trim result, so `trim` removes exactly the padding |
| `JsStrings.TrimIdempotent` | lib/asciidoc.js:99-100 | trimming a trimmed setting changes nothing |
| `JsStrings.TrimEmpty` | lib/asciidoc.js:99-100 | trim gives `""` exactly when every character of the input is WhiteSpace or a LineTerminator |
| `JsStrings.EndsWithConcat` | lib/asciidoc.js:90 | `endsWith(suffix)` holds exactly when the string is some stem followed by `suffix` |
| `JsStrings.Split` | lib/asciidoc.js:99-100 | splitting yields at least one piece, and no piece contains the separator |
| `JsStrings.JoinSplit` | lib/asciidoc.js:99-100 | joining the pieces with the separator gives back the split string |
| `JsStrings.SplitJoin` | lib/asciidoc.js:99-100 | splitting a join of one or more separator-free tokens gives back those tokens |
| `JsStrings.SplitCount` | lib/asciidoc.js:99-100 | there is one more piece than there are separators in the string |
| `JsStrings.SplitFirst` | lib/asciidoc.js:99-100 | the first piece is non-empty when the string is non-empty and does not start with the separator |
| `JsStrings.SplitLast` | lib/asciidoc.js:99-100 | the last piece is non-empty when the string is non-empty and does not end with the separator |
| `JsStrings.StringSplit` | lib/asciidoc.js:99-100 | `split` with no limit gives between 1 and 2^32 - 1 pieces, none holding the separator; there are separators + 1 of them up to that cap; they are always a prefix of the unbounded split, and below the cap they are all of it |
| `JsStrings.StringSplitEnds` | lib/asciidoc.js:99-100 | for a non-empty string that neither starts nor ends with the separator, the first piece is non-empty, and below the cap so is the last |
| `Asciidoc.DeclaredKeys` | lib/asciidoc.js:8-37 | the declared keys are exactly `asciidoctorArguments`, `asciidoctorCommand`, `manageDependencies` and `alwaysEligible` |
| `Asciidoc.ObservedKeys` | lib/asciidoc.js:75-76 | the constructor watches two keys, each being `build-asciidoc.` followed by a declared key: the first is the argument key and the second the command key |
| `Asciidoc.NiceName` | lib/asciidoc.js:79-81 | the display name is non-empty and is the namespace of the command name `Asciidoc:render` |
| `Asciidoc.IsEligible` | lib/asciidoc.js:84-91 | not eligible with no active editor, with an editor without a path, or with an empty path |
| `Asciidoc.EligibleIff` | lib/asciidoc.js:84-91 | eligible exactly when there is an active editor whose path is some stem followed by `.ad`, `.adoc` or `.asc` |
| `Asciidoc.OtherEndingsNotEligible` | lib/asciidoc.js:89-90 | for every stem, paths ending in `.txt`, `.adocx` or `.ADOC` are not eligible |
| `Asciidoc.LastCharNotEligible` | lib/asciidoc.js:89-90 | a path whose last character is neither `d` nor `c` is not eligible |
| `Asciidoc.TrimSplit` | lib/asciidoc.js:99-100 | the tokens of a setting: at least one, none containing a space, and one more than the spaces of the trimmed value, up to the split cap |
| `Asciidoc.TrimSplitJoinsBack` | lib/asciidoc.js:99-100 | below the split cap the tokens joined with `" "` are the trimmed value |
| `Asciidoc.TrimSplitBlank` | lib/asciidoc.js:99-100 | the tokens are `[""]` exactly when the value is empty or consists only of WhiteSpace and LineTerminator characters |
| `Asciidoc.TrimSplitEnds` | lib/asciidoc.js:99-100 | a value that is not blank has a non-empty first token, and below the split cap a non-empty last token |
| `Asciidoc.TrimSplitJoin` | lib/asciidoc.js:99-100 | space-free tokens joined by single spaces, with no blank at either end, come back unchanged, so placeholders such as `{FILE_ACTIVE}` pass through |
| `Asciidoc.Settings` | lib/asciidoc.js:93-113 | for every pair of setting values there is exactly one descriptor: `name` "Asciidoctor", `cwd` "{FILE_ACTIVE_PATH}", `sh` false, `atomCommandName` "Asciidoc:render", `errorMatch` empty; `args` and `exec` are non-empty token lists without spaces; below the split cap they join back to the trimmed arguments and the trimmed command |
| `Asciidoc.SettingsOfWords` | lib/asciidoc.js:99-106 | settings made of words joined by single spaces give exactly those words as `args` and `exec` |
| `Asciidoc.DefaultSettings` | lib/asciidoc.js:99-112 | the declared defaults `{FILE_ACTIVE}` and `asciidoctor` (lines 13 and 20) give `args = ["{FILE_ACTIVE}"]` and `exec = ["asciidoctor"]` in the one descriptor |
| `Asciidoc.BlankSettings` | lib/asciidoc.js:99-100 | blank settings give the single empty token for both `args` and `exec` |
| `Asciidoc.MultiWordSettings` | lib/asciidoc.js:99-106 | `"-o out {FILE_ACTIVE}"` and `"docker run x"` give `args = ["-o", "out", "{FILE_ACTIVE}"]` and `exec = ["docker", "run", "x"]` |
| `Asciidoc.SettingsAsWritten` | lib/asciidoc.js:98-112 | `settings` as written always fails: a TypeError when a `custom…` key is unset, otherwise a ReferenceError on `customAsciidoctorCommand` |
| `Asciidoc.SettingsReadsUndeclaredKeys` | lib/asciidoc.js:99-100 | the two keys `settings` reads are not among the declared keys |
| `Asciidoc.SettingsAsWrittenFails` | lib/asciidoc.js:99-110 | even a store holding every key either version reads makes the written `settings` fail, while `Settings` gives its one descriptor |

## Left out

- `activate` and `satisfyDependencies` (lines 40-69) are left out. They only start the dependency installer, enable packages and log.
- The constructor's `atom.config.observe` subscriptions and its `refresh` events (lines 72-77) are left out. They are event plumbing on the host's configuration store. Only the two watched keys are modelled, in `ObservedKeys`, and the stored `cwd` is not modelled.
- The `atom.workspace` and `atom.config` globals and `meta.name` are left out. They are replaced by parameters.
- `getPath()` is called twice in `isEligible`. The model reads it once and treats it as deterministic.
- The error-match regular expression (lines 94-96) is left out. It is commented out, and matching renderer output is the host's job.
- Placeholder substitution (`{FILE_ACTIVE}`, `{FILE_ACTIVE_PATH}`) is left out. The host does it, and the provider passes placeholders through as opaque text.
- The schema's `title`, `description` and `order` fields are left out. The only part of the schema with any effect is its defaults.
- Setting values that are not strings are not modelled. A number, for example, makes `.trim` a TypeError. `SettingsAsWritten` only distinguishes a set string from an unset key.
- Strings are sequences of Unicode scalar values, whereas JavaScript uses UTF-16 code units. Every character that `trim`, `split(' ')` and the endings compare against is in the Basic Multilingual Plane, so the results agree for every well-formed UTF-16 string. A JavaScript string holding a lone surrogate has no counterpart here.
- WhiteSpace takes the current Unicode Zs category. That category no longer includes U+180E, which some older Unicode versions placed in it.

## Findings

| source | as written | input that shows it | evidently intended | confidence | as-written member | corrected member |
|---|---|---|---|---|---|---|
| lib/asciidoc.js:99-110 | `settings` reads the undeclared keys `customAsciidoctorArguments` and `customAsciidocCommand`. It then builds its result from `customAsciidoctorCommand`, `asciidoctorArguments` and `errorMatch`, names that no scope binds. | Any configuration, the declared defaults included. An unset `custom…` key gives a TypeError at line 99 or 100; otherwise line 105 gives a ReferenceError. | `exec` and `args` are the trimmed-and-split values of the declared command and argument settings, and there are no error matchers. | high, not executed | `Asciidoc.SettingsAsWritten` | `Asciidoc.Settings` |
