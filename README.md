# fastlane msi action: a verified model of its command assembly

The `msi` fastlane action builds a Windows Installer package with msitools. `run` takes several
steps:

- It aborts unless `which wixl` prints something.
- It walks the `fragments` hash in order. For each entry it checks the fragment's path: the path
  must be neither nil nor empty, and its glob must match something. It then hands one shell line,
  `find <path> | wixl-heat [flags] > <fragment>.wxs`, to `sh`.
- Finally it hands `wixl <wxs_path> [fragment files] [-D k=v ...] [--output o] [--arch a] -v`
  to `sh`.

`is_supported?` accepts the `:windows` platform only.

The model follows Ruby's truthiness. An option adds its flag whenever it is neither nil nor
false, so an empty string still adds the flag, followed by nothing. An empty `defines` hash is
truthy too: it contributes an empty element to the join, which shows up as a doubled space. A
nil and an empty `fragments` hash both leave the fragment files out of the wixl line.

Files:

- `wrappers.dfy`: `Option`, where None stands for nil.
- `text.dfy`: Ruby's `join(' ')` as `Join`, with its prefix, suffix and concatenation lemmas.
- `msi_action.dfy`:
  - the data model: fragment options, parameters, the host facts `Env`, errors and the run's
    outcome;
  - the two command builders, as methods that grow the parts array step by step, each proved
    equal to a specification function;
  - a parser that reads the heat parts back, as the partner of the heat builder;
  - the fragment loop as a function, with lemmas for acceptance and rejection;
  - `Run`, a method with a loop, proved equal to `RunSpec`, and lemmas saying what a run hands
    to `sh`.

The action's `return_value` declaration and its code disagree, and the model follows the
code. The declaration says the action returns the path of the created .msi. `run` actually
returns whatever its last `sh` returns. The model records the shell lines, not that value.

## Model

| member | source | states |
|---|---|---|
| MsiAction.IsSupported | lib/fastlane/plugin/msi/actions/msi_action.rb:97-99 | The action is supported on a platform if and only if the platform is `windows`. |
| MsiAction.MessageIdentifiesError | lib/fastlane/plugin/msi/actions/msi_action.rb:8-16 | The three abort messages (wixl missing, no path for fragment f, nothing found at p) never coincide. The message text determines the error and the fragment or path it names. |
| MsiAction.FragmentFileInjective | lib/fastlane/plugin/msi/actions/msi_action.rb:18 | The generated file `<name>.wxs` determines the fragment's interpolated name, so fragments with distinct names never share a file. |
| MsiAction.AppendFlag | lib/fastlane/plugin/msi/actions/msi_action.rb:21-25 | One conditional `<<`: the builder gains `<flag> <value>` when the option is truthy and is otherwise unchanged. |
| MsiAction.HeatFlagsSpelledOut | lib/fastlane/plugin/msi/actions/msi_action.rb:21-26 | The heat flags are `--prefix`, `--directory-ref`, `--exclude`, `--var`, `--component-group` and `--win64`, in that order. Each one is present exactly when its option is truthy. |
| MsiAction.BuildHeatCommand | lib/fastlane/plugin/msi/actions/msi_action.rb:20-29 | Growing the builder array by conditional appends and joining it with spaces gives exactly `HeatCommand`. `HeatCommand` is the pipe head, the flags in their fixed order, then the redirect into the fragment file. |
| MsiAction.HeatCommandText | lib/fastlane/plugin/msi/actions/msi_action.rb:20-29 | Every heat line starts with `find <path>` piped into `wixl-heat`, and ends with ` > <fragment file>`. |
| MsiAction.HeatFlagsRoundTrip | lib/fastlane/plugin/msi/actions/msi_action.rb:21-26 | Parsing the flag parts back recovers every option exactly: which options were truthy, their texts and `win64`. Nothing is left over. |
| MsiAction.HeatRoundTrip | lib/fastlane/plugin/msi/actions/msi_action.rb:20-27 | Parsing the heat `command_builder` array back recovers the path, every option and the fragment file it was built from. The array loses no information. The joined line can lose information (see `JoinedHeatLineAmbiguous`). |
| MsiAction.JoinedHeatLineAmbiguous | lib/fastlane/plugin/msi/actions/msi_action.rb:20-29 | Joining with spaces is not injective. A prefix `a --exclude b` and a prefix `a` with a separate exclude `b` are different option records that give the same shell line, for every path, file, `a` and `b`. |
| MsiAction.PlainHeatCommand | lib/fastlane/plugin/msi/actions/msi_action.rb:20-29 | With only a path given, the heat line is exactly the find-pipe head followed by ` > <file>`, with no flag between them. |
| MsiAction.EmptyPrefixStillEmitted | lib/fastlane/plugin/msi/actions/msi_action.rb:21 | An empty-string prefix is truthy. It still emits `--prefix` followed by nothing, which gives `--prefix` followed by two spaces before `> <file>`. |
| MsiAction.GenerateStopsAtFailure | lib/fastlane/plugin/msi/actions/msi_action.rb:12-33 | Once the fragment loop `Generate` has stopped on an error, the remaining fragments change nothing: no heat line, no file and no other error. |
| MsiAction.GenerateAccepted | lib/fastlane/plugin/msi/actions/msi_action.rb:12-33 | When every fragment passes `CheckFragment`, the loop `Generate` issues one heat line per fragment, in hash order, each redirecting into `<name>.wxs`. It collects those names in the same order. |
| MsiAction.GenerateRejected | lib/fastlane/plugin/msi/actions/msi_action.rb:14-16 | When fragment k is the first to fail `CheckFragment` (path nil or empty, or glob empty), the loop `Generate` stops with exactly that error. It has issued the heat lines of fragments 0..k-1 only. |
| Text.JoinBounds | lib/fastlane/plugin/msi/actions/msi_action.rb:29 | `join(' ')` of a non-empty array starts with its first element and ends with its last. |
| Text.JoinConcat | lib/fastlane/plugin/msi/actions/msi_action.rb:29 | Joining two non-empty arrays back to back equals joining each and putting one space between them. |
| Text.JoinTail | lib/fastlane/plugin/msi/actions/msi_action.rb:48 | The last m parts of an array with more than m parts, joined, are a suffix of the joined array, after one space. |
| MsiAction.DefineArgsAppend | lib/fastlane/plugin/msi/actions/msi_action.rb:43 | Defines render in hash order: one more define `k => v` appends ` -D k=v` at the end. |
| MsiAction.EmptyDefinesLeaveBlankPart | lib/fastlane/plugin/msi/actions/msi_action.rb:43 | An empty `defines` hash is truthy. It contributes an empty part, so the line is `wixl <wxs>  -v` with a doubled space. |
| MsiAction.WixlPartsLayout | lib/fastlane/plugin/msi/actions/msi_action.rb:41-46 | The wixl parts are `wixl <wxs_path>`, then the joined fragment files, the joined defines, `--output` and `--arch`, each present iff given, then `-v`. The part count and each part's position are stated. |
| MsiAction.BuildWixlCommand | lib/fastlane/plugin/msi/actions/msi_action.rb:41-48 | Growing the builder array by conditional appends and joining it with spaces gives exactly `WixlCommand`. |
| MsiAction.WixlCommandStart | lib/fastlane/plugin/msi/actions/msi_action.rb:41-42 | The wixl line starts with `wixl <wxs_path>`. When there are fragment files, they come right after it, joined by spaces. |
| MsiAction.WixlCommandEnd | lib/fastlane/plugin/msi/actions/msi_action.rb:44-46 | The wixl line ends with ` -v`. Right before it come whichever of `--output <o>` and `--arch <a>` are given, in that order, whether both or only one of them is given. |
| MsiAction.Run | lib/fastlane/plugin/msi/actions/msi_action.rb:7-49 | The action checks for wixl, loops over the fragments with early abort, then builds the wixl line. The method's result equals `RunSpec`, the shell lines it hands to `sh` and the error that stops it. |
| MsiAction.RunWithoutWixl | lib/fastlane/plugin/msi/actions/msi_action.rb:8 | Without wixl, the action aborts with the wixl-missing error before handing any line to `sh`. |
| MsiAction.RunCompletes | lib/fastlane/plugin/msi/actions/msi_action.rb:10-48 | With wixl present and every fragment accepted, the run completes. It issues one heat line per fragment in hash order, then one wixl line. That wixl line lists exactly the fragments' `<name>.wxs` files, or no file part when the hash is nil or empty. |
| MsiAction.RunHeatTargets | lib/fastlane/plugin/msi/actions/msi_action.rb:18-32 | In a completed run, the heat line of fragment j redirects into `<name>.wxs`. That is the same name the fragment contributes to the wixl line. |
| MsiAction.RunRejects | lib/fastlane/plugin/msi/actions/msi_action.rb:12-16 | With wixl present and fragment k the first rejected, the run aborts with that fragment's error. It has handed `sh` only the heat lines of fragments 0..k-1: none for k or later, and no wixl line. |

## Left out

- Process execution and host probing are not modelled as I/O. The output of the backtick `which wixl` and the results of `Dir.glob` become inputs, `Env.whichWixl` and `Env.glob`. Each `sh` call becomes an entry in the list of lines handed to `sh`.
- The backtick `find *`, `Dir.pwd` and `File.exist?` only feed the log messages at lines 37-39 of msi_action.rb, and they are dropped with them. The `find *` process is not recorded.
- `Env.glob` is one snapshot of the filesystem. A file created by an earlier fragment's heat line is not visible to a later fragment's glob.
- fastlane's `sh` aborting the action on a non-zero exit status is not modelled. The code that does it is not part of this model, so every line counts as succeeding.
- The value `run` returns, the result of the last `sh`, is not modelled.
- Logging through `UI.message` and `UI.success` is left out. It prints progress and debugging text only.
- The shell meaning of the produced lines is left out: pipes, redirection, quoting and word splitting. Values are interpolated verbatim and treated as opaque text.
- Option values that are not strings (numbers, symbols) are modelled by their interpolated text, except `:path`. A `win64` value is modelled by its truthiness.
- A `:path` that is not a String is not modelled faithfully. In Ruby, `false` or an Integer raises `NoMethodError` on `empty?`, and a Symbol raises `TypeError` in `Dir.glob`. None of these reaches interpolation. The model treats `false` like nil, as rejected, and treats any other value as its text: it globs that text and may emit a heat line.
- Fragment keys are modelled by their interpolated text, so keys such as `:a` and `"a"`, which are distinct in the Ruby hash, collapse to one name and one `a.wxs`. In Ruby the second heat line then overwrites the first one's file, and the wixl line lists `a.wxs a.wxs`. The model computes the same lines, but `FragmentFileInjective` speaks only of distinct names.
- A fragment whose options are nil raises `NoMethodError` in Ruby. Every modelled fragment has an options record.
- Platforms are modelled as strings. `IsSupported` compares with `"windows"` where Ruby compares with the symbol `:windows`.
- The framework declarations `available_options`, `description`, `authors`, `details` and `return_value` are left out. They are metadata for a library that is not part of this model.
- lib/fastlane/plugin/msi/helper/msi_helper.rb is left out. It only aliases `UI` and prints a greeting.
- The joined heat line is ambiguous, like the wixl line: an option value containing spaces can look like further flags (`JoinedHeatLineAmbiguous`). The heat round trip is therefore stated on the parts array, not on the string handed to `sh`.
- The wixl line has no parse-back partner, even on its parts: a fragment named `--arch x` cannot be told apart from an `--arch` option. `WixlPartsLayout`, `WixlCommandStart` and `WixlCommandEnd` state its layout instead.
