/** The `msi` action: it checks that `wixl` is installed, turns each configured fragment
    into a `find <path> | wixl-heat ... > <fragment>.wxs` shell line, and finishes with one
    `wixl <wxs_path> ... -v` shell line. The shell lines are modelled as strings. The facts
    the action probes on the host (`which wixl`, `Dir.glob`) are an `Env` value. */
module MsiAction {
  import opened Wrappers
  import opened Text

  // ---------------------------------------------------------------------------------------
  // Data model
  // ---------------------------------------------------------------------------------------

  /** The options hash of one fragment. An option is None when Ruby sees nil or false there,
      and Some(text) otherwise, where text is what string interpolation gives (it may be "").
      `win64` is the truthiness of `options[:win64]`. */
  datatype FragmentOptions = FragmentOptions(
    path: Option<string>,
    prefix: Option<string>,
    directoryRef: Option<string>,
    exclude: Option<string>,
    variable: Option<string>,
    componentGroup: Option<string>,
    win64: bool)

  /** One entry `fragment => options` of the `fragments` hash; hash order is sequence order. */
  datatype Fragment = Fragment(name: string, options: FragmentOptions)

  /** One entry `k => v` of the `defines` hash, both sides as interpolated. */
  datatype Define = Define(key: string, value: string)

  /** The action's parameters; None is nil. `wxs_path` is a mandatory String option. */
  datatype Params = Params(
    wxsPath: string,
    output: Option<string>,
    fragments: Option<seq<Fragment>>,
    defines: Option<seq<Define>>,
    architecture: Option<string>)

  /** What the action learns from the host: the output of `which wixl`, and what
      `Dir.glob` returns for a pattern. */
  datatype Env = Env(whichWixl: string, glob: string -> seq<string>)

  /** The three `user_error!` aborts of the action. */
  datatype Error =
    | WixlMissing
    | NoPathSpecified(fragment: string)
    | NothingFound(path: string)

  /** The shell lines handed to `sh`, in order; Aborted also names the error that stopped
      the action after those lines. */
  datatype RunOutcome =
    | Completed(commands: seq<string>)
    | Aborted(commands: seq<string>, error: Error)

  /** The text of each abort. */
  function Message(e: Error): string {
    match e
    case WixlMissing => "Could not find wixl." + " Please make sure to install msitools before running msi"
    case NoPathSpecified(f) => "No path specified for fragment " + f
    case NothingFound(p) => "Nothing found at " + p
  }

  /** The first and third characters of each message, and where its variable part starts. */
  lemma MessageShape(e: Error)
    ensures |Message(e)| >= 3
    ensures Message(e)[0] == (if e.WixlMissing? then 'C' else 'N')
    ensures e.NoPathSpecified? ==> Message(e)[2] == ' ' && Message(e)[31..] == e.fragment
    ensures e.NothingFound? ==> Message(e)[2] == 't' && Message(e)[17..] == e.path
  {
  }

  /** Different aborts never show the same text, so the message identifies the error. */
  lemma MessageIdentifiesError(e1: Error, e2: Error)
    requires Message(e1) == Message(e2)
    ensures e1 == e2
  {
    MessageShape(e1);
    MessageShape(e2);
  }

  /** `is_supported?`: the action runs on the `:windows` platform only. */
  function IsSupported(platform: string): (r: bool)
    ensures r <==> platform == "windows"
  {
    platform == "windows"
  }

  // ---------------------------------------------------------------------------------------
  // The wixl-heat line of one fragment
  // ---------------------------------------------------------------------------------------

  /** The file a fragment is generated into. */
  function FragmentFile(name: string): string {
    name + ".wxs"
  }

  /** Distinct fragment names give distinct generated files. */
  lemma FragmentFileInjective(a: string, b: string)
    requires FragmentFile(a) == FragmentFile(b)
    ensures a == b
  {
    assert a == FragmentFile(a)[..|a|];
    assert b == FragmentFile(b)[..|b|];
  }

  /** `"<flag> #{value}"` when the value is truthy, nothing otherwise; `flag` carries its
      trailing space. */
  function Flag(flag: string, value: Option<string>): seq<string> {
    if value.Some? then [flag + value.value] else []
  }

  /** The flags of a heat line that carry a value, in the order the action appends them. */
  const HeatValueFlags: seq<string> := ["--prefix ", "--directory-ref ", "--exclude ", "--var ", "--component-group "]

  /** The options behind those flags, in the same order. */
  function HeatValues(o: FragmentOptions): seq<Option<string>> {
    [o.prefix, o.directoryRef, o.exclude, o.variable, o.componentGroup]
  }

  /** The flags for `names`, each emitted iff its value is truthy, in order. */
  function RenderFlags(names: seq<string>, values: seq<Option<string>>): seq<string>
    requires |names| == |values|
  {
    if |names| == 0 then [] else Flag(names[0], values[0]) + RenderFlags(names[1..], values[1..])
  }

  function Win64Flag(o: FragmentOptions): seq<string> {
    if o.win64 then ["--win64"] else []
  }

  /** The optional flags of a heat line, in the order the action appends them. */
  function HeatFlags(o: FragmentOptions): seq<string> {
    RenderFlags(HeatValueFlags, HeatValues(o)) + Win64Flag(o)
  }

  /** The heat flags one by one, as the action appends them. */
  lemma HeatFlagsSpelledOut(o: FragmentOptions)
    ensures HeatFlags(o)
         == Flag("--prefix ", o.prefix) + (Flag("--directory-ref ", o.directoryRef)
          + (Flag("--exclude ", o.exclude) + (Flag("--var ", o.variable)
          + (Flag("--component-group ", o.componentGroup) + Win64Flag(o)))))
  {
    var n0, v0 := HeatValueFlags, HeatValues(o);
    var n1, v1 := n0[1..], v0[1..];
    var n2, v2 := n1[1..], v1[1..];
    var n3, v3 := n2[1..], v2[1..];
    var n4, v4 := n3[1..], v3[1..];
    assert n4[1..] == [] && v4[1..] == [];
    assert RenderFlags(n4, v4) == Flag("--component-group ", o.componentGroup) + [];
    assert RenderFlags(n3, v3) == Flag("--var ", o.variable) + RenderFlags(n4, v4);
    assert RenderFlags(n2, v2) == Flag("--exclude ", o.exclude) + RenderFlags(n3, v3);
    assert RenderFlags(n1, v1) == Flag("--directory-ref ", o.directoryRef) + RenderFlags(n2, v2);
    assert RenderFlags(n0, v0) == Flag("--prefix ", o.prefix) + RenderFlags(n1, v1);
  }

  /** The `command_builder` array for one fragment, before it is joined. */
  function HeatParts(o: FragmentOptions, fragmentFile: string): seq<string>
    requires o.path.Some?
  {
    ["find " + o.path.value + " | wixl-heat"] + HeatFlags(o) + ["> " + fragmentFile]
  }

  function HeatCommand(o: FragmentOptions, fragmentFile: string): string
    requires o.path.Some?
  {
    Join(HeatParts(o, fragmentFile))
  }

  /** `command_builder << "<flag>#{value}" if value`. */
  method AppendFlag(builder: seq<string>, flag: string, value: Option<string>) returns (result: seq<string>)
    ensures result == builder + Flag(flag, value)
  {
    result := builder;
    if value.Some? {
      result := result + [flag + value.value];
    }
  }

  /** Regrouping a chain of concatenations to the right. */
  lemma RegroupRight(h: seq<string>, a: seq<string>, b: seq<string>, c: seq<string>,
                     d: seq<string>, e: seq<string>, w: seq<string>)
    ensures h + a + b + c + d + e + w == h + (a + (b + (c + (d + (e + w)))))
  {
  }

  /** Builds the wixl-heat line by appending to an array and joining it with spaces. */
  method BuildHeatCommand(o: FragmentOptions, fragmentFile: string) returns (command: string)
    requires o.path.Some?
    ensures command == HeatCommand(o, fragmentFile)
  {
    var head := "find " + o.path.value + " | wixl-heat";
    var builder := [head];
    builder := AppendFlag(builder, "--prefix ", o.prefix);
    builder := AppendFlag(builder, "--directory-ref ", o.directoryRef);
    builder := AppendFlag(builder, "--exclude ", o.exclude);
    builder := AppendFlag(builder, "--var ", o.variable);
    builder := AppendFlag(builder, "--component-group ", o.componentGroup);
    var win64: seq<string> := [];
    if o.win64 {
      win64 := ["--win64"];
    }
    builder := builder + win64;
    RegroupRight([head], Flag("--prefix ", o.prefix), Flag("--directory-ref ", o.directoryRef),
                 Flag("--exclude ", o.exclude), Flag("--var ", o.variable),
                 Flag("--component-group ", o.componentGroup), win64);
    HeatFlagsSpelledOut(o);
    builder := builder + ["> " + fragmentFile];
    command := Join(builder);
  }

  /** The heat line starts by piping `find <path>` into wixl-heat and ends by redirecting
      into the fragment file. */
  lemma HeatCommandText(o: FragmentOptions, fragmentFile: string)
    requires o.path.Some?
    ensures IsPrefix("find " + o.path.value + " | wixl-heat", HeatCommand(o, fragmentFile))
    ensures IsSuffix(" > " + fragmentFile, HeatCommand(o, fragmentFile))
  {
    var parts := HeatParts(o, fragmentFile);
    JoinBounds(parts);
    var n := |parts|;
    assert parts == parts[..n - 1] + [parts[n - 1]];
    JoinConcat(parts[..n - 1], [parts[n - 1]]);
    var c := HeatCommand(o, fragmentFile);
    var tail := " > " + fragmentFile;
    assert c == Join(parts[..n - 1]) + tail;
    assert c[|c| - |tail|..] == tail;
  }

  /** With no option but the path, the heat line is exactly `find <path> | wixl-heat > <file>`. */
  lemma PlainHeatCommand(path: string, fragmentFile: string)
    ensures HeatCommand(FragmentOptions(Some(path), None, None, None, None, None, false), fragmentFile)
         == "find " + path + " | wixl-heat > " + fragmentFile
  {
    var o := FragmentOptions(Some(path), None, None, None, None, None, false);
    var a, b := "find " + path + " | wixl-heat", "> " + fragmentFile;
    assert HeatParts(o, fragmentFile) == [a, b] by {
      HeatFlagsSpelledOut(o);
    }
    assert Join([a, b]) == a + " " + b by {
      assert [a, b][..1] == [a];
    }
    assert " | wixl-heat" + " " + "> " == " | wixl-heat > ";
    assert a + " " + b == "find " + path + (" | wixl-heat" + " " + "> ") + fragmentFile;
  }

  /** An empty-string option is truthy in Ruby, so its flag is still emitted, with nothing after it. */
  lemma EmptyPrefixStillEmitted(path: string, fragmentFile: string)
    ensures HeatCommand(FragmentOptions(Some(path), Some(""), None, None, None, None, false), fragmentFile)
         == "find " + path + " | wixl-heat --prefix  > " + fragmentFile
  {
    var a, b, c := "find " + path + " | wixl-heat", "--prefix ", "> " + fragmentFile;
    PrefixOnlyHeatLine(path, fragmentFile, "");
    assert "--prefix " + "" == b;
    assert a + " " + b + " " + c == "find " + path + (" | wixl-heat" + " " + "--prefix " + " " + "> ") + fragmentFile;
    assert " | wixl-heat" + " " + "--prefix " + " " + "> " == " | wixl-heat --prefix  > ";
  }

  // --- reading the heat parts back: the partner of HeatParts -----------------------------

  datatype Took = Took(value: Option<string>, rest: seq<string>)

  /** Takes `<flag> <value>` off the front of the tokens if it is there. */
  function TakeFlag(flag: string, tokens: seq<string>): Took {
    if |tokens| > 0 && IsPrefix(flag, tokens[0])
    then Took(Some(tokens[0][|flag|..]), tokens[1..])
    else Took(None, tokens)
  }

  datatype Taken = Taken(values: seq<Option<string>>, rest: seq<string>)

  /** Takes the flags `names` off the front of the tokens, in that order, each if it is there. */
  function TakeFlags(names: seq<string>, tokens: seq<string>): (r: Taken)
    ensures |r.values| == |names|
  {
    if |names| == 0 then Taken([], tokens)
    else
      var t := TakeFlag(names[0], tokens);
      var more := TakeFlags(names[1..], t.rest);
      Taken([t.value] + more.values, more.rest)
  }

  /** Recovers the optional flags, accepting them only in the order the action writes them;
      the path is left None. */
  function ParseHeatFlags(tokens: seq<string>): Option<FragmentOptions> {
    var t := TakeFlags(HeatValueFlags, tokens);
    var win64 := |t.rest| > 0 && t.rest[0] == "--win64";
    var remaining := if win64 then t.rest[1..] else t.rest;
    if remaining != [] then None
    else Some(FragmentOptions(None, t.values[0], t.values[1], t.values[2], t.values[3], t.values[4], win64))
  }

  /** Recovers the options and the fragment file from a heat `command_builder` array. */
  function ParseHeat(parts: seq<string>): Option<(FragmentOptions, string)> {
    if |parts| < 2 then None
    else
      var head, last := parts[0], parts[|parts| - 1];
      if !(|head| >= 17 && IsPrefix("find ", head) && IsSuffix(" | wixl-heat", head) && IsPrefix("> ", last))
      then None
      else match ParseHeatFlags(parts[1..|parts| - 1])
        case None => None
        case Some(o) => Some((o.(path := Some(head[5..|head| - 12])), last[2..]))
  }

  /** The first token, if any, has a third character and it is not `c`: the letter after
      `--` tells the flags apart. */
  predicate Apart(tokens: seq<string>, c: char) {
    |tokens| == 0 || (|tokens[0]| >= 3 && tokens[0][2] != c)
  }

  /** Every flag name has a third character, and no two share it. */
  predicate WellSpaced(names: seq<string>) {
    && (forall i :: 0 <= i < |names| ==> |names[i]| >= 3)
    && (forall i, j :: 0 <= i < j < |names| ==> names[i][2] != names[j][2])
  }

  /** TakeFlag undoes Flag, provided the following token is not for the same flag. */
  lemma TakeFlagInverse(flag: string, v: Option<string>, rest: seq<string>)
    requires |flag| >= 3 && Apart(rest, flag[2])
    ensures TakeFlag(flag, Flag(flag, v) + rest) == Took(v, rest)
  {
  }

  /** Rendered flags whose letters differ from `c`, followed by tokens apart from `c`, start
      apart from `c`. */
  lemma {:induction false} RenderApart(names: seq<string>, values: seq<Option<string>>, rest: seq<string>, c: char)
    requires |names| == |values| && Apart(rest, c)
    requires forall i :: 0 <= i < |names| ==> |names[i]| >= 3 && names[i][2] != c
    ensures Apart(RenderFlags(names, values) + rest, c)
  {
    if |names| > 0 {
      var tail := RenderFlags(names[1..], values[1..]) + rest;
      assert RenderFlags(names, values) + rest == Flag(names[0], values[0]) + tail;
      if values[0].Some? {
        var t := names[0] + values[0].value;
        assert (Flag(names[0], values[0]) + tail)[0] == t;
        assert t[2] == names[0][2];
      } else {
        RenderApart(names[1..], values[1..], rest, c);
        assert Flag(names[0], values[0]) + tail == tail;
      }
    } else {
      assert RenderFlags(names, values) + rest == rest;
    }
  }

  /** TakeFlags undoes RenderFlags when the flag letters are distinct and the tokens after
      them do not start with any of those flags. */
  lemma {:induction false} TakeFlagsInverse(names: seq<string>, values: seq<Option<string>>, rest: seq<string>)
    requires |names| == |values| && WellSpaced(names)
    requires forall i :: 0 <= i < |names| ==> Apart(rest, names[i][2])
    ensures TakeFlags(names, RenderFlags(names, values) + rest) == Taken(values, rest)
  {
    if |names| > 0 {
      var tail := RenderFlags(names[1..], values[1..]) + rest;
      assert RenderFlags(names, values) + rest == Flag(names[0], values[0]) + tail;
      RenderApart(names[1..], values[1..], rest, names[0][2]);
      TakeFlagInverse(names[0], values[0], tail);
      TakeFlagsInverse(names[1..], values[1..], rest);
      assert values == [values[0]] + values[1..];
    } else {
      assert RenderFlags(names, values) + rest == rest;
    }
  }

  /** Reading the flags back gives exactly the options they were built from: each flag is
      present iff its option is truthy, with that option's text, in the fixed order. */
  lemma HeatFlagsRoundTrip(o: FragmentOptions)
    ensures ParseHeatFlags(HeatFlags(o)) == Some(o.(path := None))
  {
    var ns := HeatValueFlags;
    assert ns[0][2] == 'p' && ns[1][2] == 'd' && ns[2][2] == 'e' && ns[3][2] == 'v' && ns[4][2] == 'c';
    assert "--win64"[2] == 'w';
    TakeFlagsInverse(ns, HeatValues(o), Win64Flag(o));
  }

  /** Reading the heat parts back gives exactly the options and fragment file they were built
      from: the `command_builder` array loses nothing (the joined line can, see below). */
  lemma HeatRoundTrip(o: FragmentOptions, fragmentFile: string)
    requires o.path.Some?
    ensures ParseHeat(HeatParts(o, fragmentFile)) == Some((o, fragmentFile))
  {
    var path := o.path.value;
    var head := "find " + path + " | wixl-heat";
    var last := "> " + fragmentFile;
    var parts := HeatParts(o, fragmentFile);
    assert parts[0] == head && parts[|parts| - 1] == last;
    assert parts[1..|parts| - 1] == HeatFlags(o);
    assert head[..5] == "find ";
    assert head[|head| - 12..] == " | wixl-heat";
    assert head[5..|head| - 12] == path;
    assert last[..2] == "> " && last[2..] == fragmentFile;
    HeatFlagsRoundTrip(o);
  }

  /** With a path and a prefix only, the heat line is the pipe head, `--prefix <v>` and the
      redirect, one space apart. */
  lemma PrefixOnlyHeatLine(path: string, fragmentFile: string, v: string)
    ensures HeatCommand(FragmentOptions(Some(path), Some(v), None, None, None, None, false), fragmentFile)
         == ("find " + path + " | wixl-heat") + " " + ("--prefix " + v) + " " + ("> " + fragmentFile)
  {
    var o := FragmentOptions(Some(path), Some(v), None, None, None, None, false);
    var h, x, t := "find " + path + " | wixl-heat", "--prefix " + v, "> " + fragmentFile;
    HeatFlagsSpelledOut(o);
    assert HeatParts(o, fragmentFile) == [h, x, t];
    assert [h, x, t][..2] == [h, x];
    assert [h, x][..1] == [h];
    assert Join([h, x, t]) == Join([h, x]) + " " + t;
  }

  /** With a path, a prefix and an exclude only, the heat line is the pipe head, `--prefix <a>`,
      `--exclude <b>` and the redirect, one space apart. */
  lemma PrefixExcludeHeatLine(path: string, fragmentFile: string, a: string, b: string)
    ensures HeatCommand(FragmentOptions(Some(path), Some(a), None, Some(b), None, None, false), fragmentFile)
         == ("find " + path + " | wixl-heat") + " " + ("--prefix " + a) + " " + ("--exclude " + b)
            + " " + ("> " + fragmentFile)
  {
    var o := FragmentOptions(Some(path), Some(a), None, Some(b), None, None, false);
    var h, x, y, t := "find " + path + " | wixl-heat", "--prefix " + a, "--exclude " + b, "> " + fragmentFile;
    HeatFlagsSpelledOut(o);
    assert HeatParts(o, fragmentFile) == [h, x, y, t];
    assert [h, x, y, t][..3] == [h, x, y];
    assert [h, x, y][..2] == [h, x];
    assert [h, x][..1] == [h];
    assert Join([h, x, y, t]) == Join([h, x, y]) + " " + t;
    assert Join([h, x, y]) == Join([h, x]) + " " + y;
    assert Join([h, x]) == h + " " + x;
  }

  /** Joining the parts with spaces can lose information: a prefix `a --exclude b` gives the
      same shell line as a prefix `a` with a separate exclude `b`. */
  lemma JoinedHeatLineAmbiguous(path: string, fragmentFile: string, a: string, b: string)
    ensures var o1 := FragmentOptions(Some(path), Some(a + " --exclude " + b), None, None, None, None, false);
      var o2 := FragmentOptions(Some(path), Some(a), None, Some(b), None, None, false);
      o1 != o2 && HeatCommand(o1, fragmentFile) == HeatCommand(o2, fragmentFile)
  {
    PrefixOnlyHeatLine(path, fragmentFile, a + " --exclude " + b);
    PrefixExcludeHeatLine(path, fragmentFile, a, b);
    var x, y := "--prefix " + a, "--exclude " + b;
    assert " " + "--exclude " == " --exclude ";
    assert "--prefix " + (a + " --exclude " + b) == x + " " + y;
  }

  // ---------------------------------------------------------------------------------------
  // The fragments loop
  // ---------------------------------------------------------------------------------------

  /** The two checks made before a fragment's heat line: a path that is neither nil nor
      empty, and a glob of it that matches something. */
  function CheckFragment(env: Env, f: Fragment): Option<Error> {
    var path := f.options.path;
    if path.None? || |path.value| == 0 then Some(NoPathSpecified(f.name))
    else if |env.glob(path.value)| == 0 then Some(NothingFound(path.value))
    else None
  }

  /** What the fragments loop has done: heat lines issued, `.wxs` names collected, and the
      error that stopped it, if any. */
  datatype Generated = Generated(commands: seq<string>, files: seq<string>, failure: Option<Error>)

  /** The `fragments.map` of the action: fragments are handled in hash order and the first
      rejected fragment stops the loop. */
  function Generate(env: Env, frags: seq<Fragment>): Generated {
    if |frags| == 0 then Generated([], [], None)
    else Step(env, Generate(env, frags[..|frags| - 1]), frags[|frags| - 1])
  }

  /** One turn of the loop: nothing once stopped; otherwise check the fragment, then issue
      its heat line and collect its file. */
  function Step(env: Env, prev: Generated, f: Fragment): Generated {
    if prev.failure.Some? then prev
    else match CheckFragment(env, f)
      case Some(e) => Generated(prev.commands, prev.files, Some(e))
      case None =>
        var file := FragmentFile(f.name);
        Generated(prev.commands + [HeatCommand(f.options, file)], prev.files + [file], None)
  }

  lemma GenerateExtend(env: Env, frags: seq<Fragment>, i: nat)
    requires i < |frags|
    ensures Generate(env, frags[..i + 1]) == Step(env, Generate(env, frags[..i]), frags[i])
  {
    assert frags[..i + 1][..i] == frags[..i];
  }

  /** `commands` and `files` are what handling `frags`, all accepted, one by one gives:
      fragment j is generated into `<name>.wxs` by a heat line that redirects into that file. */
  ghost predicate HandledInOrder(frags: seq<Fragment>, commands: seq<string>, files: seq<string>) {
    && |commands| == |frags| && |files| == |frags|
    && forall j :: 0 <= j < |frags| ==>
         && frags[j].options.path.Some?
         && files[j] == FragmentFile(frags[j].name)
         && commands[j] == HeatCommand(frags[j].options, files[j])
  }

  /** Once the loop has stopped on a prefix of the fragments, later fragments change nothing. */
  lemma {:induction false} GenerateStopsAtFailure(env: Env, frags: seq<Fragment>, k: nat)
    requires k <= |frags| && Generate(env, frags[..k]).failure.Some?
    ensures Generate(env, frags) == Generate(env, frags[..k])
    decreases |frags| - k
  {
    if k < |frags| {
      var n := |frags|;
      assert frags[..n - 1][..k] == frags[..k];
      GenerateStopsAtFailure(env, frags[..n - 1], k);
    } else {
      assert frags[..k] == frags;
    }
  }

  /** When every fragment passes its checks, the loop issues one heat line per fragment, in
      hash order, and collects every `<name>.wxs`. */
  lemma {:induction false} GenerateAccepted(env: Env, frags: seq<Fragment>)
    requires forall j :: 0 <= j < |frags| ==> CheckFragment(env, frags[j]).None?
    ensures Generate(env, frags).failure.None?
    ensures HandledInOrder(frags, Generate(env, frags).commands, Generate(env, frags).files)
  {
    if |frags| > 0 {
      var n := |frags|;
      var init := frags[..n - 1];
      GenerateAccepted(env, init);
      var prev := Generate(env, init);
      var f := frags[n - 1];
      assert CheckFragment(env, f).None?;
      var g := Generate(env, frags);
      assert g.commands == prev.commands + [HeatCommand(f.options, FragmentFile(f.name))];
      assert g.files == prev.files + [FragmentFile(f.name)];
      forall j | 0 <= j < n
        ensures frags[j].options.path.Some?
        ensures g.files[j] == FragmentFile(frags[j].name)
        ensures g.commands[j] == HeatCommand(frags[j].options, g.files[j])
      {
        if j < n - 1 {
          assert frags[j] == init[j];
        }
      }
    }
  }

  /** When fragment k is the first to fail its checks, the loop stops with that fragment's
      error, having issued the heat lines of fragments 0..k-1 and nothing for k or later. */
  lemma {:induction false} GenerateRejected(env: Env, frags: seq<Fragment>, k: nat)
    requires k < |frags| && CheckFragment(env, frags[k]).Some?
    requires forall j :: 0 <= j < k ==> CheckFragment(env, frags[j]).None?
    ensures Generate(env, frags).failure == CheckFragment(env, frags[k])
    ensures HandledInOrder(frags[..k], Generate(env, frags).commands, Generate(env, frags).files)
  {
    var n := |frags|;
    var init := frags[..n - 1];
    var prev := Generate(env, init);
    assert Generate(env, frags) == Step(env, prev, frags[n - 1]);
    if k == n - 1 {
      assert init == frags[..k];
      GenerateAccepted(env, init);
      assert Generate(env, frags) == Generated(prev.commands, prev.files, CheckFragment(env, frags[k]));
    } else {
      assert init[k] == frags[k];
      assert forall j :: 0 <= j < k ==> init[j] == frags[j];
      GenerateRejected(env, init, k);
      assert init[..k] == frags[..k];
      assert Generate(env, frags) == prev;
    }
  }

  // ---------------------------------------------------------------------------------------
  // The wixl line
  // ---------------------------------------------------------------------------------------

  function DefineArg(d: Define): string {
    "-D " + d.key + "=" + d.value
  }

  /** `defines.map { |k, v| "-D #{k}=#{v}" }.join(' ')`. */
  function DefineArgs(ds: seq<Define>): string {
    Join(seq(|ds|, i requires 0 <= i < |ds| => DefineArg(ds[i])))
  }

  /** Defines are rendered in hash order: one more define adds its `-D k=v` at the end. */
  lemma DefineArgsAppend(ds: seq<Define>, d: Define)
    requires |ds| > 0
    ensures DefineArgs(ds + [d]) == DefineArgs(ds) + " -D " + d.key + "=" + d.value
  {
    var all := seq(|ds| + 1, i requires 0 <= i < |ds| + 1 => DefineArg((ds + [d])[i]));
    var init := seq(|ds|, i requires 0 <= i < |ds| => DefineArg(ds[i]));
    assert all == init + [DefineArg(d)];
    JoinConcat(init, [DefineArg(d)]);
  }

  /** The final `command_builder` array; `fragmentFiles` is None when the action's
      `fragment_files` is nil. */
  function WixlParts(p: Params, fragmentFiles: Option<seq<string>>): seq<string> {
    ["wixl " + p.wxsPath]
    + (if fragmentFiles.Some? then [Join(fragmentFiles.value)] else [])
    + (if p.defines.Some? then [DefineArgs(p.defines.value)] else [])
    + Flag("--output ", p.output)
    + Flag("--arch ", p.architecture)
    + ["-v"]
  }

  function WixlCommand(p: Params, fragmentFiles: Option<seq<string>>): string {
    Join(WixlParts(p, fragmentFiles))
  }

  /** Builds the wixl line by appending to an array and joining it with spaces. */
  method BuildWixlCommand(p: Params, fragmentFiles: Option<seq<string>>) returns (command: string)
    ensures command == WixlCommand(p, fragmentFiles)
  {
    var builder := ["wixl " + p.wxsPath];
    if fragmentFiles.Some? {
      builder := builder + [Join(fragmentFiles.value)];
    }
    if p.defines.Some? {
      builder := builder + [DefineArgs(p.defines.value)];
    }
    if p.output.Some? {
      builder := builder + ["--output " + p.output.value];
    }
    if p.architecture.Some? {
      builder := builder + ["--arch " + p.architecture.value];
    }
    builder := builder + ["-v"];
    WixlPartsLayout(p, fragmentFiles);
    assert builder == WixlParts(p, fragmentFiles);
    command := Join(builder);
  }

  function Count(b: bool): nat {
    if b then 1 else 0
  }

  /** Where each piece sits among the wixl parts: the source file first, then the fragment
      files, the defines, `--output` and `--arch`, each present iff given, then `-v` last. */
  lemma WixlPartsLayout(p: Params, fragmentFiles: Option<seq<string>>)
    ensures var parts := WixlParts(p, fragmentFiles);
      var f := Count(fragmentFiles.Some?);
      var d := f + Count(p.defines.Some?);
      var o := d + Count(p.output.Some?);
      var a := o + Count(p.architecture.Some?);
      && |parts| == a + 2
      && parts[0] == "wixl " + p.wxsPath
      && (fragmentFiles.Some? ==> parts[1] == Join(fragmentFiles.value))
      && (p.defines.Some? ==> parts[f + 1] == DefineArgs(p.defines.value))
      && (p.output.Some? ==> parts[d + 1] == "--output " + p.output.value)
      && (p.architecture.Some? ==> parts[o + 1] == "--arch " + p.architecture.value)
      && parts[a + 1] == "-v"
  {
  }

  /** The wixl line starts with `wixl <wxs_path>`, directly followed by the fragment files
      when there are any. */
  lemma WixlCommandStart(p: Params, fragmentFiles: Option<seq<string>>)
    ensures IsPrefix("wixl " + p.wxsPath, WixlCommand(p, fragmentFiles))
    ensures fragmentFiles.Some? ==>
      IsPrefix("wixl " + p.wxsPath + " " + Join(fragmentFiles.value) + " ", WixlCommand(p, fragmentFiles))
  {
    var parts := WixlParts(p, fragmentFiles);
    JoinBounds(parts);
    if fragmentFiles.Some? {
      var c := WixlCommand(p, fragmentFiles);
      var head := "wixl " + p.wxsPath;
      var files := Join(fragmentFiles.value);
      var rest := parts[2..];
      assert parts == [head, files] + rest;
      assert |rest| > 0;
      JoinConcat([head, files], rest);
      assert [head, files][..1] == [head];
      var pre := head + " " + files + " ";
      assert c == pre + Join(rest);
      assert c[..|pre|] == pre;
    }
  }

  /** The wixl line ends with ` -v`, with whichever of `--output <output>` and then
      `--arch <architecture>` are given right before it. */
  lemma WixlCommandEnd(p: Params, fragmentFiles: Option<seq<string>>)
    ensures IsSuffix(" -v", WixlCommand(p, fragmentFiles))
    ensures p.output.Some? && p.architecture.Some? ==>
      IsSuffix(" " + Join(["--output " + p.output.value, "--arch " + p.architecture.value, "-v"]),
               WixlCommand(p, fragmentFiles))
    ensures p.output.Some? && p.architecture.None? ==>
      IsSuffix(" " + Join(["--output " + p.output.value, "-v"]), WixlCommand(p, fragmentFiles))
    ensures p.output.None? && p.architecture.Some? ==>
      IsSuffix(" " + Join(["--arch " + p.architecture.value, "-v"]), WixlCommand(p, fragmentFiles))
  {
    var parts := WixlParts(p, fragmentFiles);
    var n := |parts|;
    WixlPartsLayout(p, fragmentFiles);
    JoinTail(parts, 1);
    assert parts[n - 1..] == ["-v"];
    assert " " + Join(["-v"]) == " -v";
    if p.output.Some? && p.architecture.Some? {
      JoinTail(parts, 3);
      assert parts[n - 3..] == ["--output " + p.output.value, "--arch " + p.architecture.value, "-v"];
    } else if p.output.Some? {
      JoinTail(parts, 2);
      assert parts[n - 2..] == ["--output " + p.output.value, "-v"];
    } else if p.architecture.Some? {
      JoinTail(parts, 2);
      assert parts[n - 2..] == ["--arch " + p.architecture.value, "-v"];
    }
  }

  /** An empty `defines` hash is truthy: it contributes an empty part, which shows up as a
      doubled space. */
  lemma EmptyDefinesLeaveBlankPart(wxsPath: string)
    ensures WixlCommand(Params(wxsPath, None, None, Some([]), None), None) == "wixl " + wxsPath + "  -v"
  {
    var p := Params(wxsPath, None, None, Some([]), None);
    assert DefineArgs([]) == "";
    assert WixlParts(p, None) == ["wixl " + wxsPath, "", "-v"];
    assert ["wixl " + wxsPath, "", "-v"][..2] == ["wixl " + wxsPath, ""];
    assert ["wixl " + wxsPath, ""][..1] == ["wixl " + wxsPath];
    assert Join(["wixl " + wxsPath, "", "-v"]) == Join(["wixl " + wxsPath, ""]) + " " + "-v";
    assert Join(["wixl " + wxsPath, ""]) == "wixl " + wxsPath + " " + "";
    assert " " + "" + " " + "-v" == "  -v";
    assert "wixl " + wxsPath + " " + "" + " " + "-v" == "wixl " + wxsPath + (" " + "" + " " + "-v");
  }

  // ---------------------------------------------------------------------------------------
  // The action
  // ---------------------------------------------------------------------------------------

  /** The fragments the loop goes through: none when the hash is nil or empty. */
  function FragmentList(p: Params): seq<Fragment> {
    if p.fragments.Some? then p.fragments.value else []
  }

  /** What `run` hands to `sh`, and whether it aborts, as a function of the host facts. */
  function RunSpec(env: Env, p: Params): RunOutcome {
    if |env.whichWixl| == 0 then Aborted([], WixlMissing)
    else
      var frags := FragmentList(p);
      if |frags| == 0 then Completed([WixlCommand(p, None)])
      else
        var g := Generate(env, frags);
        if g.failure.Some? then Aborted(g.commands, g.failure.value)
        else Completed(g.commands + [WixlCommand(p, Some(g.files))])
  }

  /** `run`: check for wixl, generate every fragment in order, then build the wixl line. */
  method Run(env: Env, p: Params) returns (outcome: RunOutcome)
    ensures outcome == RunSpec(env, p)
  {
    if |env.whichWixl| == 0 {
      return Aborted([], WixlMissing);
    }
    var issued: seq<string> := [];
    var fragmentFiles: Option<seq<string>> := None;
    if p.fragments.Some? && |p.fragments.value| > 0 {
      var frags := p.fragments.value;
      var files: seq<string> := [];
      var i := 0;
      while i < |frags|
        invariant 0 <= i <= |frags|
        invariant Generate(env, frags[..i]) == Generated(issued, files, None)
      {
        var fragment := frags[i];
        var path := fragment.options.path;
        GenerateExtend(env, frags, i);
        if path.None? || |path.value| == 0 {
          GenerateStopsAtFailure(env, frags, i + 1);
          return Aborted(issued, NoPathSpecified(fragment.name));
        }
        if |env.glob(path.value)| == 0 {
          GenerateStopsAtFailure(env, frags, i + 1);
          return Aborted(issued, NothingFound(path.value));
        }
        var fragmentFile := FragmentFile(fragment.name);
        var command := BuildHeatCommand(fragment.options, fragmentFile);
        issued := issued + [command];
        files := files + [fragmentFile];
        i := i + 1;
      }
      assert frags[..i] == frags;
      fragmentFiles := Some(files);
    }
    var command := BuildWixlCommand(p, fragmentFiles);
    outcome := Completed(issued + [command]);
  }

  // --- what a run does, in terms of the source's promises --------------------------------

  /** Without wixl on the PATH the action aborts before handing anything to `sh`. */
  lemma RunWithoutWixl(env: Env, p: Params)
    requires |env.whichWixl| == 0
    ensures RunSpec(env, p) == Aborted([], WixlMissing)
  {
  }

  /** With wixl present and every fragment accepted, the run hands one heat line per fragment
      to `sh`, in hash order, and then one wixl line whose fragment files are exactly the
      `<name>.wxs` targets of those heat lines (none when the hash is nil or empty). */
  lemma RunCompletes(env: Env, p: Params)
    requires |env.whichWixl| > 0
    requires forall j :: 0 <= j < |FragmentList(p)| ==> CheckFragment(env, FragmentList(p)[j]).None?
    ensures RunSpec(env, p).Completed?
    ensures var frags := FragmentList(p);
      var cmds := RunSpec(env, p).commands;
      var files := seq(|frags|, j requires 0 <= j < |frags| => FragmentFile(frags[j].name));
      && |cmds| == |frags| + 1
      && HandledInOrder(frags, cmds[..|frags|], files)
      && cmds[|frags|] == WixlCommand(p, if |frags| == 0 then None else Some(files))
  {
    var frags := FragmentList(p);
    var files := seq(|frags|, j requires 0 <= j < |frags| => FragmentFile(frags[j].name));
    if |frags| > 0 {
      GenerateAccepted(env, frags);
      var g := Generate(env, frags);
      assert g.files == files;
      assert (g.commands + [WixlCommand(p, Some(files))])[..|frags|] == g.commands;
    }
  }

  /** In a completed run, the heat line of fragment j redirects into `<name>.wxs`, the very
      name the wixl line lists for that fragment. */
  lemma RunHeatTargets(env: Env, p: Params, j: nat)
    requires |env.whichWixl| > 0
    requires forall i :: 0 <= i < |FragmentList(p)| ==> CheckFragment(env, FragmentList(p)[i]).None?
    requires j < |FragmentList(p)|
    ensures RunSpec(env, p).Completed? && j < |RunSpec(env, p).commands|
    ensures IsSuffix(" > " + FragmentList(p)[j].name + ".wxs", RunSpec(env, p).commands[j])
  {
    RunCompletes(env, p);
    var frags := FragmentList(p);
    var f := frags[j];
    var file := FragmentFile(f.name);
    assert RunSpec(env, p).commands[j] == HeatCommand(f.options, file) by {
      var cmds := RunSpec(env, p).commands;
      var files := seq(|frags|, i requires 0 <= i < |frags| => FragmentFile(frags[i].name));
      assert HandledInOrder(frags, cmds[..|frags|], files);
      assert cmds[j] == cmds[..|frags|][j];
    }
    HeatCommandText(f.options, file);
    assert " > " + FragmentFile(f.name) == " > " + f.name + ".wxs";
  }

  /** With wixl present and fragment k the first one rejected, the run aborts with that
      fragment's error after handing only the heat lines of fragments 0..k-1 to `sh`: no
      heat line for k or later and no wixl line. */
  lemma RunRejects(env: Env, p: Params, k: nat)
    requires |env.whichWixl| > 0
    requires k < |FragmentList(p)| && CheckFragment(env, FragmentList(p)[k]).Some?
    requires forall j :: 0 <= j < k ==> CheckFragment(env, FragmentList(p)[j]).None?
    ensures RunSpec(env, p).Aborted?
    ensures Some(RunSpec(env, p).error) == CheckFragment(env, FragmentList(p)[k])
    ensures var frags := FragmentList(p);
      HandledInOrder(frags[..k], RunSpec(env, p).commands,
                     seq(k, j requires 0 <= j < k => FragmentFile(frags[j].name)))
  {
    var frags := FragmentList(p);
    GenerateRejected(env, frags, k);
    var g := Generate(env, frags);
    assert g.files == seq(k, j requires 0 <= j < k => FragmentFile(frags[j].name));
  }
}
