/** The renderer adapter (`libs/d2.ts`): the argument list handed to the `d2`
    executable, the render operation over an abstract subprocess and file
    reader, the parse of a rendered SVG's `viewBox`, and the version probe. */
module D2 {
  import opened Wrappers
  import opened Text
  import opened Config

  /** The intrinsic size of a rendered diagram; `D2Size` is `Option<Size>`. */
  datatype Size = Size(height: nat, width: nat)

  type D2Size = Option<Size>

  /** One run of an external executable: its name, its arguments and what is
      fed to its standard input. */
  datatype Invocation = Invocation(command: string, args: seq<string>, stdin: Option<string>)

  /** What the subprocess port reports: the lines the program printed, or a
      failure (launch error or non-zero exit status). */
  datatype ExecOutcome = ExecOk(stdout: seq<string>) | ExecFailed

  /** What reading a file as UTF-8 text reports. */
  datatype ReadOutcome = ReadOk(content: string) | ReadFailed

  datatype D2Error =
    | GenerateFailed               // the renderer failed
    | SizeReadFailed(path: string) // the artifact at `path` could not be read
    | VersionFailed                // the version probe failed or printed no version

  // ---------------------------------------------------------------------------
  // The renderer's argument list

  /** The dark theme is passed unless the block switches it off, and only when
      the block names one or the configuration has one. */
  predicate DarkThemeEnabled(config: AstroD2Config, meta: DiagramMeta) {
    meta.darkTheme != Disabled && (meta.darkTheme.Theme? || config.theme.dark.DarkTheme?)
  }

  /** The block's dark theme, else the configured one. */
  function EffectiveDarkTheme(config: AstroD2Config, meta: DiagramMeta): string
    requires DarkThemeEnabled(config, meta)
  {
    if meta.darkTheme.Theme? then meta.darkTheme.id else config.theme.dark.id
  }

  function DarkThemeArgs(config: AstroD2Config, meta: DiagramMeta): seq<string> {
    if DarkThemeEnabled(config, meta) then ["--dark-theme=" + EffectiveDarkTheme(config, meta)] else []
  }

  /** The interval is passed only when it is truthy, so `0` is left out. */
  function AnimateArgs(meta: DiagramMeta): seq<string> {
    if meta.animateInterval.Some? && meta.animateInterval.value > 0
    then ["--animate-interval=" + NatToString(meta.animateInterval.value)]
    else []
  }

  /** The target is passed whenever it is defined, the empty string included. */
  function TargetArgs(meta: DiagramMeta): seq<string> {
    if meta.target.Some? then ["--target='" + meta.target.value + "'"] else []
  }

  function ThemeOf(config: AstroD2Config, meta: DiagramMeta): string {
    if meta.theme.Some? then meta.theme.value else config.theme.defaultTheme
  }

  /** The full argument list: four fixed options, the optional ones in the
      order dark theme, animation interval, target, then `-` (read the diagram
      from standard input) and the output path. */
  function RenderArgs(config: AstroD2Config, meta: DiagramMeta, outputPath: string): (args: seq<string>)
    ensures 6 <= |args| <= 9
    ensures args[0] == "--layout=" + config.layout && args[1] == "--theme=" + ThemeOf(config, meta)
    ensures args[|args| - 2] == "-" && args[|args| - 1] == outputPath
  {
    ["--layout=" + config.layout,
     "--theme=" + ThemeOf(config, meta),
     "--sketch=" + BoolToString(meta.sketch),
     "--pad=" + NatToString(meta.pad)]
    + DarkThemeArgs(config, meta) + AnimateArgs(meta) + TargetArgs(meta)
    + ["-", outputPath]
  }

  function RenderInvocation(config: AstroD2Config, meta: DiagramMeta, input: string, outputPath: string): Invocation {
    Invocation("d2", RenderArgs(config, meta, outputPath), Some(input))
  }

  /** The list has six to nine entries, opens with the four fixed options and
      closes with `-` and the output path. */
  lemma RenderArgsLayout(config: AstroD2Config, meta: DiagramMeta, outputPath: string)
    ensures var args := RenderArgs(config, meta, outputPath);
      && 6 <= |args| <= 9
      && args[..4] == ["--layout=" + config.layout, "--theme=" + ThemeOf(config, meta),
                       "--sketch=" + BoolToString(meta.sketch), "--pad=" + NatToString(meta.pad)]
      && args[4..|args| - 2] == DarkThemeArgs(config, meta) + AnimateArgs(meta) + TargetArgs(meta)
      && args[|args| - 2] == "-"
      && args[|args| - 1] == outputPath
  {
    var args := RenderArgs(config, meta, outputPath);
    var extra := DarkThemeArgs(config, meta) + AnimateArgs(meta) + TargetArgs(meta);
    assert args == args[..4] + extra + ["-", outputPath];
  }

  predicate SomeStartsWith(xs: seq<string>, prefix: string) {
    exists i :: 0 <= i < |xs| && StartsWith(xs[i], prefix)
  }

  lemma SomeStartsWithConcat(xs: seq<string>, ys: seq<string>, prefix: string)
    ensures SomeStartsWith(xs + ys, prefix) <==> SomeStartsWith(xs, prefix) || SomeStartsWith(ys, prefix)
  {
    if SomeStartsWith(xs + ys, prefix) {
      var i :| 0 <= i < |xs + ys| && StartsWith((xs + ys)[i], prefix);
      if i >= |xs| { assert (xs + ys)[i] == ys[i - |xs|]; }
    }
    if SomeStartsWith(xs, prefix) {
      var i :| 0 <= i < |xs| && StartsWith(xs[i], prefix);
      assert (xs + ys)[i] == xs[i];
      assert StartsWith((xs + ys)[i], prefix);
    }
    if SomeStartsWith(ys, prefix) {
      var i :| 0 <= i < |ys| && StartsWith(ys[i], prefix);
      assert (xs + ys)[|xs| + i] == ys[i];
      assert StartsWith((xs + ys)[|xs| + i], prefix);
    }
  }

  /** The optional arguments, between the four fixed options and the final two. */
  function OptionalArgs(args: seq<string>): seq<string>
    requires |args| >= 6
  {
    args[4..|args| - 2]
  }

  lemma DiffersAt(s: string, prefix: string, k: nat)
    requires k < |s| && k < |prefix| && s[k] != prefix[k]
    ensures !StartsWith(s, prefix)
  {
  }

  lemma StartsWithItself(p: string, x: string)
    ensures StartsWith(p + x, p)
  {
    assert (p + x)[..|p|] == p;
  }

  lemma SomeStartsWithOne(x: string, prefix: string)
    ensures SomeStartsWith([x], prefix) <==> StartsWith(x, prefix)
  {
    if StartsWith(x, prefix) {
      assert [x][0] == x;
    }
  }

  /** The optional arguments are the dark theme, the interval and the target,
      and a prefix occurs among them exactly when it occurs in one of the three. */
  lemma OptionalArgsSplit(config: AstroD2Config, meta: DiagramMeta, outputPath: string, prefix: string)
    ensures |RenderArgs(config, meta, outputPath)| >= 6
    ensures SomeStartsWith(OptionalArgs(RenderArgs(config, meta, outputPath)), prefix) <==>
      SomeStartsWith(DarkThemeArgs(config, meta), prefix) || SomeStartsWith(AnimateArgs(meta), prefix) ||
      SomeStartsWith(TargetArgs(meta), prefix)
  {
    RenderArgsLayout(config, meta, outputPath);
    var dark, anim, target := DarkThemeArgs(config, meta), AnimateArgs(meta), TargetArgs(meta);
    assert OptionalArgs(RenderArgs(config, meta, outputPath)) == dark + anim + target;
    SomeStartsWithConcat(dark + anim, target, prefix);
    SomeStartsWithConcat(dark, anim, prefix);
  }

  /** `--dark-theme` is among the optional arguments exactly when the block
      does not switch it off and a dark theme is known, and then it comes first
      and names the block's dark theme, else the configured one. */
  lemma DarkThemeArgPresence(config: AstroD2Config, meta: DiagramMeta, outputPath: string)
    ensures var args := RenderArgs(config, meta, outputPath);
      && |args| >= 6
      && (SomeStartsWith(OptionalArgs(args), "--dark-theme=") <==> DarkThemeEnabled(config, meta))
      && (DarkThemeEnabled(config, meta) ==> args[4] == "--dark-theme=" + EffectiveDarkTheme(config, meta))
  {
    var p := "--dark-theme=";
    RenderArgsLayout(config, meta, outputPath);
    OptionalArgsSplit(config, meta, outputPath, p);
    var dark, anim, target := DarkThemeArgs(config, meta), AnimateArgs(meta), TargetArgs(meta);
    if anim != [] { SomeStartsWithOne(anim[0], p); DiffersAt(anim[0], p, 2); }
    if target != [] { SomeStartsWithOne(target[0], p); DiffersAt(target[0], p, 2); }
    if dark != [] { SomeStartsWithOne(dark[0], p); StartsWithItself(p, EffectiveDarkTheme(config, meta)); }
  }

  /** `--animate-interval` is present exactly when the interval is defined and
      not zero; it then writes the interval in decimal, right after the dark
      theme if there is one. */
  lemma AnimateArgPresence(config: AstroD2Config, meta: DiagramMeta, outputPath: string)
    ensures var args := RenderArgs(config, meta, outputPath);
      && |args| >= 6
      && (SomeStartsWith(OptionalArgs(args), "--animate-interval=") <==>
            meta.animateInterval.Some? && meta.animateInterval.value != 0)
      && (meta.animateInterval.Some? && meta.animateInterval.value != 0 ==>
            args[4 + |DarkThemeArgs(config, meta)|] == "--animate-interval=" + NatToString(meta.animateInterval.value))
  {
    var p := "--animate-interval=";
    RenderArgsLayout(config, meta, outputPath);
    OptionalArgsSplit(config, meta, outputPath, p);
    var dark, anim, target := DarkThemeArgs(config, meta), AnimateArgs(meta), TargetArgs(meta);
    if dark != [] { SomeStartsWithOne(dark[0], p); DiffersAt(dark[0], p, 2); }
    if target != [] { SomeStartsWithOne(target[0], p); DiffersAt(target[0], p, 2); }
    if anim != [] {
      SomeStartsWithOne(anim[0], p);
      StartsWithItself(p, NatToString(meta.animateInterval.value));
      var args := RenderArgs(config, meta, outputPath);
      assert args[4 + |dark|] == args[4..|args| - 2][|dark|] == (dark + anim + target)[|dark|];
    }
  }

  /** `--target` is present exactly when a target is defined, even an empty
      one, and quotes it. */
  lemma TargetArgPresence(config: AstroD2Config, meta: DiagramMeta, outputPath: string)
    ensures var args := RenderArgs(config, meta, outputPath);
      && |args| >= 6
      && (SomeStartsWith(OptionalArgs(args), "--target=") <==> meta.target.Some?)
      && (meta.target.Some? ==> args[|args| - 3] == "--target='" + meta.target.value + "'")
  {
    var p := "--target=";
    TargetArgLast(config, meta, outputPath);
    OptionalArgsSplit(config, meta, outputPath, p);
    var dark, anim, target := DarkThemeArgs(config, meta), AnimateArgs(meta), TargetArgs(meta);
    if dark != [] { SomeStartsWithOne(dark[0], p); DiffersAt(dark[0], p, 2); }
    if anim != [] { SomeStartsWithOne(anim[0], p); DiffersAt(anim[0], p, 2); }
    if target != [] {
      SomeStartsWithOne(target[0], p);
      TargetArgQuoted(meta.target.value);
    }
  }

  lemma TargetArgLast(config: AstroD2Config, meta: DiagramMeta, outputPath: string)
    ensures var args := RenderArgs(config, meta, outputPath);
      |args| >= 6 && (meta.target.Some? ==> args[|args| - 3] == "--target='" + meta.target.value + "'")
  {
    var args := RenderArgs(config, meta, outputPath);
    RenderArgsLayout(config, meta, outputPath);
    var extra := DarkThemeArgs(config, meta) + AnimateArgs(meta) + TargetArgs(meta);
    if meta.target.Some? {
      assert args[|args| - 3] == args[4..|args| - 2][|extra| - 1];
    }
  }

  lemma TargetArgQuoted(t: string)
    ensures StartsWith("--target='" + t + "'", "--target=")
  {
    assert "--target='" + t + "'" == "--target=" + ("'" + t + "'");
    StartsWithItself("--target=", "'" + t + "'");
  }

  /** The source's two-part guard for the dark theme is the rule above, and
      the value it then passes is the effective dark theme. */
  lemma DarkThemeGuard(config: AstroD2Config, meta: DiagramMeta)
    ensures ((config.theme.dark != DarkDisabled && meta.darkTheme != Disabled)
             || (meta.darkTheme != Unset && meta.darkTheme != Disabled)) <==> DarkThemeEnabled(config, meta)
  {
  }

  /** The list assembled from the fixed options, the optional ones and the
      final two is the rendering argument list. */
  lemma RenderArgsFrom(config: AstroD2Config, meta: DiagramMeta, outputPath: string,
                       theme: string, extra: seq<string>)
    requires theme == ThemeOf(config, meta)
    requires extra == DarkThemeArgs(config, meta) + AnimateArgs(meta) + TargetArgs(meta)
    ensures ["--layout=" + config.layout, "--theme=" + theme,
             "--sketch=" + BoolToString(meta.sketch), "--pad=" + NatToString(meta.pad)]
            + extra + ["-", outputPath] == RenderArgs(config, meta, outputPath)
  {
  }

  /** Render one diagram: build the argument list, run `d2` with the diagram
      source on standard input, and on success read the artifact's size back.
      A renderer failure is reported as such and the artifact is not read. */
  method GenerateD2Diagram(config: AstroD2Config, meta: DiagramMeta, input: string, outputPath: string,
                           exec: Invocation -> ExecOutcome, readFile: string -> ReadOutcome)
    returns (r: Result<D2Size, D2Error>)
    ensures exec(RenderInvocation(config, meta, input, outputPath)).ExecFailed? ==> r == Err(GenerateFailed)
    ensures exec(RenderInvocation(config, meta, input, outputPath)).ExecOk? ==>
              r == GetD2DiagramSize(outputPath, readFile)
  {
    var extraArgs: seq<string> := [];
    // `meta.darkTheme ?? config.theme.dark`, with `false` written as "false"
    var darkTheme := match meta.darkTheme
      case Theme(id) => id
      case Disabled => "false"
      case Unset => (match config.theme.dark case DarkTheme(id) => id case DarkDisabled => "false");
    var includeDark := (config.theme.dark != DarkDisabled && meta.darkTheme != Disabled)
                       || (meta.darkTheme != Unset && meta.darkTheme != Disabled);
    DarkThemeGuard(config, meta);
    if includeDark {
      extraArgs := extraArgs + ["--dark-theme=" + darkTheme];
    }
    assert extraArgs == DarkThemeArgs(config, meta);
    if meta.animateInterval.Some? && meta.animateInterval.value != 0 {
      extraArgs := extraArgs + ["--animate-interval=" + NatToString(meta.animateInterval.value)];
    }
    assert extraArgs == DarkThemeArgs(config, meta) + AnimateArgs(meta);
    if meta.target.Some? {
      extraArgs := extraArgs + ["--target='" + meta.target.value + "'"];
    }
    assert extraArgs == DarkThemeArgs(config, meta) + AnimateArgs(meta) + TargetArgs(meta);
    var theme := if meta.theme.Some? then meta.theme.value else config.theme.defaultTheme;
    RenderArgsFrom(config, meta, outputPath, theme, extraArgs);
    var args := ["--layout=" + config.layout, "--theme=" + theme,
                 "--sketch=" + BoolToString(meta.sketch), "--pad=" + NatToString(meta.pad)]
                + extraArgs + ["-", outputPath];
    assert args == RenderArgs(config, meta, outputPath);
    var outcome := exec(Invocation("d2", args, Some(input)));
    if outcome.ExecFailed? {
      return Err(GenerateFailed);
    }
    r := GetD2DiagramSize(outputPath, readFile);
  }

  /** What `GenerateD2Diagram` returns, as a function for the callers that
      reason about it. */
  function Generated(config: AstroD2Config, meta: DiagramMeta, input: string, outputPath: string,
                     exec: Invocation -> ExecOutcome, readFile: string -> ReadOutcome): (r: Result<D2Size, D2Error>)
    ensures r.Err? <==>
      exec(RenderInvocation(config, meta, input, outputPath)).ExecFailed? || readFile(outputPath).ReadFailed?
    ensures exec(RenderInvocation(config, meta, input, outputPath)).ExecFailed? ==> r == Err(GenerateFailed)
    ensures exec(RenderInvocation(config, meta, input, outputPath)).ExecOk? && readFile(outputPath).ReadOk? ==>
      r == Ok(ParseViewBox(readFile(outputPath).content))
  {
    if exec(RenderInvocation(config, meta, input, outputPath)).ExecFailed? then Err(GenerateFailed)
    else GetD2DiagramSize(outputPath, readFile)
  }

  // ---------------------------------------------------------------------------
  // Intrinsic size from the artifact's `viewBox="x y width height"`

  /** Read the artifact and parse its size; an unreadable file is an error,
      a missing or malformed `viewBox` is "no size". */
  function GetD2DiagramSize(diagramPath: string, readFile: string -> ReadOutcome): (r: Result<D2Size, D2Error>)
    ensures r.Err? <==> readFile(diagramPath).ReadFailed?
    ensures r.Err? ==> r.error == SizeReadFailed(diagramPath)
    ensures readFile(diagramPath).ReadOk? ==> r == Ok(ParseViewBox(readFile(diagramPath).content))
  {
    match readFile(diagramPath)
    case ReadFailed => Err(SizeReadFailed(diagramPath))
    case ReadOk(content) => Ok(ParseViewBox(content))
  }

  const ViewBoxOpen: string := "viewBox=\""

  /** The separators after the four numbers of a `viewBox`. */
  const ViewBoxSeparators: string := "   \""

  /** `\d+` followed by `sep`, starting at `i`: the index just past `sep`. */
  function DigitsThen(s: string, i: nat, sep: char): (r: Option<nat>)
    requires i <= |s|
    ensures r.Some? ==> i + 1 < r.value <= |s| && AllDigits(s[i..r.value - 1]) && s[r.value - 1] == sep
  {
    var j := DigitRun(s, i);
    DigitRunDigits(s, i);
    if i < j < |s| && s[j] == sep then Some(j + 1) else None
  }


  /** `\d+` followed by `seps[0]`, then `\d+` followed by `seps[1]`, and so on,
      from `i`: the runs of digits that were read. */
  function Fields(s: string, i: nat, seps: string): (r: Option<(seq<string>, nat)>)
    requires i <= |s|
    ensures r.Some? ==> |r.value.0| == |seps| && i <= r.value.1 <= |s|
    decreases |seps|
  {
    if seps == [] then Some(([], i))
    else
      var next := DigitsThen(s, i, seps[0]);
      if next.None? then None
      else
        var tail := Fields(s, next.value, seps[1..]);
        if tail.None? then None
        else Some(([s[i..next.value - 1]] + tail.value.0, tail.value.1))
  }

  /** The regular expression `viewBox="\d+ \d+ (\d+) (\d+)"` anchored at the
      start of `t`, with the third number as the width and the fourth as the
      height. */
  function MatchPrefix(t: string): Option<Size> {
    if !StartsWith(t, ViewBoxOpen) then None
    else match Fields(t, |ViewBoxOpen|, ViewBoxSeparators)
      case None => None
      case Some((ds, _)) => Some(Size(height := ParseDecimal(ds[3]), width := ParseDecimal(ds[2])))
  }

  /** A match is a `viewBox` attribute with four numerals at the start of
      the text, and gives its third and fourth numerals. */
  lemma MatchPrefixSpec(t: string)
    ensures MatchPrefix(t).Some? ==> exists x, y, w, h ::
      && Numeral(x) && Numeral(y) && Numeral(w) && Numeral(h)
      && StartsWith(t, ViewBoxText(x, y, w, h))
      && MatchPrefix(t) == Some(Size(height := ParseDecimal(h), width := ParseDecimal(w)))
  {
    if MatchPrefix(t).Some? {
      var ds := Fields(t, |ViewBoxOpen|, ViewBoxSeparators).value.0;
      FieldsAreInterleaved(t, |ViewBoxOpen|, ViewBoxSeparators);
      ViewBoxAtStart(t, ds);
      assert Numeral(ds[0]) && Numeral(ds[1]) && Numeral(ds[2]) && Numeral(ds[3]);
    }
  }

  /** The leftmost match of the regular expression in `s` (the expression has
      no `g` flag, so `match` reports the first one). */
  function FirstMatch(s: string): (r: Option<Size>)
    ensures MatchPrefix(s).Some? ==> r == MatchPrefix(s)
  {
    if s == [] then None
    else match MatchPrefix(s)
      case Some(z) => Some(z)
      case None => FirstMatch(s[1..])
  }

  /** The size the leftmost match gives, or "no size" when the expression
      matches nowhere in the text. */
  function ParseViewBox(content: string): D2Size {
    FirstMatch(content)
  }

  /** A size is the leftmost match; "no size" means no match anywhere. */
  lemma ParseViewBoxSpec(content: string)
    ensures var r := ParseViewBox(content);
      r.Some? ==> exists k :: 0 <= k < |content| && MatchPrefix(content[k..]) == r && NoMatchBefore(content, k)
    ensures ParseViewBox(content).None? <==> forall k :: 0 <= k < |content| ==> MatchPrefix(content[k..]).None?
  {
    FirstMatchNone(content);
    FirstMatchFoundIfAny(content);
  }

  lemma FirstMatchFoundIfAny(s: string)
    ensures FirstMatch(s).Some? ==>
      exists k :: 0 <= k < |s| && MatchPrefix(s[k..]) == FirstMatch(s) && NoMatchBefore(s, k)
  {
    if FirstMatch(s).Some? {
      FirstMatchFound(s);
    }
  }

  predicate Numeral(d: string) {
    |d| > 0 && AllDigits(d)
  }

  predicate Numerals(ds: seq<string>) {
    forall k :: 0 <= k < |ds| ==> Numeral(ds[k])
  }

  /** Numerals, each followed by its separator. */
  function Interleave(ds: seq<string>, seps: string): string
    requires |ds| == |seps|
  {
    if ds == [] then [] else ds[0] + [seps[0]] + Interleave(ds[1..], seps[1..])
  }

  /** The text of a `viewBox` attribute with the given numerals. */
  function ViewBoxText(x: string, y: string, w: string, h: string): string {
    ViewBoxOpen + Interleave([x, y, w, h], ViewBoxSeparators)
  }

  predicate NoDigits(seps: string) {
    forall k :: 0 <= k < |seps| ==> !IsDigit(seps[k])
  }

  lemma SuffixParts(s: string, i: nat, d: string, c: char, rest: string, post: string)
    requires i <= |s| && s[i..] == d + [c] + rest + post
    ensures i + |d| < |s| && s[i..i + |d|] == d && s[i + |d|] == c
    ensures s[i + |d| + 1..] == rest + post
  {
    var whole := s[i..];
    assert s[i..i + |d|] == whole[..|d|];
    assert s[i + |d|] == whole[|d|];
    assert s[i + |d| + 1..] == whole[|d| + 1..];
  }

  lemma TailsKeepShape(ds: seq<string>, seps: string)
    requires |ds| == |seps| && seps != [] && Numerals(ds) && NoDigits(seps)
    ensures Numeral(ds[0]) && !IsDigit(seps[0]) && Numerals(ds[1..]) && NoDigits(seps[1..])
  {
    forall k | 0 <= k < |ds[1..]| ensures Numeral(ds[1..][k]) { assert ds[1..][k] == ds[k + 1]; }
    forall k | 0 <= k < |seps[1..]| ensures !IsDigit(seps[1..][k]) { assert seps[1..][k] == seps[k + 1]; }
  }

  lemma HeadAndTail<T>(xs: seq<T>)
    requires xs != []
    ensures xs == [xs[0]] + xs[1..]
  {
  }

  /** `Fields` reads the first numeral and then the rest. */
  lemma FieldsCons(s: string, i: nat, seps: string, d: string)
    requires i + |d| < |s| && seps != [] && DigitsThen(s, i, seps[0]) == Some(i + |d| + 1)
    requires s[i..i + |d|] == d
    requires Fields(s, i + |d| + 1, seps[1..]).Some?
    ensures Fields(s, i, seps).Some?
    ensures Fields(s, i, seps).value.0 == [d] + Fields(s, i + |d| + 1, seps[1..]).value.0
    ensures Fields(s, i, seps).value.1 == Fields(s, i + |d| + 1, seps[1..]).value.1
  {
    var j := i + |d| + 1;
    assert s[i..j - 1] == d;
  }

  lemma InterleaveCons(ds: seq<string>, seps: string)
    requires |ds| == |seps| && seps != []
    ensures Interleave(ds, seps) == ds[0] + [seps[0]] + Interleave(ds[1..], seps[1..])
  {
  }

  /** `s` holds the numerals from `i` on, each followed by its separator. */
  predicate Laid(s: string, i: nat, ds: seq<string>, seps: string)
    requires |ds| == |seps| && i <= |s|
    decreases |ds|
  {
    ds != [] ==>
      && i + |ds[0]| < |s| && s[i..i + |ds[0]|] == ds[0] && s[i + |ds[0]|] == seps[0]
      && Laid(s, i + |ds[0]| + 1, ds[1..], seps[1..])
  }

  /** Reading `\d+` followed by each separator from `i` on stops just after
      each numeral's separator. */
  predicate ReadAs(s: string, i: nat, ds: seq<string>, seps: string)
    requires |ds| == |seps| && i <= |s|
    decreases |ds|
  {
    ds != [] ==>
      && i + |ds[0]| < |s| && DigitsThen(s, i, seps[0]) == Some(i + |ds[0]| + 1)
      && s[i..i + |ds[0]|] == ds[0]
      && ReadAs(s, i + |ds[0]| + 1, ds[1..], seps[1..])
  }

  lemma {:induction false} ReadAsLaid(s: string, i: nat, ds: seq<string>, seps: string)
    requires |ds| == |seps| && Numerals(ds) && NoDigits(seps) && i <= |s| && Laid(s, i, ds, seps)
    ensures ReadAs(s, i, ds, seps)
    decreases |ds|
  {
    if ds != [] {
      TailsKeepShape(ds, seps);
      OneNumeral(s, i, ds[0], seps[0]);
      ReadAsLaid(s, i + |ds[0]| + 1, ds[1..], seps[1..]);
    }
  }

  lemma {:induction false} LaidOfInterleave(s: string, i: nat, ds: seq<string>, seps: string, post: string)
    requires |ds| == |seps| && i <= |s| && s[i..] == Interleave(ds, seps) + post
    ensures Laid(s, i, ds, seps)
    decreases |ds|
  {
    if ds != [] {
      InterleaveParts(s, i, ds, seps, post);
      LaidOfInterleave(s, i + |ds[0]| + 1, ds[1..], seps[1..], post);
      LaidCons(s, i, ds, seps);
    }
  }

  /** Where `s` holds numerals and separators from `i` on, the first numeral
      and separator come first and the rest follows them. */
  lemma InterleaveParts(s: string, i: nat, ds: seq<string>, seps: string, post: string)
    requires |ds| == |seps| && ds != [] && i <= |s| && s[i..] == Interleave(ds, seps) + post
    ensures i + |ds[0]| < |s| && s[i..i + |ds[0]|] == ds[0] && s[i + |ds[0]|] == seps[0]
    ensures s[i + |ds[0]| + 1..] == Interleave(ds[1..], seps[1..]) + post
  {
    InterleaveCons(ds, seps);
    SuffixParts(s, i, ds[0], seps[0], Interleave(ds[1..], seps[1..]), post);
  }

  lemma LaidCons(s: string, i: nat, ds: seq<string>, seps: string)
    requires |ds| == |seps| && ds != [] && i + |ds[0]| < |s|
    requires s[i..i + |ds[0]|] == ds[0] && s[i + |ds[0]|] == seps[0]
    requires Laid(s, i + |ds[0]| + 1, ds[1..], seps[1..])
    ensures Laid(s, i, ds, seps)
  {
  }

  /** A numeral followed by a non-digit is read up to that non-digit. */
  lemma OneNumeral(s: string, i: nat, d: string, c: char)
    requires Numeral(d) && !IsDigit(c) && i + |d| < |s| && s[i..i + |d|] == d && s[i + |d|] == c
    ensures DigitsThen(s, i, c) == Some(i + |d| + 1)
  {
    DigitRunOfDigits(s, i, d);
  }

  lemma {:induction false} FieldsOfReadAs(s: string, i: nat, ds: seq<string>, seps: string)
    requires |ds| == |seps| && i <= |s| && ReadAs(s, i, ds, seps)
    ensures Fields(s, i, seps).Some?
    ensures Fields(s, i, seps).value.0 == ds
    decreases |ds|
  {
    if seps != [] {
      var d := ds[0];
      FieldsOfReadAs(s, i + |d| + 1, ds[1..], seps[1..]);
      FieldsCons(s, i, seps, d);
      HeadAndTail(ds);
    }
  }

  /** Numerals followed by non-digit separators are read back exactly. */
  lemma FieldsOfInterleave(s: string, i: nat, ds: seq<string>, seps: string, post: string)
    requires |ds| == |seps| && Numerals(ds) && NoDigits(seps)
    requires i <= |s| && s[i..] == Interleave(ds, seps) + post
    ensures Fields(s, i, seps).Some?
    ensures Fields(s, i, seps).value.0 == ds
    ensures Fields(s, i, seps).value.1 == i + |Interleave(ds, seps)|
  {
    LaidOfInterleave(s, i, ds, seps, post);
    ReadAsLaid(s, i, ds, seps);
    FieldsOfReadAs(s, i, ds, seps);
    FieldsAreInterleaved(s, i, seps);
  }

  /** What `Fields` reads is numerals followed by their separators. */
  lemma {:induction false} FieldsAreInterleaved(s: string, i: nat, seps: string)
    requires i <= |s| && Fields(s, i, seps).Some?
    ensures var (ds, e) := Fields(s, i, seps).value;
      Numerals(ds) && e == i + |Interleave(ds, seps)| && s[i..e] == Interleave(ds, seps)
    decreases |seps|
  {
    if seps != [] {
      var j := DigitsThen(s, i, seps[0]).value;
      FieldsAreInterleaved(s, j, seps[1..]);
      var ds := Fields(s, i, seps).value.0;
      var rest := Fields(s, j, seps[1..]).value.0;
      assert ds == [s[i..j - 1]] + rest;
      assert ds[1..] == rest;
      var tail := Interleave(rest, seps[1..]);
      assert Interleave(ds, seps) == s[i..j - 1] + [seps[0]] + tail;
      assert s[i..j + |tail|] == s[i..j - 1] + [s[j - 1]] + s[j..j + |tail|];
      forall k | 0 <= k < |ds| ensures Numeral(ds[k]) {
        if k > 0 { assert ds[k] == rest[k - 1]; }
      }
    }
  }

  lemma ViewBoxTextParts(x: string, y: string, w: string, h: string)
    ensures ViewBoxText(x, y, w, h) == ViewBoxOpen + x + " " + y + " " + w + " " + h + "\""
  {
    var seps := ViewBoxSeparators;
    assert seps[1..][1..][1..][1..] == [];
    assert Interleave([h], seps[1..][1..][1..]) == h + "\"";
    assert Interleave([w, h], seps[1..][1..]) == w + " " + h + "\"";
    assert Interleave([y, w, h], seps[1..]) == y + " " + w + " " + h + "\"";
  }

  /** A text that starts with a well-formed `viewBox` attribute matches, with
      the third and fourth numerals read as width and height. */
  lemma MatchPrefixOfViewBox(t: string, x: string, y: string, w: string, h: string)
    requires Numeral(x) && Numeral(y) && Numeral(w) && Numeral(h)
    requires StartsWith(t, ViewBoxText(x, y, w, h))
    ensures MatchPrefix(t) == Some(Size(height := ParseDecimal(h), width := ParseDecimal(w)))
  {
    var ds, seps := [x, y, w, h], ViewBoxSeparators;
    var body := Interleave(ds, seps);
    var n := |ViewBoxOpen|;
    assert t[..n] == ViewBoxText(x, y, w, h)[..n] == ViewBoxOpen;
    assert t[n..n + |body|] == ViewBoxText(x, y, w, h)[n..] == body;
    assert t[n..] == body + t[n + |body|..];
    assert NoDigits(seps);
    FieldsOfInterleave(t, n, ds, seps, t[n + |body|..]);
  }

  /** The opening followed by the numerals and separators is a `viewBox`
      attribute. */
  lemma ViewBoxAtStart(t: string, ds: seq<string>)
    requires |ds| == 4 && StartsWith(t, ViewBoxOpen)
    requires |ViewBoxOpen| + |Interleave(ds, ViewBoxSeparators)| <= |t|
    requires t[|ViewBoxOpen|..|ViewBoxOpen| + |Interleave(ds, ViewBoxSeparators)|] == Interleave(ds, ViewBoxSeparators)
    ensures StartsWith(t, ViewBoxText(ds[0], ds[1], ds[2], ds[3]))
  {
    var n := |ViewBoxOpen|;
    var body := Interleave(ds, ViewBoxSeparators);
    assert ds == [ds[0], ds[1], ds[2], ds[3]];
    assert t[..n + |body|] == t[..n] + t[n..n + |body|];
  }

  /** The expression matches at no position before `k`. */
  predicate NoMatchBefore(s: string, k: nat)
    requires k <= |s|
  {
    forall j :: 0 <= j < k ==> MatchPrefix(s[j..]).None?
  }

  /** A match preceded by no other is the one `FirstMatch` reports. */
  lemma {:induction false} FirstMatchAt(s: string, k: nat)
    requires k < |s| && MatchPrefix(s[k..]).Some? && NoMatchBefore(s, k)
    ensures FirstMatch(s) == MatchPrefix(s[k..])
    decreases k
  {
    assert s[0..] == s;
    if k > 0 {
      assert s[1..][k - 1..] == s[k..];
      forall j | 0 <= j < k - 1 ensures MatchPrefix(s[1..][j..]).None? {
        assert s[1..][j..] == s[j + 1..];
      }
      FirstMatchAt(s[1..], k - 1);
    }
  }

  /** What `FirstMatch` reports is a match preceded by no other. */
  lemma {:induction false} FirstMatchFound(s: string)
    requires FirstMatch(s).Some?
    ensures exists k :: 0 <= k < |s| && MatchPrefix(s[k..]) == FirstMatch(s) && NoMatchBefore(s, k)
    decreases |s|
  {
    assert s[0..] == s;
    if MatchPrefix(s).None? {
      FirstMatchFound(s[1..]);
      var k :| 0 <= k < |s[1..]| && MatchPrefix(s[1..][k..]) == FirstMatch(s[1..]) && NoMatchBefore(s[1..], k);
      assert s[1..][k..] == s[k + 1..];
      forall j | 0 <= j < k + 1 ensures MatchPrefix(s[j..]).None? {
        if j > 0 { assert s[1..][j - 1..] == s[j..]; }
      }
      assert MatchPrefix(s[k + 1..]) == FirstMatch(s) && NoMatchBefore(s, k + 1);
    } else {
      assert MatchPrefix(s[0..]) == FirstMatch(s) && NoMatchBefore(s, 0);
    }
  }

  /** `FirstMatch` finds the leftmost position where the expression matches. */
  lemma FirstMatchIsLeftmost(s: string, z: Size)
    ensures FirstMatch(s) == Some(z) <==>
      exists k :: 0 <= k < |s| && MatchPrefix(s[k..]) == Some(z) && NoMatchBefore(s, k)
  {
    if FirstMatch(s) == Some(z) {
      FirstMatchFound(s);
    }
    if exists k :: 0 <= k < |s| && MatchPrefix(s[k..]) == Some(z) && NoMatchBefore(s, k) {
      var k :| 0 <= k < |s| && MatchPrefix(s[k..]) == Some(z) && NoMatchBefore(s, k);
      FirstMatchAt(s, k);
    }
  }

  /** `FirstMatch` finds nothing exactly when the expression matches nowhere. */
  lemma {:induction false} FirstMatchNone(s: string)
    ensures FirstMatch(s).None? <==> forall k :: 0 <= k < |s| ==> MatchPrefix(s[k..]).None?
    decreases |s|
  {
    if s != [] {
      FirstMatchNone(s[1..]);
      assert s[0..] == s;
      forall k | 1 <= k < |s| ensures s[1..][k - 1..] == s[k..] { }
    }
  }

  /** Text in which the expression matches nowhere is skipped over. */
  lemma {:induction false} FirstMatchSkips(p: string, q: string)
    requires forall j :: 0 <= j < |p| ==> MatchPrefix((p + q)[j..]).None?
    ensures FirstMatch(p + q) == FirstMatch(q)
    decreases |p|
  {
    if p != [] {
      var s := p + q;
      assert s[0..] == s;
      assert MatchPrefix(s).None?;
      assert FirstMatch(s) == FirstMatch(s[1..]);
      assert s[1..] == p[1..] + q;
      forall j | 0 <= j < |p| - 1 ensures MatchPrefix((p[1..] + q)[j..]).None? {
        assert (p[1..] + q)[j..] == s[j + 1..];
      }
      FirstMatchSkips(p[1..], q);
    } else {
      assert p + q == q;
    }
  }

  /** A `viewBox` with a negative number, a fraction or a doubled space does
      not match, and the search goes on after it. */
  lemma NegativeViewBoxSkipped(q: string)
    ensures FirstMatch("viewBox=\"-1 0 10 10\"" + q) == FirstMatch(q)
  {
    var p := "viewBox=\"-1 0 10 10\"";
    var t := p + q;
    assert t[..|ViewBoxOpen|] == ViewBoxOpen;
    assert t[9] == '-';
    assert DigitRun(t, 9) == 9;
    SkipsWithoutFurtherV(p, q);
  }

  lemma FractionalViewBoxSkipped(q: string)
    ensures FirstMatch("viewBox=\"0 0 6.5 4\"" + q) == FirstMatch(q)
  {
    var p := "viewBox=\"0 0 6.5 4\"";
    var t := p + q;
    assert t[..|ViewBoxOpen|] == ViewBoxOpen;
    assert t[9] == '0' && t[10] == ' ' && t[11] == '0' && t[12] == ' ' && t[13] == '6' && t[14] == '.';
    assert DigitRun(t, 10) == 10 && DigitRun(t, 12) == 12 && DigitRun(t, 14) == 14;
    assert DigitsThen(t, 9, ' ') == Some(11);
    assert DigitsThen(t, 11, ' ') == Some(13);
    assert DigitsThen(t, 13, ' ') == None;
    SkipsWithoutFurtherV(p, q);
  }

  lemma DoubleSpacedViewBoxSkipped(q: string)
    ensures FirstMatch("viewBox=\"0  0 10 10\"" + q) == FirstMatch(q)
  {
    var p := "viewBox=\"0  0 10 10\"";
    var t := p + q;
    assert t[..|ViewBoxOpen|] == ViewBoxOpen;
    assert t[9] == '0' && t[10] == ' ' && t[11] == ' ';
    assert DigitRun(t, 10) == 10 && DigitRun(t, 11) == 11;
    assert DigitsThen(t, 9, ' ') == Some(11);
    assert DigitsThen(t, 11, ' ') == None;
    SkipsWithoutFurtherV(p, q);
  }

  /** A text that does not match at its start and has no other `v` is skipped. */
  lemma SkipsWithoutFurtherV(p: string, q: string)
    requires MatchPrefix(p + q).None?
    requires forall j :: 0 < j < |p| ==> p[j] != 'v'
    ensures FirstMatch(p + q) == FirstMatch(q)
  {
    forall j | 0 <= j < |p| ensures MatchPrefix((p + q)[j..]).None? {
      if j == 0 {
        assert (p + q)[0..] == p + q;
      } else {
        var t := (p + q)[j..];
        assert t[0] == p[j];
        NoMatchWithoutV(t);
      }
    }
    FirstMatchSkips(p, q);
  }

  /** The expression cannot match where the text does not start with `v`. */
  lemma NoMatchWithoutV(t: string)
    requires t != [] && t[0] != 'v'
    ensures MatchPrefix(t).None?
  {
    if |ViewBoxOpen| <= |t| {
      assert t[..|ViewBoxOpen|][0] != ViewBoxOpen[0];
    }
  }

  /** The example of a 640 by 480 diagram. */
  lemma ViewBoxExample(q: string)
    ensures ParseViewBox("viewBox=\"0 0 640 480\"" + q) == Some(Size(height := 480, width := 640))
  {
    var p := "viewBox=\"0 0 640 480\"";
    ExampleViewBoxText();
    assert (p + q)[..|p|] == p;
    MatchPrefixOfViewBox(p + q, "0", "0", "640", "480");
    ExampleDecimals();
  }

  lemma ExampleViewBoxText()
    ensures Numeral("0") && Numeral("640") && Numeral("480")
    ensures ViewBoxText("0", "0", "640", "480") == "viewBox=\"0 0 640 480\""
  {
  }

  lemma ExampleDecimals()
    ensures ParseDecimal("640") == 640 && ParseDecimal("480") == 480
  {
    assert "640"[..2] == "64" && "64"[..1] == "6" && "6"[..0] == "";
    assert "480"[..2] == "48" && "48"[..1] == "4" && "4"[..0] == "";
  }

  // ---------------------------------------------------------------------------
  // Version probe

  /** The regular expression `^\d+\.\d+\.\d+$` (no `m` flag, so `$` is the end
      of the whole string): two runs of digits each followed by a dot, then a
      run of digits up to the end. */
  predicate IsVersion(s: string) {
    match Fields(s, 0, "..")
    case None => false
    case Some((_, e)) => |s| > e && DigitRun(s, e) == |s|
  }

  /** Three numerals joined by dots. */
  function VersionParts(major: string, minor: string, patch: string): string {
    Interleave([major, minor], "..") + patch
  }

  /** `IsVersion` accepts exactly three numerals joined by dots. */
  lemma IsVersionIff(s: string)
    ensures IsVersion(s) <==>
      exists a, b, c :: Numeral(a) && Numeral(b) && Numeral(c) && s == VersionParts(a, b, c)
  {
    if IsVersion(s) {
      IsVersionSound(s);
    }
    if exists a, b, c :: Numeral(a) && Numeral(b) && Numeral(c) && s == VersionParts(a, b, c) {
      var a, b, c :| Numeral(a) && Numeral(b) && Numeral(c) && s == VersionParts(a, b, c);
      VersionPartsAccepted(a, b, c);
    }
  }

  lemma IsVersionSound(s: string)
    requires IsVersion(s)
    ensures exists a, b, c :: Numeral(a) && Numeral(b) && Numeral(c) && s == VersionParts(a, b, c)
  {
    VersionReads(s);
    var r := Fields(s, 0, "..");
    var ds, e := r.value.0, r.value.1;
    FieldsAreInterleaved(s, 0, "..");
    VersionSplits(s, ds, e);
    assert Numeral(ds[0]) && Numeral(ds[1]);
  }

  /** A version reads two dotted numerals and then digits to the end. */
  lemma VersionReads(s: string)
    requires IsVersion(s)
    ensures Fields(s, 0, "..").Some?
    ensures var e := Fields(s, 0, "..").value.1; |s| > e && Numeral(s[e..])
  {
    var e := Fields(s, 0, "..").value.1;
    DigitsToEnd(s, e);
  }

  lemma DigitsToEnd(s: string, e: nat)
    requires e < |s| && DigitRun(s, e) == |s|
    ensures Numeral(s[e..])
  {
    DigitRunDigits(s, e);
    assert s[e..|s|] == s[e..];
  }

  lemma VersionSplits(s: string, ds: seq<string>, e: nat)
    requires |ds| == 2 && e <= |s| && s[0..e] == Interleave(ds, "..")
    ensures s == VersionParts(ds[0], ds[1], s[e..])
  {
    assert ds == [ds[0], ds[1]];
    assert s == s[0..e] + s[e..];
  }

  lemma VersionPartsAccepted(a: string, b: string, c: string)
    requires Numeral(a) && Numeral(b) && Numeral(c)
    ensures IsVersion(VersionParts(a, b, c))
  {
    var s := VersionParts(a, b, c);
    var body := Interleave([a, b], "..");
    assert s[0..] == body + c;
    assert NoDigits("..");
    assert Numerals([a, b]);
    FieldsOfInterleave(s, 0, [a, b], "..", c);
    assert s[|body|..] == c;
    DigitRunToEnd(s, |body|);
  }

  lemma {:induction false} DigitRunToEnd(s: string, i: nat)
    requires i <= |s| && AllDigits(s[i..])
    ensures DigitRun(s, i) == |s|
    decreases |s| - i
  {
    if i < |s| {
      assert s[i] == s[i..][0];
      assert s[i + 1..] == s[i..][1..];
      DigitRunToEnd(s, i + 1);
    }
  }

  function VersionText(major: nat, minor: nat, patch: nat): string {
    VersionParts(NatToString(major), NatToString(minor), NatToString(patch))
  }

  /** Every `major.minor.patch` written in decimal is accepted. */
  lemma VersionTextAccepted(major: nat, minor: nat, patch: nat)
    ensures IsVersion(VersionText(major, minor, patch))
  {
    VersionPartsAccepted(NatToString(major), NatToString(minor), NatToString(patch));
  }

  lemma VersionEndsInDigit(s: string)
    ensures IsVersion(s) ==> |s| > 0 && IsDigit(s[|s| - 1])
  {
    if IsVersion(s) {
      IsVersionSound(s);
      var a, b, c :| Numeral(a) && Numeral(b) && Numeral(c) && s == VersionParts(a, b, c);
      assert s[|s| - 1] == c[|c| - 1];
    }
  }

  /** A version ends in a digit, so any trailing text that does not end in a
      digit (a newline, say) is rejected. */
  lemma VersionRejectsTrailingText(s: string, t: string)
    requires t != [] && !IsDigit(t[|t| - 1])
    ensures !IsVersion(s + t)
  {
    VersionEndsInDigit(s + t);
    assert (s + t)[|s + t| - 1] == t[|t| - 1];
  }

  /** The first line the version query prints. */
  const VersionQuery: Invocation := Invocation("d2", ["--version"], None)

  /** `getD2Version`: the first printed line when it is a version; an error for
      a subprocess failure, no output, an empty line or anything else. */
  function GetD2Version(exec: Invocation -> ExecOutcome): (r: Result<string, D2Error>)
    ensures r.Ok? <==>
      exec(VersionQuery).ExecOk? && |exec(VersionQuery).stdout| > 0 && IsVersion(exec(VersionQuery).stdout[0])
    ensures r.Ok? ==> r.value == exec(VersionQuery).stdout[0]
    ensures r.Err? ==> r.error == VersionFailed
  {
    match exec(VersionQuery)
    case ExecFailed => Err(VersionFailed)
    case ExecOk(lines) =>
      if |lines| == 0 || lines[0] == "" || !IsVersion(lines[0]) then Err(VersionFailed) else Ok(lines[0])
  }

  /** `isD2Installed`: the probe never fails, it answers whether a version was read. */
  function IsD2Installed(exec: Invocation -> ExecOutcome): (installed: bool)
    ensures installed <==> GetD2Version(exec).Ok?
  {
    match GetD2Version(exec)
    case Ok(_) => true
    case Err(_) => false
  }
}
