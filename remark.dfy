/** The remark plugin: every fenced `d2` block of a Markdown document is
    rendered to an SVG artifact and replaced, in place, by an `<img>` tag
    pointing at it. */
module Remark {
  import opened Wrappers
  import opened Text
  import opened Config
  import opened D2
  import opened Mdast

  // ---------------------------------------------------------------------------
  // The attribute record of the image tag

  /** A string-keyed record in property order (its keys are never integer-like,
      so the order is the order of first assignment). */
  type Entries = seq<(string, string)>

  function Keys(es: Entries): (ks: seq<string>)
    ensures |ks| == |es| && forall i :: 0 <= i < |es| ==> ks[i] == es[i].0
  {
    seq(|es|, i requires 0 <= i < |es| => es[i].0)
  }

  predicate DistinctKeys(es: Entries) {
    forall i, j :: 0 <= i < j < |es| ==> es[i].0 != es[j].0
  }

  function Lookup(es: Entries, key: string): Option<string> {
    if es == [] then None
    else if es[0].0 == key then Some(es[0].1)
    else Lookup(es[1..], key)
  }

  /** `record[key] = value`: an existing property keeps its place and takes
      the new value, a new one goes last. */
  function Assigned(es: Entries, key: string, value: string): Entries {
    if es == [] then [(key, value)]
    else if es[0].0 == key then [(key, value)] + es[1..]
    else [es[0]] + Assigned(es[1..], key, value)
  }

  /** The assignments in order. */
  function AssignedAll(es: Entries, kvs: Entries): Entries
    decreases |kvs|
  {
    if kvs == [] then es else AssignedAll(Assigned(es, kvs[0].0, kvs[0].1), kvs[1..])
  }

  lemma AssignedAllTwo(es: Entries, a: (string, string), b: (string, string))
    ensures AssignedAll(es, [a]) == Assigned(es, a.0, a.1)
    ensures AssignedAll(es, [a, b]) == Assigned(Assigned(es, a.0, a.1), b.0, b.1)
  {
    assert [a, b][1..] == [b];
    assert [b][1..] == [];
    assert AssignedAll(es, [a, b]) == AssignedAll(Assigned(es, a.0, a.1), [b]);
  }

  /** After an assignment the key reads back its new value; no other key changes. */
  lemma {:induction false} AssignedLookup(es: Entries, key: string, value: string, other: string)
    ensures Lookup(Assigned(es, key, value), other) ==
            if other == key then Some(value) else Lookup(es, other)
  {
    if es != [] && es[0].0 != key {
      AssignedLookup(es[1..], key, value, other);
    }
  }

  /** An assignment keeps the key order; a new key is appended. */
  lemma {:induction false} AssignedKeys(es: Entries, key: string, value: string)
    ensures Keys(Assigned(es, key, value)) == if key in Keys(es) then Keys(es) else Keys(es) + [key]
  {
    if es != [] {
      AssignedKeys(es[1..], key, value);
      assert es == [es[0]] + es[1..];
      KeysCons(es[0], es[1..]);
      if es[0].0 != key {
        KeysCons(es[0], Assigned(es[1..], key, value));
      } else {
        KeysCons((key, value), es[1..]);
      }
    }
  }

  lemma KeysCons(e: (string, string), es: Entries)
    ensures Keys([e] + es) == [e.0] + Keys(es)
  {
  }

  lemma AssignedNew(es: Entries, key: string, value: string)
    requires key !in Keys(es)
    ensures Assigned(es, key, value) == es + [(key, value)]
  {
    if es != [] {
      assert key !in Keys(es[1..]) by {
        forall i | 0 <= i < |es[1..]| ensures Keys(es[1..])[i] == Keys(es)[i + 1] { }
      }
      AssignedNew(es[1..], key, value);
      assert es == [es[0]] + es[1..];
    }
  }

  lemma AssignedKeepsDistinct(es: Entries, key: string, value: string)
    requires DistinctKeys(es)
    ensures DistinctKeys(Assigned(es, key, value))
  {
    var r := Assigned(es, key, value);
    AssignedKeys(es, key, value);
    assert Keys(r) == if key in Keys(es) then Keys(es) else Keys(es) + [key];
    forall i, j | 0 <= i < j < |r| ensures r[i].0 != r[j].0 {
      assert r[i].0 == Keys(r)[i] && r[j].0 == Keys(r)[j];
      if key !in Keys(es) && j == |es| {
        assert Keys(r)[i] == Keys(es)[i] == es[i].0;
      }
    }
  }

  /** The mutable record `makHtmlImgNode` assembles; property names are unique. */
  class Attributes {
    var entries: Entries

    ghost predicate Valid()
      reads this
    {
      DistinctKeys(entries)
    }

    constructor (initial: Entries)
      requires DistinctKeys(initial)
      ensures Valid() && entries == initial
    {
      entries := initial;
    }

    method Set(key: string, value: string)
      requires Valid()
      modifies this
      ensures Valid() && entries == Assigned(old(entries), key, value)
    {
      AssignedKeepsDistinct(entries, key, value);
      entries := Assigned(entries, key, value);
    }
  }

  // ---------------------------------------------------------------------------
  // Width and height

  /** `Math.round(num / den)` for `den > 0`: the nearest integer, halves
      rounded up. */
  function RoundRatio(num: nat, den: nat): (r: nat)
    requires den > 0
    ensures den * (2 * r) <= 2 * num + den < den * (2 * r + 2)
  {
    var q := (2 * num + den) / (2 * den);
    assert 2 * num + den == (2 * den) * q + (2 * num + den) % (2 * den);
    q
  }

  /** `String(Math.round(width * (size.height / size.width)))`. A zero
      intrinsic width makes the ratio infinite or not a number. */
  function ScaledHeight(width: nat, size: Size): (r: string)
    ensures size.width > 0 ==>
      && |r| > 0 && AllDigits(r)
      && size.width * (2 * ParseDecimal(r)) <= 2 * (width * size.height) + size.width
      && 2 * (width * size.height) + size.width < size.width * (2 * ParseDecimal(r) + 2)
    ensures size.width == 0 && (width == 0 || size.height == 0) ==> r == "NaN"
    ensures size.width == 0 && width > 0 && size.height > 0 ==> r == "Infinity"
  {
    if size.width == 0 then
      (if width == 0 || size.height == 0 then "NaN" else "Infinity")
    else
      var n := RoundRatio(width * size.height, size.width);
      ParseNatToString(n);
      NatToString(n)
  }

  /** The `width` and `height` assignments `computeImgSize` makes, in order. */
  function SizeEntries(meta: DiagramMeta, size: D2Size): (es: Entries)
    ensures Keys(es) == (if meta.width.Some? || size.Some? then ["width"] else []) +
                        (if size.Some? || (meta.width.Some? && meta.height.Some?) then ["height"] else [])
    ensures meta.width.Some? ==> es[0].1 == NatToString(meta.width.value)
  {
    match meta.width
    case Some(w) =>
      [("width", NatToString(w))] +
      (match (meta.height, size)
       case (Some(h), _) => [("height", NatToString(h))]
       case (None, Some(s)) => [("height", ScaledHeight(w, s))]
       case (None, None) => [])
    case None =>
      match size
      case Some(s) => [("width", NatToString(s.width)), ("height", NatToString(s.height))]
      case None => []
  }

  method ComputeImgSize(attributes: Attributes, meta: DiagramMeta, size: D2Size)
    requires attributes.Valid()
    modifies attributes
    ensures attributes.Valid()
    ensures attributes.entries == AssignedAll(old(attributes.entries), SizeEntries(meta, size))
  {
    ghost var initial := attributes.entries;
    if meta.width.Some? {
      var width := ("width", NatToString(meta.width.value));
      attributes.Set(width.0, width.1);
      if meta.height.Some? {
        attributes.Set("height", NatToString(meta.height.value));
        AssignedAllTwo(initial, width, ("height", NatToString(meta.height.value)));
      } else if size.Some? {
        attributes.Set("height", ScaledHeight(meta.width.value, size.value));
        AssignedAllTwo(initial, width, ("height", ScaledHeight(meta.width.value, size.value)));
      } else {
        AssignedAllTwo(initial, width, width);
      }
    } else if size.Some? {
      attributes.Set("width", NatToString(size.value.width));
      attributes.Set("height", NatToString(size.value.height));
      AssignedAllTwo(initial, ("width", NatToString(size.value.width)), ("height", NatToString(size.value.height)));
    }
  }

  /** The record before the size is added. */
  function BaseAttributes(meta: DiagramMeta, imgPath: string): Entries {
    [("alt", meta.title), ("decoding", "async"), ("loading", "lazy"), ("src", imgPath)]
  }

  function ImgAttributes(meta: DiagramMeta, imgPath: string, size: D2Size): Entries {
    AssignedAll(BaseAttributes(meta, imgPath), SizeEntries(meta, size))
  }

  /** Assigning a key the record does not have appends it and keeps the keys
      distinct. */
  lemma AppendNew(es: Entries, e: (string, string))
    requires DistinctKeys(es) && e.0 !in Keys(es)
    ensures Assigned(es, e.0, e.1) == es + [e]
    ensures DistinctKeys(es + [e]) && Keys(es + [e]) == Keys(es) + [e.0]
  {
    AssignedNew(es, e.0, e.1);
    assert forall i :: 0 <= i < |es| ==> es[i].0 == Keys(es)[i];
  }

  lemma BaseKeys(meta: DiagramMeta, imgPath: string)
    ensures Keys(BaseAttributes(meta, imgPath)) == ["alt", "decoding", "loading", "src"]
    ensures DistinctKeys(BaseAttributes(meta, imgPath))
  {
  }

  /** The four fixed attributes come first, in their order, followed by the
      optional `width` and then the optional `height`. */
  lemma ImgAttributesInOrder(meta: DiagramMeta, imgPath: string, size: D2Size)
    ensures ImgAttributes(meta, imgPath, size) == BaseAttributes(meta, imgPath) + SizeEntries(meta, size)
    ensures DistinctKeys(ImgAttributes(meta, imgPath, size))
  {
    var base, extra := BaseAttributes(meta, imgPath), SizeEntries(meta, size);
    BaseKeys(meta, imgPath);
    HeightFollowsWidth(meta, imgPath, size);
    if extra != [] {
      AppendNew(base, extra[0]);
      var once := base + [extra[0]];
      if |extra| == 1 {
        AssignedAllTwo(base, extra[0], extra[0]);
        assert extra == [extra[0]];
      } else {
        AssignedAllTwo(base, extra[0], extra[1]);
        assert extra == [extra[0], extra[1]];
        AppendNew(once, extra[1]);
        assert once + [extra[1]] == base + extra;
      }
    }
  }

  /** Explicit width and height are written verbatim, whatever the intrinsic
      size, present or not. */
  lemma ExplicitDimensions(meta: DiagramMeta, imgPath: string, size: D2Size)
    requires meta.width.Some? && meta.height.Some?
    ensures ImgAttributes(meta, imgPath, size) == BaseAttributes(meta, imgPath) +
              [("width", NatToString(meta.width.value)), ("height", NatToString(meta.height.value))]
  {
    ImgAttributesInOrder(meta, imgPath, size);
  }

  /** An explicit width alone scales the intrinsic height by the intrinsic
      aspect ratio, rounded to the nearest integer. */
  lemma ExplicitWidthScalesHeight(meta: DiagramMeta, imgPath: string, s: Size)
    requires meta.width.Some? && meta.height.None? && s.width > 0
    ensures ImgAttributes(meta, imgPath, Some(s)) == BaseAttributes(meta, imgPath) +
      [("width", NatToString(meta.width.value)),
       ("height", NatToString(RoundRatio(meta.width.value * s.height, s.width)))]
  {
    ImgAttributesInOrder(meta, imgPath, Some(s));
  }

  /** An explicit width with neither an explicit height nor an intrinsic size
      gives a `width` and no `height`. */
  lemma ExplicitWidthAlone(meta: DiagramMeta, imgPath: string)
    requires meta.width.Some? && meta.height.None?
    ensures ImgAttributes(meta, imgPath, None) == BaseAttributes(meta, imgPath) +
              [("width", NatToString(meta.width.value))]
    ensures forall i :: 0 <= i < |ImgAttributes(meta, imgPath, None)| ==>
              ImgAttributes(meta, imgPath, None)[i].0 != "height"
  {
    ImgAttributesInOrder(meta, imgPath, None);
  }

  /** Without an explicit width the intrinsic size is used as it is, and an
      explicit height is ignored; without an intrinsic size nothing is added. */
  lemma IntrinsicDimensions(meta: DiagramMeta, imgPath: string, size: D2Size)
    requires meta.width.None?
    ensures size.Some? ==>
              ImgAttributes(meta, imgPath, size) == BaseAttributes(meta, imgPath) +
                [("width", NatToString(size.value.width)), ("height", NatToString(size.value.height))]
    ensures size.None? ==> ImgAttributes(meta, imgPath, size) == BaseAttributes(meta, imgPath)
  {
    ImgAttributesInOrder(meta, imgPath, size);
  }

  /** A `height` is only ever written after a `width`. */
  lemma HeightFollowsWidth(meta: DiagramMeta, imgPath: string, size: D2Size)
    ensures var es := SizeEntries(meta, size);
      |es| <= 2 && (es != [] ==> es[0].0 == "width") && (|es| == 2 ==> es[1].0 == "height")
    ensures "height" in Keys(SizeEntries(meta, size)) <==>
      (meta.width.Some? && (meta.height.Some? || size.Some?)) || (meta.width.None? && size.Some?)
  {
  }

  // ---------------------------------------------------------------------------
  // The tag text

  function Attribute(e: (string, string)): string {
    e.0 + "=\"" + e.1 + "\""
  }

  /** Each attribute preceded by a space. */
  function Spaced(es: Entries): string {
    if es == [] then "" else " " + Attribute(es[0]) + Spaced(es[1..])
  }

  /** `entries.map(key="value").join(' ')`, with no escaping. */
  function JoinAttributes(es: Entries): string {
    if es == [] then "" else Attribute(es[0]) + Spaced(es[1..])
  }

  function ImgTag(es: Entries): string {
    "<img " + JoinAttributes(es) + " />"
  }

  lemma {:induction false} SpacedConcat(a: Entries, b: Entries)
    ensures Spaced(a + b) == Spaced(a) + Spaced(b)
  {
    if a != [] {
      SpacedConcat(a[1..], b);
      assert (a + b)[1..] == a[1..] + b;
    } else {
      assert a + b == b;
    }
  }

  /** The text of each fixed attribute, with the space before it. */
  lemma FixedAttributesText(title: string, imgPath: string)
    ensures Attribute(("alt", title)) == "alt=\"" + title + "\""
    ensures " " + Attribute(("decoding", "async")) == " decoding=\"async\""
    ensures " " + Attribute(("loading", "lazy")) == " loading=\"lazy\""
    ensures " " + Attribute(("src", imgPath)) == " src=\"" + imgPath + "\""
  {
  }

  lemma Regroup(a: string, d: string, l: string, s: string, x: string)
    ensures "<img " + (a + ((d + (l + (s + ""))) + x)) + " />" == "<img " + a + d + l + s + x + " />"
  {
  }

  lemma TagText(meta: DiagramMeta, imgPath: string, extra: Entries)
    ensures ImgTag(BaseAttributes(meta, imgPath) + extra) ==
      "<img " + ("alt=\"" + meta.title + "\"") + " decoding=\"async\"" + " loading=\"lazy\"" +
      (" src=\"" + imgPath + "\"") + Spaced(extra) + " />"
  {
    var fixed := [("decoding", "async"), ("loading", "lazy"), ("src", imgPath)];
    var all := BaseAttributes(meta, imgPath) + extra;
    assert all[0] == ("alt", meta.title);
    assert all[1..] == fixed + extra;
    SpacedConcat(fixed, extra);
    var two := fixed[1..];
    var one := two[1..];
    assert one[1..] == [];
    assert Spaced(one) == " " + Attribute(("src", imgPath)) + "";
    assert Spaced(two) == " " + Attribute(("loading", "lazy")) + Spaced(one);
    assert Spaced(fixed) == " " + Attribute(("decoding", "async")) + Spaced(two);
    FixedAttributesText(meta.title, imgPath);
    Regroup(Attribute(("alt", meta.title)), " " + Attribute(("decoding", "async")),
            " " + Attribute(("loading", "lazy")), " " + Attribute(("src", imgPath)), Spaced(extra));
  }

  /** The image tag, written out. */
  lemma ImgTagText(meta: DiagramMeta, imgPath: string, size: D2Size)
    ensures ImgTag(ImgAttributes(meta, imgPath, size)) ==
      "<img " + ("alt=\"" + meta.title + "\"") + " decoding=\"async\"" + " loading=\"lazy\"" +
      (" src=\"" + imgPath + "\"") + Spaced(SizeEntries(meta, size)) + " />"
  {
    ImgAttributesInOrder(meta, imgPath, size);
    TagText(meta, imgPath, SizeEntries(meta, size));
  }

  /** The `html` node `makHtmlImgNode` builds. */
  method MakHtmlImgNode(meta: DiagramMeta, imgPath: string, size: D2Size) returns (node: Node)
    ensures node == Html(ImgTag(ImgAttributes(meta, imgPath, size)))
  {
    var attributes := new Attributes(BaseAttributes(meta, imgPath));
    ComputeImgSize(attributes, meta, size);
    node := Html(ImgTag(attributes.entries));
  }

  // ---------------------------------------------------------------------------
  // Where a diagram's artifact goes

  /** The Markdown file being transformed: the working directory and the
      file's absolute path, both `/`-separated and normalised. */
  datatype SourceFile = SourceFile(cwd: string, path: string)

  /** The working directory with one trailing `/`: `/` stays `/`. */
  function CwdRoot(cwd: string): string {
    if EndsWith(cwd, "/") then cwd else cwd + "/"
  }

  predicate InCwd(file: SourceFile) {
    StartsWith(file.path, CwdRoot(file.cwd))
  }

  /** `path.relative(file.cwd, file.path)` for a file below the working directory. */
  function RelativePath(file: SourceFile): string
    requires InCwd(file)
  {
    file.path[|CwdRoot(file.cwd)|..]
  }

  /** A file under the root directory, and one under a directory without a
      trailing `/`, are both below their working directory. */
  lemma RelativePathExamples()
    ensures InCwd(SourceFile("/", "/a.md")) && RelativePath(SourceFile("/", "/a.md")) == "a.md"
    ensures InCwd(SourceFile("/site", "/site/a.md")) && RelativePath(SourceFile("/site", "/site/a.md")) == "a.md"
  {
    assert EndsWith("/", "/");
    assert !EndsWith("/site", "/") by { assert "/site"[4..] == "e"; }
    assert "/a.md"[..1] == "/" && "/a.md"[1..] == "a.md";
    assert "/site/a.md"[..6] == "/site/" && "/site/a.md"[6..] == "a.md";
  }

  const ContentRoot: string := "src/content/"
  const PagesRoot: string := "src/pages/"

  /** Remove one leading `src/content/` or `src/pages/`. */
  function StripContentRoot(rel: string): string {
    if StartsWith(rel, ContentRoot) then rel[|ContentRoot|..]
    else if StartsWith(rel, PagesRoot) then rel[|PagesRoot|..]
    else rel
  }

  /** Where `c` last occurs in `s`, if anywhere. */
  function LastIndex(s: string, c: char): (r: Option<nat>)
    ensures r.Some? ==> r.value < |s| && s[r.value] == c
  {
    if s == [] then None
    else if s[|s| - 1] == c then Some(|s| - 1)
    else LastIndex(s[..|s| - 1], c)
  }

  lemma {:induction false} LastIndexSpec(s: string, c: char)
    ensures LastIndex(s, c).Some? ==> forall j :: LastIndex(s, c).value < j < |s| ==> s[j] != c
    ensures LastIndex(s, c).None? ==> forall j :: 0 <= j < |s| ==> s[j] != c
  {
    if s != [] && s[|s| - 1] != c {
      LastIndexSpec(s[..|s| - 1], c);
    }
  }

  /** `path.parse(p).dir` for a relative path: everything before the last `/`. */
  function DirName(p: string): string {
    match LastIndex(p, '/')
    case None => ""
    case Some(i) => p[..i]
  }

  /** `path.parse(p).base`: everything after the last `/`. */
  function BaseName(p: string): string {
    match LastIndex(p, '/')
    case None => p
    case Some(i) => p[i + 1..]
  }

  /** Without a `/` the directory is empty; otherwise the path is the
      directory, one `/` and the base name. */
  lemma DirNameSpec(p: string)
    ensures '/' !in p ==> DirName(p) == ""
    ensures '/' in p ==> p == DirName(p) + "/" + BaseName(p)
  {
    LastIndexSpec(p, '/');
    if LastIndex(p, '/').Some? {
      var i := LastIndex(p, '/').value;
      assert p == p[..i] + "/" + p[i + 1..];
    }
  }

  /** The base name is the part of the path after its last `/`. */
  lemma BaseNameSpec(p: string)
    ensures '/' !in BaseName(p) && EndsWith(p, BaseName(p))
    ensures '/' !in p ==> BaseName(p) == p
    ensures |BaseName(p)| < |p| ==> p[|p| - |BaseName(p)| - 1] == '/'
  {
    LastIndexSpec(p, '/');
    if LastIndex(p, '/').Some? {
      var i := LastIndex(p, '/').value;
      var rest := p[i + 1..];
      assert forall j :: 0 <= j < |rest| ==> rest[j] == p[i + 1 + j];
    }
  }

  /** `path.parse(p).name`: the base name without its last extension. A dot
      that starts the base name, and the name `..`, begin no extension. */
  function StemName(base: string): string {
    match LastIndex(base, '.')
    case None => base
    case Some(i) => if i == 0 || base == ".." then base else base[..i]
  }

  /** A base name without a dot after its first character, and `..`, keep
      their name whole; otherwise the name stops before the last dot. */
  lemma StemNameSpec(base: string)
    ensures (base == ".." || forall j :: 0 < j < |base| ==> base[j] != '.') ==> StemName(base) == base
    ensures (base != ".." && exists j :: 0 < j < |base| && base[j] == '.') ==>
      var name := StemName(base);
      && 0 < |name| < |base| && base[..|name|] == name && base[|name|] == '.'
      && forall j :: |name| < j < |base| ==> base[j] != '.'
  {
    LastIndexSpec(base, '.');
  }

  lemma StemNameExamples()
    ensures StemName("post.md") == "post"
    ensures StemName("a.b.md") == "a.b"
    ensures StemName(".env") == ".env"
    ensures StemName("README") == "README"
  {
    StemNameSpec("post.md");
    StemNameSpec("a.b.md");
    StemNameSpec(".env");
    StemNameSpec("README");
    assert "post.md"[4] == '.';
    assert "a.b.md"[3] == '.';
  }

  /** What `path.join` puts in front of a non-empty next segment. */
  function JoinStem(a: string): string {
    if a == "" then "" else if EndsWith(a, "/") then a else a + "/"
  }

  /** `path.join(a, b)` for normalised segments: an empty segment adds
      nothing, and two non-empty ones are joined by exactly one `/`. */
  function Join(a: string, b: string): string {
    if b == "" then a else JoinStem(a) + b
  }

  lemma JoinSpec(a: string, b: string)
    ensures b == "" ==> Join(a, b) == a
    ensures b != "" && a == "" ==> Join(a, b) == b
    ensures b != "" && a != "" ==>
      (EndsWith(a, "/") && Join(a, b) == a + b) || (!EndsWith(a, "/") && Join(a, b) == a + "/" + b)
  {
  }

  datatype OutputPaths = OutputPaths(fsPath: string, imgPath: string)

  /** `<dir>/<name>-<nodeIndex>.svg` of the file's path, relative to the
      content root. */
  function RelativeOutputPath(file: SourceFile, nodeIndex: nat): string
    requires InCwd(file)
  {
    var rel := StripContentRoot(RelativePath(file));
    Join(DirName(rel), StemName(BaseName(rel)) + "-" + NatToString(nodeIndex) + ".svg")
  }

  /** The artifact on disk below `public/`, and the URL it is served at. */
  function GetOutputPaths(config: AstroD2Config, file: SourceFile, nodeIndex: nat): OutputPaths
    requires InCwd(file)
  {
    var tail := RelativeOutputPath(file, nodeIndex);
    OutputPaths(Join(Join(Join(file.cwd, "public"), config.output), tail),
                Join(Join("/", config.output), tail))
  }

  /** Both paths end in `<dir>/<name>-<nodeIndex>.svg`, and the URL starts
      at the configured output directory below the site root. */
  lemma OutputPathsTail(config: AstroD2Config, file: SourceFile, nodeIndex: nat)
    requires InCwd(file)
    ensures var paths := GetOutputPaths(config, file, nodeIndex);
      && EndsWith(paths.fsPath, RelativeOutputPath(file, nodeIndex))
      && EndsWith(paths.imgPath, RelativeOutputPath(file, nodeIndex))
      && StartsWith(paths.imgPath, "/" + config.output)
    ensures RelativeOutputPath(file, nodeIndex) == OutputStem(file) + NatToString(nodeIndex) + ".svg"
  {
    RelativeOutputPathForm(file, nodeIndex);
    var tail := RelativeOutputPath(file, nodeIndex);
    JoinNonEmpty(Join(Join(file.cwd, "public"), config.output), tail);
    JoinNonEmpty(Join("/", config.output), tail);
    ImgRootIsOutput(config);
  }

  /** The artifact lies below `public/` and the output directory in the
      working directory, and the URL below the output directory at the site
      root. */
  lemma OutputPathsRooted(config: AstroD2Config, file: SourceFile, n: nat)
    requires InCwd(file)
    ensures StartsWith(GetOutputPaths(config, file, n).fsPath, JoinStem(file.cwd) + "public/" + JoinStem(config.output))
    ensures StartsWith(GetOutputPaths(config, file, n).imgPath, "/" + JoinStem(config.output))
  {
    var tail := OutputStem(file) + NatToString(n) + ".svg";
    OutputPathsForm(config, file, n);
    FsDirStem(file.cwd, config.output);
    ImgDirStem(config.output);
    PrefixOfConcat(JoinStem(file.cwd) + "public/" + JoinStem(config.output), tail);
    PrefixOfConcat("/" + JoinStem(config.output), tail);
  }

  /** With both directories written without a trailing `/`, the artifact
      lies below `<cwd>/public/<output>/`. */
  lemma OutputPathsUnderPublic(config: AstroD2Config, file: SourceFile, n: nat)
    requires InCwd(file)
    requires file.cwd != "" && !EndsWith(file.cwd, "/") && config.output != "" && !EndsWith(config.output, "/")
    ensures StartsWith(GetOutputPaths(config, file, n).fsPath, file.cwd + "/public/" + config.output + "/")
  {
    OutputPathsRooted(config, file, n);
    RootText(file.cwd, config.output);
  }

  lemma RootText(cwd: string, output: string)
    requires cwd != "" && !EndsWith(cwd, "/") && output != "" && !EndsWith(output, "/")
    ensures JoinStem(cwd) + "public/" + JoinStem(output) == cwd + "/public/" + output + "/"
  {
    assert "/" + "public/" == "/public/";
    RegroupRoot(cwd, "/", "public/", output, "/");
  }

  lemma RegroupRoot(a: string, b: string, c: string, d: string, e: string)
    ensures (a + b) + c + (d + e) == a + (b + c) + d + e
  {
  }

  lemma PrefixOfConcat(a: string, b: string)
    ensures StartsWith(a + b, a)
  {
    assert (a + b)[..|a|] == a;
  }

  /** A non-empty segment decides alone whether `path.join` adds a `/` after it. */
  lemma JoinStemAfter(x: string, y: string)
    requires y != ""
    ensures JoinStem(x + y) == x + JoinStem(y)
  {
    assert (x + y)[|x + y| - 1..] == y[|y| - 1..];
  }

  lemma JoinThenStem(a: string, y: string)
    requires y != ""
    ensures JoinStem(Join(a, y)) == JoinStem(a) + JoinStem(y)
  {
    JoinNonEmpty(a, y);
    JoinStemAfter(JoinStem(a), y);
  }

  lemma FsDirStem(cwd: string, output: string)
    ensures JoinStem(Join(Join(cwd, "public"), output)) == JoinStem(cwd) + "public/" + JoinStem(output)
  {
    var pub := Join(cwd, "public");
    JoinThenStem(cwd, "public");
    assert JoinStem("public") == "public/" by { assert "public"[5..] != "/"; }
    if output != "" {
      JoinThenStem(pub, output);
    }
  }

  lemma ImgDirStem(output: string)
    ensures JoinStem(Join("/", output)) == "/" + JoinStem(output)
  {
    if output != "" {
      JoinThenStem("/", output);
      assert JoinStem("/") == "/" by { assert EndsWith("/", "/"); }
    }
  }

  /** At most one content root is removed, and only at the start. */
  lemma StripAtMostOnce(rel: string)
    ensures StartsWith(rel, ContentRoot) ==> rel == ContentRoot + StripContentRoot(rel)
    ensures !StartsWith(rel, ContentRoot) && StartsWith(rel, PagesRoot) ==>
              rel == PagesRoot + StripContentRoot(rel)
    ensures !StartsWith(rel, ContentRoot) && !StartsWith(rel, PagesRoot) ==> StripContentRoot(rel) == rel
  {
  }

  lemma StripOnlyOnce(rest: string)
    ensures StripContentRoot(ContentRoot + PagesRoot + rest) == PagesRoot + rest
    ensures StripContentRoot(PagesRoot + ContentRoot + rest) == ContentRoot + rest
  {
    assert (ContentRoot + PagesRoot + rest)[..|ContentRoot|] == ContentRoot;
    assert (ContentRoot + PagesRoot + rest)[|ContentRoot|..] == PagesRoot + rest;
    assert (PagesRoot + ContentRoot + rest)[..|ContentRoot|][4] != ContentRoot[4];
    assert (PagesRoot + ContentRoot + rest)[..|PagesRoot|] == PagesRoot;
    assert (PagesRoot + ContentRoot + rest)[|PagesRoot|..] == ContentRoot + rest;
  }

  lemma JoinNonEmpty(a: string, b: string)
    requires b != ""
    ensures Join(a, b) == JoinStem(a) + b
    ensures StartsWith(Join(a, b), a) && EndsWith(Join(a, b), b)
  {
    assert (a + "/")[..|a|] == a;
    assert (JoinStem(a) + b)[..|a|] == JoinStem(a)[..|a|];
    assert (JoinStem(a) + b)[|JoinStem(a) + b| - |b|..] == b;
  }

  /** The part every artifact path of the file shares in front of the ordinal. */
  function OutputStem(file: SourceFile): string
    requires InCwd(file)
  {
    var rel := StripContentRoot(RelativePath(file));
    JoinStem(DirName(rel)) + StemName(BaseName(rel)) + "-"
  }

  /** The relative part is `<dir>/<name>-<nodeIndex>.svg`. */
  lemma RelativeOutputPathForm(file: SourceFile, nodeIndex: nat)
    requires InCwd(file)
    ensures RelativeOutputPath(file, nodeIndex) == OutputStem(file) + NatToString(nodeIndex) + ".svg"
  {
    var rel := StripContentRoot(RelativePath(file));
    var name, n := StemName(BaseName(rel)), NatToString(nodeIndex);
    JoinNonEmpty(DirName(rel), name + "-" + n + ".svg");
    StemRegroup(JoinStem(DirName(rel)), name, n);
  }

  lemma StemRegroup(dir: string, name: string, n: string)
    ensures dir + (name + "-" + n + ".svg") == dir + name + "-" + n + ".svg"
  {
  }

  lemma ImgRootIsOutput(config: AstroD2Config)
    ensures Join("/", config.output) == "/" + config.output
  {
    if config.output != "" { JoinNonEmpty("/", config.output); }
  }

  lemma OutputPathsForm(config: AstroD2Config, file: SourceFile, n: nat)
    requires InCwd(file)
    ensures GetOutputPaths(config, file, n).fsPath ==
      JoinStem(Join(Join(file.cwd, "public"), config.output)) + (OutputStem(file) + NatToString(n) + ".svg")
    ensures GetOutputPaths(config, file, n).imgPath ==
      JoinStem(Join("/", config.output)) + (OutputStem(file) + NatToString(n) + ".svg")
  {
    RelativeOutputPathForm(file, n);
    var tail := RelativeOutputPath(file, n);
    JoinNonEmpty(Join(Join(file.cwd, "public"), config.output), tail);
    JoinNonEmpty(Join("/", config.output), tail);
  }

  lemma Cancel(a: string, s: string, x: string, y: string, b: string)
    requires a + (s + x + b) == a + (s + y + b)
    ensures x == y
  {
    assert |x| == |y|;
    assert x == (a + (s + x + b))[|a| + |s|..|a| + |s| + |x|];
    assert y == (a + (s + y + b))[|a| + |s|..|a| + |s| + |y|];
  }

  /** Two blocks of one file never share an artifact or a URL. */
  lemma OutputPathsInjective(config: AstroD2Config, file: SourceFile, i: nat, j: nat)
    requires InCwd(file)
    ensures GetOutputPaths(config, file, i).fsPath == GetOutputPaths(config, file, j).fsPath ==> i == j
    ensures GetOutputPaths(config, file, i).imgPath == GetOutputPaths(config, file, j).imgPath ==> i == j
  {
    var fsRoot := JoinStem(Join(Join(file.cwd, "public"), config.output));
    var imgRoot := JoinStem(Join("/", config.output));
    OutputPathsForm(config, file, i);
    OutputPathsForm(config, file, j);
    if GetOutputPaths(config, file, i).fsPath == GetOutputPaths(config, file, j).fsPath {
      Cancel(fsRoot, OutputStem(file), NatToString(i), NatToString(j), ".svg");
      NatToStringInjective(i, j);
    }
    if GetOutputPaths(config, file, i).imgPath == GetOutputPaths(config, file, j).imgPath {
      Cancel(imgRoot, OutputStem(file), NatToString(i), NatToString(j), ".svg");
      NatToStringInjective(i, j);
    }
  }

  // ---------------------------------------------------------------------------
  // The transformer

  datatype TransformError =
    | SizeFailure(cause: D2Error)              // reading a reused artifact failed
    | RenderFailure(message: string)           // rendering a block failed

  /** Where a code block starts; `0:0` when the parser recorded no position. */
  function StartOf(node: Node): (nat, nat)
    requires node.Code?
  {
    match node.start
    case Some(p) => (p.line, p.column)
    case None => (0, 0)
  }

  /** The message a failed block is reported with: its `line:column`. */
  function RenderFailureMessage(node: Node): string
    requires node.Code?
  {
    "Failed to generate the D2 diagram at " + NatToString(StartOf(node).0) + ":" + NatToString(StartOf(node).1) + "."
  }

  /** A block without a recorded position is reported at `0:0`; one with a
      position at its line and column. */
  lemma FailureMessagePosition(node: Node)
    requires node.Code?
    ensures node.start.None? ==> RenderFailureMessage(node) == "Failed to generate the D2 diagram at 0:0."
    ensures node.start.Some? ==> (RenderFailureMessage(node) ==
      "Failed to generate the D2 diagram at " + NatToString(node.start.value.line) + ":" +
      NatToString(node.start.value.column) + ".")
  {
  }

  /** What one block's work yields: in skip mode, the artifact of an earlier
      run is measured and a failed read is an error; otherwise `d2` renders
      the block, and a failed run or a failed read of the new artifact is a
      render failure reported at the block's position. On success the block
      becomes the image tag with the size parsed from the artifact. */
  predicate BlockOutcome(config: AstroD2Config, file: SourceFile, node: Node, nodeIndex: nat,
                         getMeta: Option<string> -> DiagramMeta,
                         exec: Invocation -> ExecOutcome, readFile: string -> ReadOutcome,
                         r: Result<Node, TransformError>)
    requires InCwd(file) && node.Code?
  {
    var paths := GetOutputPaths(config, file, nodeIndex);
    var meta := getMeta(node.meta);
    var read := readFile(paths.fsPath);
    var failed :=
      read.ReadFailed? ||
      (!config.skipGeneration && exec(RenderInvocation(config, meta, node.value, paths.fsPath)).ExecFailed?);
    && (r.Err? <==> failed)
    && (r.Err? && config.skipGeneration ==> r.error == SizeFailure(SizeReadFailed(paths.fsPath)))
    && (r.Err? && !config.skipGeneration ==> r.error == RenderFailure(RenderFailureMessage(node)))
    && (!failed ==> r == Ok(Html(ImgTag(ImgAttributes(meta, paths.imgPath, ParseViewBox(read.content))))))
  }

  /** What rendering the `d2` block `node`, the `nodeIndex`-th of the file,
      gives: the image node that replaces it, or why the transformation fails.
      In skip mode the artifact of an earlier run is measured instead. */
  function BlockImage(config: AstroD2Config, file: SourceFile, node: Node, nodeIndex: nat,
                      getMeta: Option<string> -> DiagramMeta,
                      exec: Invocation -> ExecOutcome, readFile: string -> ReadOutcome): (r: Result<Node, TransformError>)
    requires InCwd(file) && node.Code?
    ensures r.Ok? ==> r.value.Html?
  {
    var paths := GetOutputPaths(config, file, nodeIndex);
    var meta := getMeta(node.meta);
    var size :=
      if config.skipGeneration then
        (match GetD2DiagramSize(paths.fsPath, readFile)
         case Ok(s) => Ok(s)
         case Err(e) => Err(SizeFailure(e)))
      else
        (match Generated(config, meta, node.value, paths.fsPath, exec, readFile)
         case Ok(s) => Ok(s)
         case Err(_) => Err(RenderFailure(RenderFailureMessage(node))));
    match size
    case Ok(s) => Ok(Html(ImgTag(ImgAttributes(meta, paths.imgPath, s))))
    case Err(e) => Err(e)
  }

  /** The image or the error of one block is the one its outcome describes. */
  lemma BlockImageOutcome(config: AstroD2Config, file: SourceFile, node: Node, nodeIndex: nat,
                          getMeta: Option<string> -> DiagramMeta,
                          exec: Invocation -> ExecOutcome, readFile: string -> ReadOutcome)
    requires InCwd(file) && node.Code?
    ensures BlockOutcome(config, file, node, nodeIndex, getMeta, exec, readFile,
                         BlockImage(config, file, node, nodeIndex, getMeta, exec, readFile))
  {
  }

  /** In skip mode a block is measured from the artifact of an earlier run. */
  lemma BlockImageSkipped(config: AstroD2Config, file: SourceFile, node: Node, nodeIndex: nat,
                          getMeta: Option<string> -> DiagramMeta,
                          exec: Invocation -> ExecOutcome, readFile: string -> ReadOutcome)
    requires InCwd(file) && node.Code? && config.skipGeneration
    ensures var paths := GetOutputPaths(config, file, nodeIndex);
      BlockImage(config, file, node, nodeIndex, getMeta, exec, readFile) ==
        match GetD2DiagramSize(paths.fsPath, readFile)
        case Ok(size) => Ok(Html(ImgTag(ImgAttributes(getMeta(node.meta), paths.imgPath, size))))
        case Err(e) => Err(SizeFailure(e))
  {
  }

  /** Otherwise a block is rendered, and any failure is reported at its position. */
  lemma BlockImageRendered(config: AstroD2Config, file: SourceFile, node: Node, nodeIndex: nat,
                           getMeta: Option<string> -> DiagramMeta,
                           exec: Invocation -> ExecOutcome, readFile: string -> ReadOutcome)
    requires InCwd(file) && node.Code? && !config.skipGeneration
    ensures var paths := GetOutputPaths(config, file, nodeIndex);
      BlockImage(config, file, node, nodeIndex, getMeta, exec, readFile) ==
        match Generated(config, getMeta(node.meta), node.value, paths.fsPath, exec, readFile)
        case Ok(size) => Ok(Html(ImgTag(ImgAttributes(getMeta(node.meta), paths.imgPath, size))))
        case Err(_) => Err(RenderFailure(RenderFailureMessage(node)))
  {
  }

  /** The body of the per-block callback, up to the splice. */
  method RenderBlock(config: AstroD2Config, file: SourceFile, node: Node, nodeIndex: nat,
                     getMeta: Option<string> -> DiagramMeta,
                     exec: Invocation -> ExecOutcome, readFile: string -> ReadOutcome)
    returns (r: Result<Node, TransformError>)
    requires InCwd(file) && node.Code?
    ensures r == BlockImage(config, file, node, nodeIndex, getMeta, exec, readFile)
    ensures BlockOutcome(config, file, node, nodeIndex, getMeta, exec, readFile, r)
  {
    BlockImageOutcome(config, file, node, nodeIndex, getMeta, exec, readFile);
    var outputPath := GetOutputPaths(config, file, nodeIndex);
    var meta := getMeta(node.meta);
    var size: D2Size := None;
    if config.skipGeneration {
      BlockImageSkipped(config, file, node, nodeIndex, getMeta, exec, readFile);
      var read := GetD2DiagramSize(outputPath.fsPath, readFile);
      if read.Err? {
        return Err(SizeFailure(read.error));
      }
      size := read.value;
    } else {
      BlockImageRendered(config, file, node, nodeIndex, getMeta, exec, readFile);
      var generated := GenerateD2Diagram(config, meta, node.value, outputPath.fsPath, exec, readFile);
      assert generated == Generated(config, meta, node.value, outputPath.fsPath, exec, readFile);
      if generated.Err? {
        return Err(RenderFailure(RenderFailureMessage(node)));
      }
      size := generated.value;
    }
    var image := MakHtmlImgNode(meta, outputPath.imgPath, size);
    return Ok(image);
  }

  /** The `k`-th `d2` block of the tree in document order. */
  function BlockAt(tree: Node, k: nat): (n: Node)
    requires k < |D2Blocks(tree)|
    ensures ValidPath(tree, D2Blocks(tree)[k]) && n == At(tree, D2Blocks(tree)[k]) && IsD2(n)
  {
    D2BlocksSound(tree);
    At(tree, D2Blocks(tree)[k])
  }

  /** The per-block callback of the transformer: what a code block, given
      its ordinal among the file's `d2` blocks, is replaced by. */
  type Render = (Node, nat) --> Result<Node, TransformError>

  /** The callback accepts every code block and renders each to an HTML node. */
  ghost predicate Renders(render: Render) {
    forall n: Node, k: nat :: n.Code? ==> render.requires(n, k) && (render(n, k).Ok? ==> render(n, k).value.Html?)
  }

  /** The callback the transformer of a file runs: `BlockImage` with the
      configuration and the environment. */
  function BlockRenderer(config: AstroD2Config, file: SourceFile,
                         getMeta: Option<string> -> DiagramMeta,
                         exec: Invocation -> ExecOutcome, readFile: string -> ReadOutcome): (render: Render)
    requires InCwd(file)
    ensures Renders(render)
  {
    (n: Node, k: nat) requires n.Code? => BlockImage(config, file, n, k, getMeta, exec, readFile)
  }

  /** What the `k`-th block of the tree renders to. */
  function Outcome(render: Render, tree: Node, k: nat): (r: Result<Node, TransformError>)
    requires Renders(render) && k < |D2Blocks(tree)|
    ensures r.Ok? ==> r.value.Html?
  {
    render(BlockAt(tree, k), k)
  }

  /** In a file's transformer the `k`-th block is rendered by `BlockImage`
      with ordinal `k`. */
  lemma BlockOutcomeAt(config: AstroD2Config, file: SourceFile, tree: Node,
                       getMeta: Option<string> -> DiagramMeta,
                       exec: Invocation -> ExecOutcome, readFile: string -> ReadOutcome, k: nat)
    requires InCwd(file) && k < |D2Blocks(tree)|
    ensures Outcome(BlockRenderer(config, file, getMeta, exec, readFile), tree, k) ==
      BlockImage(config, file, BlockAt(tree, k), k, getMeta, exec, readFile)
  {
  }

  /** Every block of the tree renders. */
  predicate AllRender(render: Render, tree: Node)
    requires Renders(render)
  {
    forall k :: 0 <= k < |D2Blocks(tree)| ==> Outcome(render, tree, k).Ok?
  }

  /** The recorded splices: each block's path with the image that replaces it. */
  function Replacements(render: Render, tree: Node): (s: seq<(Path, Node)>)
    requires Renders(render) && AllRender(render, tree)
    ensures |s| == |D2Blocks(tree)|
    ensures forall k :: 0 <= k < |s| ==> s[k] == (D2Blocks(tree)[k], Outcome(render, tree, k).value)
  {
    seq(|D2Blocks(tree)|, k requires 0 <= k < |D2Blocks(tree)| =>
      (D2Blocks(tree)[k], Outcome(render, tree, k).value))
  }

  /** Running per-block results one after another: all the images in
      order, or the error of the first block that fails. */
  function Sequenced(rs: seq<Result<Node, TransformError>>): (r: Result<seq<Node>, TransformError>)
    ensures r.Ok? ==> |r.value| == |rs|
  {
    if rs == [] then Ok([])
    else
      match Sequenced(rs[..|rs| - 1])
      case Err(e) => Err(e)
      case Ok(images) =>
        match rs[|rs| - 1]
        case Err(e) => Err(e)
        case Ok(image) => Ok(images + [image])
  }

  /** One more block: its image is appended, or its error reported, unless
      an earlier block already failed. */
  lemma SequencedStep(rs: seq<Result<Node, TransformError>>, k: nat)
    requires k < |rs|
    ensures Sequenced(rs[..k + 1]) ==
      match Sequenced(rs[..k])
      case Err(e) => Err(e)
      case Ok(images) => (match rs[k] case Err(e) => Err(e) case Ok(image) => Ok(images + [image]))
  {
    assert rs[..k + 1][..k] == rs[..k];
  }

  /** The results run through exactly when each of them is an image, and
      then the `j`-th image is the `j`-th result's. */
  lemma {:induction false} SequencedOk(rs: seq<Result<Node, TransformError>>)
    ensures Sequenced(rs).Ok? <==> forall j :: 0 <= j < |rs| ==> rs[j].Ok?
    ensures Sequenced(rs).Ok? ==> forall j :: 0 <= j < |rs| ==> Sequenced(rs).value[j] == rs[j].value
  {
    if rs != [] {
      var init := rs[..|rs| - 1];
      SequencedOk(init);
      assert forall j :: 0 <= j < |init| ==> rs[j] == init[j];
    }
  }

  /** A failed run reports the error of the first result that is one. */
  lemma {:induction false} SequencedErr(rs: seq<Result<Node, TransformError>>)
    ensures Sequenced(rs).Err? ==>
      exists k :: 0 <= k < |rs| && rs[k] == Err(Sequenced(rs).error) && forall j :: 0 <= j < k ==> rs[j].Ok?
  {
    if rs != [] {
      var init := rs[..|rs| - 1];
      SequencedErr(init);
      assert forall j :: 0 <= j < |init| ==> rs[j] == init[j];
      if Sequenced(init).Ok? {
        SequencedOk(init);
      }
    }
  }

  /** Once a result is an error, later results change nothing. */
  lemma {:induction false} SequencedStops(rs: seq<Result<Node, TransformError>>, m: nat)
    requires m <= |rs| && Sequenced(rs[..m]).Err?
    ensures Sequenced(rs) == Sequenced(rs[..m])
    decreases |rs| - m
  {
    if m < |rs| {
      SequencedStep(rs, m);
      SequencedStops(rs, m + 1);
    } else {
      assert rs[..m] == rs;
    }
  }

  /** Each block's path paired with its image. */
  function Pairs(paths: seq<Path>, images: seq<Node>): (s: seq<(Path, Node)>)
    requires |paths| == |images|
    ensures |s| == |paths| && forall j :: 0 <= j < |s| ==> s[j] == (paths[j], images[j])
  {
    seq(|paths|, j requires 0 <= j < |paths| => (paths[j], images[j]))
  }

  /** The results for the ordinals below `n`, in order. */
  function Table(f: nat --> Result<Node, TransformError>, n: nat): (s: seq<Result<Node, TransformError>>)
    requires forall k: nat :: k < n ==> f.requires(k)
    ensures |s| == n
  {
    if n == 0 then [] else Table(f, n - 1) + [f(n - 1)]
  }

  lemma {:induction false} TableAt(f: nat --> Result<Node, TransformError>, n: nat, k: nat)
    requires forall k: nat :: k < n ==> f.requires(k)
    requires k < n
    ensures Table(f, n)[k] == f(k)
  {
    if k < n - 1 {
      TableAt(f, n - 1, k);
    }
  }

  /** Each block's outcome as a function of its ordinal. */
  function OutcomeOf(render: Render, tree: Node): (f: nat --> Result<Node, TransformError>)
    requires Renders(render)
    ensures forall k: nat :: k < |D2Blocks(tree)| ==> f.requires(k)
  {
    (k: nat) requires k < |D2Blocks(tree)| => Outcome(render, tree, k)
  }

  /** The outcome of every block, in document order. */
  function Outcomes(render: Render, tree: Node): (os: seq<Result<Node, TransformError>>)
    requires Renders(render)
  {
    Table(OutcomeOf(render, tree), |D2Blocks(tree)|)
  }

  /** Every block's outcome, indexed by its ordinal. */
  lemma OutcomesAt(render: Render, tree: Node)
    requires Renders(render)
    ensures |Outcomes(render, tree)| == |D2Blocks(tree)|
    ensures forall k :: 0 <= k < |D2Blocks(tree)| ==> Outcomes(render, tree)[k] == Outcome(render, tree, k)
  {
    forall k | 0 <= k < |D2Blocks(tree)| ensures Outcomes(render, tree)[k] == Outcome(render, tree, k) {
      TableAt(OutcomeOf(render, tree), |D2Blocks(tree)|, k);
    }
  }

  /** What the transformer yields from the blocks' outcomes: the error of
      the first block that fails, or the tree with every block replaced by
      its image. */
  function Assembled(tree: Node, os: seq<Result<Node, TransformError>>): Result<Node, TransformError>
    requires |os| == |D2Blocks(tree)|
  {
    match Sequenced(os)
    case Err(e) => Err(e)
    case Ok(images) => Ok(SpliceAll(tree, Pairs(D2Blocks(tree), images)))
  }

  /** What the transformer yields for the tree. */
  function Transformed(render: Render, tree: Node): Result<Node, TransformError>
    requires Renders(render)
  {
    Assembled(tree, Outcomes(render, tree))
  }

  /** A file without `d2` blocks is left as it is. */
  lemma TransformedNoBlocks(render: Render, tree: Node)
    requires Renders(render) && D2Blocks(tree) == []
    ensures Transformed(render, tree) == Ok(tree)
  {
    assert Pairs([], []) == [];
  }

  /** The transformation succeeds exactly when every block renders. */
  lemma TransformedOk(render: Render, tree: Node)
    requires Renders(render)
    ensures Transformed(render, tree).Ok? <==> AllRender(render, tree)
  {
    OutcomesAt(render, tree);
    SequencedOk(Outcomes(render, tree));
  }

  /** A successful transformation replaces each block by its own image. */
  lemma TransformedReplaces(render: Render, tree: Node)
    requires Renders(render) && AllRender(render, tree)
    ensures Transformed(render, tree) == Ok(SpliceAll(tree, Replacements(render, tree)))
  {
    var os := Outcomes(render, tree);
    OutcomesAt(render, tree);
    SequencedOk(os);
    assert Pairs(D2Blocks(tree), Sequenced(os).value) == Replacements(render, tree);
  }

  /** A failed transformation reports the error of the first block that
      fails, every block before it having rendered. */
  lemma TransformedFirstFailure(render: Render, tree: Node)
    requires Renders(render) && Transformed(render, tree).Err?
    ensures exists k ::
              && 0 <= k < |D2Blocks(tree)|
              && Outcome(render, tree, k) == Err(Transformed(render, tree).error)
              && forall j :: 0 <= j < k ==> Outcome(render, tree, j).Ok?
  {
    var os := Outcomes(render, tree);
    OutcomesAt(render, tree);
    var k := SequencedFirstErr(os);
    assert Outcome(render, tree, k) == os[k];
  }

  /** The position of the first error in a failed run. */
  lemma SequencedFirstErr(rs: seq<Result<Node, TransformError>>) returns (k: nat)
    requires Sequenced(rs).Err?
    ensures k < |rs| && rs[k] == Err(Sequenced(rs).error)
    ensures forall j :: 0 <= j < k ==> rs[j].Ok?
  {
    SequencedErr(rs);
    k :| 0 <= k < |rs| && rs[k] == Err(Sequenced(rs).error) && forall j :: 0 <= j < k ==> rs[j].Ok?;
  }

  /** `transformer`: collect the `d2` blocks in document order, render each
      with its ordinal, then replace each block by its image, one for one. */
  method Transform(config: AstroD2Config, file: SourceFile, tree: Node,
                   getMeta: Option<string> -> DiagramMeta,
                   exec: Invocation -> ExecOutcome, readFile: string -> ReadOutcome)
    returns (r: Result<Node, TransformError>)
    requires tree.Parent? && InCwd(file)
    ensures r == Transformed(BlockRenderer(config, file, getMeta, exec, readFile), tree)
  {
    ghost var render := BlockRenderer(config, file, getMeta, exec, readFile);
    OutcomesAt(render, tree);
    r := RenderAndSplice(config, file, tree, getMeta, exec, readFile, Outcomes(render, tree));
  }

  /** The transformer's loop: render the blocks one after another and put
      each image in place of its block; the first failure ends the run.
      `os` names what each block renders to. */
  method RenderAndSplice(config: AstroD2Config, file: SourceFile, tree: Node,
                         getMeta: Option<string> -> DiagramMeta,
                         exec: Invocation -> ExecOutcome, readFile: string -> ReadOutcome,
                         ghost os: seq<Result<Node, TransformError>>)
    returns (r: Result<Node, TransformError>)
    requires InCwd(file) && |os| == |D2Blocks(tree)|
    requires forall k {:trigger Outcome(BlockRenderer(config, file, getMeta, exec, readFile), tree, k)} ::
      0 <= k < |os| ==> os[k] == Outcome(BlockRenderer(config, file, getMeta, exec, readFile), tree, k)
    ensures r == Assembled(tree, os)
  {
    var d2Nodes := D2Blocks(tree);
    if |d2Nodes| == 0 {
      assert Pairs([], []) == [];
      return Ok(tree);
    }
    var result := tree;
    var spliced: seq<(Path, Node)> := [];
    ghost var images: seq<Node> := [];
    var k := 0;
    assert Sequenced(os[..0]) == Ok([]);
    while k < |d2Nodes|
      invariant 0 <= k <= |d2Nodes| && |spliced| == k
      invariant Sequenced(os[..k]) == Ok(images)
      invariant forall j :: 0 <= j < k ==> spliced[j] == (d2Nodes[j], images[j])
      invariant result == SpliceAll(tree, spliced)
    {
      var image := RenderAt(config, file, tree, getMeta, exec, readFile, k, os);
      SequencedStep(os, k);
      if image.Err? {
        SequencedStops(os, k + 1);
        return Err(image.error);
      }
      RecordedStep(d2Nodes, images, spliced, image.value);
      SpliceAllSnoc(tree, spliced, (d2Nodes[k], image.value));
      result := ReplaceAt(result, d2Nodes[k], image.value);
      spliced := spliced + [(d2Nodes[k], image.value)];
      images := images + [image.value];
      k := k + 1;
    }
    assert os[..k] == os;
    assert spliced == Pairs(d2Nodes, images);
    return Ok(result);
  }

  /** The `k`-th block rendered with its ordinal. */
  method RenderAt(config: AstroD2Config, file: SourceFile, tree: Node,
                  getMeta: Option<string> -> DiagramMeta,
                  exec: Invocation -> ExecOutcome, readFile: string -> ReadOutcome, k: nat,
                  ghost os: seq<Result<Node, TransformError>>)
    returns (r: Result<Node, TransformError>)
    requires InCwd(file) && k < |os| == |D2Blocks(tree)|
    requires forall k {:trigger Outcome(BlockRenderer(config, file, getMeta, exec, readFile), tree, k)} ::
      0 <= k < |os| ==> os[k] == Outcome(BlockRenderer(config, file, getMeta, exec, readFile), tree, k)
    ensures r == os[k]
  {
    var node := BlockAt(tree, k);
    r := RenderBlock(config, file, node, k, getMeta, exec, readFile);
    BlockOutcomeAt(config, file, tree, getMeta, exec, readFile, k);
  }

  /** Recording one more block keeps the record aligned with the blocks. */
  lemma RecordedStep(paths: seq<Path>, images: seq<Node>, spliced: seq<(Path, Node)>, image: Node)
    requires |spliced| == |images| < |paths|
    requires forall j :: 0 <= j < |spliced| ==> spliced[j] == (paths[j], images[j])
    ensures var s := spliced + [(paths[|spliced|], image)];
      forall j :: 0 <= j < |s| ==> s[j] == (paths[j], (images + [image])[j])
  {
  }

  /** The recorded paths are valid and pairwise disjoint, and each splice
      puts a childless node in place of a childless one. */
  lemma ReplacementsGood(render: Render, tree: Node)
    requires Renders(render) && AllRender(render, tree)
    ensures var s := Replacements(render, tree);
      Good(tree, s) && LeafForLeaf(tree, s)
  {
    var s := Replacements(render, tree);
    var bs := D2Blocks(tree);
    D2BlocksSound(tree);
    D2BlocksInOrder(tree);
    forall i, j | 0 <= i < |s| && 0 <= j < |s| && i != j ensures Disjoint(s[i].0, s[j].0) {
      if i < j { BeforeDisjoint(bs[i], bs[j]); } else { BeforeDisjoint(bs[j], bs[i]); }
    }
    assert Good(tree, s);
    forall i | 0 <= i < |s| ensures Children(At(tree, s[i].0)) == [] && Children(s[i].1) == [] {
      assert BlockAt(tree, i).Code?;
    }
  }

  /** After a successful transformation the place of the `k`-th block holds
      the image rendered with ordinal `k`. */
  lemma TransformedBlocks(render: Render, tree: Node, k: nat)
    requires Renders(render) && AllRender(render, tree) && k < |D2Blocks(tree)|
    ensures var t := SpliceAll(tree, Replacements(render, tree));
      ValidPath(t, D2Blocks(tree)[k]) && Ok(At(t, D2Blocks(tree)[k])) == Outcome(render, tree, k)
  {
    ReplacementsGood(render, tree);
    SpliceAllAt(tree, Replacements(render, tree), k);
  }

  /** Every path of the tree stays valid and leads to a node with as many
      children as before: the one-for-one splices shift no index. */
  lemma TransformedShape(render: Render, tree: Node, q: Path)
    requires Renders(render) && AllRender(render, tree) && ValidPath(tree, q)
    ensures var t := SpliceAll(tree, Replacements(render, tree));
      ValidPath(t, q) && |Children(At(t, q))| == |Children(At(tree, q))|
  {
    ReplacementsGood(render, tree);
    SpliceAllKeepsShape(tree, Replacements(render, tree), q);
  }

  /** Every node with no `d2` block at or below it is unchanged. */
  lemma TransformedElsewhere(render: Render, tree: Node, q: Path)
    requires Renders(render) && AllRender(render, tree) && ValidPath(tree, q)
    requires forall k :: 0 <= k < |D2Blocks(tree)| ==> !IsPrefix(q, D2Blocks(tree)[k])
    ensures var t := SpliceAll(tree, Replacements(render, tree));
      ValidPath(t, q) && At(t, q) == At(tree, q)
  {
    var s := Replacements(render, tree);
    ReplacementsGood(render, tree);
    assert forall i :: 0 <= i < |s| ==> s[i].0 == D2Blocks(tree)[i];
    SpliceAllUnrelated(tree, s, q);
  }

  /** The splices give the same tree in whatever order they run. */
  lemma TransformAnyOrder(render: Render, tree: Node, order: seq<(Path, Node)>)
    requires Renders(render) && AllRender(render, tree)
    requires multiset(order) == multiset(Replacements(render, tree))
    ensures Good(tree, order)
    ensures SpliceAll(tree, order) == SpliceAll(tree, Replacements(render, tree))
  {
    var s := Replacements(render, tree);
    ReplacementsGood(render, tree);
    PermutationKeepsGood(tree, s, order);
    SpliceAllAnyOrder(tree, s, order);
  }
}
