# astro-d2 in Dafny

A model of the core of `astro-d2`: a remark plugin that turns every fenced
`d2` code block of a Markdown document into an `<img>` tag. The tag points
at an SVG rendered by the external `d2` executable. The model covers five
pieces of the plugin:

- the size compositor (`computeImgSize`);
- the image-tag builder (`makHtmlImgNode`);
- the output-path resolver (`getOutputPaths`);
- the tree transformer, which collects the `d2` blocks and splices in their images;
- the renderer adapter in `libs/d2.ts`: the `d2` argument list, the `viewBox`
  size parser and the version probe.

Files, one Dafny module each:

- `wrappers.dfy`: `Option` and `Result`.
- `text.dfy`: decimal digits; `String(n)` and `Number.parseInt` on digit runs; prefixes.
- `config.dfy`: the resolved configuration (`AstroD2Config`) and one block's
  metadata (`DiagramMeta`). Both are inputs.
- `d2.dfy`: the renderer adapter (`libs/d2.ts`).
- `mdast.dfy`: the Markdown tree, paths to its nodes, the one-for-one
  `splice`, and the pre-order collection of `d2` blocks.
- `remark.dfy`: the plugin (`libs/remark.ts`). It has the attribute record
  as a class that is updated in place, the size rules, the tag text, the
  output paths and the transformer.

The subprocess and the filesystem are parameters. `exec` maps an invocation
(command, arguments, standard input) to the printed lines or to a failure.
`readFile` maps a path to the file's text or to a read failure. Parsing a
block's annotation (`getMeta`) is a parameter too: a function from the
block's `meta` string to a `DiagramMeta`.

The transformer is proved for any per-block callback (`Remark.Render`) that
turns every code block into an HTML node or an error. `Remark.Transform` runs
it with `Remark.BlockRenderer`, the callback of `libs/remark.ts:30-50`, built
from `Remark.BlockImage`.

Three behaviours of the code are easy to miss:

- In skip-generation mode, a missing artifact is an error and not "no size".
  `getD2DiagramSize` rethrows every read failure (d2.ts:74-76), and the
  transformer does not catch it (remark.ts:35-36).
- Several failing blocks do not produce an aggregated report. The model
  renders the blocks in document order and stops at the first failure.
- A zero intrinsic width gives the strings JavaScript prints: `"NaN"`, or
  `"Infinity"` when both the explicit width and the intrinsic height are
  positive (`Remark.ScaledHeight`).

## Model

| member | source | states |
|---|---|---|
| `Text.NatToString` | packages/astro-d2/libs/remark.ts:87 | `String(n)` of a natural number is a non-empty run of digits, with a leading `0` only for zero |
| `Text.ParseNatToString` | packages/astro-d2/libs/d2.ts:70-71 | `Number.parseInt(String(n), 10) == n` |
| `Text.NatToStringInjective` | packages/astro-d2/libs/remark.ts:77 | different ordinals are written differently |
| `D2.RenderArgsLayout` | packages/astro-d2/libs/d2.ts:42-50 | the argument list has 6 to 9 entries: `--layout`, `--theme` (block theme, else the default), `--sketch`, `--pad`, then dark-theme/animate/target, then `-`, with the output path last |
| `D2.DarkThemeGuard` | packages/astro-d2/libs/d2.ts:23-26 | the source's two-part guard holds iff the block does not disable the dark theme and either the block or the configuration names one |
| `D2.DarkThemeArgPresence` | packages/astro-d2/libs/d2.ts:23-28 | `--dark-theme=` is present iff that rule holds; then it is the first optional argument, with value `meta.darkTheme ?? config.theme.dark` |
| `D2.TargetArgPresence` | packages/astro-d2/libs/d2.ts:34-36 | `--target=` is present iff a target is defined, including the empty one; it is then `--target='<t>'`, just before `-` |
| `D2.AnimateArgPresence` | packages/astro-d2/libs/d2.ts:30-32 | `--animate-interval=` is present iff the interval is defined and non-zero; it is then the decimal interval, right after the dark-theme argument if there is one |
| `D2.TargetArgLast` | packages/astro-d2/libs/d2.ts:34-36 | a defined target is the optional argument just before `-`, written `--target='<t>'` |
| `D2.RenderArgs` | packages/astro-d2/libs/d2.ts:40-50 | the list has 6 to 9 entries, opens with `--layout=` and `--theme=` and closes with `-` and the output path |
| `D2.GenerateD2Diagram` | packages/astro-d2/libs/d2.ts:20-58 | an exec failure of the rendering invocation gives a render error and nothing is read; success gives exactly the size read from the output path |
| `D2.Generated` | packages/astro-d2/libs/d2.ts:20-58 | rendering fails iff `d2` fails or the new artifact cannot be read; a `d2` failure is a render error; otherwise the size is the `viewBox` parse of the artifact |
| `D2.GetD2DiagramSize` | packages/astro-d2/libs/d2.ts:60-76 | the result is an error iff the artifact cannot be read, and that error names the artifact's path; a readable artifact gives `Ok` of the `viewBox` parse of its text |
| `D2.MatchPrefixSpec` | packages/astro-d2/libs/d2.ts:8 | every match is a `viewBox` attribute with four digit runs at the start of the text, giving the third as width and the fourth as height |
| `D2.FirstMatch` | packages/astro-d2/libs/d2.ts:63 | a match at the start of the text is the result |
| `D2.ParseViewBoxSpec` | packages/astro-d2/libs/d2.ts:63-68 | a size comes from a match with no match before it; "no size" iff the expression matches at no position |
| `D2.MatchPrefixOfViewBox` | packages/astro-d2/libs/d2.ts:8 | text starting with `viewBox="x y w h"`, with four digit runs, matches and gives width `w` and height `h` as decimal numbers |
| `D2.FirstMatchIsLeftmost` | packages/astro-d2/libs/d2.ts:63 | the search returns a size iff that size comes from a match with no match at any earlier position |
| `D2.FirstMatchNone` | packages/astro-d2/libs/d2.ts:63-68 | the search finds nothing iff the expression matches at no position |
| `D2.FirstMatchSkips` | packages/astro-d2/libs/d2.ts:63 | a stretch of text with no match in it is skipped |
| `D2.NegativeViewBoxSkipped` | packages/astro-d2/libs/d2.ts:8 | a `viewBox` with a negative number does not match, and the search goes on after it |
| `D2.FractionalViewBoxSkipped` | packages/astro-d2/libs/d2.ts:8 | a `viewBox` with a fraction does not match, and the search goes on after it |
| `D2.DoubleSpacedViewBoxSkipped` | packages/astro-d2/libs/d2.ts:8 | a `viewBox` with a doubled space does not match, and the search goes on after it |
| `D2.ViewBoxExample` | packages/astro-d2/libs/d2.ts:60-73 | `viewBox="0 0 640 480"` gives width 640 and height 480 |
| `D2.IsVersionIff` | packages/astro-d2/libs/d2.ts:83 | the version test accepts exactly three non-empty digit runs joined by two dots |
| `D2.IsVersionSound` | packages/astro-d2/libs/d2.ts:83 | an accepted version is three digit runs joined by two dots |
| `D2.VersionTextAccepted` | packages/astro-d2/libs/d2.ts:83 | every decimal `major.minor.patch` is accepted |
| `D2.VersionRejectsTrailingText` | packages/astro-d2/libs/d2.ts:83 | text followed by anything that does not end in a digit is rejected; a trailing newline is one case |
| `D2.GetD2Version` | packages/astro-d2/libs/d2.ts:79-91 | a version is returned iff `d2 --version` succeeds and its first line passes the version test; that line is the result |
| `D2.IsD2Installed` | packages/astro-d2/libs/d2.ts:10-18 | the probe never fails; it is true iff a version was read |
| `Mdast.Splice` | packages/astro-d2/libs/remark.ts:48 | `splice(i, 1, x)` replaces the child at an index in range and appends past the end |
| `Mdast.ReplaceAtSelf` | packages/astro-d2/libs/remark.ts:48 | after a splice at a valid path, that path leads to the new node |
| `Mdast.ReplaceAtOther` | packages/astro-d2/libs/remark.ts:48 | a splice keeps every disjoint valid path valid, leading to the same node |
| `Mdast.ReplaceAtKeepsShape` | packages/astro-d2/libs/remark.ts:48 | replacing a leaf by a leaf keeps every valid path valid, and every node's number of children |
| `Mdast.ReplaceAtCommutes` | packages/astro-d2/libs/remark.ts:48 | splices at two disjoint valid paths commute |
| `Mdast.SpliceAllUnrelated` | packages/astro-d2/libs/remark.ts:47-49 | after leaf-for-leaf splices, a node with no spliced path at or below it is still reached by its path and is unchanged |
| `Mdast.SpliceAllKeepsShape` | packages/astro-d2/libs/remark.ts:47-49 | leaf-for-leaf splices keep every valid path valid with the same number of children |
| `Mdast.SpliceAllAt` | packages/astro-d2/libs/remark.ts:29-51 | after a run of pairwise-disjoint splices, every spliced path leads to its own new node |
| `Mdast.SpliceAllAnyOrder` | packages/astro-d2/libs/remark.ts:29-51 | pairwise-disjoint splices give the same tree in any order (any permutation) |
| `Mdast.D2BlocksSound` | packages/astro-d2/libs/remark.ts:17-23 | every collected path is valid and leads to a `code` node with `lang == "d2"` |
| `Mdast.D2BlocksComplete` | packages/astro-d2/libs/remark.ts:17-23 | every `d2` code node of the tree is collected |
| `Mdast.D2BlocksInOrder` | packages/astro-d2/libs/remark.ts:17-23 | the collected paths are in strict document (pre-order) order, so they are pairwise disjoint |
| `Remark.AssignedLookup` | packages/astro-d2/libs/remark.ts:87 | after `record[key] = value`, the key reads back `value` and every other key is unchanged |
| `Remark.AssignedKeys` | packages/astro-d2/libs/remark.ts:87 | an assignment keeps the key order; a new key goes last |
| `Remark.Attributes.Set` | packages/astro-d2/libs/remark.ts:87 | the in-place property assignment keeps keys distinct and updates the record as above |
| `Remark.RoundRatio` | packages/astro-d2/libs/remark.ts:92-93 | `Math.round(num / den)` for `den > 0`: the unique `r` with `r - 1/2 <= num/den < r + 1/2` |
| `Remark.ScaledHeight` | packages/astro-d2/libs/remark.ts:92-93 | for a positive intrinsic width, the rounded scaled height in decimal; for a zero intrinsic width, `"NaN"` or `"Infinity"` as JavaScript prints them |
| `Remark.SizeEntries` | packages/astro-d2/libs/remark.ts:85-99 | the keys are `width` when there is an explicit width or a size, then `height` when there is a size or both explicit dimensions; an explicit width is written first |
| `Remark.ComputeImgSize` | packages/astro-d2/libs/remark.ts:85-99 | the record, updated in place, gains the `width`/`height` assignments of the size rules, in that order |
| `Remark.ImgAttributesInOrder` | packages/astro-d2/libs/remark.ts:56-63 | the attributes are `alt`, `decoding`, `loading`, `src`, then the optional `width`, then the optional `height`; the keys are distinct |
| `Remark.HeightFollowsWidth` | packages/astro-d2/libs/remark.ts:85-99 | at most two size entries, `width` before `height`; a `height` is written iff there is an explicit width with an explicit height or a size, or no explicit width and a size |
| `Remark.ExplicitDimensions` | packages/astro-d2/libs/remark.ts:86-90 | an explicit width and height are written verbatim, whatever the intrinsic size, present or not |
| `Remark.ExplicitWidthScalesHeight` | packages/astro-d2/libs/remark.ts:91-93 | an explicit width alone, with a size of positive width, gives height `round(W * h / w)` |
| `Remark.ExplicitWidthAlone` | packages/astro-d2/libs/remark.ts:86-94 | an explicit width with no height and no size gives a `width` and no `height` key |
| `Remark.IntrinsicDimensions` | packages/astro-d2/libs/remark.ts:95-98 | with no explicit width, the size is used as it is and an explicit height is ignored; with no size, nothing is added |
| `Remark.ImgTagText` | packages/astro-d2/libs/remark.ts:65-70 | the tag is `<img alt="…" decoding="async" loading="lazy" src="…"` then each size entry as ` k="v"`, then ` />`, with no escaping |
| `Remark.MakHtmlImgNode` | packages/astro-d2/libs/remark.ts:55-71 | the `html` node holds the tag of the four fixed attributes followed by the size rules' entries |
| `Remark.RelativePathExamples` | packages/astro-d2/libs/remark.ts:74 | `path.relative` gives `a.md` for `/a.md` under the root directory and for `/site/a.md` under `/site` |
| `Remark.StripAtMostOnce` | packages/astro-d2/libs/remark.ts:74 | a leading `src/content/` or `src/pages/` is removed; any other path is left as it is |
| `Remark.StripOnlyOnce` | packages/astro-d2/libs/remark.ts:74 | only one root is removed: `src/content/src/pages/x` becomes `src/pages/x` |
| `Remark.LastIndexSpec` | packages/astro-d2/libs/remark.ts:75 | the last position of a character, or none when it does not occur |
| `Remark.DirNameSpec` | packages/astro-d2/libs/remark.ts:75 | without a `/` the directory is empty; otherwise the path is the directory, one `/` and the base name |
| `Remark.BaseNameSpec` | packages/astro-d2/libs/remark.ts:75 | the base name has no `/`, ends the path and follows its last `/` |
| `Remark.StemNameSpec` | packages/astro-d2/libs/remark.ts:75-77 | a base name with no dot after its first character, and `..`, are the name unchanged; otherwise the name is the base name up to its last dot |
| `Remark.StemNameExamples` | packages/astro-d2/libs/remark.ts:75-77 | `post.md` gives `post`, `a.b.md` gives `a.b`, `.env` and `README` are kept whole |
| `Remark.JoinSpec` | packages/astro-d2/libs/remark.ts:77-81 | `path.join` of two segments: an empty segment adds nothing; two non-empty ones are joined by exactly one `/` |
| `Remark.OutputPathsTail` | packages/astro-d2/libs/remark.ts:73-83 | both paths end in `<dir>/<name>-<nodeIndex>.svg`; the public path starts with `/` and the output directory |
| `Remark.OutputPathsRooted` | packages/astro-d2/libs/remark.ts:79-82 | the filesystem path lies below the working directory's `public/` and then the output directory; the public path lies below `/` and the output directory |
| `Remark.OutputPathsUnderPublic` | packages/astro-d2/libs/remark.ts:80 | with a working directory and an output directory written without a trailing `/`, the filesystem path starts with `<cwd>/public/<output>/` |
| `Remark.OutputPathsInjective` | packages/astro-d2/libs/remark.ts:77-82 | two ordinals of one file never share a filesystem path or a public path |
| `Remark.FailureMessagePosition` | packages/astro-d2/libs/remark.ts:41-43 | the failure message gives the block's line and column, or `0:0` when no position was recorded |
| `Remark.BlockImage` | packages/astro-d2/libs/remark.ts:30-48 | a block that renders becomes an HTML node |
| `Remark.BlockImageOutcome` | packages/astro-d2/libs/remark.ts:30-48 | a block fails iff the artifact cannot be read or, when generating, `d2` fails; in skip mode the error is the read failure naming the artifact, otherwise it is the positioned render failure; on success the node is the image tag with the `viewBox` size of the artifact |
| `Remark.BlockImageSkipped` | packages/astro-d2/libs/remark.ts:35-36 | in skip mode the block is measured from the earlier artifact, and a read failure is passed on unchanged |
| `Remark.BlockImageRendered` | packages/astro-d2/libs/remark.ts:37-45 | otherwise the block is rendered, and any failure of `generateD2Diagram` becomes the positioned render failure |
| `Remark.RenderBlock` | packages/astro-d2/libs/remark.ts:31-48 | the imperative callback body yields what `BlockImage` gives, so it fails iff the artifact cannot be read or, when generating, `d2` fails; a skip-mode error is the read failure naming the artifact, a render error gives the block's `line:column`; success is the image tag with the artifact's `viewBox` size |
| `Remark.BlockRenderer` | packages/astro-d2/libs/remark.ts:30 | the file's callback accepts every code block and renders each to an HTML node |
| `Remark.BlockOutcomeAt` | packages/astro-d2/libs/remark.ts:30-31 | the `k`-th block is rendered with ordinal `k` |
| `Remark.Outcome` | packages/astro-d2/libs/remark.ts:30 | what the `k`-th block renders to is an error or an HTML node |
| `Remark.Sequenced` | packages/astro-d2/libs/remark.ts:29-51 | running the blocks one after another yields one image per block, or an error |
| `Remark.SequencedOk` | packages/astro-d2/libs/remark.ts:29-51 | the run succeeds iff every block renders, and then its `j`-th image is the `j`-th block's |
| `Remark.SequencedErr` | packages/astro-d2/libs/remark.ts:29-51 | a failed run reports the error of a block before which every block rendered |
| `Remark.SequencedStops` | packages/astro-d2/libs/remark.ts:29-51 | once a block fails, later blocks do not change the result |
| `Remark.Replacements` | packages/astro-d2/libs/remark.ts:47-49 | one splice per block: the block's path with the image it renders to |
| `Remark.BlockAt` | packages/astro-d2/libs/remark.ts:17-23 | the `k`-th collected path is valid and leads to a `d2` code node |
| `Remark.TransformedNoBlocks` | packages/astro-d2/libs/remark.ts:25-27 | a tree without `d2` blocks is returned unchanged |
| `Remark.TransformedOk` | packages/astro-d2/libs/remark.ts:29-51 | the transformation succeeds iff every block renders |
| `Remark.TransformedReplaces` | packages/astro-d2/libs/remark.ts:29-51 | a successful transformation applies exactly the recorded splices, in document order |
| `Remark.TransformedFirstFailure` | packages/astro-d2/libs/remark.ts:29-51 | a failed transformation reports the error of the first failing block; every block before it rendered |
| `Remark.Transform` | packages/astro-d2/libs/remark.ts:14-52 | the transformer's result is `Transformed` with the file's callback, so every `Transformed` lemma holds for it |
| `Remark.RenderAndSplice` | packages/astro-d2/libs/remark.ts:29-51 | the loop yields the first failure or the tree with every block spliced, as `Assembled` describes |
| `Remark.RenderAt` | packages/astro-d2/libs/remark.ts:30-48 | one iteration renders the `k`-th block to its outcome |
| `Remark.ReplacementsGood` | packages/astro-d2/libs/remark.ts:17-23 | the recorded paths are valid and pairwise disjoint, and each splice replaces a leaf by a leaf |
| `Remark.TransformedBlocks` | packages/astro-d2/libs/remark.ts:29-51 | after the transformation, the place of the `k`-th block holds the image rendered with ordinal `k` |
| `Remark.TransformedShape` | packages/astro-d2/libs/remark.ts:47-49 | every path of the tree stays valid with as many children as before; no index shifts |
| `Remark.TransformedElsewhere` | packages/astro-d2/libs/remark.ts:47-49 | every node with no `d2` block at or below it is unchanged |
| `Remark.TransformAnyOrder` | packages/astro-d2/libs/remark.ts:29-51 | the splices give the same tree in whatever order they complete |

## Left out

- Running `d2` (`exec` in `libs/exec`, which is not part of this model) and `fs.readFile`: both are parameters, as described above. Of the errors they raise, only the fact that a failure happened is kept, not the message text.
- `Promise.all` concurrency: blocks are processed one after another in document order, stopping at the first failure. `TransformAnyOrder` shows that the splices' completion order does not matter. A failed pass in the source may still leave sibling splices applied to the tree; the model returns only the error.
- `unist-util-visit` and `SKIP`: the traversal is a pre-order collection over the node datatype. `code` nodes have no children, so skipping them changes nothing.
- `getMeta` and `libs/meta.ts` (the annotation grammar), `throwErrorWithHint` and `libs/integration.ts`, and configuration loading are not part of this model. Their results are inputs, and a render failure is reported as its line and column.
- `path.relative`, `path.parse` and `path.join` are modelled only for normalised, `/`-separated paths, with the file below the working directory (the root `/` included). `..`, `.`, repeated separators and Windows separators are not modelled.
- `Remark.RoundRatio`: uses exact rational rounding, not the floating-point result of `size.height / size.width` multiplied by the width, so it may differ from the source when that product is inexact.
- `Text.ParseNatToString`: numbers are unbounded; `Number.parseInt` loses precision above 2^53, and the model does not capture that.
- `Text.NatToString`: always writes plain decimal digits; JavaScript's `String(n)` switches to exponent form from 10^21 on (`"1e+21"`), and the model does not capture that.
