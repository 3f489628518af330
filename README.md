# Excerpt extractor of the picked-posts generator

This project models the excerpt extractor of `scripts/generate-picked-posts-info.mjs`.
That script builds the records shown for the "picked" blog posts of the site. For each
post it picks a short summary from the post's markdown syntax tree (mdast). The summary is
the caption (`alt`) of an image, or the flattened text of a paragraph, whichever comes first
in a depth-first pre-order walk. The walk never takes its summary from the main (depth-1)
heading or from an admonition fence, which is a paragraph whose first child is a text node
starting with `:::`. The project also models the pure expressions that give each post its
locale, its permalink and its tag records.

Modules:

- `Wrappers`: `Option`; `None` stands for JavaScript's `undefined`.
- `Mdast`: the `Node` value (type tag, children, optional `depth` and `alt`, literal `value`)
  and the node predicates `isImage`, `isHeading`, `isParagraph` and `isText`.
- `UnistVisit`: the traversal of `unist-util-visit`, a library outside this model, made
  explicit. `Visit(n, parent, tests)` is the sequence of (node, parent type) pairs the
  library hands to a visitor that always returns CONTINUE: pre-order, starting with `n`
  itself, and only for nodes whose type is in `tests`. A visitor result of `true` is
  CONTINUE, so the walk still descends into that node's children. A result of `false` is
  EXIT: `WalkBlocks` stops there with `break`. The visitor of `toText` always continues, so
  `ToText` runs through every call. The extractor never returns SKIP.
- `Excerpt`: `toText` as the method `ToText` and `createExcerpt` as the method
  `CreateExcerpt`. Both run loops over `Visit`'s calls with a string accumulator, as in the
  source. The `visit` loop of `createExcerpt` is the method `WalkBlocks`, and its visitor is
  the method `VisitBlock`. The functions that specify them
  are:
  - `FlatText`: a fold over the tree.
  - `Summary`: the first non-empty excerpt supplied along the calls.
  - `TreeWalk`: the same walk written as a recursion over the tree with an exit signal.
    It is proved equal to `Summary`.
- `PostInfo`: the locale test, the permalink and the tag records.

The tree is a value, so neither `ToText` nor `CreateExcerpt` can change it.

One might expect the walk to skip admonition content. The code does not: its visitor
returns `true` (CONTINUE) for a fence, so the fence's children are still visited. A captioned image inside a fence can therefore become the
summary. The model follows the code; `CaptionInsideFenceFound` shows that case.

## Model

| member | source | states |
|---|---|---|
| `UnistVisit.VisitOnlyMatches` | scripts/generate-picked-posts-info.mjs:21-25 | the visitor is only called on nodes whose type is in the test list |
| `UnistVisit.VisitFindsMatches` | scripts/generate-picked-posts-info.mjs:21-25 | every node of the subtree whose type is in the test list is visited, paired with its parent's type |
| `Excerpt.ToText` | scripts/generate-picked-posts-info.mjs:19-27 | the loop over the text visitor's calls returns the reference flattening `FlatText` of the node |
| `Excerpt.TextWalkIsFlat` | scripts/generate-picked-posts-info.mjs:19-26 | the values the text visitor appends are the text and inline-code values of the subtree in document order, leaving out those whose immediate parent is a link reference |
| `Excerpt.ToTextEmptyIff` | scripts/generate-picked-posts-info.mjs:20-26 | `toText` is "" exactly when every text or inline-code descendant is empty or sits directly under a link reference |
| `Excerpt.NestedLinkReferenceTextKept` | scripts/generate-picked-posts-info.mjs:22-24 | text inside emphasis inside a link reference is kept: only the immediate parent is checked |
| `Excerpt.LinkReferenceLabelDropped` | scripts/generate-picked-posts-info.mjs:22-24 | a link reference's label text is dropped and the text around it is kept, so "See ", [here], " for more." gives "See  for more." |
| `Excerpt.VisitBlock` | scripts/generate-picked-posts-info.mjs:32-51 | called with an empty excerpt, the visitor sets it to what the node supplies and returns EXIT exactly when that is non-empty; a stop marker leaves the excerpt alone and returns CONTINUE |
| `Excerpt.CreateExcerpt` | scripts/generate-picked-posts-info.mjs:29-54 | the result is `Summary(root)`, and an empty excerpt is never returned: it becomes `undefined` |
| `Excerpt.WalkBlocks` | scripts/generate-picked-posts-info.mjs:31-51 | the walk stops at the first visitor call that supplies a non-empty excerpt and leaves that excerpt behind; it leaves "" when no call supplies one |
| `Excerpt.SummaryIsFirstSupplier` | scripts/generate-picked-posts-info.mjs:32-53 | the result is `undefined` exactly when no visited node supplies a non-empty excerpt; otherwise it is the excerpt of the first visited node in pre-order that supplies one |
| `Excerpt.FirstSupplied` | scripts/generate-picked-posts-info.mjs:47-53 | the result is absent or a non-empty string; it is absent exactly when no call supplies anything |
| `Excerpt.FirstSuppliedIsFirst` | scripts/generate-picked-posts-info.mjs:39-50 | a found excerpt is the one supplied by the first call that supplies a non-empty one |
| `Excerpt.FirstSuppliedAppend` | scripts/generate-picked-posts-info.mjs:47-49 | once an excerpt is found, nothing visited later changes the result; if none is found, the later calls decide |
| `Excerpt.SummaryIsTreeWalk` | scripts/generate-picked-posts-info.mjs:32-51 | the walk over the flat call list equals the recursive tree walk in which a node is judged before its children and siblings are judged in order |
| `Excerpt.StopMarkerDefersToChildren` | scripts/generate-picked-posts-info.mjs:33-38 | a depth-1 heading or an admonition fence never supplies the excerpt and never halts the walk: the result is what its children give |
| `Excerpt.CaptionedImageWins` | scripts/generate-picked-posts-info.mjs:39-43 | an image with a non-empty `alt` gives exactly that `alt` |
| `Excerpt.ParagraphBeforeItsContents` | scripts/generate-picked-posts-info.mjs:44-49 | a paragraph that is not a fence gives its own text when that is non-empty, beating the images inside it; otherwise the walk goes on into its children |
| `Excerpt.PassOverNodes` | scripts/generate-picked-posts-info.mjs:39-50 | headings of depth other than 1 and images without a caption leave the walk running into their children |
| `Excerpt.EarlierSiblingWins` | scripts/generate-picked-posts-info.mjs:32 | siblings are searched in document order: the first with a summary decides, and later siblings are reached only when earlier ones give none |
| `Excerpt.NoiseOnlyDocument` | scripts/generate-picked-posts-info.mjs:33-38 | a document whose blocks are only main headings and admonition fences holding inline leaves has no summary |
| `Excerpt.CaptionInsideFenceFound` | scripts/generate-picked-posts-info.mjs:33-43 | a captioned image inside an admonition fence is found, because the fence returns CONTINUE |
| `Excerpt.TitleThenParagraph` | scripts/generate-picked-posts-info.mjs:33-49 | title, "Hello ", an uncaptioned image, "world" gives "Hello " |
| `PostInfo.IncludesIff` | scripts/generate-picked-posts-info.mjs:82 | `includes` holds exactly when the fragment occurs at some index of the path |
| `PostInfo.LocaleOf` | scripts/generate-picked-posts-info.mjs:82 | the locale is zh-CN exactly when `/zh/blog` occurs in the path, and en-US otherwise |
| `PostInfo.MarkedPathIsZh` | scripts/generate-picked-posts-info.mjs:82 | any path with `/zh/blog` in it, wherever it is, is a Chinese post |
| `PostInfo.Permalink` | scripts/generate-picked-posts-info.mjs:107-109 | the permalink is the path without its first 4 (zh) or 7 (en) characters and without its last 3; it is "" when the path is too short |
| `PostInfo.PermalinkRecoversSlug` | scripts/generate-picked-posts-info.mjs:107-109 | for a path made of the locale prefix, a slug and `.md`, the permalink is the slug |
| `PostInfo.Tags` | scripts/generate-picked-posts-info.mjs:100-105 | one record per tag, in order; each record's label is the tag and its permalink is the locale's tag base followed by the tag |
| `PostInfo.TagsKeepLabels` | scripts/generate-picked-posts-info.mjs:100-105 | reading the labels back from the tag records gives the original tags |

## Left out

- The markdown parser (`remark` with the MDX and comment plugins): it is a foreign library. `CreateExcerpt` takes the parsed tree instead of the file text.
- `unist-util-visit` itself is not part of this model. Only its visiting order and its CONTINUE/EXIT protocol are modelled, in `UnistVisit`. `CreateExcerpt` and `ToText` compute the whole call list before looping over it, while the library is lazy. The result is the same: neither visitor changes the tree (they only assign the shared `excerpt`), and neither returns SKIP or an index, so the calls that are made are a prefix of the precomputed list.
- Reading the configuration and post files, checking that they exist, JSON parsing, generating the output module and writing it: all of this is I/O.
- The Listr task list, the concurrent fan-out over posts and configs, console reporting and `process.exit`: process plumbing.
- Front-matter extraction with `gray-matter`: a foreign library. The date (`new Date`, `toISOString`, `date-fns` `format`) depends on foreign date parsing and formatting.
- Renaming `image_url` to `imageURL` in the authors: it probes and deletes dynamic properties of untyped front-matter objects.
- Excerpt.IsAdmonitionFence: a paragraph without children makes the source throw, because it reads the type of `children[0]`. The model treats such a paragraph as not a fence instead.
- PostInfo.Tags: when the front matter has no `tags`, the source throws, because it calls `map` on `undefined`. The model takes the tag list as given. The `|| []` fallback never applies to an array, so it is not modelled.
- PostInfo.Permalink: lengths count characters, not the UTF-16 code units that JavaScript's `substring` and `slice` count. The two differ only when a character outside the Basic Multilingual Plane falls in the dropped prefix or suffix. They agree on the script's paths, which start with `blog/` and end with `.md`.
- Mdast.Node: `value` is a plain string. Text and inline-code nodes always carry one in mdast, and other nodes hold "". A text node without a value (which the source would read as `undefined`) is not modelled.
