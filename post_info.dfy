/**
 * The pure path and tag expressions of the per-post record built in
 * scripts/generate-picked-posts-info.mjs: the locale of a post, its
 * permalink, and the tag records.
 */
module PostInfo {

  datatype Locale = ZhCN | EnUS
  {
    /** The locale's name as written into the record. */
    function Name(): string
    {
      if ZhCN? then "zh-CN" else "en-US"
    }
  }

  /** The path fragment that marks a Chinese post. */
  const ZhBlogMarker := "/zh/blog"

  /** `sub` occurs in `s` starting at index `i`. */
  predicate OccursAt(s: string, sub: string, i: nat)
  {
    i + |sub| <= |s| && s[i..i + |sub|] == sub
  }

  /** JavaScript's `s.includes(sub)`: some suffix of `s` starts with `sub`. */
  predicate Includes(s: string, sub: string)
    decreases |s|
  {
    sub <= s || (s != [] && Includes(s[1..], sub))
  }

  lemma ShiftedOccurrence(s: string, sub: string, i: nat)
    requires s != []
    ensures OccursAt(s[1..], sub, i) <==> OccursAt(s, sub, i + 1)
  {
  }

  lemma {:induction false} OccurrenceIncluded(s: string, sub: string, i: nat)
    requires OccursAt(s, sub, i)
    ensures Includes(s, sub)
    decreases i
  {
    if i == 0 {
      assert s[..|sub|] == sub;
    } else {
      ShiftedOccurrence(s, sub, i - 1);
      OccurrenceIncluded(s[1..], sub, i - 1);
    }
  }

  lemma {:induction false} IncludedOccurs(s: string, sub: string) returns (i: nat)
    requires Includes(s, sub)
    ensures OccursAt(s, sub, i)
    decreases |s|
  {
    if sub <= s {
      assert s[..|sub|] == sub;
      i := 0;
    } else {
      var j := IncludedOccurs(s[1..], sub);
      ShiftedOccurrence(s, sub, j);
      i := j + 1;
    }
  }

  lemma IncludesIff(s: string, sub: string)
    ensures Includes(s, sub) <==> exists i: nat :: OccursAt(s, sub, i)
  {
    if Includes(s, sub) {
      var i := IncludedOccurs(s, sub);
    }
    forall i: nat | OccursAt(s, sub, i) ensures Includes(s, sub) {
      OccurrenceIncluded(s, sub, i);
    }
  }

  /** `path.includes('/zh/blog') ? 'zh-CN' : 'en-US'`. */
  function LocaleOf(path: string): (l: Locale)
    ensures l == ZhCN <==> exists i: nat :: OccursAt(path, ZhBlogMarker, i)
  {
    IncludesIff(path, ZhBlogMarker);
    if Includes(path, ZhBlogMarker) then ZhCN else EnUS
  }

  /** How much of the post path the permalink drops in front: `'blog'` or `'blog/en'`. */
  function PrefixLength(l: Locale): nat
  {
    if l == ZhCN then |"blog"| else |"blog/en"|
  }

  /** JavaScript's `s.substring(k)` for a non-negative `k`: "" when `k` is past the end. */
  function SubstringFrom(s: string, k: nat): string
  {
    if k <= |s| then s[k..] else ""
  }

  /** JavaScript's `s.slice(0, -m)` for a positive `m`: "" when `s` is shorter than `m`. */
  function SliceDropLast(s: string, m: nat): string
  {
    if m <= |s| then s[..|s| - m] else ""
  }

  /**
   * The post's permalink: the path without its first `PrefixLength(l)`
   * characters and without its last 3 (`.md`), whatever they are.
   */
  function Permalink(path: string, l: Locale): (r: string)
    ensures PrefixLength(l) + 3 <= |path| ==> |r| == |path| - PrefixLength(l) - 3
    ensures PrefixLength(l) + 3 > |path| ==> r == ""
    ensures forall i :: 0 <= i < |r| ==> r[i] == path[PrefixLength(l) + i]
  {
    SliceDropLast(SubstringFrom(path, PrefixLength(l)), |".md"|)
  }

  /** Dropping the locale prefix and the `.md` extension leaves the slug in between. */
  lemma PermalinkRecoversSlug(prefix: string, slug: string, l: Locale)
    requires |prefix| == PrefixLength(l)
    ensures Permalink(prefix + slug + ".md", l) == slug
  {
  }

  /** One entry of the record's `tags`; `name` is its `label` (a keyword here). */
  datatype Tag = Tag(name: string, permalink: string)

  /** Where the tag pages of a locale live. */
  function TagBase(l: Locale): string
  {
    if l == ZhCN then "/zh/blog/tags/" else "/blog/tags/"
  }

  /** `tags.map(v => ({label: v, permalink: base + v}))`, the label stored as `name`. */
  function Tags(tags: seq<string>, l: Locale): (r: seq<Tag>)
    ensures |r| == |tags|
    ensures forall i :: 0 <= i < |r| ==> r[i].name == tags[i] && TagBase(l) <= r[i].permalink
    ensures forall i :: 0 <= i < |r| ==> r[i].permalink[|TagBase(l)|..] == tags[i]
  {
    if tags == [] then []
    else
      assert (TagBase(l) + tags[0])[|TagBase(l)|..] == tags[0];
      [Tag(tags[0], TagBase(l) + tags[0])] + Tags(tags[1..], l)
  }

  function Labels(ts: seq<Tag>): seq<string>
  {
    if ts == [] then [] else [ts[0].name] + Labels(ts[1..])
  }

  /** The tag records keep the tags, in their order. */
  lemma {:induction false} TagsKeepLabels(tags: seq<string>, l: Locale)
    ensures Labels(Tags(tags, l)) == tags
  {
    if tags != [] {
      TagsKeepLabels(tags[1..], l);
      assert Tags(tags, l)[1..] == Tags(tags[1..], l);
    }
  }

  /** A path with `/zh/blog` anywhere in it, such as `blog/zh/blog/<date>/<slug>.md`, is a Chinese post. */
  lemma MarkedPathIsZh(before: string, after: string)
    ensures LocaleOf(before + ZhBlogMarker + after) == ZhCN
  {
    var path := before + ZhBlogMarker + after;
    assert path[|before|..|before| + |ZhBlogMarker|] == ZhBlogMarker;
    assert OccursAt(path, ZhBlogMarker, |before|);
  }
}
