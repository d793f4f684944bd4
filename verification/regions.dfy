// The marker region the editor rewrites (Editor/UIContextEditor.cs, lines 289-303): the
// regular expression `//<PREFAB {hash}>[\s\S]*//</PREFAB>` and the `Replace` of its match.
module Regions {
  import opened Wrappers
  import opened Strings
  import opened EditorConfig

  /** The half-open span `[start, end)` of a match. */
  datatype Region = Region(start: nat, end: nat)

  /** The pattern matches `text[i..e]`: an opening marker for `hash` at `i` and a closing marker
      ending at `e` that starts after the opening marker ends. `[\s\S]*` admits any text between. */
  ghost predicate MatchAt(text: string, hash: string, i: nat, e: nat) {
    && i + |OpenTag(hash)| + |CloseTag| <= e
    && OccursAt(text, i, OpenTag(hash))
    && OccursAt(text, e - |CloseTag|, CloseTag)
  }

  /** Regex.Match: the leftmost start at which the pattern matches, and from there the longest
      match, since `[\s\S]*` is greedy. The region therefore runs from the first opening marker
      to the LAST closing marker of the file, across any regions of other hashes in between. */
  function FindRegion(text: string, hash: string): (r: Option<Region>)
    ensures r.Some? ==> MatchAt(text, hash, r.value.start, r.value.end)
    ensures r.Some? ==> forall i: nat, e: nat :: MatchAt(text, hash, i, e) ==> r.value.start <= i && e <= r.value.end
    ensures r.None? <==> forall i: nat, e: nat :: !MatchAt(text, hash, i, e)
    ensures r.Some? ==> forall k: nat :: k < r.value.start ==> !OccursAt(text, k, OpenTag(hash))
    ensures r.Some? ==> forall k: nat :: r.value.end - |CloseTag| < k ==> !OccursAt(text, k, CloseTag)
  {
    var open := OpenTag(hash);
    match IndexOf(text, open)
    case None => None
    case Some(i) =>
      match LastIndexOf(text, CloseTag)
      case None => None
      case Some(j) =>
        if i + |open| <= j then
          assert MatchAt(text, hash, i, j + |CloseTag|);
          Some(Region(i, j + |CloseTag|))
        else None
  }

  /** A match with no opening marker before it and no closing marker after it is the one found. */
  lemma FindRegionExact(text: string, hash: string, i: nat, e: nat)
    requires MatchAt(text, hash, i, e)
    requires forall k: nat :: k < i ==> !OccursAt(text, k, OpenTag(hash))
    requires forall k: nat :: e - |CloseTag| < k ==> !OccursAt(text, k, CloseTag)
    ensures FindRegion(text, hash) == Some(Region(i, e))
  {
    var r := FindRegion(text, hash);
    assert r.Some?;
    assert r.value.start <= i && e <= r.value.end;
    assert !(r.value.start < i);
    assert !(e < r.value.end) by {
      assert OccursAt(text, r.value.end - |CloseTag|, CloseTag);
    }
  }

  /** Line 302 with a successful match: `txtCode.Replace(oldCode, newCode)`. */
  function Splice(text: string, r: Region, code: string): string
    requires r.start <= r.end <= |text|
  {
    text[..r.start] + code + text[r.end..]
  }

  /** The matched text occurs exactly once in the file, so `Replace` rewrites exactly the
      matched span. */
  lemma ReplaceMatchIsSplice(text: string, hash: string, code: string)
    requires FindRegion(text, hash).Some?
    ensures var r := FindRegion(text, hash).value;
      ReplaceAll(text, text[r.start..r.end], code) == Splice(text, r, code)
  {
    var r := FindRegion(text, hash).value;
    MatchedSpanOnce(text, hash, r.start, r.end);
    ReplaceAllUnique(text, text[r.start..r.end], code, r.start);
  }

  /** The text of a widest match occurs nowhere else in the file. */
  lemma MatchedSpanOnce(text: string, hash: string, i: nat, e: nat)
    requires MatchAt(text, hash, i, e)
    requires forall i2: nat, e2: nat :: MatchAt(text, hash, i2, e2) ==> i <= i2 && e2 <= e
    ensures OccursAt(text, i, text[i..e])
    ensures forall q: nat :: OccursAt(text, q, text[i..e]) ==> q == i
  {
    var m := text[i..e];
    var open := OpenTag(hash);
    SpanEnds(text, i, e, open, CloseTag);
    forall q: nat | OccursAt(text, q, m) ensures q == i {
      OccursPrefixOf(text, q, m, open);
      OccursSuffixOf(text, q, m, CloseTag);
      assert MatchAt(text, hash, q, q + |m|);
    }
  }

  /** A span that opens with `p` and closes with `q` has them as its own ends. */
  lemma SpanEnds(text: string, lo: nat, hi: nat, p: string, q: string)
    requires lo + |p| <= hi && lo + |q| <= hi <= |text|
    requires OccursAt(text, lo, p) && OccursAt(text, hi - |q|, q)
    ensures StartsWith(text[lo..hi], p) && text[lo..hi][hi - lo - |q|..] == q
  {
    assert text[lo..hi][..|p|] == text[lo..lo + |p|];
    assert text[lo..hi][hi - lo - |q|..] == text[hi - |q|..hi];
  }

  /** Rewriting with `Replace` keeps everything before and after the matched span character
      for character and puts `code` in between. */
  lemma ReplaceKeepsOutside(text: string, hash: string, code: string)
    requires FindRegion(text, hash).Some?
    ensures var r := FindRegion(text, hash).value;
      var t := ReplaceAll(text, text[r.start..r.end], code);
      && |t| == |text| - (r.end - r.start) + |code|
      && t[..r.start] == text[..r.start]
      && t[r.start..r.start + |code|] == code
      && t[r.start + |code|..] == text[r.end..]
  {
    ReplaceMatchIsSplice(text, hash, code);
  }

  /** No opening marker before `i` survives a rewrite that keeps `text[..i]` and puts an
      opening marker at `i`. */
  lemma NoOpenBeforeSplice(text: string, t: string, hash: string, i: nat)
    requires '>' !in hash
    requires i <= |text| && i <= |t| && t[..i] == text[..i]
    requires OccursAt(t, i, OpenTag(hash))
    requires forall k: nat :: k < i ==> !OccursAt(text, k, OpenTag(hash))
    ensures forall k: nat :: k < i ==> !OccursAt(t, k, OpenTag(hash))
  {
    var open := OpenTag(hash);
    TagsLastCharUnique(hash);
    forall k: nat | k < i ensures !OccursAt(t, k, open) {
      if k + |open| <= i {
        OccursInCommonPrefix(t, text, i, k, open);
      } else {
        NoOverlapBefore(t, open, k, i);
      }
    }
  }

  /** No closing marker after the one ending at `e` survives a rewrite that keeps the text
      after the old last closing marker. */
  lemma NoCloseAfterSplice(text: string, end: nat, t: string, e: nat)
    requires |CloseTag| <= end <= |text| && |CloseTag| <= e <= |t| && t[e..] == text[end..]
    requires OccursAt(t, e - |CloseTag|, CloseTag)
    requires forall k: nat :: end - |CloseTag| < k ==> !OccursAt(text, k, CloseTag)
    ensures forall k: nat :: e - |CloseTag| < k ==> !OccursAt(t, k, CloseTag)
  {
    TagsLastCharUnique("");
    forall k: nat | e - |CloseTag| < k ensures !OccursAt(t, k, CloseTag) {
      if e <= k {
        OccursInCommonSuffix(t, e, text, end, k, CloseTag);
      } else {
        NoOverlapAfter(t, CloseTag, e - |CloseTag|, k);
      }
    }
  }

  /** The slices of a splice. */
  lemma SpliceParts(text: string, r: Region, code: string)
    requires r.start <= r.end <= |text|
    ensures var t := Splice(text, r, code);
      && |t| == r.start + |code| + (|text| - r.end)
      && t[..r.start] == text[..r.start]
      && t[r.start..r.start + |code|] == code
      && t[r.start + |code|..] == text[r.end..]
  {
  }

  /** A framed block carries its markers at its two ends. */
  lemma FramedBlockMarkers(hash: string, body: string)
    ensures var code := BindHashTag(hash, body);
      && |code| == |OpenTag(hash)| + |body| + |CloseTag|
      && StartsWith(code, OpenTag(hash))
      && code[|code| - |CloseTag|..] == CloseTag
  {
    var code := BindHashTag(hash, body);
    assert code[..|OpenTag(hash)|] == OpenTag(hash);
  }

  /** A framed block inside a text puts its markers there. */
  lemma FramedBlockAt(t: string, i: nat, hash: string, body: string)
    requires var code := BindHashTag(hash, body); i + |code| <= |t| && t[i..i + |code|] == code
    ensures var code := BindHashTag(hash, body);
      && OccursAt(t, i, OpenTag(hash))
      && |CloseTag| <= |code| && OccursAt(t, i + |code| - |CloseTag|, CloseTag)
  {
    var code := BindHashTag(hash, body);
    FramedBlockMarkers(hash, body);
    OccursPrefixOf(t, i, code, OpenTag(hash));
    OccursSuffixOf(t, i, code, CloseTag);
  }

  /** After splicing a freshly framed block into the found region, matching again finds exactly
      that block. Only the hash matters: it must not contain '>', which a hexadecimal hash never
      does; the block's body may contain anything, closing markers included. */
  lemma SpliceRefinds(text: string, hash: string, body: string, r: Region)
    requires '>' !in hash
    requires FindRegion(text, hash) == Some(r)
    ensures var found := FindRegion(Splice(text, r, BindHashTag(hash, body)), hash);
      found.Some? && found.value == Region(r.start, r.start + |BindHashTag(hash, body)|)
  {
    var code := BindHashTag(hash, body);
    SpliceParts(text, r, code);
    RefindFramed(text, Splice(text, r, code), hash, body, r.start, r.end);
  }

  /** The markers around a framed block placed at `i` in a text that keeps `text` before `i`
      and after `end` are the outermost ones, so the block is found exactly. */
  lemma RefindFramed(text: string, t: string, hash: string, body: string, i: nat, end: nat)
    requires '>' !in hash
    requires var code := BindHashTag(hash, body);
      && i + |CloseTag| <= end <= |text| && |t| == i + |code| + (|text| - end)
      && t[..i] == text[..i] && t[i..i + |code|] == code && t[i + |code|..] == text[end..]
    requires forall k: nat :: k < i ==> !OccursAt(text, k, OpenTag(hash))
    requires forall k: nat :: end - |CloseTag| < k ==> !OccursAt(text, k, CloseTag)
    ensures FindRegion(t, hash) == Some(Region(i, i + |BindHashTag(hash, body)|))
  {
    var e := i + |BindHashTag(hash, body)|;
    FramedBlockAt(t, i, hash, body);
    NoOpenBeforeSplice(text, t, hash, i);
    NoCloseAfterSplice(text, end, t, e);
    FindRegionExact(t, hash, i, e);
  }

  /** Regenerating with the same block a second time leaves the file as the first time did. */
  lemma RegenerateIdempotent(text: string, hash: string, body: string)
    requires '>' !in hash
    requires FindRegion(text, hash).Some?
    ensures var code := BindHashTag(hash, body);
      var t := Splice(text, FindRegion(text, hash).value, code);
      && FindRegion(t, hash).Some?
      && Splice(t, FindRegion(t, hash).value, code) == t
  {
    var r := FindRegion(text, hash).value;
    var code := BindHashTag(hash, body);
    var t := Splice(text, r, code);
    SpliceRefinds(text, hash, body, r);
    SpliceParts(text, r, code);
    SpliceSame(t, Region(r.start, r.start + |code|), code);
  }

  /** Splicing in the text already in a span changes nothing. */
  lemma SpliceSame(t: string, r: Region, code: string)
    requires r.start <= r.end <= |t| && t[r.start..r.end] == code
    ensures Splice(t, r, code) == t
  {
    assert t == t[..r.start] + t[r.start..r.end] + t[r.end..];
  }

  /** A framed block on its own is found whole, and its interior is the body. */
  lemma TagIsRegion(hash: string, body: string)
    ensures var code := BindHashTag(hash, body);
      && FindRegion(code, hash) == Some(Region(0, |code|))
      && code[|OpenTag(hash)|..|code| - |CloseTag|] == body
  {
    var code := BindHashTag(hash, body);
    assert OccursAt(code, 0, OpenTag(hash)) by {
      assert code[..|OpenTag(hash)|] == OpenTag(hash);
    }
    assert OccursAt(code, |code| - |CloseTag|, CloseTag) by {
      assert code[|code| - |CloseTag|..] == CloseTag;
    }
    FindRegionExact(code, hash, 0, |code|);
  }

  /** The greedy match is not confined to one hash's region: with a region of `a` followed
      later in the file by a region of another hash `b`, the match for `a` runs to the end of
      `b`'s region, so regenerating `a` replaces `b`'s region as well. */
  lemma GreedyRegionSpansLaterRegions(a: string, x: string, mid: string, b: string, y: string, code: string)
    ensures var text := BindHashTag(a, x) + mid + BindHashTag(b, y);
      && FindRegion(text, a) == Some(Region(0, |text|))
      && Splice(text, Region(0, |text|), code) == code
  {
    var text := BindHashTag(a, x) + mid + BindHashTag(b, y);
    var open := OpenTag(a);
    assert OccursAt(text, 0, open) by {
      assert text[..|open|] == open;
    }
    assert OccursAt(text, |text| - |CloseTag|, CloseTag) by {
      assert text[|text| - |CloseTag|..] == CloseTag;
    }
    FindRegionExact(text, a, 0, |text|);
    assert text[..0] == [] && text[|text|..] == [];
  }
}
