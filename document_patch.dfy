/** The document patch: the rendered lines, framed by the two marker lines,
    replace the first marked region of the document, and the document is
    written back only when its text changes. */
module DocumentPatch {
  import opened Wrappers
  import opened JsString

  const Start := "<!-- ACTIVITY:START -->"
  const End := "<!-- ACTIVITY:END -->"

  /** The shape both markers have: a first `<`, no other `<` and no line
      feed. The region proofs below rely on nothing else about them. */
  predicate IsMarker(m: string) {
    && |m| >= 1 && m[0] == '<'
    && forall k :: 1 <= k < |m| ==> m[k] != '<' && m[k] != '\n'
  }

  lemma MarkersAreMarkers()
    ensures IsMarker(Start) && IsMarker(End)
  {
  }

  /** The start marker, one line per rendered event and the end marker,
      joined by line feeds. */
  function BlockBetween(startMark: string, endMark: string, lines: seq<string>): string {
    startMark + "\n" + Join(lines + [endMark], "\n")
  }

  /** The block written into the document. */
  function Block(lines: seq<string>): string {
    BlockBetween(Start, End, lines)
  }

  /** A marked region: it starts where a start marker starts and ends where an
      end marker ends. */
  datatype Region = Region(start: nat, end: nat)

  /** The match of the pattern `startMark[\s\S]*?endMark`: the first start
      marker, then the nearest end marker after it. */
  function FindRegionBetween(md: string, startMark: string, endMark: string): (r: Option<Region>)
    ensures r.Some? ==> r.value.start + |startMark| + |endMark| <= r.value.end <= |md|
  {
    match IndexOf(md, startMark, 0)
    case None => None
    case Some(p) =>
      match IndexOf(md, endMark, p + |startMark|)
      case None => None
      case Some(q) => Some(Region(p, q + |endMark|))
  }

  /** The region the source's regular expression matches. */
  function FindRegion(md: string): Option<Region> {
    FindRegionBetween(md, Start, End)
  }

  /** The region found is the leftmost match of the pattern and its lazy
      middle is the shortest one ... */
  lemma RegionIsFirstMatch(md: string, startMark: string, endMark: string)
    requires FindRegionBetween(md, startMark, endMark).Some?
    ensures var r := FindRegionBetween(md, startMark, endMark).value;
      && r.start + |startMark| + |endMark| <= r.end <= |md|
      && OccursAt(md, startMark, r.start) && OccursAt(md, endMark, r.end - |endMark|)
      && (forall k :: 0 <= k < r.start ==> !OccursAt(md, startMark, k))
      && (forall k :: r.start + |startMark| <= k < r.end - |endMark| ==> !OccursAt(md, endMark, k))
  {
    var p := IndexOf(md, startMark, 0).value;
    IndexOfSpec(md, startMark, 0);
    IndexOfSpec(md, endMark, p + |startMark|);
  }

  /** ... and no region is found exactly when no start marker has an end
      marker after it. */
  lemma RegionNone(md: string, startMark: string, endMark: string)
    ensures FindRegionBetween(md, startMark, endMark).None? <==>
      forall p, q :: OccursAt(md, startMark, p) && p + |startMark| <= q ==> !OccursAt(md, endMark, q)
  {
    IndexOfSpec(md, startMark, 0);
    match IndexOf(md, startMark, 0)
    case None =>
    case Some(p) =>
      IndexOfSpec(md, endMark, p + |startMark|);
      match IndexOf(md, endMark, p + |startMark|)
      case None =>
        forall p', q | OccursAt(md, startMark, p') && p' + |startMark| <= q ensures !OccursAt(md, endMark, q) {
          assert p <= p';
        }
      case Some(q) =>
        assert OccursAt(md, startMark, p) && p + |startMark| <= q && OccursAt(md, endMark, q);
  }

  /** The replacement as intended: the region, markers included, is replaced
      by the block; without a region the text stays as it is. */
  function PatchBetween(md: string, startMark: string, endMark: string, block: string): string {
    match FindRegionBetween(md, startMark, endMark)
    case None => md
    case Some(r) => md[..r.start] + block + md[r.end..]
  }

  function Patch(md: string, block: string): string {
    PatchBetween(md, Start, End, block)
  }

  /** With a region, the text before it, the block and the text after it;
      without one, the text itself. */
  lemma PatchSplices(md: string, block: string)
    ensures FindRegion(md).Some? ==>
      var r := FindRegion(md).value;
      && Patch(md, block) == md[..r.start] + block + md[r.end..]
      && md == md[..r.start] + md[r.start..r.end] + md[r.end..]
    ensures FindRegion(md).None? ==> Patch(md, block) == md
  {
    if FindRegion(md).Some? {
      var r := FindRegion(md).value;
      assert md == md[..r.start] + md[r.start..r.end] + md[r.end..];
    }
  }

  // ---------------------------------------------------------------------
  // `String.prototype.replace` with a string replacement, as it is called.

  /** The replacement string with its `$` patterns expanded, for a pattern
      without capture groups: `$$` is one `$`, `$&` the matched text, `` $` ``
      the text before the match, `$'` the text after it; any other `$` is
      copied. */
  function Expand(rep: string, matched: string, before: string, after: string): string
    decreases |rep|
  {
    if rep == [] then []
    else if rep[0] == '$' && |rep| >= 2 && rep[1] == '$' then "$" + Expand(rep[2..], matched, before, after)
    else if rep[0] == '$' && |rep| >= 2 && rep[1] == '&' then matched + Expand(rep[2..], matched, before, after)
    else if rep[0] == '$' && |rep| >= 2 && rep[1] == '`' then before + Expand(rep[2..], matched, before, after)
    else if rep[0] == '$' && |rep| >= 2 && rep[1] == '\'' then after + Expand(rep[2..], matched, before, after)
    else [rep[0]] + Expand(rep[1..], matched, before, after)
  }

  /** What `md.replace(new RegExp(START + "[\\s\\S]*?" + END), block)` computes:
      the block is expanded as a replacement pattern. */
  function PatchAsWrittenBetween(md: string, startMark: string, endMark: string, block: string): string {
    match FindRegionBetween(md, startMark, endMark)
    case None => md
    case Some(r) => md[..r.start] + Expand(block, md[r.start..r.end], md[..r.start], md[r.end..]) + md[r.end..]
  }

  function PatchAsWritten(md: string, block: string): string {
    PatchAsWrittenBetween(md, Start, End, block)
  }

  predicate NoDollar(s: string) {
    forall k :: 0 <= k < |s| ==> s[k] != '$'
  }

  lemma {:induction false} ExpandNoDollar(rep: string, matched: string, before: string, after: string)
    requires NoDollar(rep)
    ensures Expand(rep, matched, before, after) == rep
    decreases |rep|
  {
    if rep != [] {
      ExpandNoDollar(rep[1..], matched, before, after);
      assert rep == [rep[0]] + rep[1..];
    }
  }

  lemma {:induction false} ExpandAppend(a: string, b: string, matched: string, before: string, after: string)
    requires NoDollar(a)
    ensures Expand(a + b, matched, before, after) == a + Expand(b, matched, before, after)
    decreases |a|
  {
    if a != [] {
      assert (a + b)[0] == a[0] && (a + b)[1..] == a[1..] + b;
      ExpandAppend(a[1..], b, matched, before, after);
      assert Expand(a + b, matched, before, after) == [a[0]] + Expand(a[1..] + b, matched, before, after);
      assert a == [a[0]] + a[1..];
    } else {
      assert a + b == b;
    }
  }

  /** A block without `$` is inserted as it is, so the source then does what
      is intended. */
  lemma AsWrittenAgreesWithoutDollar(md: string, block: string)
    requires NoDollar(block)
    ensures PatchAsWritten(md, block) == Patch(md, block)
  {
    match FindRegion(md)
    case None =>
    case Some(r) => ExpandNoDollar(block, md[r.start..r.end], md[..r.start], md[r.end..]);
  }

  lemma StartEndNoDollar()
    ensures NoDollar(Start) && NoDollar(End)
  {
  }

  /** Two adjacent markers are a region of their own. */
  lemma AdjacentMarkersRegion(startMark: string, endMark: string)
    requires IsMarker(startMark) && IsMarker(endMark)
    ensures FindRegionBetween(startMark + endMark, startMark, endMark) == Some(Region(0, |startMark| + |endMark|))
  {
    var md := startMark + endMark;
    assert md[0..|startMark|] == startMark;
    IndexOfIs(md, startMark, 0, 0);
    assert md[|startMark|..|startMark| + |endMark|] == endMark;
    IndexOfIs(md, endMark, |startMark|, |startMark|);
  }

  /** For markers without `$`, a line `$&` is replaced by the adjacent
      markers' region, which makes the text two markers longer. */
  lemma DollarLineBetween(startMark: string, endMark: string)
    requires IsMarker(startMark) && IsMarker(endMark) && NoDollar(startMark) && NoDollar(endMark)
    ensures var md := startMark + endMark;
      var block := BlockBetween(startMark, endMark, ["$&"]);
      && |PatchBetween(md, startMark, endMark, block)| == |block|
      && |PatchAsWrittenBetween(md, startMark, endMark, block)| == |block| - 2 + |md|
  {
    var md := startMark + endMark;
    AdjacentMarkersRegion(startMark, endMark);
    assert md[..0] == "" && md[|md|..] == "" && md[0..|md|] == md;
    var block := BlockBetween(startMark, endMark, ["$&"]);
    assert Join(["$&"] + [endMark], "\n") == "$&" + "\n" + endMark by {
      assert (["$&"] + [endMark])[1..] == [endMark];
    }
    var head, tail := startMark + "\n", "\n" + endMark;
    assert block == head + ("$&" + tail);
    assert NoDollar(head) && NoDollar(tail) by {
      assert forall k :: 0 <= k < |startMark| ==> head[k] == startMark[k];
      assert forall k :: 1 <= k < |tail| ==> tail[k] == endMark[k - 1];
    }
    ExpandAppend(head, "$&" + tail, md, "", "");
    assert ("$&" + tail)[2..] == tail;
    ExpandNoDollar(tail, md, "", "");
  }

  /** A rendered line reading `$&` (an issue or pull-request title, say) is
      replaced by the old region instead of being written as it is. */
  lemma DollarLineCounterexample()
    ensures PatchAsWritten(Start + End, Block(["$&"])) != Patch(Start + End, Block(["$&"]))
  {
    MarkersAreMarkers();
    StartEndNoDollar();
    DollarLineBetween(Start, End);
  }

  // ---------------------------------------------------------------------
  // Writing the block twice.

  lemma ShiftOccurs(pre: string, t: string, pat: string, k: nat)
    ensures OccursAt(pre + t, pat, |pre| + k) == OccursAt(t, pat, k)
  {
    if k + |pat| <= |t| {
      assert (pre + t)[|pre| + k..|pre| + k + |pat|] == t[k..k + |pat|];
    }
  }

  lemma {:induction false} IndexOfIs(s: string, pat: string, from: nat, p: nat)
    requires from <= p <= |s| && OccursAt(s, pat, p)
    requires forall k :: from <= k < p ==> !OccursAt(s, pat, k)
    ensures IndexOf(s, pat, from) == Some(p)
    decreases p - from
  {
    if from < p {
      IndexOfIs(s, pat, from + 1, p);
    }
  }

  /** No marker begins in `pre` when `pre` holds none and a marker follows it:
      one that began in `pre` and ran into the next would hold a second `<`. */
  lemma NoMarkerBefore(pre: string, rest: string, m: string)
    requires IsMarker(m)
    requires forall k :: 0 <= k < |pre| ==> !OccursAt(pre, m, k)
    requires |rest| >= |m| && rest[..|m|] == m
    ensures forall k :: 0 <= k < |pre| ==> !OccursAt(pre + rest, m, k)
  {
    var t := pre + rest;
    forall k | 0 <= k < |pre| ensures !OccursAt(t, m, k) {
      if k + |m| <= |pre| {
        assert t[k..k + |m|] == pre[k..k + |m|];
        assert !OccursAt(pre, m, k);
      } else {
        var d := |pre| - k;
        assert 0 < d < |m| && m[d] != '<';
        if k + |m| <= |t| {
          assert t[k..k + |m|][d] == t[|pre|] == rest[0] == m[0];
        }
      }
    }
  }

  lemma PrefixHasNoMarker(md: string, p: nat, m: string)
    requires p <= |md|
    requires forall k :: 0 <= k < p ==> !OccursAt(md, m, k)
    ensures forall k :: 0 <= k < p ==> !OccursAt(md[..p], m, k)
  {
    forall k | 0 <= k < p ensures !OccursAt(md[..p], m, k) {
      if k + |m| <= p {
        assert !OccursAt(md, m, k);
        assert md[k..k + |m|] == md[..p][k..k + |m|];
      }
    }
  }

  /** The first start marker of `pre + rest` is the one `rest` starts with. */
  lemma FirstStartAfter(pre: string, rest: string, startMark: string)
    requires IsMarker(startMark)
    requires forall k :: 0 <= k < |pre| ==> !OccursAt(pre, startMark, k)
    requires |rest| >= |startMark| && rest[..|startMark|] == startMark
    ensures IndexOf(pre + rest, startMark, 0) == Some(|pre|)
  {
    NoMarkerBefore(pre, rest, startMark);
    ShiftOccurs(pre, rest, startMark, 0);
    IndexOfIs(pre + rest, startMark, 0, |pre|);
  }

  /** In `"\n" + j + "\n" + endMark + post`, with no end marker in `j`, the
      first end marker is the one after the second line feed. */
  lemma TailEnd(j: string, post: string, endMark: string)
    requires IsMarker(endMark) && !Contains(j, endMark)
    ensures OccursAt("\n" + j + "\n" + endMark + post, endMark, |j| + 2)
    ensures forall k :: 0 <= k < |j| + 2 ==> !OccursAt("\n" + j + "\n" + endMark + post, endMark, k)
  {
    var t := "\n" + j + "\n" + endMark + post;
    assert t[|j| + 2..|j| + 2 + |endMark|] == endMark;
    forall k | 0 <= k < |j| + 2 ensures !OccursAt(t, endMark, k) {
      if k == 0 || k == |j| + 1 {
        assert t[k] == '\n';
        if k + |endMark| <= |t| {
          assert t[k..k + |endMark|][0] == t[k];
        }
      } else if k + |endMark| <= |j| + 1 {
        assert !OccursAt(j, endMark, k - 1);
        assert t[k..k + |endMark|] == j[k - 1..k - 1 + |endMark|];
      } else {
        var d := |j| + 1 - k;
        assert 0 < d < |endMark| && endMark[d] != '\n';
        if k + |endMark| <= |t| {
          assert t[k..k + |endMark|][d] == t[|j| + 1] == '\n';
        }
      }
    }
  }

  /** With no lines, the end marker directly follows the line feed. */
  lemma EmptyTailEnd(post: string, endMark: string)
    requires IsMarker(endMark)
    ensures OccursAt("\n" + endMark + post, endMark, 1)
    ensures !OccursAt("\n" + endMark + post, endMark, 0)
  {
    var t := "\n" + endMark + post;
    assert t[1..1 + |endMark|] == endMark;
    assert t[0] == '\n' && t[0..|endMark|][0] == t[0];
  }

  lemma JoinThenLast(lines: seq<string>, last: string)
    ensures Join(lines + [last], "\n") == (if lines == [] then last else Join(lines, "\n") + "\n" + last)
  {
    if lines != [] {
      assert (lines + [last])[0] == lines[0];
      assert (lines + [last])[1..] == lines[1..] + [last];
      if |lines| > 1 {
        JoinThenLast(lines[1..], last);
      } else {
        assert lines[1..] + [last] == [last];
      }
    }
  }

  lemma ShiftAbsent(pre: string, t: string, pat: string, lo: nat, hi: nat)
    requires forall k :: lo <= k < hi ==> !OccursAt(t, pat, k)
    ensures forall k :: |pre| + lo <= k < |pre| + hi ==> !OccursAt(pre + t, pat, k)
  {
    forall k | |pre| + lo <= k < |pre| + hi ensures !OccursAt(pre + t, pat, k) {
      ShiftOccurs(pre, t, pat, k - |pre|);
    }
  }

  /** After the start marker's line feed, the first end marker is the closing
      one, when the lines hold none. */
  lemma JoinedTailEnd(lines: seq<string>, endMark: string, post: string)
    requires IsMarker(endMark) && !Contains(Join(lines, "\n"), endMark)
    ensures |Join(lines + [endMark], "\n")| >= |endMark|
    ensures var body := "\n" + Join(lines + [endMark], "\n");
      && OccursAt(body + post, endMark, |body| - |endMark|)
      && forall k :: 0 <= k < |body| - |endMark| ==> !OccursAt(body + post, endMark, k)
  {
    JoinThenLast(lines, endMark);
    var body := "\n" + Join(lines + [endMark], "\n");
    if lines == [] {
      assert body + post == "\n" + endMark + post;
      EmptyTailEnd(post, endMark);
    } else {
      var j := Join(lines, "\n");
      assert body + post == "\n" + j + "\n" + endMark + post;
      TailEnd(j, post, endMark);
    }
  }

  /** In a block followed by any text, the first end marker after the start
      marker is the block's own closing one, when the lines hold none. */
  lemma BlockEnd(startMark: string, endMark: string, lines: seq<string>, post: string)
    requires IsMarker(endMark) && !Contains(Join(lines, "\n"), endMark)
    ensures |startMark| + |endMark| <= |BlockBetween(startMark, endMark, lines)|
    ensures
      var b := BlockBetween(startMark, endMark, lines);
      && OccursAt(b + post, endMark, |b| - |endMark|)
      && forall k :: |startMark| <= k < |b| - |endMark| ==> !OccursAt(b + post, endMark, k)
  {
    var b := BlockBetween(startMark, endMark, lines);
    var body := "\n" + Join(lines + [endMark], "\n");
    JoinedTailEnd(lines, endMark, post);
    assert b + post == startMark + (body + post);
    var q := |body| - |endMark|;
    ShiftOccurs(startMark, body + post, endMark, q);
    ShiftAbsent(startMark, body + post, endMark, 0, q);
  }

  lemma FirstOccurrenceAfter(pre: string, rest: string, pat: string, lo: nat, q: nat)
    requires lo <= q && OccursAt(rest, pat, q)
    requires forall k :: lo <= k < q ==> !OccursAt(rest, pat, k)
    ensures IndexOf(pre + rest, pat, |pre| + lo) == Some(|pre| + q)
  {
    ShiftOccurs(pre, rest, pat, q);
    ShiftAbsent(pre, rest, pat, lo, q);
    IndexOfIs(pre + rest, pat, |pre| + lo, |pre| + q);
  }

  /** A text that starts with a start marker and ends with the first end
      marker after it, placed after text without a start marker, is the first
      marked region. */
  lemma RegionOfFramed(pre: string, b: string, post: string, startMark: string, endMark: string)
    requires IsMarker(startMark)
    requires forall k :: 0 <= k < |pre| ==> !OccursAt(pre, startMark, k)
    requires |startMark| + |endMark| <= |b| && b[..|startMark|] == startMark
    requires OccursAt(b + post, endMark, |b| - |endMark|)
    requires forall k :: |startMark| <= k < |b| - |endMark| ==> !OccursAt(b + post, endMark, k)
    ensures FindRegionBetween(pre + (b + post), startMark, endMark) == Some(Region(|pre|, |pre| + |b|))
  {
    assert (b + post)[..|startMark|] == startMark;
    FirstStartAfter(pre, b + post, startMark);
    FirstOccurrenceAfter(pre, b + post, endMark, |startMark|, |b| - |endMark|);
  }

  /** A block placed after text without a start marker is the first marked
      region, when its lines hold no end marker. */
  lemma BlockIsFirstRegion(pre: string, startMark: string, endMark: string, lines: seq<string>, post: string)
    requires IsMarker(startMark) && IsMarker(endMark)
    requires forall k :: 0 <= k < |pre| ==> !OccursAt(pre, startMark, k)
    requires !Contains(Join(lines, "\n"), endMark)
    ensures
      var b := BlockBetween(startMark, endMark, lines);
      FindRegionBetween(pre + (b + post), startMark, endMark) == Some(Region(|pre|, |pre| + |b|))
  {
    var b := BlockBetween(startMark, endMark, lines);
    BlockEnd(startMark, endMark, lines, post);
    assert b[..|startMark|] == startMark;
    RegionOfFramed(pre, b, post, startMark, endMark);
  }

  /** Patching a second time with the same block changes nothing, as long as
      the rendered lines hold no end marker: after the first patch the block
      is itself the first marked region. */
  lemma PatchIdempotentBetween(md: string, startMark: string, endMark: string, lines: seq<string>)
    requires IsMarker(startMark) && IsMarker(endMark)
    requires !Contains(Join(lines, "\n"), endMark)
    ensures var block := BlockBetween(startMark, endMark, lines);
      PatchBetween(PatchBetween(md, startMark, endMark, block), startMark, endMark, block)
      == PatchBetween(md, startMark, endMark, block)
  {
    var block := BlockBetween(startMark, endMark, lines);
    match FindRegionBetween(md, startMark, endMark)
    case None =>
    case Some(r) =>
      RegionIsFirstMatch(md, startMark, endMark);
      var pre, post := md[..r.start], md[r.end..];
      var out := pre + (block + post);
      assert PatchBetween(md, startMark, endMark, block) == out;
      PrefixHasNoMarker(md, r.start, startMark);
      BlockIsFirstRegion(pre, startMark, endMark, lines, post);
      assert out[..|pre|] == pre && out[|pre| + |block|..] == post;
  }

  /** The same for the action's markers. */
  lemma PatchIdempotent(md: string, lines: seq<string>)
    requires !Contains(Join(lines, "\n"), End)
    ensures Patch(Patch(md, Block(lines)), Block(lines)) == Patch(md, Block(lines))
  {
    MarkersAreMarkers();
    PatchIdempotentBetween(md, Start, End, lines);
  }

  /** The replacement as written is idempotent too, for a block without `$`:
      it is then the literal splice. */
  lemma PatchAsWrittenIdempotent(md: string, lines: seq<string>)
    requires !Contains(Join(lines, "\n"), End)
    requires NoDollar(Block(lines))
    ensures PatchAsWritten(PatchAsWritten(md, Block(lines)), Block(lines)) == PatchAsWritten(md, Block(lines))
  {
    var block := Block(lines);
    AsWrittenAgreesWithoutDollar(md, block);
    AsWrittenAgreesWithoutDollar(Patch(md, block), block);
    PatchIdempotent(md, lines);
  }

  /** The document the action patches. */
  class Document {
    var text: string

    constructor(text: string)
      ensures this.text == text
    {
      this.text := text;
    }

    /** Patches the document with `block` and writes it back only when the
        text changes; `written` tells whether it did. The block is spliced in
        literally, which is what the replacement as written does for every
        block without `$`. */
    method Publish(block: string) returns (written: bool)
      modifies this
      ensures text == Patch(old(text), block)
      ensures NoDollar(block) ==> text == PatchAsWritten(old(text), block)
      ensures written <==> Patch(old(text), block) != old(text)
    {
      if NoDollar(block) {
        AsWrittenAgreesWithoutDollar(text, block);
      }
      var out := Patch(text, block);
      written := out != text;
      if written {
        text := out;
      }
    }
  }
}
