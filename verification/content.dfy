/** Splitting event content into text and NIP-30 custom emoji parts.

    The source splits the content with the capturing pattern
    `(:[_a-zA-Z0-9]+:)`, drops empty pieces, and turns every piece that starts
    and ends with `:` into a custom emoji when an `emoji` tag carries that
    shortcode. The split is modelled by a left-to-right scanner (`Scan`) and
    checked against a declarative description of a leftmost split
    (`WellSplit`). */
module Content {
  import opened Wrappers
  import opened Strings
  import opened Events

  datatype Part = Text(text: string) | CustomEmoji(imgUrl: string, shortcode: string)

  /** The character class `[_a-zA-Z0-9]`. */
  predicate IsShortcodeChar(c: char) {
    c == '_' || ('a' <= c <= 'z') || ('A' <= c <= 'Z') || ('0' <= c <= '9')
  }

  /** A whole match of `:[_a-zA-Z0-9]+:`. */
  ghost predicate IsReference(t: string) {
    |t| >= 3 && t[0] == ':' && t[|t| - 1] == ':'
    && forall k :: 1 <= k < |t| - 1 ==> IsShortcodeChar(t[k])
  }

  /** The length of the longest run of shortcode characters from `i`. */
  function RunLength(s: string, i: nat): (n: nat)
    requires i <= |s|
    ensures i + n <= |s|
    ensures forall k :: i <= k < i + n ==> IsShortcodeChar(s[k])
    ensures i + n == |s| || !IsShortcodeChar(s[i + n])
    decreases |s| - i
  {
    if i < |s| && IsShortcodeChar(s[i]) then 1 + RunLength(s, i + 1) else 0
  }

  /** The length of the match of `:[_a-zA-Z0-9]+:` starting at `i`, or 0 when
      the pattern does not match there. */
  function MatchLength(s: string, i: nat): (n: nat)
    requires i <= |s|
    ensures i + n <= |s|
  {
    if i < |s| && s[i] == ':' then
      var run := RunLength(s, i + 1);
      if run > 0 && i + 1 + run < |s| && s[i + 1 + run] == ':' then run + 2 else 0
    else 0
  }

  /** `MatchLength` finds exactly the matches of the pattern: a positive length
      is a match, and no slice starting where it reports 0 is a match. */
  lemma MatchLengthIsPattern(s: string, i: nat, len: nat)
    requires i + len <= |s|
    ensures MatchLength(s, i) > 0 ==> IsReference(s[i..i + MatchLength(s, i)])
    ensures IsReference(s[i..i + len]) ==> MatchLength(s, i) == len
  {
    var t := s[i..i + len];
    if IsReference(t) {
      var run := RunLength(s, i + 1);
      assert forall k :: 1 <= k < len - 1 ==> s[i + k] == t[k];
      assert s[i] == ':' && s[i + len - 1] == ':';
      assert run == len - 2;
    }
  }

  /** Matching only looks forward, so it is unchanged on a suffix. */
  lemma {:induction false} RunLengthOfSuffix(s: string, a: nat, j: nat)
    requires a + j <= |s|
    ensures RunLength(s[a..], j) == RunLength(s, a + j)
    decreases |s| - a - j
  {
    if a + j < |s| && IsShortcodeChar(s[a + j]) {
      RunLengthOfSuffix(s, a, j + 1);
    }
  }

  lemma MatchLengthOfSuffix(s: string, a: nat, j: nat)
    requires a + j <= |s|
    ensures MatchLength(s[a..], j) == MatchLength(s, a + j)
  {
    if a + j < |s| {
      RunLengthOfSuffix(s, a, j + 1);
    }
  }

  /** The declarative description of the split: `segs` cut `s` into non-empty
      pieces, each either the match that starts at its position or a maximal
      stretch of text in which no match starts. */
  ghost predicate WellSplit(s: string, segs: seq<string>)
    decreases |segs|
  {
    if |segs| == 0 then s == []
    else
      var n := |segs[0]|;
      && 0 < n <= |s| && s[..n] == segs[0]
      && (|| MatchLength(s, 0) == n
          || (&& (forall j :: 0 <= j < n ==> MatchLength(s, j) == 0)
              && (n == |s| || MatchLength(s, n) > 0)))
      && WellSplit(s[n..], segs[1..])
  }

  /** The scanner: `s[..p]` is pending text, and `p` is the next position
      to try. */
  function Scan(s: string, p: nat): seq<string>
    requires p <= |s|
    decreases |s|, |s| - p
  {
    if p == |s| then
      if p == 0 then [] else [s]
    else
      var n := MatchLength(s, p);
      if n == 0 then Scan(s, p + 1)
      else if p == 0 then [s[..n]] + Scan(s[n..], 0)
      else [s[..p]] + Scan(s[p..], 0)
  }

  /** When no match starts in the pending text, the scanner produces the
      declarative split. */
  lemma {:induction false} ScanWellSplit(s: string, p: nat)
    requires p <= |s|
    requires forall j :: 0 <= j < p ==> MatchLength(s, j) == 0
    ensures WellSplit(s, Scan(s, p))
    decreases |s|, |s| - p
  {
    if p == |s| {
      ScanAtEnd(s);
    } else {
      var n := MatchLength(s, p);
      if n == 0 {
        ScanWellSplit(s, p + 1);
        assert Scan(s, p) == Scan(s, p + 1);
      } else if p == 0 {
        ScanWellSplit(s[n..], 0);
        ScanMatchFirst(s);
      } else {
        ScanWellSplit(s[p..], 0);
        ScanPendingFirst(s, p);
      }
    }
  }

  /** At the end of the input the pending text is the last piece. */
  lemma ScanAtEnd(s: string)
    requires forall j :: 0 <= j < |s| ==> MatchLength(s, j) == 0
    ensures WellSplit(s, Scan(s, |s|))
  {
    if |s| > 0 {
      assert Scan(s, |s|) == [s];
      PendingOnly(s);
    }
  }

  /** A match at the front is the first piece. */
  lemma ScanMatchFirst(s: string)
    requires 0 < |s| && MatchLength(s, 0) > 0
    requires WellSplit(s[MatchLength(s, 0)..], Scan(s[MatchLength(s, 0)..], 0))
    ensures WellSplit(s, Scan(s, 0))
  {
    var n := MatchLength(s, 0);
    var rest := Scan(s[n..], 0);
    assert Scan(s, 0) == [s[..n]] + rest;
    MatchThenRest(s, 0, rest);
    assert s[0..] == s && s[0..n] == s[..n];
  }

  /** Pending text in front of a match is the first piece. */
  lemma ScanPendingFirst(s: string, p: nat)
    requires 0 < p < |s|
    requires forall j :: 0 <= j < p ==> MatchLength(s, j) == 0
    requires MatchLength(s, p) > 0
    requires WellSplit(s[p..], Scan(s[p..], 0))
    ensures WellSplit(s, Scan(s, p))
  {
    var rest := Scan(s[p..], 0);
    assert Scan(s, p) == [s[..p]] + rest;
    PendingThenRest(s, p, rest);
  }

  /** Text in which no match starts is split into itself. */
  lemma PendingOnly(s: string)
    requires |s| > 0
    requires forall j :: 0 <= j < |s| ==> MatchLength(s, j) == 0
    ensures WellSplit(s, [s])
  {
    assert [s][1..] == [];
    assert s[|s|..] == [];
  }

  /** The match at `p` followed by a split of what comes after it is a split
      of `s[p..]`. */
  lemma MatchThenRest(s: string, p: nat, rest: seq<string>)
    requires p < |s| && MatchLength(s, p) > 0
    requires p + MatchLength(s, p) <= |s|
    requires WellSplit(s[p + MatchLength(s, p)..], rest)
    ensures WellSplit(s[p..], [s[p..p + MatchLength(s, p)]] + rest)
  {
    var n := MatchLength(s, p);
    MatchLengthOfSuffix(s, p, 0);
    assert s[p..][n..] == s[p + n..];
    assert ([s[p..p + n]] + rest)[1..] == rest;
  }

  /** Pending text in which no match starts, in front of a split that starts
      with a match, is a split. */
  lemma PendingThenRest(s: string, p: nat, segs: seq<string>)
    requires 0 < p < |s|
    requires forall j :: 0 <= j < p ==> MatchLength(s, j) == 0
    requires MatchLength(s, p) > 0
    requires WellSplit(s[p..], segs)
    ensures WellSplit(s, [s[..p]] + segs)
  {
    assert ([s[..p]] + segs)[1..] == segs;
  }

  /** `input.split(pattern).filter(s => s.length > 0)`. */
  function Split(s: string): (segs: seq<string>)
    ensures WellSplit(s, segs)
  {
    ScanWellSplit(s, 0);
    Scan(s, 0)
  }

  function Concat(segs: seq<string>): string {
    if |segs| == 0 then [] else segs[0] + Concat(segs[1..])
  }

  /** A well-formed split has non-empty pieces that concatenate back to the
      input. */
  lemma {:induction false} WellSplitConcat(s: string, segs: seq<string>)
    requires WellSplit(s, segs)
    ensures Concat(segs) == s
    ensures forall k :: 0 <= k < |segs| ==> segs[k] != []
    decreases |segs|
  {
    if |segs| > 0 {
      WellSplitConcat(s[|segs[0]|..], segs[1..]);
      assert s == s[..|segs[0]|] + s[|segs[0]|..];
    }
  }

  /** The declarative description admits one split only, so the scanner
      computes the leftmost split and nothing else. */
  lemma {:induction false} WellSplitUnique(s: string, a: seq<string>, b: seq<string>)
    requires WellSplit(s, a) && WellSplit(s, b)
    ensures a == b
    decreases |a|
  {
    if |a| > 0 && |b| > 0 {
      var n := |a[0]|;
      assert |b[0]| == n;
      WellSplitUnique(s[n..], a[1..], b[1..]);
    }
  }

  /** `t[0] === "emoji" && t[1] === shortcode`. */
  predicate IsEmojiTagFor(t: Tag, shortcode: string) {
    |t| > 1 && t[0] == "emoji" && t[1] == shortcode
  }

  /** `tags[i]` is the tag that `find` returns for the shortcode. */
  predicate FirstEmojiAt(tags: seq<Tag>, shortcode: string, i: nat) {
    && i < |tags| && IsEmojiTagFor(tags[i], shortcode)
    && forall j :: 0 <= j < i ==> !IsEmojiTagFor(tags[j], shortcode)
  }

  /** `getEmojiImgUrlByShortcode`: element 2 of the first `emoji` tag whose
      element 1 is the shortcode; undefined when there is no such tag or
      that tag has no element 2, even if a later tag has one. */
  function EmojiImgUrl(tags: seq<Tag>, shortcode: string): (r: Option<string>)
    ensures (forall j :: 0 <= j < |tags| ==> !IsEmojiTagFor(tags[j], shortcode)) ==> r.None?
    ensures forall i: nat :: FirstEmojiAt(tags, shortcode, i) ==>
              r == if |tags[i]| > 2 then Some(tags[i][2]) else None
    ensures r.Some? ==> exists t :: t in tags && |t| > 2 && IsEmojiTagFor(t, shortcode) && t[2] == r.value
  {
    if |tags| == 0 then None
    else
      var t := tags[0];
      if IsEmojiTagFor(t, shortcode) then
        if |t| > 2 then Some(t[2]) else None
      else
        FirstEmojiAtShift(tags, shortcode);
        EmojiImgUrl(tags[1..], shortcode)
  }

  /** Past a head that does not match, the first match moves one place. */
  lemma FirstEmojiAtShift(tags: seq<Tag>, shortcode: string)
    requires |tags| > 0 && !IsEmojiTagFor(tags[0], shortcode)
    ensures forall i: nat :: FirstEmojiAt(tags, shortcode, i) ==> i > 0 && FirstEmojiAt(tags[1..], shortcode, i - 1)
    ensures (forall j :: 0 <= j < |tags| ==> !IsEmojiTagFor(tags[j], shortcode)) ==>
              forall j :: 0 <= j < |tags[1..]| ==> !IsEmojiTagFor(tags[1..][j], shortcode)
  {
    forall i: nat | FirstEmojiAt(tags, shortcode, i)
      ensures i > 0 && FirstEmojiAt(tags[1..], shortcode, i - 1)
    {
      assert forall j :: 0 <= j < i - 1 ==> tags[1..][j] == tags[j + 1];
    }
  }

  /** `part.slice(1, -1)`. */
  function SliceInner(part: string): string {
    if |part| >= 2 then part[1..|part| - 1] else ""
  }

  /** `parseCustomEmoji` applied to one piece, as written: every piece that
      starts and ends with `:` is looked up, including a lone `:` and pieces
      the content pattern did not match. */
  function ParsePartAsWritten(part: string, tags: seq<Tag>): (r: Part)
    ensures r.Text? ==> r.text == part
    ensures r.CustomEmoji? <==> |part| > 0 && part[0] == ':' && part[|part| - 1] == ':'
                                && EmojiImgUrl(tags, SliceInner(part)).Some?
    ensures r.CustomEmoji? ==> r.shortcode == SliceInner(part) && Some(r.imgUrl) == EmojiImgUrl(tags, r.shortcode)
  {
    if StartsWith(part, ":") && EndsWith(part, ":") then
      match EmojiImgUrl(tags, SliceInner(part))
      case None => Text(part)
      case Some(url) => CustomEmoji(url, SliceInner(part))
    else Text(part)
  }

  /** The piece classifier with the emoji lookup restricted to pieces that
      are a whole match of `:[_a-zA-Z0-9]+:`. */
  function ParsePart(part: string, tags: seq<Tag>): (r: Part)
    ensures r.CustomEmoji? <==> IsReference(part) && EmojiImgUrl(tags, part[1..|part| - 1]).Some?
    ensures r.CustomEmoji? ==> r.shortcode == part[1..|part| - 1]
                               && Some(r.imgUrl) == EmojiImgUrl(tags, r.shortcode)
    ensures r.Text? ==> r.text == part
  {
    WholeMatchIsReference(part);
    if |part| > 0 && MatchLength(part, 0) == |part| then
      match EmojiImgUrl(tags, SliceInner(part))
      case None => Text(part)
      case Some(url) => CustomEmoji(url, SliceInner(part))
    else Text(part)
  }

  /** The pattern matches the whole piece exactly when the piece is
      `:` + shortcode + `:`. */
  lemma WholeMatchIsReference(part: string)
    ensures |part| > 0 && MatchLength(part, 0) == |part| <==> IsReference(part)
    ensures IsReference(part) ==> SliceInner(part) == part[1..|part| - 1]
  {
    MatchLengthIsPattern(part, 0, |part|);
    assert part[0..|part|] == part;
  }

  /** NIP-30 shortcodes: one or more of `[_a-zA-Z0-9]`. */
  predicate IsShortcode(code: string) {
    |code| > 0 && forall k :: 0 <= k < |code| ==> IsShortcodeChar(code[k])
  }

  /** Every `emoji` tag names a well-formed shortcode. */
  predicate ValidEmojiTags(tags: seq<Tag>) {
    forall i :: 0 <= i < |tags| && |tags[i]| > 1 && tags[i][0] == "emoji" ==> IsShortcode(tags[i][1])
  }

  /** With well-formed `emoji` tags the classifier as written and the
      corrected one agree on every piece. */
  lemma ParsePartAsWrittenAgrees(part: string, tags: seq<Tag>)
    requires ValidEmojiTags(tags)
    ensures ParsePartAsWritten(part, tags) == ParsePart(part, tags)
  {
    var a := ParsePartAsWritten(part, tags);
    if a.CustomEmoji? {
      var inner := SliceInner(part);
      var t :| t in tags && |t| > 2 && IsEmojiTagFor(t, inner) && t[2] == a.imgUrl;
      var i :| 0 <= i < |tags| && tags[i] == t;
      assert IsShortcode(inner);
      assert |part| >= 3;
      assert forall k :: 1 <= k < |part| - 1 ==> part[k] == inner[k - 1];
      assert IsReference(part);
    }
  }

  /** The text a part stands for: an emoji is written `:shortcode:`. */
  function Render(p: Part): string {
    match p
    case Text(t) => t
    case CustomEmoji(_, code) => ":" + code + ":"
  }

  function RenderAll(ps: seq<Part>): string {
    if |ps| == 0 then [] else Render(ps[0]) + RenderAll(ps[1..])
  }

  /** `textToParse ?? ev?.content ?? ""`. */
  function ContentInput(ev: Option<Event>, textToParse: Option<string>): string {
    match textToParse
    case Some(t) => t
    case None => if ev.Some? then ev.value.content else ""
  }

  /** `parseEventContent` as written, with the classifier that looks up every
      piece delimited by `:`. */
  function ParseEventContentAsWritten(ev: Option<Event>, textToParse: Option<string>): (r: seq<Part>)
    ensures ContentInput(ev, textToParse) == [] ==> r == []
    ensures ev.None? && ContentInput(ev, textToParse) != [] ==> r == [Text(ContentInput(ev, textToParse))]
    ensures ev.Some? && ContentInput(ev, textToParse) != [] ==>
              |r| == |Split(ContentInput(ev, textToParse))|
              && forall k :: 0 <= k < |r| ==> r[k] == ParsePartAsWritten(Split(ContentInput(ev, textToParse))[k], ev.value.tags)
  {
    var input := ContentInput(ev, textToParse);
    if |input| == 0 then []
    else if ev.None? then [Text(input)]
    else
      var segs := Split(input);
      seq(|segs|, k requires 0 <= k < |segs| => ParsePartAsWritten(segs[k], ev.value.tags))
  }

  /** `parseEventContent` with the corrected piece classifier. */
  function ParseEventContent(ev: Option<Event>, textToParse: Option<string>): (r: seq<Part>)
    ensures ContentInput(ev, textToParse) == [] ==> r == []
    ensures ev.None? && ContentInput(ev, textToParse) != [] ==> r == [Text(ContentInput(ev, textToParse))]
    ensures forall k :: 0 <= k < |r| && r[k].Text? ==> r[k].text != []
    ensures RenderAll(r) == ContentInput(ev, textToParse)
  {
    var input := ContentInput(ev, textToParse);
    if |input| == 0 then []
    else if ev.None? then
      assert RenderAll([Text(input)]) == input + RenderAll([]);
      [Text(input)]
    else
      var segs := Split(input);
      WellSplitConcat(input, segs);
      var r := ParseParts(segs, ev.value.tags);
      RenderParts(segs, ev.value.tags);
      r
  }

  /** Each piece classified on its own. */
  function ParseParts(segs: seq<string>, tags: seq<Tag>): (r: seq<Part>)
    ensures |r| == |segs|
    ensures forall k :: 0 <= k < |segs| ==> r[k] == ParsePart(segs[k], tags)
  {
    if |segs| == 0 then [] else [ParsePart(segs[0], tags)] + ParseParts(segs[1..], tags)
  }

  lemma {:induction false} RenderParts(segs: seq<string>, tags: seq<Tag>)
    ensures RenderAll(ParseParts(segs, tags)) == Concat(segs)
    decreases |segs|
  {
    if |segs| > 0 {
      RenderParts(segs[1..], tags);
      RenderPart(segs[0], tags);
    }
  }

  /** A piece is rendered back as itself. */
  lemma RenderPart(p: string, tags: seq<Tag>)
    ensures Render(ParsePart(p, tags)) == p
  {
    var r := ParsePart(p, tags);
    if r.CustomEmoji? {
      var code := p[1..|p| - 1];
      assert p[0] == ':' && p[|p| - 1] == ':';
      assert p == [p[0]] + code + [p[|p| - 1]];
      assert Render(r) == ":" + code + ":";
    }
  }

  /** Each piece of the split becomes one part: an emoji exactly when the
      piece is `:` + a shortcode with an `emoji` tag + `:`, the verbatim text
      otherwise. */
  lemma ParseEventContentParts(ev: Event, textToParse: Option<string>, k: nat)
    requires ContentInput(Some(ev), textToParse) != []
    requires k < |Split(ContentInput(Some(ev), textToParse))|
    ensures var segs := Split(ContentInput(Some(ev), textToParse));
            |ParseEventContent(Some(ev), textToParse)| == |segs|
            && ParseEventContent(Some(ev), textToParse)[k] == ParsePart(segs[k], ev.tags)
  {
  }

  /** With well-formed `emoji` tags, `parseEventContent` as written gives the
      same parts as the corrected one, so the two differ only on malformed
      shortcodes. */
  lemma ParseEventContentAsWrittenAgrees(ev: Option<Event>, textToParse: Option<string>)
    requires ev.Some? ==> ValidEmojiTags(ev.value.tags)
    ensures ParseEventContentAsWritten(ev, textToParse) == ParseEventContent(ev, textToParse)
  {
    var input := ContentInput(ev, textToParse);
    if |input| > 0 && ev.Some? {
      var segs := Split(input);
      var a := ParseEventContentAsWritten(ev, textToParse);
      var b := ParseEventContent(ev, textToParse);
      assert b == ParseParts(segs, ev.value.tags);
      forall k | 0 <= k < |segs|
        ensures a[k] == b[k]
      {
        ParsePartAsWrittenAgrees(segs[k], ev.value.tags);
      }
    }
  }

  /** The lone `:` piece: with an `emoji` tag whose shortcode is empty, the
      classifier as written turns it into an emoji, whose `:shortcode:`
      rendering `::` is not the input `:`. */
  lemma LoneColonBecomesEmoji()
    ensures var ev := Event("e", "p", 1, ":", 0, [["emoji", "", "https://img"]]);
            && ParseEventContentAsWritten(Some(ev), None) == [CustomEmoji("https://img", "")]
            && RenderAll(ParseEventContentAsWritten(Some(ev), None)) == "::"
            && ParseEventContent(Some(ev), None) == [Text(":")]
  {
    var ev := Event("e", "p", 1, ":", 0, [["emoji", "", "https://img"]]);
    var segs := Split(":");
    WellSplitConcat(":", segs);
    assert MatchLength(":", 0) == 0;
    assert WellSplit(":", [":"]);
    WellSplitUnique(":", segs, [":"]);
    assert RenderAll([CustomEmoji("https://img", "")]) == "::" + RenderAll([]);
  }

  /** A piece that starts and ends with `:` but is not a match of the
      pattern is also looked up as written: `:a b:` with a tag for the
      shortcode `a b` becomes an emoji, where the corrected classifier keeps
      the text. The lone `:` of `LoneColonBecomesEmoji` is the case that
      breaks the rendering. */
  lemma NonMatchingPiecesBecomeEmoji()
    ensures var ev := Event("e", "p", 1, ":a b:", 0, [["emoji", "a b", "https://img"]]);
            && ParseEventContentAsWritten(Some(ev), None) == [CustomEmoji("https://img", "a b")]
            && ParseEventContent(Some(ev), None) == [Text(":a b:")]
    ensures var ev := Event("e", "p", 1, ":", 0, [["emoji", "", "https://img"]]);
            && ParseEventContentAsWritten(Some(ev), None) == [CustomEmoji("https://img", "")]
            && ParseEventContent(Some(ev), None) == [Text(":")]
  {
    SpacedPieceAsWritten();
    SpacedPieceCorrected();
    LoneColonBecomesEmoji();
  }

  lemma SpacedPieceAsWritten()
    ensures ParseEventContentAsWritten(Some(Event("e", "p", 1, ":a b:", 0, [["emoji", "a b", "https://img"]])), None)
            == [CustomEmoji("https://img", "a b")]
  {
    var s := ":a b:";
    var tags := [["emoji", "a b", "https://img"]];
    SplitOfSpacedPiece();
    assert SliceInner(s) == "a b";
    assert IsEmojiTagFor(tags[0], "a b");
    assert ParsePartAsWritten(s, tags) == CustomEmoji("https://img", "a b");
  }

  lemma SpacedPieceCorrected()
    ensures ParseEventContent(Some(Event("e", "p", 1, ":a b:", 0, [["emoji", "a b", "https://img"]])), None)
            == [Text(":a b:")]
  {
    var s := ":a b:";
    var tags := [["emoji", "a b", "https://img"]];
    SplitOfSpacedPiece();
    assert !IsReference(s) by {
      assert !IsShortcodeChar(s[2]);
    }
    assert ParsePart(s, tags) == Text(s);
    assert ParseParts([s], tags) == [Text(s)];
  }

  /** No match starts anywhere in `:a b:`, so it is one piece. */
  lemma SplitOfSpacedPiece()
    ensures Split(":a b:") == [":a b:"]
  {
    var s := ":a b:";
    assert RunLength(s, 2) == 0;
    assert RunLength(s, 1) == 1;
    assert RunLength(s, 5) == 0;
    assert forall j :: 0 <= j < |s| ==> MatchLength(s, j) == 0;
    PendingOnly(s);
    WellSplitUnique(s, Split(s), [s]);
  }
}
