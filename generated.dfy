/** Clean-up of generated articles (contentUtils.tsx): default filling of the model's JSON
    answer, the HTML post-processing steps and the internal-link placeholders. */
module Generated {
  import opened Text
  import opened Pages
  import ContentUtils

  // ------------------------------------------------------- normalizeGeneratedContent

  datatype ImageDetail = ImageDetail(prompt: string, altText: string, title: string, placeholder: string)
  datatype FaqEntry = FaqEntry(question: string, answer: string)

  /** The parsed JSON answer. A string field that is missing, null or empty is `""`; a list
      or object field that is missing, null or not a list is `None` (an empty list is kept,
      as JavaScript treats it as present). */
  datatype RawContent = RawContent(
    title: string,
    slug: string,
    content: string,
    imageDetails: Option<seq<ImageDetail>>,
    metaDescription: string,
    primaryKeyword: string,
    semanticKeywords: Option<seq<string>>,
    jsonLdSchema: Option<map<string, string>>,
    faqSection: Option<seq<FaqEntry>>,
    keyTakeaways: Option<seq<string>>,
    outline: Option<seq<string>>,
    references: Option<seq<string>>)

  datatype GeneratedContent = GeneratedContent(
    title: string,
    slug: string,
    content: string,
    imageDetails: seq<ImageDetail>,
    metaDescription: string,
    primaryKeyword: string,
    semanticKeywords: seq<string>,
    jsonLdSchema: map<string, string>,
    faqSection: seq<FaqEntry>,
    keyTakeaways: seq<string>,
    outline: seq<string>,
    references: seq<string>)

  const MinImages: nat := 3

  predicate IsSlugChar(c: char) {
    IsWordChar(c) || c == '-'
  }

  /** `replace(/\s+/g, '-')`: every run of white space becomes one dash. */
  function DashSpaces(s: string): string
    decreases |s|
  {
    if s == [] then []
    else if IsSpace(s[0]) then ['-'] + DashSpaces(DropSpaces(s[1..]))
    else [s[0]] + DashSpaces(s[1..])
  }

  /** No white space is left after dashing. */
  lemma {:induction false} DashSpacesNoSpace(s: string)
    ensures forall k :: 0 <= k < |DashSpaces(s)| ==> !IsSpace(DashSpaces(s)[k])
    decreases |s|
  {
    if s != [] {
      if IsSpace(s[0]) {
        DashSpacesNoSpace(DropSpaces(s[1..]));
      } else {
        DashSpacesNoSpace(s[1..]);
      }
    }
  }

  /** Dashing brings in no capital letter. */
  lemma {:induction false} DashSpacesKeepsLower(s: string)
    requires forall k :: 0 <= k < |s| ==> !('A' <= s[k] <= 'Z')
    ensures forall k :: 0 <= k < |DashSpaces(s)| ==> !('A' <= DashSpaces(s)[k] <= 'Z')
    decreases |s|
  {
    if s != [] {
      if IsSpace(s[0]) {
        var t := DropSpaces(s[1..]);
        assert forall k :: 0 <= k < |t| ==> !('A' <= t[k] <= 'Z') by {
          assert forall k :: 0 <= k < |t| ==> t[k] == s[|s| - |t| + k];
        }
        DashSpacesKeepsLower(t);
        assert DashSpaces(s) == ['-'] + DashSpaces(t);
      } else {
        var u := s[1..];
        assert forall k :: 0 <= k < |u| ==> !('A' <= u[k] <= 'Z') by {
          assert forall k :: 0 <= k < |u| ==> u[k] == s[k + 1];
        }
        DashSpacesKeepsLower(u);
        assert DashSpaces(s) == [s[0]] + DashSpaces(u);
      }
    }
  }

  /** A text without white space is left as it is. */
  lemma {:induction false} DashSpacesPlain(s: string)
    requires forall k :: 0 <= k < |s| ==> !IsSpace(s[k])
    ensures DashSpaces(s) == s
    decreases |s|
  {
    if s != [] {
      DashSpacesPlain(s[1..]);
      assert s == [s[0]] + s[1..];
    }
  }

  /** `replace(/[^\w-]+/g, '')`: drop every character other than a word character or dash. */
  function KeepSlugChars(s: string): (r: string)
    ensures |r| <= |s|
    ensures forall k :: 0 <= k < |r| ==> IsSlugChar(r[k])
    ensures (forall k :: 0 <= k < |s| ==> IsSlugChar(s[k])) ==> r == s
    decreases |s|
  {
    if s == [] then []
    else if IsSlugChar(s[0]) then [s[0]] + KeepSlugChars(s[1..])
    else KeepSlugChars(s[1..])
  }

  /** The slug made from a title: lower case, dashes for spaces, nothing but word
      characters and dashes. */
  function Slugify(title: string): (r: string)
    ensures forall k :: 0 <= k < |r| ==> IsSlugChar(r[k]) && !('A' <= r[k] <= 'Z')
  {
    var dashed := DashSpaces(ToLower(title));
    DashSpacesKeepsLower(ToLower(title));
    LowerStaysLower(dashed);
    KeepSlugChars(dashed)
  }

  lemma {:induction false} LowerStaysLower(s: string)
    requires forall k :: 0 <= k < |s| ==> !('A' <= s[k] <= 'Z')
    ensures forall k :: 0 <= k < |KeepSlugChars(s)| ==> !('A' <= KeepSlugChars(s)[k] <= 'Z')
    decreases |s|
  {
    if s != [] {
      LowerStaysLower(s[1..]);
    }
  }

  /** A slug is its own slug. */
  lemma {:induction false} SlugifyIdempotent(title: string)
    ensures Slugify(Slugify(title)) == Slugify(title)
  {
    var s := Slugify(title);
    assert ToLower(s) == s;
    DashSpacesPlain(s);
  }

  function DefaultImage(itemTitle: string, i: nat): ImageDetail {
    ImageDetail("High quality detailed photo for " + itemTitle,
                itemTitle + " - Image " + NatToString(i),
                "img-" + NatToString(i),
                "[IMAGE_" + NatToString(i) + "]")
  }

  /** The image list after padding: the given images first, then default images numbered
      on from them, up to three in all. */
  function PaddedImages(images: seq<ImageDetail>, itemTitle: string): (r: seq<ImageDetail>)
    ensures |r| == if |images| < MinImages then MinImages else |images|
    ensures r[..|images|] == images
    ensures forall k :: |images| <= k < |r| ==> r[k] == DefaultImage(itemTitle, k + 1)
    decreases MinImages - |images|
  {
    if |images| >= MinImages then images
    else
      var next := images + [DefaultImage(itemTitle, |images| + 1)];
      var r := PaddedImages(next, itemTitle);
      assert r[..|images|] == r[..|next|][..|images|];
      r
  }

  function ListOrEmpty<T>(o: Option<seq<T>>): seq<T> {
    if o.Some? then o.value else []
  }

  /** What `normalizeGeneratedContent` returns. */
  function Normalized(raw: RawContent, itemTitle: string): (c: GeneratedContent)
    ensures raw.title != "" ==> c.title == raw.title
    ensures raw.title == "" ==> c.title == itemTitle
    ensures raw.slug != "" ==> c.slug == raw.slug
    ensures raw.slug == "" ==> c.slug == Slugify(itemTitle)
    ensures c.metaDescription != ""
    ensures raw.metaDescription == "" ==> c.metaDescription == "Guide on " + c.title + "."
    ensures raw.metaDescription != "" ==> c.metaDescription == raw.metaDescription
    ensures raw.primaryKeyword != "" ==> c.primaryKeyword == raw.primaryKeyword
    ensures raw.primaryKeyword == "" ==> c.primaryKeyword == itemTitle
    ensures c.content == raw.content
    ensures raw.jsonLdSchema.Some? ==> c.jsonLdSchema == raw.jsonLdSchema.value
    ensures raw.jsonLdSchema.None? ==> c.jsonLdSchema == map[]
    ensures raw.semanticKeywords.Some? ==> c.semanticKeywords == raw.semanticKeywords.value
    ensures raw.faqSection.Some? ==> c.faqSection == raw.faqSection.value
    ensures raw.keyTakeaways.Some? ==> c.keyTakeaways == raw.keyTakeaways.value
    ensures raw.outline.Some? ==> c.outline == raw.outline.value
    ensures raw.references.Some? ==> c.references == raw.references.value
    ensures raw.semanticKeywords.None? ==> c.semanticKeywords == []
    ensures raw.faqSection.None? ==> c.faqSection == []
    ensures raw.keyTakeaways.None? ==> c.keyTakeaways == []
    ensures raw.outline.None? ==> c.outline == []
    ensures raw.references.None? ==> c.references == []
  {
    var title := if raw.title == "" then itemTitle else raw.title;
    GeneratedContent(
      title,
      if raw.slug == "" then Slugify(itemTitle) else raw.slug,
      raw.content,
      PaddedImages(ListOrEmpty(raw.imageDetails), itemTitle),
      if raw.metaDescription == "" then "Guide on " + title + "." else raw.metaDescription,
      if raw.primaryKeyword == "" then itemTitle else raw.primaryKeyword,
      ListOrEmpty(raw.semanticKeywords),
      if raw.jsonLdSchema.Some? then raw.jsonLdSchema.value else map[],
      ListOrEmpty(raw.faqSection),
      ListOrEmpty(raw.keyTakeaways),
      ListOrEmpty(raw.outline),
      ListOrEmpty(raw.references))
  }

  /** The normalised image list: at least three entries, the given ones first, and every
      added one holding the placeholder of its own position. */
  lemma {:induction false} NormalizedImages(raw: RawContent, itemTitle: string)
    ensures var images := Normalized(raw, itemTitle).imageDetails;
            && |images| >= MinImages
            && |ListOrEmpty(raw.imageDetails)| <= |images|
            && images[..|ListOrEmpty(raw.imageDetails)|] == ListOrEmpty(raw.imageDetails)
            && forall k :: |ListOrEmpty(raw.imageDetails)| <= k < |images| ==>
                 images[k].placeholder == "[IMAGE_" + NatToString(k + 1) + "]"
  {
    var images := Normalized(raw, itemTitle).imageDetails;
    assert images == PaddedImages(ListOrEmpty(raw.imageDetails), itemTitle);
  }

  /** `normalizeGeneratedContent`: defaults for every falsy field, and a loop that pads the
      image list to three entries. */
  method NormalizeGeneratedContent(raw: RawContent, itemTitle: string) returns (c: GeneratedContent)
    ensures c == Normalized(raw, itemTitle)
  {
    var title := if raw.title == "" then itemTitle else raw.title;
    var slug := if raw.slug == "" then Slugify(itemTitle) else raw.slug;
    var images := ListOrEmpty(raw.imageDetails);
    ghost var given := images;
    while |images| < MinImages
      invariant PaddedImages(images, itemTitle) == PaddedImages(given, itemTitle)
      decreases MinImages - |images|
    {
      var i := |images| + 1;
      images := images + [DefaultImage(itemTitle, i)];
    }
    var meta := if raw.metaDescription == "" then "Guide on " + title + "." else raw.metaDescription;
    var keyword := if raw.primaryKeyword == "" then itemTitle else raw.primaryKeyword;
    c := GeneratedContent(title, slug, raw.content, images, meta, keyword,
                          ListOrEmpty(raw.semanticKeywords),
                          if raw.jsonLdSchema.Some? then raw.jsonLdSchema.value else map[],
                          ListOrEmpty(raw.faqSection), ListOrEmpty(raw.keyTakeaways),
                          ListOrEmpty(raw.outline), ListOrEmpty(raw.references));
  }

  /** The content as the JSON it came from. */
  function AsRaw(c: GeneratedContent): RawContent {
    RawContent(c.title, c.slug, c.content, Some(c.imageDetails), c.metaDescription, c.primaryKeyword,
               Some(c.semanticKeywords), Some(c.jsonLdSchema), Some(c.faqSection), Some(c.keyTakeaways),
               Some(c.outline), Some(c.references))
  }

  /** Normalising already normalised content changes nothing. */
  lemma {:induction false} NormalizedIsStable(raw: RawContent, itemTitle: string)
    ensures Normalized(AsRaw(Normalized(raw, itemTitle)), itemTitle) == Normalized(raw, itemTitle)
  {
    var c := Normalized(raw, itemTitle);
    assert PaddedImages(c.imageDetails, itemTitle) == c.imageDetails;
  }

  // ------------------------------------------------------- postProcessGeneratedHtml

  /** Case-insensitive match of the lower-case text `t` at position `i`. */
  predicate MatchesIgnoringCase(s: string, t: string, i: nat) {
    i + |t| <= |s| && ToLower(s[i..i + |t|]) == t
  }

  /** A phrase of `/Sources Scanned|Read Time|Word count/gi` starts at `i`. */
  predicate BoilerplateAt(s: string, i: nat) {
    MatchesIgnoringCase(s, "sources scanned", i) || MatchesIgnoringCase(s, "read time", i)
    || MatchesIgnoringCase(s, "word count", i)
  }

  /** The global replace scans left to right and deletes each phrase it meets. */
  function RemoveBoilerplate(s: string): (r: string)
    ensures |r| <= |s|
    decreases |s|
  {
    if s == [] then []
    else if MatchesIgnoringCase(s, "sources scanned", 0) then RemoveBoilerplate(s[15..])
    else if MatchesIgnoringCase(s, "read time", 0) then RemoveBoilerplate(s[9..])
    else if MatchesIgnoringCase(s, "word count", 0) then RemoveBoilerplate(s[10..])
    else [s[0]] + RemoveBoilerplate(s[1..])
  }

  lemma {:induction false} ShiftMatch(s: string, t: string, i: nat)
    requires s != []
    ensures MatchesIgnoringCase(s[1..], t, i) <==> MatchesIgnoringCase(s, t, i + 1)
  {
    if i + 1 + |t| <= |s| {
      assert s[1..][i..i + |t|] == s[i + 1..i + 1 + |t|];
    }
  }

  lemma {:induction false} RemoveBoilerplateStep(s: string)
    requires s != [] && !BoilerplateAt(s, 0)
    ensures RemoveBoilerplate(s) == [s[0]] + RemoveBoilerplate(s[1..])
  {
  }

  /** Text in which no phrase starts before `|a|` passes through unchanged. */
  lemma {:induction false} RemoveBoilerplateKeepsText(a: string, b: string)
    requires forall i :: 0 <= i < |a| ==> !BoilerplateAt(a + b, i)
    ensures RemoveBoilerplate(a + b) == a + RemoveBoilerplate(b)
    decreases |a|
  {
    if a != [] {
      var s := a + b;
      assert s[1..] == a[1..] + b;
      forall i | 0 <= i < |a| - 1 ensures !BoilerplateAt(a[1..] + b, i) {
        assert !BoilerplateAt(s, i + 1);
        ShiftMatch(s, "sources scanned", i);
        ShiftMatch(s, "read time", i);
        ShiftMatch(s, "word count", i);
      }
      RemoveBoilerplateKeepsText(a[1..], b);
      RemoveBoilerplateStep(s);
      calc {
        RemoveBoilerplate(s);
        [s[0]] + RemoveBoilerplate(a[1..] + b);
        [s[0]] + (a[1..] + RemoveBoilerplate(b));
        { assert a == [s[0]] + a[1..]; }
        a + RemoveBoilerplate(b);
      }
    } else {
      assert a + b == b;
    }
  }

  /** A phrase in any letter case is dropped. */
  lemma {:induction false} RemoveBoilerplateDropsPhrase(p: string, b: string)
    requires ToLower(p) in ["sources scanned", "read time", "word count"]
    ensures RemoveBoilerplate(p + b) == RemoveBoilerplate(b)
  {
    var s := p + b;
    assert s[..|p|] == p;
    assert s[|p|..] == b;
    assert LowerChar(s[0]) == ToLower(p)[0];
    assert MatchesIgnoringCase(s, ToLower(p), 0);
    if MatchesIgnoringCase(s, "sources scanned", 0) {
      assert ToLower(s[0..15])[0] == LowerChar(s[0]);
    }
    if MatchesIgnoringCase(s, "read time", 0) {
      assert ToLower(s[0..9])[0] == LowerChar(s[0]);
    }
  }

  /** Text without any phrase is left exactly as it is. */
  lemma {:induction false} RemoveBoilerplateClean(s: string)
    requires forall i :: 0 <= i < |s| ==> !BoilerplateAt(s, i)
    ensures RemoveBoilerplate(s) == s
  {
    assert s + [] == s;
    RemoveBoilerplateKeepsText(s, []);
  }

  const TakeawaysMarker: string := "key-takeaways-box"

  const TakeawaysOpen: string := "\n        <blockquote class=\""

  const TakeawaysHeadRest: string :=
    "\" style=\"background: #f8fafc; border-left: 5px solid #3b82f6; padding: 20px; margin: 30px 0; font-style: normal;\">\n            <h3 style=\"margin-top: 0; color: #1e293b;\">\U{26A1} Key Takeaways</h3>\n            <ul style=\"margin-bottom: 0;\">"

  const TakeawaysTail: string := "</ul>\n        </blockquote>"

  function TakeawayItems(items: seq<string>): string
    decreases |items|
  {
    if items == [] then "" else "<li style=\"margin-bottom: 5px;\">" + items[0] + "</li>" + TakeawayItems(items[1..])
  }

  function TakeawaysBox(items: seq<string>): string {
    TakeawaysOpen + TakeawaysMarker + (TakeawaysHeadRest + TakeawayItems(items) + TakeawaysTail)
  }

  /** `search(/<h2/i)` from `from` on: the least position of an `<h2` in any letter case. */
  function FindH2(s: string, from: nat): (r: Option<nat>)
    ensures r.Some? ==> from <= r.value && MatchesIgnoringCase(s, "<h2", r.value)
    decreases |s| - from
  {
    if from + 3 > |s| then None
    else if MatchesIgnoringCase(s, "<h2", from) then Some(from)
    else FindH2(s, from + 1)
  }

  /** `FindH2` finds the first `<h2` at or after `from`, and finds nothing only when there
      is none. */
  lemma {:induction false} FindH2Least(s: string, from: nat)
    ensures FindH2(s, from).Some? ==> forall j :: from <= j < FindH2(s, from).value ==> !MatchesIgnoringCase(s, "<h2", j)
    ensures FindH2(s, from).None? ==> forall j: nat :: from <= j ==> !MatchesIgnoringCase(s, "<h2", j)
    decreases |s| - from
  {
    if from + 3 <= |s| && !MatchesIgnoringCase(s, "<h2", from) {
      FindH2Least(s, from + 1);
    }
  }

  /** Where the box goes: just after the first `</h2>` (exact case) that follows the first
      `<h2`; at the very start when either is missing. */
  function TakeawaysPosition(s: string): (p: nat)
    ensures p <= |s|
    ensures p == 0 <==> (FindH2(s, 0).None? || IndexOf(s, "</h2>", FindH2(s, 0).value).None?)
    ensures p > 0 ==> p >= 5 && s[p - 5..p] == "</h2>"
  {
    match FindH2(s, 0)
    case None => 0
    case Some(h) =>
      match IndexOf(s, "</h2>", h)
      case None => 0
      case Some(c) => c + 5
  }

  /** The `</h2>` the box follows is the first one after the first `<h2`, and that `<h2` is
      the first in the text. */
  lemma TakeawaysAfterFirstHeading(s: string)
    ensures TakeawaysPosition(s) > 0 ==>
              && FindH2(s, 0).value <= TakeawaysPosition(s) - 5
              && (forall j :: FindH2(s, 0).value <= j < TakeawaysPosition(s) - 5 ==> !OccursAt(s, "</h2>", j))
              && (forall j :: 0 <= j < FindH2(s, 0).value ==> !MatchesIgnoringCase(s, "<h2", j))
  {
    FindH2Least(s, 0);
    if FindH2(s, 0).Some? {
      IndexOfLeast(s, "</h2>", FindH2(s, 0).value);
    }
  }

  /** The takeaways step: a box is added only when none is there yet and there are
      takeaways to show. */
  function WithTakeaways(s: string, items: seq<string>): (r: string)
    ensures Contains(s, TakeawaysMarker) || items == [] ==> r == s
    ensures !Contains(s, TakeawaysMarker) && items != [] ==>
              r == s[..TakeawaysPosition(s)] + TakeawaysBox(items) + s[TakeawaysPosition(s)..]
  {
    if Contains(s, TakeawaysMarker) || items == [] then s
    else
      var p := TakeawaysPosition(s);
      s[..p] + TakeawaysBox(items) + s[p..]
  }

  lemma {:induction false} BoxHasMarker(items: seq<string>, a: string, b: string)
    ensures Contains(a + TakeawaysBox(items) + b, TakeawaysMarker)
  {
    var rest := TakeawaysHeadRest + TakeawayItems(items) + TakeawaysTail;
    ContainsMiddle(TakeawaysOpen, TakeawaysMarker, rest);
    ContainsGrow(TakeawaysBox(items), TakeawaysMarker, a, b);
  }

  /** The box is added at most once: a second pass leaves the text alone. */
  lemma {:induction false} WithTakeawaysIdempotent(s: string, items: seq<string>)
    ensures WithTakeaways(WithTakeaways(s, items), items) == WithTakeaways(s, items)
  {
    if !Contains(s, TakeawaysMarker) && items != [] {
      var p := TakeawaysPosition(s);
      BoxHasMarker(items, s[..p], s[p..]);
    }
  }

  /** The verification footer up to the year it names. */
  const FooterOpen: string :=
    "<div class=\"verification-footer-sota\" style=\"margin-top: 4rem; padding: 2.5rem; background: #F0FDF4; border-left: 6px solid #059669; display: flex; gap: 2rem;\">\n            <div style=\"font-size:2rem; color:#059669;\">\U{1F6E1}\U{FE0F}</div>\n            <div><h4 style=\"margin:0;\">Scientific Verification</h4><p style=\"margin:0;\">Fact-checked against "

  const FooterClose: string := " data sources.</p></div>\n        </div>"

  /** The verification footer; `year` stands for the current calendar year. */
  function FooterHtml(year: nat): string {
    FooterOpen + NatToString(year) + FooterClose
  }

  const ParagraphEnd: string := "</p>"

  function EmbedFigure(embedUrl: string): string {
    "<figure class=\"wp-block-embed\"><iframe src=\"" + embedUrl + "\" width=\"500\" height=\"281\"></iframe></figure>"
  }

  /** Where the player goes: the end of the second `</p>`. What comes before it is the
      first two paragraphs, neither holding a `</p>`, each closed by one; what follows is
      the join of the other paragraphs. */
  function SecondParagraphEnd(s: string): (k: nat)
    requires |Split(s, ParagraphEnd)| > 2
    ensures k <= |s|
    ensures s[..k] == Split(s, ParagraphEnd)[0] + ParagraphEnd + Split(s, ParagraphEnd)[1] + ParagraphEnd
    ensures s[k..] == Join(Split(s, ParagraphEnd)[2..], ParagraphEnd)
    ensures !Contains(Split(s, ParagraphEnd)[0], ParagraphEnd) && !Contains(Split(s, ParagraphEnd)[1], ParagraphEnd)
  {
    SplitFirstTwo(s, ParagraphEnd);
    SplitPartsFree(s, ParagraphEnd);
    CutAfter(s, Split(s, ParagraphEnd)[0] + ParagraphEnd + Split(s, ParagraphEnd)[1] + ParagraphEnd,
             Join(Split(s, ParagraphEnd)[2..], ParagraphEnd), |Split(s, ParagraphEnd)[0]| + |Split(s, ParagraphEnd)[1]| + 8);
    |Split(s, ParagraphEnd)[0]| + |Split(s, ParagraphEnd)[1]| + 8
  }

  /** Splicing a new segment in at index 2 of the `</p>` split puts it, followed by a
      `</p>`, right after the second `</p>` of the text. */
  lemma {:induction false} SpliceAfterSecondParagraph(s: string, figure: string)
    requires |Split(s, ParagraphEnd)| > 2
    ensures var ps := Split(s, ParagraphEnd);
            var k := SecondParagraphEnd(s);
            && k <= |s|
            && Join(ps[..2] + [figure] + ps[2..], ParagraphEnd) == s[..k] + figure + ParagraphEnd + s[k..]
  {
    var ps := Split(s, ParagraphEnd);
    var k := SecondParagraphEnd(s);
    SpliceJoin(ps, ParagraphEnd, figure);
    JoinFirstTwo(ps, ParagraphEnd);
  }

  /** Joining with a segment put in at index 2 is joining the two halves around it. */
  lemma {:induction false} SpliceJoin(ps: seq<string>, sep: string, figure: string)
    requires |ps| > 2
    ensures Join(ps, sep) == Join(ps[..2], sep) + sep + Join(ps[2..], sep)
    ensures Join(ps[..2] + [figure] + ps[2..], sep)
            == Join(ps[..2], sep) + sep + figure + sep + Join(ps[2..], sep)
  {
    assert ps == ps[..2] + ps[2..];
    JoinAppend(ps[..2], ps[2..], sep);
    JoinAppend([figure], ps[2..], sep);
    JoinAppend(ps[..2], [figure] + ps[2..], sep);
    assert ps[..2] + [figure] + ps[2..] == ps[..2] + ([figure] + ps[2..]);
  }

  lemma {:induction false} CutAfter(s: string, front: string, back: string, k: nat)
    requires s == front + back && k == |front|
    ensures k <= |s| && s[..k] == front && s[k..] == back
  {
  }

  /** `r` is `html` with the first video's player placed right after the second paragraph
      end when there is a video and more than three `</p>` segments, and `html` itself
      otherwise. */
  ghost predicate VideoPlaced(html: string, videos: seq<ContentUtils.Video>, r: string) {
    if videos != [] && |Split(html, ParagraphEnd)| > 3 then
      var k := SecondParagraphEnd(html);
      r == html[..k] + EmbedFigure(videos[0].embedUrl) + ParagraphEnd + html[k..]
    else r == html
  }

  /** The embedding step: with at least one video and more than three `</p>` segments, the
      first video's player is spliced in as segment 2; otherwise the text is unchanged. */
  method EmbedVideo(html: string, videos: seq<ContentUtils.Video>) returns (r: string)
    ensures VideoPlaced(html, videos, r)
  {
    r := html;
    if |videos| > 0 {
      var paragraphs := Split(html, ParagraphEnd);
      if |paragraphs| > 3 {
        SpliceAfterSecondParagraph(html, EmbedFigure(videos[0].embedUrl));
        paragraphs := paragraphs[..2] + [EmbedFigure(videos[0].embedUrl)] + paragraphs[2..];
      } else {
        JoinSplit(html, ParagraphEnd);
      }
      r := Join(paragraphs, ParagraphEnd);
    }
  }

  /** The text before the video step: boilerplate phrases removed, the takeaways box, and
      the footer unless the article is being refreshed. */
  function BeforeEmbed(html: string, takeaways: seq<string>, year: nat, isRefresh: bool): string {
    var boxed := WithTakeaways(RemoveBoilerplate(html), takeaways);
    if isRefresh then boxed else boxed + FooterHtml(year)
  }

  /** `postProcessGeneratedHtml`; `year` stands for the current calendar year. */
  method PostProcessGeneratedHtml(html: string, plan: GeneratedContent, videos: seq<ContentUtils.Video>,
                                  year: nat, isRefresh: bool) returns (r: string)
    ensures VideoPlaced(BeforeEmbed(html, plan.keyTakeaways, year, isRefresh), videos, r)
  {
    var processed := RemoveBoilerplate(html);
    ghost var cleaned := processed;
    if !Contains(processed, TakeawaysMarker) && |plan.keyTakeaways| > 0 {
      var p := TakeawaysPosition(processed);
      processed := processed[..p] + TakeawaysBox(plan.keyTakeaways) + processed[p..];
    }
    assert processed == WithTakeaways(cleaned, plan.keyTakeaways);
    if !isRefresh {
      processed := processed + FooterHtml(year);
    }
    assert processed == BeforeEmbed(html, plan.keyTakeaways, year, isRefresh);
    r := EmbedVideo(processed, videos);
  }

  // ------------------------------------------------------------ processInternalLinks

  const PlaceholderOpen: string := "[link_candidate:"

  /** A placeholder `/\[LINK_CANDIDATE:\s*([^\]]+)\]/i` at the start of `s`: where it ends
      and the keyword it captures. `\s*` is greedy but gives back one character when the
      whole bracket body is white space, since the keyword needs at least one. */
  function PlaceholderAt(s: string): (r: Option<(nat, string)>)
    ensures r.Some? ==> 16 < r.value.0 <= |s| && s[r.value.0 - 1] == ']'
    ensures r.Some? ==> r.value.1 != [] && ']' !in r.value.1
    ensures r.Some? ==> MatchesIgnoringCase(s, PlaceholderOpen, 0) && s[0] == '['
  {
    if !MatchesIgnoringCase(s, PlaceholderOpen, 0) then None
    else
      match IndexOf(s, "]", 16)
      case None => None
      case Some(c) =>
        var body := s[16..c];
        if body == [] then None
        else
          BracketBody(s, c);
          OpenStartsWithBracket(s);
          Some((c + 1, Capture(body)))
  }

  lemma {:induction false} OpenStartsWithBracket(s: string)
    requires MatchesIgnoringCase(s, PlaceholderOpen, 0)
    ensures s[0] == '['
  {
    assert ToLower(s[0..16])[0] == LowerChar(s[0]);
  }

  /** Every spelling the case-insensitive pattern matches is found: the opening in any
      letter case, any white space before the keyword, and the first `]` after it closing
      the placeholder. */
  lemma {:induction false} PlaceholderFound(s: string, c: nat)
    requires MatchesIgnoringCase(s, PlaceholderOpen, 0)
    requires 16 < c < |s| && s[c] == ']' && ']' !in s[16..c]
    ensures PlaceholderAt(s) == Some((c + 1, Capture(s[16..c])))
  {
    forall j | 16 <= j < c ensures !OccursAt(s, "]", j) {
      assert s[j] == s[16..c][j - 16];
      assert s[j..j + 1][0] == s[j];
    }
    assert s[c..c + 1] == "]";
    IndexOfIs(s, "]", 16, c);
  }

  /** When nothing is found after a matching opening, no `]` can close it: there is none,
      or the first one leaves the keyword empty. */
  lemma {:induction false} PlaceholderMissing(s: string)
    requires MatchesIgnoringCase(s, PlaceholderOpen, 0) && PlaceholderAt(s).None?
    ensures forall c :: 16 < c < |s| && s[c] == ']' ==> ']' in s[16..c]
  {
    forall c | 16 < c < |s| && s[c] == ']' ensures ']' in s[16..c] {
      if ']' !in s[16..c] {
        PlaceholderFound(s, c);
        assert false;
      }
    }
  }

  /** What `\s*([^\]]+)` captures of a non-empty bracket body: the body without its
      leading white space, or its last character when it is all white space. */
  function Capture(body: string): (r: string)
    requires body != []
    ensures r != [] && |r| <= |body| && r == body[|body| - |r|..]
    ensures forall i :: 0 <= i < |body| - |r| ==> IsSpace(body[i])
    ensures |r| > 1 ==> !IsSpace(r[0])
  {
    var rest := TrimStart(body);
    if rest != [] then rest else [body[|body| - 1]]
  }

  /** Between position 16 and the first `]` after it there is no `]`. */
  lemma {:induction false} BracketBody(s: string, c: nat)
    requires IndexOf(s, "]", 16) == Some(c)
    ensures c < |s| && s[c] == ']'
    ensures ']' !in s[16..c]
  {
    assert s[c..c + 1] == "]";
    IndexOfLeast(s, "]", 16);
    var body := s[16..c];
    forall k | 0 <= k < |body| ensures body[k] != ']' {
      NotBracketAt(s, 16 + k);
    }
  }

  lemma {:induction false} NotBracketAt(s: string, j: nat)
    requires j < |s| && !OccursAt(s, "]", j)
    ensures s[j] != ']'
  {
    assert s[j..j + 1] == [s[j]];
  }

  /** The first page, in list order, whose title contains the keyword, ignoring case. */
  function FindPage(pages: seq<SitemapPage>, keyword: string): (r: Option<nat>)
    ensures r.Some? ==> r.value < |pages| && Contains(ToLower(pages[r.value].title), ToLower(keyword))
    ensures r.Some? ==> forall j :: 0 <= j < r.value ==> !Contains(ToLower(pages[j].title), ToLower(keyword))
    ensures r.None? ==> forall j :: 0 <= j < |pages| ==> !Contains(ToLower(pages[j].title), ToLower(keyword))
    decreases |pages|
  {
    if pages == [] then None
    else if Contains(ToLower(pages[0].title), ToLower(keyword)) then Some(0)
    else match FindPage(pages[1..], keyword)
      case None => None
      case Some(j) => Some(j + 1)
  }

  function Anchor(page: SitemapPage, keyword: string): string {
    "<a href=\"" + page.id + "\" class=\"internal-link\" title=\"" + page.title + "\">" + keyword + "</a>"
  }

  /** What a placeholder becomes: a link to the matching page, or the bare keyword. */
  function LinkFor(pages: seq<SitemapPage>, keyword: string): (r: string)
    ensures FindPage(pages, keyword).None? ==> r == keyword
    ensures FindPage(pages, keyword).Some? ==> r == Anchor(pages[FindPage(pages, keyword).value], keyword)
  {
    match FindPage(pages, keyword)
    case None => keyword
    case Some(k) => Anchor(pages[k], keyword)
  }

  /** `processInternalLinks`: every placeholder, scanning left to right, is replaced. */
  function ProcessInternalLinks(s: string, pages: seq<SitemapPage>): (r: string)
    ensures '[' !in s ==> r == s
    decreases |s|
  {
    if s == [] then []
    else match PlaceholderAt(s)
      case Some((end, keyword)) => LinkFor(pages, keyword) + ProcessInternalLinks(s[end..], pages)
      case None => [s[0]] + ProcessInternalLinks(s[1..], pages)
  }

  /** Text before the first placeholder is copied unchanged. */
  lemma {:induction false} LinksKeepPlainText(a: string, b: string, pages: seq<SitemapPage>)
    requires forall i :: 0 <= i < |a| ==> PlaceholderAt((a + b)[i..]).None?
    ensures ProcessInternalLinks(a + b, pages) == a + ProcessInternalLinks(b, pages)
    decreases |a|
  {
    if a != [] {
      var s := a + b;
      var t := a[1..] + b;
      assert s[0..] == s;
      assert s[1..] == t;
      LinksStep(s, pages);
      forall i | 0 <= i < |a| - 1 ensures PlaceholderAt(t[i..]).None? {
        assert t[i..] == s[i + 1..];
      }
      LinksKeepPlainText(a[1..], b, pages);
      ConsAppend(a, ProcessInternalLinks(b, pages));
    } else {
      assert a + b == b;
    }
  }

  lemma {:induction false} ConsAppend(a: string, y: string)
    requires a != []
    ensures [a[0]] + (a[1..] + y) == a + y
  {
    assert a == [a[0]] + a[1..];
  }

  lemma {:induction false} LinksStep(s: string, pages: seq<SitemapPage>)
    requires s != [] && PlaceholderAt(s).None?
    ensures ProcessInternalLinks(s, pages) == [s[0]] + ProcessInternalLinks(s[1..], pages)
  {
  }

  /** The placeholder written for a keyword is read back as that keyword. */
  lemma {:induction false} PlaceholderRoundTrip(keyword: string, rest: string)
    requires keyword != [] && !IsSpace(keyword[0]) && ']' !in keyword
    ensures PlaceholderAt("[LINK_CANDIDATE: " + keyword + "]" + rest) == Some((18 + |keyword|, keyword))
  {
    var s := "[LINK_CANDIDATE: " + keyword + "]" + rest;
    OpenMatches(keyword, rest);
    ClosingBracket(keyword, rest);
    var c := 17 + |keyword|;
    assert s[16..c] == " " + keyword;
    CaptureSkipsSpace(keyword);
  }

  lemma {:induction false} OpenMatches(keyword: string, rest: string)
    ensures MatchesIgnoringCase("[LINK_CANDIDATE: " + keyword + "]" + rest, PlaceholderOpen, 0)
  {
    var s := "[LINK_CANDIDATE: " + keyword + "]" + rest;
    assert s[..16] == "[LINK_CANDIDATE:";
    assert ToLower(s[0..16]) == PlaceholderOpen;
  }

  /** The first `]` from position 16 on is the one that closes the placeholder. */
  lemma {:induction false} ClosingBracket(keyword: string, rest: string)
    requires ']' !in keyword
    ensures IndexOf("[LINK_CANDIDATE: " + keyword + "]" + rest, "]", 16) == Some(17 + |keyword|)
  {
    var s := "[LINK_CANDIDATE: " + keyword + "]" + rest;
    var c := 17 + |keyword|;
    forall k | 16 <= k < c ensures !OccursAt(s, "]", k) {
      if k > 16 {
        assert s[k] == keyword[k - 17];
        assert s[k..k + 1][0] == s[k];
      } else {
        assert s[16..17][0] == ' ';
      }
    }
    assert s[c..c + 1] == "]";
    IndexOfIs(s, "]", 16, c);
  }

  lemma {:induction false} CaptureSkipsSpace(keyword: string)
    requires keyword != [] && !IsSpace(keyword[0])
    ensures Capture(" " + keyword) == keyword
  {
    var body := " " + keyword;
    assert body[1..] == keyword;
    assert TrimStart(body) == TrimStart(keyword);
  }

  /** Every placeholder the pattern matches becomes the link for the keyword it captures,
      and the text after it is processed on its own. */
  lemma {:induction false} PlaceholderReplaced(s: string, c: nat, pages: seq<SitemapPage>)
    requires MatchesIgnoringCase(s, PlaceholderOpen, 0)
    requires 16 < c < |s| && s[c] == ']' && ']' !in s[16..c]
    ensures ProcessInternalLinks(s, pages)
            == LinkFor(pages, Capture(s[16..c])) + ProcessInternalLinks(s[c + 1..], pages)
  {
    PlaceholderFound(s, c);
  }
}
