/** The text utilities of contentUtils.tsx: regular-expression escaping, the readability
    verdict, YouTube id extraction, the word-count gate and the video search loop. */
module ContentUtils {
  import opened Text

  // ---------------------------------------------------------------- escapeRegExp

  /** The characters `escapeRegExp` protects: `. * + ? ^ $ { } ( ) | [ ] \ /`. */
  predicate IsRegExpSpecial(c: char) {
    c in ".*+?^${}()|[]\\/"
  }

  function CountSpecial(s: string): (n: nat)
    ensures n <= |s|
    decreases |s|
  {
    if s == [] then 0 else (if IsRegExpSpecial(s[0]) then 1 else 0) + CountSpecial(s[1..])
  }

  /** `escapeRegExp`: a backslash before every special character, everything else kept. */
  function EscapeRegExp(s: string): (r: string)
    ensures |r| == |s| + CountSpecial(s)
    ensures s != [] && !IsRegExpSpecial(s[0]) ==> r[0] == s[0]
    ensures s != [] && IsRegExpSpecial(s[0]) ==> r[..2] == ['\\', s[0]]
    decreases |s|
  {
    if s == [] then []
    else if IsRegExpSpecial(s[0]) then ['\\', s[0]] + EscapeRegExp(s[1..])
    else [s[0]] + EscapeRegExp(s[1..])
  }

  /** What a regular expression matches when its pattern text is read as a plain literal:
      a backslash followed by a special character stands for that character; a special
      character on its own is an operator and a backslash before anything else starts a
      class or escape sequence, so those patterns are not literals (`None`). */
  function ReadLiteral(p: string): (r: Option<string>)
    ensures r.Some? ==> |r.value| <= |p|
    decreases |p|
  {
    if p == [] then Some([])
    else if p[0] == '\\' then
      if |p| >= 2 && IsRegExpSpecial(p[1]) then Prepend(p[1], ReadLiteral(p[2..])) else None
    else if IsRegExpSpecial(p[0]) then None
    else Prepend(p[0], ReadLiteral(p[1..]))
  }

  function Prepend(c: char, o: Option<string>): Option<string> {
    if o.Some? then Some([c] + o.value) else None
  }

  /** An escaped text is a pure literal, and it matches exactly the original text. */
  lemma {:induction false} EscapeRegExpReadsBack(s: string)
    ensures ReadLiteral(EscapeRegExp(s)) == Some(s)
    decreases |s|
  {
    if s != [] {
      var r := EscapeRegExp(s);
      EscapeRegExpReadsBack(s[1..]);
      if IsRegExpSpecial(s[0]) {
        assert r == ['\\', s[0]] + EscapeRegExp(s[1..]);
        assert r[2..] == EscapeRegExp(s[1..]);
      } else {
        assert r == [s[0]] + EscapeRegExp(s[1..]);
        assert r[1..] == EscapeRegExp(s[1..]);
        assert s[0] != '\\';
      }
      assert [s[0]] + s[1..] == s;
    }
  }

  /** Escaping works character by character: it distributes over concatenation. */
  lemma {:induction false} EscapeRegExpAppend(a: string, b: string)
    ensures EscapeRegExp(a + b) == EscapeRegExp(a) + EscapeRegExp(b)
    decreases |a|
  {
    if a == [] {
      assert a + b == b;
    } else {
      assert (a + b)[0] == a[0] && (a + b)[1..] == a[1..] + b;
      EscapeRegExpAppend(a[1..], b);
    }
  }

  /** A single character: a special one gets a backslash before it, any other is kept. */
  lemma {:induction false} EscapeRegExpChar(c: char)
    ensures IsRegExpSpecial(c) ==> EscapeRegExp([c]) == ['\\', c]
    ensures !IsRegExpSpecial(c) ==> EscapeRegExp([c]) == [c]
  {
    assert [c][1..] == [];
  }

  /** A pattern that leaves a special character bare is not a literal, even when the text
      would read back: `a.\b` is refused (its `.` matches any character). */
  lemma {:induction false} BareSpecialIsNoLiteral()
    ensures ReadLiteral("a.\\b").None?
  {
    assert "a.\\b"[1..] == ".\\b";
  }

  // ---------------------------------------------------------- getReadabilityVerdict

  datatype Verdict = Verdict(verdict: string, color: string)

  /** `getReadabilityVerdict`: a ladder of score thresholds, checked from the top. */
  function ReadabilityVerdict(score: real): (r: Verdict)
    ensures r.verdict in VerdictLadder
    ensures r.color == VerdictColors[LadderRank(r.verdict)]
  {
    if score >= 90.0 then Verdict("Very Easy", "#10B981")
    else if score >= 80.0 then Verdict("Easy", "#10B981")
    else if score >= 70.0 then Verdict("Fairly Easy", "#34D399")
    else if score >= 60.0 then Verdict("Standard", "#FBBF24")
    else if score >= 50.0 then Verdict("Fairly Difficult", "#F59E0B")
    else if score >= 30.0 then Verdict("Difficult", "#EF4444")
    else Verdict("Very Difficult", "#DC2626")
  }

  /** The verdicts from hardest to easiest. */
  const VerdictLadder: seq<string> :=
    ["Very Difficult", "Difficult", "Fairly Difficult", "Standard", "Fairly Easy", "Easy", "Very Easy"]

  /** The colour shown with each verdict of the ladder. */
  const VerdictColors: seq<string> :=
    ["#DC2626", "#EF4444", "#F59E0B", "#FBBF24", "#34D399", "#10B981", "#10B981"]

  /** The thresholds a score can pass, in increasing order. */
  const Thresholds: seq<real> := [30.0, 50.0, 60.0, 70.0, 80.0, 90.0]

  /** How many of the thresholds `score` reaches. */
  function ThresholdsMet(ts: seq<real>, score: real): (n: nat)
    ensures n <= |ts|
    decreases |ts|
  {
    if ts == [] then 0 else (if score >= ts[0] then 1 else 0) + ThresholdsMet(ts[1..], score)
  }

  function LadderRank(verdict: string): (k: nat)
    requires verdict in VerdictLadder
    ensures k < |VerdictLadder| && VerdictLadder[k] == verdict
  {
    if verdict == VerdictLadder[0] then 0
    else if verdict == VerdictLadder[1] then 1
    else if verdict == VerdictLadder[2] then 2
    else if verdict == VerdictLadder[3] then 3
    else if verdict == VerdictLadder[4] then 4
    else if verdict == VerdictLadder[5] then 5
    else 6
  }

  /** The verdict's place on the ladder is the number of thresholds the score reaches. */
  lemma {:induction false} VerdictRankCountsThresholds(score: real)
    ensures LadderRank(ReadabilityVerdict(score).verdict) == ThresholdsMet(Thresholds, score)
  {
    assert Thresholds[1..] == [50.0, 60.0, 70.0, 80.0, 90.0];
    assert Thresholds[2..] == [60.0, 70.0, 80.0, 90.0];
    assert Thresholds[3..] == [70.0, 80.0, 90.0];
    assert Thresholds[4..] == [80.0, 90.0];
    assert Thresholds[5..] == [90.0];
    assert Thresholds[6..] == [];
  }

  /** A higher score never gets a harder verdict. */
  lemma {:induction false} VerdictMonotone(s1: real, s2: real)
    requires s1 <= s2
    ensures LadderRank(ReadabilityVerdict(s1).verdict) <= LadderRank(ReadabilityVerdict(s2).verdict)
  {
    VerdictRankCountsThresholds(s1);
    VerdictRankCountsThresholds(s2);
    ThresholdsMetMonotone(Thresholds, s1, s2);
  }

  lemma {:induction false} ThresholdsMetMonotone(ts: seq<real>, s1: real, s2: real)
    requires s1 <= s2
    ensures ThresholdsMet(ts, s1) <= ThresholdsMet(ts, s2)
    decreases |ts|
  {
    if ts != [] {
      ThresholdsMetMonotone(ts[1..], s1, s2);
    }
  }

  // ------------------------------------------------------------- extractYouTubeID

  /** The length of the alternative of `(youtu.be\/|v\/|u\/\w\/|embed\/|watch\?v=|\&v=)`
      that matches at position `p`, or 0 when none does. */
  function MarkerLength(s: string, p: nat): (n: nat)
    ensures n > 0 ==> p + n <= |s| && (s[p + n - 1] == '/' || s[p + n - 1] == '=')
    ensures n > 0 ==> s[p] in "yvuew&"
    ensures n > 0 && s[p] == 'e' ==> p + 1 < |s| && s[p + 1] == 'm'
  {
    if p + 9 <= |s| && s[p..p + 5] == "youtu" && !IsLineTerminator(s[p + 5]) && s[p + 6..p + 9] == "be/" then
      assert s[p] == s[p..p + 5][0] && s[p + 8] == s[p + 6..p + 9][2];
      9
    else if OccursAt(s, "v/", p) then
      assert s[p] == s[p..p + 2][0] && s[p + 1] == s[p..p + 2][1];
      2
    else if p + 4 <= |s| && s[p] == 'u' && s[p + 1] == '/' && IsWordChar(s[p + 2]) && s[p + 3] == '/' then 4
    else if OccursAt(s, "embed/", p) then
      assert s[p] == s[p..p + 6][0] && s[p + 1] == s[p..p + 6][1] && s[p + 5] == s[p..p + 6][5];
      6
    else if OccursAt(s, "watch?v=", p) then
      assert s[p] == s[p..p + 8][0] && s[p + 7] == s[p..p + 8][7];
      8
    else if OccursAt(s, "&v=", p) then
      assert s[p] == s[p..p + 3][0] && s[p + 2] == s[p..p + 3][2];
      3
    else 0
  }

  /** How far the leading `.*` can reach: up to the first line terminator. */
  function FirstLineBreak(s: string): (n: nat)
    ensures n <= |s|
    ensures forall k :: 0 <= k < n ==> !IsLineTerminator(s[k])
    ensures n < |s| ==> IsLineTerminator(s[n])
    decreases |s|
  {
    if s == [] || IsLineTerminator(s[0]) then 0 else 1 + FirstLineBreak(s[1..])
  }

  /** The positions where one of the markers matches. */
  function MarkerAt(s: string): nat -> bool {
    (q: nat) => MarkerLength(s, q) > 0
  }

  /** The last position at or before `p` where `matches` holds: how a greedy `.*` backs off
      from the right until what follows it matches. */
  function LastWhere(matches: nat -> bool, p: nat): (r: Option<nat>)
    ensures r.Some? ==> r.value <= p && matches(r.value)
    decreases p
  {
    if matches(p) then Some(p)
    else if p == 0 then None
    else LastWhere(matches, p - 1)
  }

  /** `LastWhere` finds the last match at or before `p`, and finds nothing only when there
      is none. */
  lemma {:induction false} LastWhereGreatest(matches: nat -> bool, p: nat)
    ensures LastWhere(matches, p).Some? ==> forall q :: LastWhere(matches, p).value < q <= p ==> !matches(q)
    ensures LastWhere(matches, p).None? ==> forall q :: 0 <= q <= p ==> !matches(q)
    decreases p
  {
    if !matches(p) && p > 0 {
      LastWhereGreatest(matches, p - 1);
    }
  }

  /** The last marker position the leading `.*` lets the pattern try, at or before `p`. */
  function LastMarker(s: string, p: nat): (r: Option<nat>)
    ensures r.Some? ==> r.value <= p && MarkerLength(s, r.value) > 0
  {
    LastWhere(MarkerAt(s), p)
  }

  /** `([^#\&\?]*)`: the longest prefix without `#`, `&` or `?`. */
  function IdRun(s: string): (r: string)
    ensures |r| <= |s| && r == s[..|r|]
    ensures forall k :: 0 <= k < |r| ==> r[k] !in "#&?"
    ensures |r| < |s| ==> s[|r|] in "#&?"
    decreases |s|
  {
    if s == [] || s[0] in "#&?" then [] else [s[0]] + IdRun(s[1..])
  }

  /** `extractYouTubeID`: the id after the last marker the pattern can reach, when it is
      exactly 11 characters long. */
  function ExtractYouTubeID(url: string): (r: Option<string>)
    ensures r.Some? ==> |r.value| == 11 && forall k :: 0 <= k < 11 ==> r.value[k] !in "#&?"
  {
    match LastMarker(url, FirstLineBreak(url))
    case None => None
    case Some(q) =>
      var id := IdRun(url[q + MarkerLength(url, q)..]);
      if |id| == 11 then Some(id) else None
  }

  const EmbedPrefix: string := "https://www.youtube.com/embed/"

  function EmbedUrl(videoId: string): string {
    EmbedPrefix + videoId
  }

  /** A well-formed video id: eleven characters, none of which ends a marker or the id. */
  predicate IsVideoId(id: string) {
    |id| == 11 && forall k :: 0 <= k < 11 ==> id[k] !in "#&?/="
  }

  /** The embed address built for a video gives its id back. */
  lemma {:induction false} EmbedUrlRoundTrip(id: string)
    requires IsVideoId(id)
    ensures ExtractYouTubeID(EmbedUrl(id)) == Some(id)
  {
    var s := EmbedUrl(id);
    EmbedMarker(id);
    NoMarkerAfterEmbed(id);
    EmbedPrefixOnOneLine(id);
    var fb := FirstLineBreak(s);
    LastMarkerIs(s, fb, 24);
    assert s[30..] == id;
    IdRunWhole(id);
  }

  /** The marker the pattern settles on is the last one the leading `.*` can reach. */
  lemma {:induction false} LastMarkerIs(s: string, p: nat, q: nat)
    requires q <= p && MarkerLength(s, q) > 0
    requires forall q' :: q < q' <= p ==> MarkerLength(s, q') == 0
    ensures LastMarker(s, p) == Some(q)
  {
    var m := MarkerAt(s);
    assert forall q' :: m(q') == (MarkerLength(s, q') > 0);
    LastWhereGreatest(m, p);
  }

  lemma {:induction false} IdRunWhole(id: string)
    requires forall k :: 0 <= k < |id| ==> id[k] !in "#&?"
    ensures IdRun(id) == id
    decreases |id|
  {
    if id != [] {
      IdRunWhole(id[1..]);
    }
  }

  lemma {:induction false} EmbedPrefixOnOneLine(id: string)
    ensures FirstLineBreak(EmbedUrl(id)) >= 30
  {
    var s := EmbedUrl(id);
    assert forall c :: c in EmbedPrefix ==> !IsLineTerminator(c);
    forall k | 0 <= k < 30 ensures !IsLineTerminator(s[k]) {
      assert s[k] == EmbedPrefix[k];
    }
  }

  lemma {:induction false} EmbedMarker(id: string)
    ensures MarkerLength(EmbedUrl(id), 24) == 6
  {
    var s := EmbedUrl(id);
    assert s[24..30] == "embed/";
    assert s[24] == s[24..30][0] == 'e';
  }

  lemma {:induction false} NoMarkerAfterEmbed(id: string)
    requires IsVideoId(id)
    ensures forall q :: 24 < q <= |EmbedUrl(id)| ==> MarkerLength(EmbedUrl(id), q) == 0
  {
    var s := EmbedUrl(id);
    forall q | 24 < q <= |s| ensures MarkerLength(s, q) == 0 {
      var n := MarkerLength(s, q);
    }
  }

  // ------------------------------------------------------------------ enforceWordCount

  /** `replace(/<[^>]*>/g, ' ')`: every tag, from `<` to the next `>`, becomes a space;
      a `<` with no `>` after it is left alone, and so is the rest of the text. */
  function StripTags(s: string): (r: string)
    ensures forall i, j :: 0 <= i < j < |r| && r[i] == '<' ==> r[j] != '>'
    decreases |s|
  {
    if s == [] then []
    else if s[0] == '<' then
      match IndexOf(s, ">", 1)
      case Some(j) => [' '] + StripTags(s[j + 1..])
      case None =>
        assert forall k :: 1 <= k < |s| ==> s[k] != '>' by {
          IndexOfLeast(s, ">", 1);
          forall k | 1 <= k < |s| ensures s[k] != '>' {
            assert !OccursAt(s, ">", k);
            assert s[k..k + 1] == [s[k]];
          }
        }
        s
    else [s[0]] + StripTags(s[1..])
  }

  /** The count `enforceWordCount` measures: words of the text once tags are spaces. */
  function WordCount(content: string): nat {
    |Words(Trim(CollapseSpaces(StripTags(content))))|
  }

  datatype ContentError =
    | ContentTooShort(message: string, content: string, wordCount: nat)
    | ContentTooLong(message: string, content: string, wordCount: nat)

  datatype WordCountResult = WordCountOk(count: nat) | WordCountFailed(error: ContentError)

  /** `enforceWordCount`: too few words is an error carrying the content and its count;
      the upper bound is accepted as a parameter and never checked. */
  function EnforceWordCount(content: string, minWords: int, maxWords: int): (r: WordCountResult)
    ensures r.WordCountOk? <==> WordCount(content) >= minWords
    ensures r.WordCountOk? ==> r.count == WordCount(content)
    ensures r.WordCountFailed? ==>
              r.error == ContentTooShort("CONTENT TOO SHORT: " + NatToString(WordCount(content)) + " words.",
                                         content, WordCount(content))
  {
    var count := WordCount(content);
    if count < minWords then
      WordCountFailed(ContentTooShort("CONTENT TOO SHORT: " + NatToString(count) + " words.", content, count))
    else WordCountOk(count)
  }

  /** The upper bound plays no part: the result is the same for every `maxWords`, so
      content with enough words is accepted however many words it has. */
  lemma {:induction false} NeverTooLong(content: string, minWords: int, maxWords: int, otherMax: int)
    ensures EnforceWordCount(content, minWords, maxWords) == EnforceWordCount(content, minWords, otherMax)
    ensures WordCount(content) >= minWords ==> EnforceWordCount(content, minWords, maxWords) == WordCountOk(WordCount(content))
  {
  }

  lemma {:induction false} StripTagsPlain(s: string)
    requires '<' !in s
    ensures StripTags(s) == s
    decreases |s|
  {
    if s != [] {
      StripTagsPlain(s[1..]);
    }
  }

  lemma {:induction false} CollapseSingleSpaced(s: string)
    requires SingleSpaced(s)
    ensures CollapseSpaces(s) == s
    decreases |s|
  {
    if s != [] {
      var t := s[1..];
      SingleSpacedSlice(s, 1, |s|);
      CollapseSingleSpaced(t);
      SingleSpacedHead(s);
      if IsSpace(s[0]) {
        assert t == [] || !IsSpace(t[0]);
        assert DropSpaces(t) == t;
        assert CollapseSpaces(s) == [' '] + CollapseSpaces(t);
      } else {
        assert CollapseSpaces(s) == [s[0]] + CollapseSpaces(t);
      }
      assert s == [s[0]] + t;
    }
  }

  /** A single-spaced text that starts with white space starts with one plain space. */
  lemma {:induction false} SingleSpacedHead(s: string)
    requires s != [] && SingleSpaced(s)
    ensures IsSpace(s[0]) ==> s[0] == ' ' && (|s| == 1 || !IsSpace(s[1]))
  {
  }

  lemma {:induction false} JoinedWordsSingleSpaced(ws: seq<string>)
    requires ws != [] && forall k :: 0 <= k < |ws| ==> IsWord(ws[k])
    ensures SingleSpaced(Join(ws, " ")) && Join(ws, " ") != []
    ensures !IsSpace(Join(ws, " ")[0]) && !IsSpace(Join(ws, " ")[|Join(ws, " ")| - 1])
    decreases |ws|
  {
    if |ws| > 1 {
      JoinedWordsSingleSpaced(ws[1..]);
      var w := ws[0];
      var rest := Join(ws[1..], " ");
      var s := w + " " + rest;
      assert Join(ws, " ") == s;
      forall i | 0 <= i < |s| && IsSpace(s[i]) ensures s[i] == ' ' {
        if i > |w| { assert s[i] == rest[i - |w| - 1]; }
      }
      forall i | 0 <= i < |s| - 1 ensures !(s[i] == ' ' && s[i + 1] == ' ') {
        if i > |w| { assert s[i] == rest[i - |w| - 1] && s[i + 1] == rest[i - |w|]; }
      }
      assert s[|s| - 1] == rest[|rest| - 1];
    }
  }

  /** A tag-free text of words separated by single spaces counts one per word. */
  lemma {:induction false} PlainTextWordCount(ws: seq<string>)
    requires forall k :: 0 <= k < |ws| ==> IsWord(ws[k]) && '<' !in ws[k]
    ensures WordCount(Join(ws, " ")) == |ws|
  {
    var s := Join(ws, " ");
    if ws == [] {
      assert s == "";
      assert TrimStart("") == "";
    } else {
      JoinHasNo(ws, " ", '<');
      StripTagsPlain(s);
      JoinedWordsSingleSpaced(ws);
      CollapseSingleSpaced(s);
      assert TrimStart(s) == s;
      assert TrimEnd(s) == s;
      WordsOfJoin(ws);
    }
  }

  lemma {:induction false} JoinHasNo(ws: seq<string>, sep: string, c: char)
    requires c !in sep && forall k :: 0 <= k < |ws| ==> c !in ws[k]
    ensures c !in Join(ws, sep)
    decreases |ws|
  {
    if |ws| > 1 {
      JoinHasNo(ws[1..], sep, c);
    }
  }

  // ---------------------------------------------------------- getGuaranteedYoutubeVideos

  /** One video result of a search; the link may be missing. */
  datatype SearchHit = SearchHit(link: Option<string>, title: string)

  datatype Video = Video(hit: SearchHit, videoId: string, embedUrl: string)

  const MaxVideos: nat := 2

  function Queries(keyword: string): seq<string> {
    [keyword, keyword + " guide", keyword + " tutorial"]
  }

  predicate HasVideoId(videos: seq<Video>, id: string) {
    exists k :: 0 <= k < |videos| && videos[k].videoId == id
  }

  /** The list the loop builds: at most two videos with distinct ids, each carrying the id
      of its own link and the embed address of that id. */
  predicate WellFormed(videos: seq<Video>) {
    && |videos| <= MaxVideos
    && (forall i, j :: 0 <= i < j < |videos| ==> videos[i].videoId != videos[j].videoId)
    && (forall k :: 0 <= k < |videos| ==>
          videos[k].hit.link.Some? && ExtractYouTubeID(videos[k].hit.link.value) == Some(videos[k].videoId)
          && videos[k].embedUrl == EmbedUrl(videos[k].videoId))
  }

  /** One hit of one query's loop, once the list is known not to be full. */
  function AddHit(acc: seq<Video>, hit: SearchHit): (r: seq<Video>)
    requires hit.link.Some?
    requires WellFormed(acc) && |acc| < MaxVideos
    ensures WellFormed(r)
  {
    match ExtractYouTubeID(hit.link.value)
    case None => acc
    case Some(id) => if HasVideoId(acc, id) then acc else acc + [Video(hit, id, EmbedUrl(id))]
  }

  /** The inner loop over one query's hits: it stops when the list is full, and a hit
      without a link throws, which abandons the rest of that query. */
  function GatherQuery(acc: seq<Video>, hits: seq<SearchHit>): (r: seq<Video>)
    requires WellFormed(acc)
    ensures WellFormed(r)
    ensures |acc| <= |r| && r[..|acc|] == acc
    decreases |hits|
  {
    if hits == [] || |acc| >= MaxVideos || hits[0].link.None? then acc
    else GatherQuery(AddHit(acc, hits[0]), hits[1..])
  }

  /** The outer loop over the queries' results, in order. */
  function GatherAll(acc: seq<Video>, results: seq<seq<SearchHit>>): (r: seq<Video>)
    requires WellFormed(acc)
    ensures WellFormed(r)
    ensures |acc| <= |r| && r[..|acc|] == acc
    decreases |results|
  {
    if results == [] || |acc| >= MaxVideos then acc
    else GatherAll(GatherQuery(acc, results[0]), results[1..])
  }

  /** The results of the three queries, in order. */
  function QueryResults(keyword: string, search: string -> seq<SearchHit>): seq<seq<SearchHit>> {
    [search(Queries(keyword)[0]), search(Queries(keyword)[1]), search(Queries(keyword)[2])]
  }

  /** `getGuaranteedYoutubeVideos`: `search` stands for the search service, giving the
      video results of a query (an empty list when the request or its decoding fails). */
  method GetGuaranteedYoutubeVideos(keyword: string, serperApiKey: string, search: string -> seq<SearchHit>)
    returns (videos: seq<Video>)
    ensures serperApiKey == "" ==> videos == []
    ensures serperApiKey != "" ==> videos == GatherAll([], QueryResults(keyword, search))
    ensures WellFormed(videos)
  {
    if serperApiKey == "" {
      return [];
    }
    var queries := Queries(keyword);
    ghost var results := QueryResults(keyword, search);
    var all: seq<Video> := [];
    var qi := 0;
    while qi < |queries|
      invariant 0 <= qi <= 3
      invariant WellFormed(all)
      invariant GatherAll(all, results[qi..]) == GatherAll([], results)
    {
      if |all| >= MaxVideos {
        break;
      }
      var hits := search(queries[qi]);
      assert results[qi..][0] == hits && results[qi..][1..] == results[qi + 1..];
      all := GatherQueryHits(all, hits);
      qi := qi + 1;
    }
    videos := all[..if |all| < MaxVideos then |all| else MaxVideos];
    assert videos == all;
  }

  /** The inner loop of `getGuaranteedYoutubeVideos` over one query's hits. */
  method GatherQueryHits(start: seq<Video>, hits: seq<SearchHit>) returns (all: seq<Video>)
    requires WellFormed(start)
    ensures all == GatherQuery(start, hits)
  {
    all := start;
    var hi := 0;
    while hi < |hits|
      invariant 0 <= hi <= |hits|
      invariant WellFormed(all)
      invariant GatherQuery(all, hits[hi..]) == GatherQuery(start, hits)
    {
      if |all| >= MaxVideos {
        break;
      }
      var hit := hits[hi];
      if hit.link.None? {
        break;
      }
      assert hits[hi..][0] == hit && hits[hi..][1..] == hits[hi + 1..];
      ghost var next := AddHit(all, hit);
      var id := ExtractYouTubeID(hit.link.value);
      if id.Some? && !HasVideoId(all, id.value) {
        all := all + [Video(hit, id.value, EmbedUrl(id.value))];
      }
      assert all == next;
      hi := hi + 1;
    }
  }

  /** Completeness: while the list is not full, every id that a reached link yields is in
      it; so the result has two videos whenever the results hold two distinct ids. */
  lemma {:induction false} GatherQueryComplete(acc: seq<Video>, hits: seq<SearchHit>, k: nat, id: string)
    requires WellFormed(acc)
    requires k < |hits| && forall j :: 0 <= j <= k ==> hits[j].link.Some?
    requires ExtractYouTubeID(hits[k].link.value) == Some(id)
    requires |GatherQuery(acc, hits)| < MaxVideos
    ensures HasVideoId(GatherQuery(acc, hits), id)
    decreases |hits|
  {
    var r := GatherQuery(acc, hits);
    assert hits[0].link.Some?;
    assert |acc| < MaxVideos;
    var next := AddHit(acc, hits[0]);
    var rest := hits[1..];
    assert r == GatherQuery(next, rest);
    if k == 0 {
      AddHitFinds(acc, hits[0], id);
      GatherQueryKeeps(next, rest, id);
    } else {
      assert forall j :: 0 <= j <= k - 1 ==> rest[j] == hits[j + 1];
      GatherQueryComplete(next, rest, k - 1, id);
    }
  }

  lemma {:induction false} AddHitFinds(acc: seq<Video>, hit: SearchHit, id: string)
    requires hit.link.Some? && ExtractYouTubeID(hit.link.value) == Some(id)
    requires WellFormed(acc) && |acc| < MaxVideos
    ensures HasVideoId(AddHit(acc, hit), id)
  {
    if !HasVideoId(acc, id) {
      var next := AddHit(acc, hit);
      assert next[|acc|].videoId == id;
    }
  }

  lemma {:induction false} GatherQueryKeeps(acc: seq<Video>, hits: seq<SearchHit>, id: string)
    requires WellFormed(acc) && HasVideoId(acc, id)
    ensures HasVideoId(GatherQuery(acc, hits), id)
  {
    var r := GatherQuery(acc, hits);
    var k :| 0 <= k < |acc| && acc[k].videoId == id;
    assert r[..|acc|] == acc;
    assert r[k] == acc[k];
  }
}
