/** The hero section: the YouTube id extractor, the choice between a YouTube
    and an mp4 background, and the headline split of the catchphrase.

    The extractor's pattern is `^.*(youtu.be/|v/|u/\w/|embed/|watch\?v=|&v=)([^#&?]*).*`
    without flags. It is modelled as an explicit search rather than a regular
    expression engine: `.` does not match a line terminator, so the greedy
    `^.*` can only reach up to the first line terminator, and the match it
    settles on is the LAST marker that starts on the first line; the captured
    id is the longest run after that marker of characters other than `#`,
    `&` and `?` (a run that may cross line breaks). The six alternatives
    start with six different characters, so at most one of them matches at a
    given position. */
module Hero {
  import opened Wrappers
  import opened Text

  predicate IsLineTerminator(c: char) {
    c == '\n' || c == '\r' || c == '\U{2028}' || c == '\U{2029}'
  }

  /** `\w` without the unicode flag. */
  predicate IsWordChar(c: char) {
    ('a' <= c <= 'z') || ('A' <= c <= 'Z') || ('0' <= c <= '9') || c == '_'
  }

  /** The characters `[^#&?]` excludes, which end the captured id. */
  predicate IsIdStop(c: char) {
    c == '#' || c == '&' || c == '?'
  }

  /** The length of the marker alternative that matches at `p`, if one does. */
  function MarkerAt(s: string, p: nat): (r: Option<nat>)
    ensures r.Some? ==> p + r.value <= |s|
  {
    if p + 9 <= |s| && s[p..p + 5] == "youtu" && !IsLineTerminator(s[p + 5]) && s[p + 6..p + 9] == "be/" then Some(9)
    else if OccursAt(s, "v/", p) then Some(2)
    else if p + 4 <= |s| && s[p..p + 2] == "u/" && IsWordChar(s[p + 2]) && s[p + 3] == '/' then Some(4)
    else if OccursAt(s, "embed/", p) then Some(6)
    else if OccursAt(s, "watch?v=", p) then Some(8)
    else if OccursAt(s, "&v=", p) then Some(3)
    else None
  }

  /** The position of the first line terminator at or after `from`, or the
      length of `s`. */
  function LineEnd(s: string, from: nat): (n: nat)
    requires from <= |s|
    ensures from <= n <= |s|
    ensures forall i :: from <= i < n ==> !IsLineTerminator(s[i])
    ensures n < |s| ==> IsLineTerminator(s[n])
    decreases |s| - from
  {
    if from == |s| || IsLineTerminator(s[from]) then from else LineEnd(s, from + 1)
  }

  /** The last position before `n` where a marker matches. */
  function LastMarker(s: string, n: nat): (r: Option<nat>)
    requires n <= |s|
    ensures r.Some? ==> r.value < n && MarkerAt(s, r.value).Some?
  {
    if n == 0 then None
    else if MarkerAt(s, n - 1).Some? then Some(n - 1)
    else LastMarker(s, n - 1)
  }

  /** The end of the longest run of non-stop characters starting at `i`. */
  function RunEnd(s: string, i: nat): (j: nat)
    requires i <= |s|
    ensures i <= j <= |s|
    ensures forall k :: i <= k < j ==> !IsIdStop(s[k])
    ensures j < |s| ==> IsIdStop(s[j])
    decreases |s| - i
  {
    if i == |s| || IsIdStop(s[i]) then i else RunEnd(s, i + 1)
  }

  /** `extractYoutubeId`: the captured id when the pattern matches and the
      id has exactly 11 characters, otherwise nothing. */
  function ExtractYoutubeId(url: string): (r: Option<string>)
    ensures r.Some? ==> |r.value| == 11
    ensures r.Some? ==> forall i :: 0 <= i < |r.value| ==> !IsIdStop(r.value[i])
  {
    match LastMarker(url, LineEnd(url, 0))
    case None => None
    case Some(p) =>
      var start := p + MarkerAt(url, p).value;
      var id := url[start..RunEnd(url, start)];
      if |id| == 11 then Some(id) else None
  }

  /** What the pattern matches, stated directly: a marker at `p` on the first
      line with no marker after it on that line, followed by `id`, a run of
      non-stop characters that cannot be extended. */
  ghost predicate GreedyMatch(url: string, p: nat, id: string) {
    && p < LineEnd(url, 0)
    && MarkerAt(url, p).Some?
    && (forall q :: p < q < LineEnd(url, 0) ==> MarkerAt(url, q).None?)
    && var start := p + MarkerAt(url, p).value;
       && start + |id| <= |url|
       && url[start..start + |id|] == id
       && (forall i :: 0 <= i < |id| ==> !IsIdStop(id[i]))
       && (start + |id| == |url| || IsIdStop(url[start + |id|]))
  }

  /** The extractor returns `id` exactly when the pattern's match captures
      `id` and `id` has 11 characters. */
  lemma ExtractYoutubeIdIsGreedyMatch(url: string, id: string)
    ensures ExtractYoutubeId(url) == Some(id) <==> (exists p: nat :: GreedyMatch(url, p, id)) && |id| == 11
  {
    if exists p: nat :: GreedyMatch(url, p, id) {
      var p: nat :| GreedyMatch(url, p, id);
      if |id| == 11 {
        GreedyMatchExtracts(url, p, id);
      }
    }
    if ExtractYoutubeId(url) == Some(id) {
      ExtractIsGreedyMatch(url);
    }
  }

  lemma GreedyMatchExtracts(url: string, p: nat, id: string)
    requires GreedyMatch(url, p, id) && |id| == 11
    ensures ExtractYoutubeId(url) == Some(id)
  {
    LastMarkerUnique(url, LineEnd(url, 0), p);
    var start := p + MarkerAt(url, p).value;
    forall k | start <= k < start + |id| ensures !IsIdStop(url[k]) {
      assert url[k] == url[start..start + |id|][k - start];
    }
    RunEndUnique(url, start, start + |id|);
  }

  lemma ExtractIsGreedyMatch(url: string)
    requires ExtractYoutubeId(url).Some?
    ensures LastMarker(url, LineEnd(url, 0)).Some?
    ensures GreedyMatch(url, LastMarker(url, LineEnd(url, 0)).value, ExtractYoutubeId(url).value)
  {
    var n := LineEnd(url, 0);
    LastMarkerIsLast(url, n);
    var p := LastMarker(url, n).value;
    var start := p + MarkerAt(url, p).value;
    var id := ExtractYoutubeId(url).value;
    assert id == url[start..RunEnd(url, start)];
    assert start + |id| == RunEnd(url, start);
  }

  /** No marker starts after the one `LastMarker` picks, and none at all
      when it picks none. */
  lemma {:induction false} LastMarkerIsLast(s: string, n: nat)
    requires n <= |s|
    ensures LastMarker(s, n).Some? ==> forall q :: LastMarker(s, n).value < q < n ==> MarkerAt(s, q).None?
    ensures LastMarker(s, n).None? ==> forall q :: 0 <= q < n ==> MarkerAt(s, q).None?
    decreases n
  {
    if n > 0 && MarkerAt(s, n - 1).None? {
      var prev := LastMarker(s, n - 1);
      assert LastMarker(s, n) == prev;
      LastMarkerIsLast(s, n - 1);
      var lo := if prev.Some? then prev.value + 1 else 0;
      forall q | lo <= q < n
        ensures MarkerAt(s, q).None?
      {
        if q == n - 1 {
        } else {
          assert q < n - 1;
        }
      }
    }
  }

  lemma {:induction false} LastMarkerUnique(s: string, n: nat, p: nat)
    requires p < n <= |s|
    requires MarkerAt(s, p).Some?
    requires forall q :: p < q < n ==> MarkerAt(s, q).None?
    ensures LastMarker(s, n) == Some(p)
    decreases n
  {
    if n - 1 != p {
      LastMarkerUnique(s, n - 1, p);
    }
  }

  lemma RunEndUnique(s: string, i: nat, j: nat)
    requires i <= j <= |s|
    requires forall k :: i <= k < j ==> !IsIdStop(s[k])
    requires j == |s| || IsIdStop(s[j])
    ensures RunEnd(s, i) == j
  {
  }

  /** Without a marker on the first line there is no id. */
  lemma NoMarkerNoId(url: string)
    requires forall p :: 0 <= p < LineEnd(url, 0) ==> MarkerAt(url, p).None?
    ensures ExtractYoutubeId(url).None?
  {
  }

  /** The characters of a real YouTube video id. */
  predicate IsVideoIdChar(c: char) {
    IsWordChar(c) || c == '-'
  }

  predicate IsVideoId(id: string) {
    |id| == 11 && forall i :: 0 <= i < |id| ==> IsVideoIdChar(id[i])
  }

  /** Every marker begins with one of six fixed two-character openings and
      ends with `/` or `=`. */
  lemma MarkerShape(s: string, q: nat)
    requires MarkerAt(s, q).Some?
    ensures var k := MarkerAt(s, q).value;
      && k >= 2
      && (s[q + k - 1] == '/' || s[q + k - 1] == '=')
      && ((s[q] == 'y' && s[q + 1] == 'o') || (s[q] == 'v' && s[q + 1] == '/')
          || (s[q] == 'u' && s[q + 1] == '/') || (s[q] == 'e' && s[q + 1] == 'm')
          || (s[q] == 'w' && s[q + 1] == 'a') || (s[q] == '&' && s[q + 1] == 'v'))
  {
    var k := MarkerAt(s, q).value;
    if k == 9 {
      assert s[q..q + 5][0] == 'y' && s[q..q + 5][1] == 'o' && s[q + 6..q + 9][2] == '/';
    } else if k == 2 {
      assert s[q..q + 2] == "v/";
      assert s[q..q + 2][0] == 'v' && s[q..q + 2][1] == '/';
    } else if k == 4 {
      assert s[q..q + 2][0] == 'u' && s[q..q + 2][1] == '/';
    } else if k == 6 {
      assert s[q..q + 6] == "embed/";
      assert s[q..q + 6][0] == 'e' && s[q..q + 6][1] == 'm' && s[q..q + 6][5] == '/';
    } else if k == 8 {
      assert s[q..q + 8] == "watch?v=";
      assert s[q..q + 8][0] == 'w' && s[q..q + 8][1] == 'a' && s[q..q + 8][7] == '=';
    } else {
      assert s[q..q + 3] == "&v=";
      assert s[q..q + 3][0] == '&' && s[q..q + 3][1] == 'v' && s[q..q + 3][2] == '=';
    }
  }

  /** A well-formed id placed at the end of a one-line URL right after a
      marker at `p` is extracted back, provided no marker starts between `p`
      and the id. */
  lemma ExtractIdAfterMarker(s: string, p: nat, id: string)
    requires IsVideoId(id)
    requires MarkerAt(s, p).Some? && p + MarkerAt(s, p).value + |id| == |s|
    requires s[p + MarkerAt(s, p).value..] == id
    requires forall i :: 0 <= i < |s| ==> !IsLineTerminator(s[i])
    requires forall q :: p < q < p + MarkerAt(s, p).value ==> MarkerAt(s, q).None?
    ensures ExtractYoutubeId(s) == Some(id)
  {
    var start := p + MarkerAt(s, p).value;
    assert LineEnd(s, 0) == |s|;
    forall q | start <= q < |s| ensures MarkerAt(s, q).None? {
      if MarkerAt(s, q).Some? {
        MarkerShape(s, q);
        assert false;
      }
    }
    forall i | 0 <= i < |id| ensures !IsIdStop(id[i]) {
      assert IsVideoIdChar(id[i]);
    }
    assert s[start..start + |id|] == id;
    assert GreedyMatch(s, p, id);
    ExtractYoutubeIdIsGreedyMatch(s, id);
  }

  const ShortLinkPrefix: string := "https://youtu.be/"
  const WatchLinkPrefix: string := "https://www.youtube.com/watch?v="

  lemma LinkHasNoLineTerminator(prefix: string, id: string)
    requires forall i :: 0 <= i < |prefix| ==> !IsLineTerminator(prefix[i])
    requires IsVideoId(id)
    ensures forall i :: 0 <= i < |prefix + id| ==> !IsLineTerminator((prefix + id)[i])
  {
    forall i | 0 <= i < |prefix + id| ensures !IsLineTerminator((prefix + id)[i]) {
      if i >= |prefix| {
        assert IsVideoIdChar(id[i - |prefix|]);
      }
    }
  }

  /** The short link of a video gives back its id. */
  lemma ShortLinkRoundTrip(id: string)
    requires IsVideoId(id)
    ensures ExtractYoutubeId(ShortLinkPrefix + id) == Some(id)
  {
    var s := ShortLinkPrefix + id;
    assert forall i :: 0 <= i < |ShortLinkPrefix| ==> !IsLineTerminator(ShortLinkPrefix[i]);
    LinkHasNoLineTerminator(ShortLinkPrefix, id);
    assert s[..17] == ShortLinkPrefix;
    ShortMarkerAt(s);
    assert s[17..] == id;
    ExtractIdAfterMarker(s, 8, id);
  }

  /** In a string starting with the short link prefix, the `youtu.be/`
      marker at 8 is the last one before the id. */
  lemma ShortMarkerAt(s: string)
    requires |s| >= 17 && s[..17] == ShortLinkPrefix
    ensures MarkerAt(s, 8) == Some(9)
    ensures forall q :: 8 < q < 17 ==> MarkerAt(s, q).None?
  {
    var path := "youtu.be/";
    assert ShortLinkPrefix[8..] == path;
    assert s[8..17] == path by {
      assert s[8..17] == s[..17][8..17];
    }
    assert s[8..13] == "youtu" && s[14..17] == "be/";
    assert !IsLineTerminator(s[13]);
    forall q | 8 < q < 17 ensures MarkerAt(s, q).None? {
      assert s[q] == path[q - 8];
      if q < 16 {
        assert s[q + 1] == path[q - 7];
      }
      if MarkerAt(s, q).Some? {
        MarkerShape(s, q);
        assert false;
      }
    }
  }

  /** The watch page link of a video gives back its id. */
  lemma WatchLinkRoundTrip(id: string)
    requires IsVideoId(id)
    ensures ExtractYoutubeId(WatchLinkPrefix + id) == Some(id)
  {
    var s := WatchLinkPrefix + id;
    WatchPrefixOneLine();
    LinkHasNoLineTerminator(WatchLinkPrefix, id);
    assert s[..32] == WatchLinkPrefix;
    WatchMarkerAt(s);
    assert s[32..] == id;
    ExtractIdAfterMarker(s, 24, id);
  }

  lemma WatchPrefixOneLine()
    ensures forall i :: 0 <= i < |WatchLinkPrefix| ==> !IsLineTerminator(WatchLinkPrefix[i])
  {
    var host, path := "https://www.youtube.com/", "watch?v=";
    assert WatchLinkPrefix == host + path;
    assert forall i :: 0 <= i < |host| ==> !IsLineTerminator(host[i]);
    assert forall i :: 0 <= i < |path| ==> !IsLineTerminator(path[i]);
    forall i | 0 <= i < |WatchLinkPrefix| ensures !IsLineTerminator(WatchLinkPrefix[i]) {
      if i >= |host| {
        assert WatchLinkPrefix[i] == path[i - |host|];
      } else {
        assert WatchLinkPrefix[i] == host[i];
      }
    }
  }

  /** In a string starting with the watch link prefix, the `watch?v=`
      marker at 24 is the last one before the id. */
  lemma WatchMarkerAt(s: string)
    requires |s| >= 32 && s[..32] == WatchLinkPrefix
    ensures MarkerAt(s, 24) == Some(8)
    ensures forall q :: 24 < q < 32 ==> MarkerAt(s, q).None?
  {
    var path := "watch?v=";
    assert WatchLinkPrefix[24..] == path;
    assert s[24..32] == path by {
      assert s[24..32] == s[..32][24..32];
    }
    assert s[24] == 'w' && s[25] == 'a';
    assert OccursAt(s, path, 24);
    assert MarkerAt(s, 24) == Some(8) by {
      assert s[24..29][0] == 'w' && s[24..26][0] == 'w' && s[24..30][0] == 'w';
    }
    forall q | 24 < q < 32 ensures MarkerAt(s, q).None? {
      assert s[q] == path[q - 24];
      if q < 31 {
        assert s[q + 1] == path[q - 23];
      }
      if MarkerAt(s, q).Some? {
        MarkerShape(s, q);
        assert false;
      }
    }
  }

  // ---------------------------------------------------------------------
  // Background video choice
  // ---------------------------------------------------------------------

  datatype VideoSource = YouTube | Mp4

  /** The component's props; the CMS may leave any optional one out. */
  datatype HeroProps = HeroProps(
    catchphrase: string,
    subCatchphrase: string,
    heroVideoSource: Option<VideoSource>,
    heroYoutubeUrl: Option<string>,
    heroVideoFileUrl: Option<string>)

  /** The source, defaulting to YouTube when the prop is left out. */
  function SourceOf(props: HeroProps): VideoSource {
    props.heroVideoSource.GetOr(YouTube)
  }

  /** `youtubeId`: an empty or missing URL is falsy and gives no id. */
  function YoutubeIdOf(props: HeroProps): (r: Option<string>)
    ensures !IsSet(props.heroYoutubeUrl) ==> r.None?
    ensures IsSet(props.heroYoutubeUrl) ==> r == ExtractYoutubeId(props.heroYoutubeUrl.value)
    ensures r.Some? ==> |r.value| == 11
  {
    if IsSet(props.heroYoutubeUrl) then ExtractYoutubeId(props.heroYoutubeUrl.value)
    else None
  }

  predicate ShowYoutube(props: HeroProps) {
    SourceOf(props) == YouTube && YoutubeIdOf(props).Some?
  }

  predicate ShowMp4(props: HeroProps) {
    SourceOf(props) == Mp4 && IsSet(props.heroVideoFileUrl)
  }

  datatype VideoLayer = YoutubeEmbed(src: string) | Mp4Video(src: string)

  /** The iframe address for a YouTube id: autoplaying, muted, looping over
      itself, without controls. */
  function EmbedSrc(id: string): string {
    "https://www.youtube.com/embed/" + id + "?autoplay=1&mute=1&loop=1&playlist=" + id
    + "&controls=0&showinfo=0&rel=0&modestbranding=1&playsinline=1"
  }

  /** The background layers rendered: the two conditional blocks of the
      section, in order. */
  function VideoLayers(props: HeroProps): (layers: seq<VideoLayer>)
    ensures |layers| <= 1
    ensures (|layers| == 1 && layers[0].YoutubeEmbed?)
        <==> props.heroVideoSource != Some(Mp4) && YoutubeIdOf(props).Some?
    ensures (|layers| == 1 && layers[0].Mp4Video?)
        <==> props.heroVideoSource == Some(Mp4) && IsSet(props.heroVideoFileUrl)
    ensures |layers| == 1 && layers[0].YoutubeEmbed? ==> layers[0].src == EmbedSrc(YoutubeIdOf(props).value)
    ensures |layers| == 1 && layers[0].Mp4Video? ==> Some(layers[0].src) == props.heroVideoFileUrl
  {
    (if ShowYoutube(props) then [YoutubeEmbed(EmbedSrc(YoutubeIdOf(props).value))] else [])
    + (if ShowMp4(props) then [Mp4Video(props.heroVideoFileUrl.value)] else [])
  }

  /** The two conditions never hold together; each holds exactly when its
      source is chosen (YouTube also when none is given) and its input is
      usable. */
  lemma AtMostOneBackground(props: HeroProps)
    ensures !(ShowYoutube(props) && ShowMp4(props))
    ensures ShowYoutube(props) <==> props.heroVideoSource != Some(Mp4) && YoutubeIdOf(props).Some?
    ensures ShowMp4(props) <==> props.heroVideoSource == Some(Mp4) && IsSet(props.heroVideoFileUrl)
    ensures props.heroVideoSource.None? ==> !ShowMp4(props)
  {
  }

  // ---------------------------------------------------------------------
  // Headline
  // ---------------------------------------------------------------------

  const Comma: char := '、'

  /** The text of each headline block: the catchphrase split at `、`, with
      `、` put back after the first part only. */
  function HeadlineBlocks(catchphrase: string): (blocks: seq<string>)
    ensures |blocks| == |Split(catchphrase, [Comma])|
    ensures |blocks| == Count(catchphrase, Comma) + 1
    ensures blocks[0] == Split(catchphrase, [Comma])[0] + [Comma]
    ensures forall k :: 1 <= k < |blocks| ==> blocks[k] == Split(catchphrase, [Comma])[k]
  {
    SplitCharCount(catchphrase, Comma);
    var parts := Split(catchphrase, [Comma]);
    var blocks := [parts[0] + [Comma]] + parts[1..];
    assert forall k :: 1 <= k < |blocks| ==> blocks[k] == parts[1..][k - 1];
    blocks
  }

  /** Only the first block holds a `、`, as its last character; the others
      hold none. */
  lemma HeadlineCommas(catchphrase: string, k: nat)
    requires k < |HeadlineBlocks(catchphrase)|
    ensures k == 0 ==> Count(HeadlineBlocks(catchphrase)[0], Comma) == 1
    ensures k > 0 ==> Count(HeadlineBlocks(catchphrase)[k], Comma) == 0
  {
    var parts := Split(catchphrase, [Comma]);
    var blocks := HeadlineBlocks(catchphrase);
    SplitPartsAvoidSeparator(catchphrase, [Comma], k);
    NoSeparatorNoCount(parts[k], Comma);
    if k == 0 {
      CountAppend(parts[0], [Comma], Comma);
    } else {
      assert blocks[k] == parts[k];
    }
  }

  lemma NoSeparatorNoCount(s: string, c: char)
    requires !Contains(s, [c])
    ensures Count(s, c) == 0
  {
    forall i | 0 <= i < |s| ensures s[i] != c {
      assert !OccursAt(s, [c], i);
      assert s[i..i + 1] == [s[i]];
    }
    CountAbsent(s, c);
  }

  lemma TotalLengthCons(x: string, rest: seq<string>)
    ensures TotalLength([x] + rest) == |x| + TotalLength(rest)
  {
    assert ([x] + rest)[1..] == rest;
  }

  /** The rendered headline reads exactly as the catchphrase if and only if
      the catchphrase holds exactly one `、`: with none a `、` is added at the
      end, with two or more all but the first are dropped. */
  lemma HeadlineTextIffOneComma(catchphrase: string)
    ensures Concat(HeadlineBlocks(catchphrase)) == catchphrase <==> Count(catchphrase, Comma) == 1
  {
    var parts := Split(catchphrase, [Comma]);
    var blocks := HeadlineBlocks(catchphrase);
    var n := |parts|;
    SplitCharCount(catchphrase, Comma);
    JoinSplit(catchphrase, [Comma]);
    JoinLength(parts, [Comma]);
    ConcatLength(blocks);
    TotalLengthCons(parts[0] + [Comma], parts[1..]);
    TotalLengthCons(parts[0], parts[1..]);
    assert parts == [parts[0]] + parts[1..];
    if n == 2 {
      assert parts[1..] == [parts[1]];
      assert Concat(blocks) == (parts[0] + [Comma]) + (parts[1] + Concat([]));
      assert Join(parts, [Comma]) == parts[0] + [Comma] + Join([parts[1]], [Comma]);
    }
  }
}
