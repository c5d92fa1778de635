/** The works section of the site: one article per work, alternating sides,
    with a thumbnail taken from the work's YouTube link and a two-digit
    running number. */
module Works {
  import opened Wrappers
  import opened Text

  datatype Category = AiVideo | AiManga | Design

  datatype Work = Work(
    id: string,
    title: string,
    category: Category,
    description: string,
    videoUrl: Option<string>,
    targetCustomer: Option<string>,
    duration: Option<string>,
    publishedAt: string,
    featured: bool)

  function CategoryLabel(c: Category): string {
    match c
    case AiVideo => "AI動画"
    case AiManga => "AI漫画"
    case Design => "デザイン"
  }

  // ---------------------------------------------------------------------
  // Thumbnail
  // ---------------------------------------------------------------------

  /** `videoUrl.split('v=')[1]?.split('&')[0] || videoUrl`. */
  function ThumbnailId(videoUrl: string): (r: string)
    ensures r == "" <==> videoUrl == ""
  {
    var parts := Split(videoUrl, "v=");
    if |parts| < 2 then videoUrl
    else
      var id := Split(parts[1], "&")[0];
      if id == "" then videoUrl else id
  }

  /** The first position at or after `from` holding an `&` or starting a
      `v=`, or the length of `s`. */
  function CutEnd(s: string, from: nat): (j: nat)
    requires from <= |s|
    ensures from <= j <= |s|
    ensures forall k :: from <= k < j ==> s[k] != '&' && !OccursAt(s, "v=", k)
    ensures j < |s| ==> s[j] == '&' || OccursAt(s, "v=", j)
    decreases |s| - from
  {
    if from == |s| || s[from] == '&' || OccursAt(s, "v=", from) then from else CutEnd(s, from + 1)
  }

  lemma CutEndUnique(s: string, from: nat, j: nat)
    requires from <= j <= |s|
    requires forall k :: from <= k < j ==> s[k] != '&' && !OccursAt(s, "v=", k)
    requires j < |s| ==> s[j] == '&' || OccursAt(s, "v=", j)
    ensures CutEnd(s, from) == j
  {
  }

  /** The thumbnail id, stated with positions: the text from just after the
      first `v=` up to the next `&` or `v=`; the whole URL when there is no
      `v=` or that text is empty. */
  function ThumbnailIdByPosition(url: string): string {
    match IndexOf(url, "v=", 0)
    case None => url
    case Some(i) =>
      var id := url[i + 2..CutEnd(url, i + 2)];
      if id == "" then url else id
  }

  /** Cutting the text after a `v=` at the next `v=` and then at the first
      `&` stops where `CutEnd` stops. */
  lemma CutAfterMarker(url: string, a: nat)
    requires a <= |url|
    ensures Split(url[a..][..FirstOrLength(url[a..], "v=")], "&")[0] == url[a..CutEnd(url, a)]
  {
    var rest := url[a..];
    var m := FirstOrLength(rest, "v=");
    var seg := rest[..m];
    var e := FirstOrLength(seg, "&");
    CutAtFirstStop(url, a, m, e);
    assert CutEnd(url, a) == a + e;
    SplitHead(seg, "&");
    assert Split(seg, "&")[0] == seg[..e];
    SliceOfSlices(url, a, m, e);
    assert seg[..e] == url[a..a + e];
  }

  lemma SliceOfSlices(s: string, a: nat, m: nat, e: nat)
    requires a + m <= |s| && e <= m
    ensures s[a..][..m][..e] == s[a..a + e]
  {
  }

  lemma CutAtFirstStop(url: string, a: nat, m: nat, e: nat)
    requires a + m <= |url| && e <= m
    requires forall j: nat :: j < m ==> !OccursAt(url[a..], "v=", j)
    requires m < |url| - a ==> OccursAt(url[a..], "v=", m)
    requires forall j: nat :: j < e ==> !OccursAt(url[a..][..m], "&", j)
    requires e < m ==> OccursAt(url[a..][..m], "&", e)
    ensures CutEnd(url, a) == a + e
  {
    NoStopBeforeCut(url, a, m, e);
    if a + e < |url| {
      if e < m {
        OccursChar(url[a..][..m], '&', e);
      } else {
        OccursShift(url, "v=", a, m);
      }
    }
    CutEndUnique(url, a, a + e);
  }

  lemma NoStopBeforeCut(url: string, a: nat, m: nat, e: nat)
    requires a + m <= |url| && e <= m
    requires forall j: nat :: j < m ==> !OccursAt(url[a..], "v=", j)
    requires forall j: nat :: j < e ==> !OccursAt(url[a..][..m], "&", j)
    ensures forall k :: a <= k < a + e ==> url[k] != '&' && !OccursAt(url, "v=", k)
  {
    forall k | a <= k < a + e ensures url[k] != '&' && !OccursAt(url, "v=", k) {
      OccursChar(url[a..][..m], '&', k - a);
      OccursShift(url, "v=", a, k - a);
    }
  }

  /** The split-based expression and the positional description agree on
      every URL. */
  lemma ThumbnailIdIsPositional(url: string)
    ensures ThumbnailId(url) == ThumbnailIdByPosition(url)
  {
    SplitSecond(url, "v=");
    match IndexOf(url, "v=", 0)
    case None =>
    case Some(i) =>
      CutAfterMarker(url, i + 2);
  }

  /** What a thumbnail id can be. Without a `v=` it is the URL itself.
      Otherwise, unless it falls back to the URL, it is a non-empty piece of
      the URL that holds no `&` and no `v=`, and is shorter than the URL. */
  lemma ThumbnailIdShape(url: string)
    ensures !Contains(url, "v=") ==> ThumbnailId(url) == url
    ensures ThumbnailId(url) != url ==>
      var r := ThumbnailId(url);
      && r != ""
      && |r| < |url|
      && (forall k :: 0 <= k < |r| ==> r[k] != '&')
      && !Contains(r, "v=")
  {
    ThumbnailIdIsPositional(url);
    match IndexOf(url, "v=", 0)
    case None =>
      assert ThumbnailId(url) == url;
    case Some(i) =>
      assert OccursAt(url, "v=", i);
      var a := i + 2;
      var j := CutEnd(url, a);
      var r := url[a..j];
      if r != "" {
        assert ThumbnailId(url) == r;
        forall k | 0 <= k < |r| ensures r[k] != '&' {
          assert r[k] == url[a + k];
        }
        forall t: nat | t <= |r| ensures !OccursAt(r, "v=", t) {
          if OccursAt(r, "v=", t) {
            OccursInSlice(url, "v=", a, j, t);
            assert false;
          }
        }
      }
  }

  lemma OccursInSlice(s: string, sep: string, a: nat, j: nat, t: nat)
    requires a <= j <= |s|
    requires OccursAt(s[a..j], sep, t)
    ensures a + t + |sep| <= j && OccursAt(s, sep, a + t)
  {
    assert t + |sep| <= j - a;
    forall k | 0 <= k < |sep| ensures s[a + t..a + t + |sep|][k] == sep[k] {
      assert s[a..j][t..t + |sep|][k] == sep[k];
    }
  }

  /** The thumbnail image is rendered only for a work with a (non-empty)
      video URL, and its address embeds the thumbnail id. */
  function ThumbnailSrc(videoUrl: Option<string>): (r: Option<string>)
    ensures r.Some? <==> videoUrl.Some? && videoUrl.value != ""
    ensures r.Some? ==> ThumbnailUrlPrefix + ThumbnailId(videoUrl.value) <= r.value
  {
    if videoUrl.Some? && videoUrl.value != "" then
      Some(ThumbnailUrlPrefix + ThumbnailId(videoUrl.value) + "/hqdefault.jpg")
    else None
  }

  const ThumbnailUrlPrefix: string := "https://img.youtube.com/vi/"

  // ---------------------------------------------------------------------
  // Work number
  // ---------------------------------------------------------------------

  predicate IsDigit(c: char) {
    '0' <= c <= '9'
  }

  function DigitChar(d: nat): (c: char)
    requires d < 10
    ensures IsDigit(c)
  {
    (48 + d) as char
  }

  function DigitValue(c: char): nat
    requires IsDigit(c)
  {
    (c as int - 48) as nat
  }

  /** `String(n)` for a natural number: decimal digits, no leading zero. */
  function DecimalString(n: nat): (s: string)
    ensures |s| >= 1
    ensures forall i :: 0 <= i < |s| ==> IsDigit(s[i])
  {
    if n < 10 then [DigitChar(n)] else DecimalString(n / 10) + [DigitChar(n % 10)]
  }

  /** The number a digit string denotes. */
  function DigitsValue(s: string): nat
    requires forall i :: 0 <= i < |s| ==> IsDigit(s[i])
  {
    if s == [] then 0 else 10 * DigitsValue(s[..|s| - 1]) + DigitValue(s[|s| - 1])
  }

  /** `s.padStart(width, fill)`: fill characters in front up to `width`. */
  function PadStart(s: string, width: nat, fill: char): (r: string)
    ensures |r| == if |s| >= width then |s| else width
    ensures r[|r| - |s|..] == s
    ensures forall i :: 0 <= i < |r| - |s| ==> r[i] == fill
  {
    if |s| >= width then s else [fill] + PadStart(s, width - 1, fill)
  }

  /** The label of the article at position `index`: `String(index + 1).padStart(2, '0')`. */
  function WorkNumber(index: nat): (r: string)
    ensures |r| >= 2
    ensures forall i :: 0 <= i < |r| ==> IsDigit(r[i])
  {
    PadStart(DecimalString(index + 1), 2, '0')
  }

  lemma {:induction false} DecimalRoundTrip(n: nat)
    ensures DigitsValue(DecimalString(n)) == n
  {
    if n >= 10 {
      DecimalRoundTrip(n / 10);
      var s := DecimalString(n);
      assert s[..|s| - 1] == DecimalString(n / 10);
    }
  }

  lemma {:induction false} DecimalNoLeadingZero(n: nat)
    ensures DecimalString(n)[0] == '0' <==> n == 0
    ensures |DecimalString(n)| == 1 <==> n < 10
  {
    if n >= 10 {
      DecimalNoLeadingZero(n / 10);
    }
  }

  lemma {:induction false} LeadingZeroValue(s: string)
    requires forall i :: 0 <= i < |s| ==> IsDigit(s[i])
    ensures DigitsValue(['0'] + s) == DigitsValue(s)
    decreases |s|
  {
    if s != [] {
      var z := ['0'] + s;
      assert z[..|z| - 1] == ['0'] + s[..|s| - 1];
      LeadingZeroValue(s[..|s| - 1]);
    } else {
      assert (['0'] + s)[..0] == [];
    }
  }

  /** The work number is at least two digits long, reads as `index + 1`, and
      has a leading `0` exactly for the first nine works. */
  lemma WorkNumberValue(index: nat)
    ensures DigitsValue(WorkNumber(index)) == index + 1
    ensures |WorkNumber(index)| == if index < 9 then 2 else |DecimalString(index + 1)|
    ensures WorkNumber(index)[0] == '0' <==> index < 9
  {
    var d := DecimalString(index + 1);
    DecimalRoundTrip(index + 1);
    DecimalNoLeadingZero(index + 1);
    if index < 9 {
      assert WorkNumber(index) == ['0'] + d;
      LeadingZeroValue(d);
    }
  }

  /** Different positions get different numbers. */
  lemma WorkNumbersDistinct(i: nat, j: nat)
    requires i != j
    ensures WorkNumber(i) != WorkNumber(j)
  {
    WorkNumberValue(i);
    WorkNumberValue(j);
  }

  // ---------------------------------------------------------------------
  // Layout
  // ---------------------------------------------------------------------

  datatype Align = Start | End

  /** The grid placement of one article: column spans of the 12-column grid,
      visual order of the image and text columns, and the alignment of the
      text column. */
  datatype ArticleLayout = ArticleLayout(
    imageSpan: nat,
    textSpan: nat,
    imageOrder: nat,
    textOrder: nat,
    textAlign: Align,
    itemsAlign: Align,
    lineJustify: Align)

  /** Image first and text aligned to the start on even positions, the
      reverse on odd ones; featured works get the wider image column. */
  function LayoutFor(index: nat, featured: bool): (l: ArticleLayout)
    ensures l.imageSpan + l.textSpan == 12
    ensures l.imageSpan == (if featured then 7 else 6) && l.textSpan == (if featured then 5 else 6)
    ensures l.imageSpan > l.textSpan <==> featured
    ensures l.imageOrder != l.textOrder
    ensures (l.imageOrder < l.textOrder) <==> index % 2 == 0
    ensures l.textAlign == l.itemsAlign == l.lineJustify
    ensures l.textAlign == Start <==> index % 2 == 0
  {
    var isEven := index % 2 == 0;
    ArticleLayout(
      if featured then 7 else 6,
      if featured then 5 else 6,
      if isEven then 0 else 1,
      if isEven then 1 else 0,
      if isEven then Start else End,
      if isEven then Start else End,
      if isEven then Start else End)
  }

  function Flip(a: Align): Align {
    if a == Start then End else Start
  }

  /** Neighbouring articles mirror each other. */
  lemma LayoutAlternates(index: nat, featured: bool)
    ensures var l, m := LayoutFor(index, featured), LayoutFor(index + 1, featured);
      && m.imageOrder == l.textOrder && m.textOrder == l.imageOrder
      && m.textAlign == Flip(l.textAlign)
      && m.imageSpan == l.imageSpan && m.textSpan == l.textSpan
  {
  }

  function CategoryIcon(c: Category): string {
    match c
    case AiVideo => "🎬"
    case AiManga => "📚"
    case Design => "🎨"
  }

  /** The badges above the title: the category label, then the target
      customer and the duration when they are set and non-empty. */
  function Badges(work: Work): (r: seq<string>)
    ensures 1 <= |r| <= 3 && r[0] == CategoryLabel(work.category)
    ensures |r| == 1 + (if IsSet(work.targetCustomer) then 1 else 0) + (if IsSet(work.duration) then 1 else 0)
    ensures IsSet(work.targetCustomer) ==> r[1] == work.targetCustomer.value
    ensures IsSet(work.duration) ==> r[|r| - 1] == work.duration.value
    ensures forall i :: 0 <= i < |r| ==> r[i] != ""
  {
    [CategoryLabel(work.category)]
      + (if IsSet(work.targetCustomer) then [work.targetCustomer.value] else [])
      + (if IsSet(work.duration) then [work.duration.value] else [])
  }

  /** What one article shows besides its title and description. */
  datatype ArticleView = ArticleView(
    layout: ArticleLayout,
    featuredLabel: bool,
    icon: string,
    thumbnail: Option<string>,
    badges: seq<string>,
    number: string)

  function ArticleFor(work: Work, index: nat): ArticleView {
    ArticleView(LayoutFor(index, work.featured), work.featured, CategoryIcon(work.category),
                ThumbnailSrc(work.videoUrl), Badges(work), WorkNumber(index))
  }

  /** `works.map(...)`: one article per work, in order; each article's
      number reads as its position plus one, and no two numbers agree. */
  function Articles(works: seq<Work>): (r: seq<ArticleView>)
    ensures |r| == |works|
    ensures forall i :: 0 <= i < |r| ==> (r[i].thumbnail.Some? <==> IsSet(works[i].videoUrl))
    ensures forall i :: 0 <= i < |r| ==> r[i].featuredLabel == works[i].featured
    ensures forall i :: 0 <= i < |r| ==> r[i].layout == LayoutFor(i, works[i].featured)
    ensures forall i :: 0 <= i < |r| ==> r[i].badges == Badges(works[i]) && r[i].icon == CategoryIcon(works[i].category)
    ensures forall i :: 0 <= i < |r| ==> r[i].thumbnail == ThumbnailSrc(works[i].videoUrl)
    ensures forall i :: 0 <= i < |r| ==> r[i].number == WorkNumber(i) && DigitsValue(r[i].number) == i + 1
    ensures forall i, j :: 0 <= i < j < |r| ==> r[i].number != r[j].number
  {
    var r := seq(|works|, i requires 0 <= i < |works| => ArticleFor(works[i], i));
    forall i | 0 <= i < |r| ensures DigitsValue(r[i].number) == i + 1 {
      WorkNumberValue(i);
    }
    forall i, j | 0 <= i < j < |r| ensures r[i].number != r[j].number {
      WorkNumbersDistinct(i, j);
    }
    r
  }
}
