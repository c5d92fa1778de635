/** The works grid of the design-pattern preview: category filter buttons
    holding one piece of state, and one card per work that passes the
    filter. */
module WorksPattern {
  import opened Wrappers
  import opened Text

  datatype Work = Work(
    id: string,
    title: string,
    category: string,
    description: string,
    videoUrl: Option<string>,
    duration: Option<string>,
    targetCustomer: Option<string>,
    featured: Option<bool>)

  datatype CategoryOption = CategoryOption(id: string, heading: string)

  /** The id of the filter button that shows every work. */
  const AllId: string := "all"

  /** The filter buttons, in display order. */
  const Categories: seq<CategoryOption> := [
    CategoryOption(AllId, "すべて"),
    CategoryOption("ai-video", "AI動画"),
    CategoryOption("ai-manga", "AI漫画"),
    CategoryOption("design", "デザイン")
  ]

  /** The works shown when none are passed in. */
  const DefaultWorks: seq<Work> := [
    Work("1", "D2Cブランド プロモーション動画", "ai-video",
         "化粧品ブランドのSNS向けプロモーション動画。キャラクター一貫性技術で高品質な映像を実現。",
         None, Some("30秒"), Some("D2Cブランド"), Some(true)),
    Work("2", "SaaS製品 解説漫画", "ai-manga",
         "プロダクトの使い方を分かりやすく解説する漫画コンテンツ。",
         None, None, Some("スタートアップ"), Some(true)),
    Work("3", "オンラインスクール 教育動画", "ai-video",
         "教育コンテンツ向けのAI動画制作。講師キャラクターの一貫性を保持。",
         None, Some("5分"), Some("オンラインスクール"), Some(false)),
    Work("4", "飲食店 メニューデザイン", "design",
         "カフェのブランドリニューアルに伴うメニュー・販促物デザイン。",
         None, None, Some("店舗経営者"), Some(true))
  ]

  predicate IsCategoryId(id: string) {
    exists k :: 0 <= k < |Categories| && Categories[k].id == id
  }

  lemma CategoryIdsDistinct(i: nat, j: nat)
    requires i < |Categories| && j < |Categories| && i != j
    ensures Categories[i].id != Categories[j].id
  {
    assert Categories[1].id[0] == 'a' && Categories[2].id[0] == 'a';
    assert Categories[1].id[3] == 'v' && Categories[2].id[3] == 'm';
  }

  // ---------------------------------------------------------------------
  // Filtering
  // ---------------------------------------------------------------------

  /** `works.filter(work => work.category === category)`. */
  function Filter(works: seq<Work>, category: string): (r: seq<Work>)
    ensures |r| <= |works|
    ensures forall i :: 0 <= i < |r| ==> r[i].category == category
    ensures forall w :: w in works && w.category == category ==> w in r
  {
    if works == [] then []
    else (if works[0].category == category then [works[0]] else []) + Filter(works[1..], category)
  }

  /** `r` is `s` with some elements removed and the rest in their order. */
  predicate IsSubsequence(r: seq<Work>, s: seq<Work>)
    decreases |s|
  {
    if r == [] then true
    else if s == [] then false
    else (r[0] == s[0] && IsSubsequence(r[1..], s[1..])) || IsSubsequence(r, s[1..])
  }

  lemma {:induction false} FilterIsSubsequence(works: seq<Work>, category: string)
    ensures IsSubsequence(Filter(works, category), works)
  {
    if works != [] {
      FilterIsSubsequence(works[1..], category);
      var rest := Filter(works[1..], category);
      if works[0].category == category {
        assert Filter(works, category) == [works[0]] + rest;
        assert ([works[0]] + rest)[1..] == rest;
      } else {
        assert Filter(works, category) == rest;
      }
    }
  }

  /** Every matching work is kept as often as it occurs; no other work is. */
  lemma {:induction false} FilterMultiplicity(works: seq<Work>, category: string, w: Work)
    ensures multiset(Filter(works, category))[w] == if w.category == category then multiset(works)[w] else 0
  {
    if works != [] {
      var head, tail := works[0], works[1..];
      FilterMultiplicity(tail, category, w);
      assert works == [head] + tail;
      assert multiset(works) == multiset([head]) + multiset(tail);
      if head.category == category {
        assert Filter(works, category) == [head] + Filter(tail, category);
        assert multiset(Filter(works, category)) == multiset([head]) + multiset(Filter(tail, category));
      } else {
        assert Filter(works, category) == Filter(tail, category);
      }
    }
  }

  lemma {:induction false} FilterIdempotent(works: seq<Work>, category: string)
    ensures Filter(Filter(works, category), category) == Filter(works, category)
  {
    if works != [] {
      FilterIdempotent(works[1..], category);
      if works[0].category == category {
        var r := Filter(works, category);
        assert r[0] == works[0] && r[1..] == Filter(works[1..], category);
      } else {
        assert Filter(works, category) == Filter(works[1..], category);
      }
    }
  }

  /** `filteredWorks`: every work for `all`, otherwise the works whose
      category is the active id. */
  function FilteredWorks(works: seq<Work>, active: string): (r: seq<Work>)
    ensures active == AllId ==> r == works
    ensures active != AllId ==> forall i :: 0 <= i < |r| ==> r[i].category == active
    ensures forall w :: w in works && (active == AllId || w.category == active) ==> w in r
    ensures |r| <= |works|
  {
    if active == AllId then works else Filter(works, active)
  }

  lemma FilteredWorksIsSubsequence(works: seq<Work>, active: string)
    ensures IsSubsequence(FilteredWorks(works, active), works)
  {
    if active == AllId {
      SubsequenceReflexive(works);
    } else {
      FilterIsSubsequence(works, active);
    }
  }

  lemma {:induction false} SubsequenceReflexive(s: seq<Work>)
    ensures IsSubsequence(s, s)
    decreases |s|
  {
    if s != [] {
      SubsequenceReflexive(s[1..]);
    }
  }

  /** The default works split into the three categories. */
  lemma DefaultWorksByCategory()
    ensures |FilteredWorks(DefaultWorks, "ai-video")| == 2
    ensures FilteredWorks(DefaultWorks, "ai-video")[0].id == "1"
    ensures FilteredWorks(DefaultWorks, "ai-video")[1].id == "3"
    ensures FilteredWorks(DefaultWorks, "ai-manga") == [DefaultWorks[1]]
    ensures FilteredWorks(DefaultWorks, "design") == [DefaultWorks[3]]
  {
    assert DefaultWorks[1].category[3] == 'm' && DefaultWorks[3].category[0] == 'd';
    assert DefaultWorks[0].category[3] == 'v' && DefaultWorks[2].category[3] == 'v';
    assert DefaultWorks[1..][1..][1..][1..] == [];
  }

  // ---------------------------------------------------------------------
  // Cards
  // ---------------------------------------------------------------------

  /** `categories.find(c => c.id === id)`: the first entry with that id. */
  function Find(table: seq<CategoryOption>, id: string): (r: Option<CategoryOption>)
    ensures r.None? <==> forall i :: 0 <= i < |table| ==> table[i].id != id
    ensures r.Some? ==>
      exists i :: (0 <= i < |table| && table[i] == r.value && r.value.id == id &&
                   forall j :: 0 <= j < i ==> table[j].id != id)
  {
    if table == [] then None
    else if table[0].id == id then Some(table[0])
    else
      var r := Find(table[1..], id);
      if r.Some? then
        ghost var i :| 0 <= i < |table[1..]| && table[1..][i] == r.value && r.value.id == id &&
          forall j :: 0 <= j < i ==> table[1..][j].id != id;
        assert table[i + 1] == r.value;
        r
      else r
  }

  /** The badge text `categories.find(...)?.label || work.category`: the
      table label of a known id, the raw category otherwise. */
  function BadgeLabel(category: string): (r: string)
    ensures forall k :: 0 <= k < |Categories| && Categories[k].id == category ==> r == Categories[k].heading
    ensures !IsCategoryId(category) ==> r == category
  {
    var found := Find(Categories, category);
    forall k | 0 <= k < |Categories| && Categories[k].id == category
      ensures found == Some(Categories[k])
    {
      var i :| 0 <= i < |Categories| && Categories[i] == found.value && found.value.id == category &&
        forall j :: 0 <= j < i ==> Categories[j].id != category;
      if i != k {
        CategoryIdsDistinct(i, k);
      }
    }
    if found.Some? && found.value.heading != "" then found.value.heading else category
  }

  datatype AspectRatio = Video | Square

  function AspectRatioOf(index: nat): AspectRatio {
    if index % 3 == 0 then Video else Square
  }

  /** The grid repeats one wide card and two square ones. */
  lemma AspectRatioPattern(index: nat)
    ensures AspectRatioOf(index) == Video <==> index % 3 == 0
    ensures AspectRatioOf(index + 3) == AspectRatioOf(index)
    ensures AspectRatioOf(3 * (index / 3)) == Video
    ensures index % 3 != 0 ==> AspectRatioOf(index) == Square
  {
  }

  /** How many of the first `n` cards are wide. */
  function WideCount(n: nat): nat {
    if n == 0 then 0 else WideCount(n - 1) + (if AspectRatioOf(n - 1) == Video then 1 else 0)
  }

  /** A third of the cards, rounded up, are wide: one per started group of
      three. */
  lemma {:induction false} WideCardCount(n: nat)
    ensures WideCount(n) == (n + 2) / 3
  {
    if n > 0 {
      WideCardCount(n - 1);
    }
  }

  const ImageHost: string := "https://picsum.photos/seed/"
  const ImageSize: string := "/800/600"

  /** What one card shows. */
  datatype Card = Card(
    aspect: AspectRatio,
    imageSrc: string,
    imageAlt: string,
    badge: string,
    featuredBadge: bool,
    playOverlay: bool,
    duration: Option<string>,
    targetCustomer: Option<string>)

  function CardFor(work: Work, index: nat): (c: Card)
    ensures c.featuredBadge <==> work.featured == Some(true)
    ensures c.playOverlay <==> IsSet(work.videoUrl)
    ensures c.duration.Some? <==> IsSet(work.duration)
    ensures c.targetCustomer.Some? <==> IsSet(work.targetCustomer)
    ensures c.imageAlt == work.title
    ensures c.aspect == AspectRatioOf(index)
    ensures c.badge == BadgeLabel(work.category)
    ensures IsSet(work.duration) ==> c.duration == work.duration
    ensures IsSet(work.targetCustomer) ==> c.targetCustomer == work.targetCustomer
  {
    Card(
      AspectRatioOf(index),
      ImageHost + work.id + ImageSize,
      work.title,
      BadgeLabel(work.category),
      work.featured == Some(true),
      IsSet(work.videoUrl),
      if IsSet(work.duration) then work.duration else None,
      if IsSet(work.targetCustomer) then work.targetCustomer else None)
  }

  /** Works with different ids get different placeholder images. */
  lemma ImageSrcDistinct(a: Work, b: Work, i: nat, j: nat)
    requires a.id != b.id
    ensures CardFor(a, i).imageSrc != CardFor(b, j).imageSrc
  {
    var sa, sb := ImageHost + a.id + ImageSize, ImageHost + b.id + ImageSize;
    if |a.id| == |b.id| {
      assert sa[|ImageHost|..|ImageHost| + |a.id|] == a.id;
      assert sb[|ImageHost|..|ImageHost| + |b.id|] == b.id;
    } else {
      assert |sa| != |sb|;
    }
  }

  /** One card per visible work, in order. */
  function Cards(works: seq<Work>): (r: seq<Card>)
    ensures |r| == |works|
    ensures forall i :: 0 <= i < |r| ==> r[i].aspect == AspectRatioOf(i) && r[i].imageAlt == works[i].title
    ensures forall i :: 0 <= i < |r| ==> (r[i].featuredBadge <==> works[i].featured == Some(true))
    ensures forall i :: 0 <= i < |r| ==> r[i] == CardFor(works[i], i)
  {
    seq(|works|, i requires 0 <= i < |works| => CardFor(works[i], i))
  }

  // ---------------------------------------------------------------------
  // State
  // ---------------------------------------------------------------------

  /** The section component: the works it was given and the id of the
      active filter button. */
  class WorksSection {
    const works: seq<Work>
    var activeCategory: string

    /** The active id is always one of the buttons' ids. */
    ghost predicate Valid()
      reads this
    {
      IsCategoryId(activeCategory)
    }

    /** `works = defaultWorks` and `useState('all')`. */
    constructor(given: Option<seq<Work>>)
      ensures works == given.GetOr(DefaultWorks)
      ensures activeCategory == AllId
      ensures Valid()
      ensures Visible() == works
    {
      works := given.GetOr(DefaultWorks);
      activeCategory := AllId;
      assert Categories[0].id == AllId;
    }

    /** The cards on screen for the current state. */
    function Visible(): seq<Work>
      reads this
    {
      FilteredWorks(works, activeCategory)
    }

    /** Whether button `k` is drawn as the active one. */
    predicate IsActive(k: nat)
      reads this
      requires k < |Categories|
    {
      activeCategory == Categories[k].id
    }

    /** The click handler of button `k`: `setActiveCategory(cat.id)`.
        Afterwards exactly that button is active and the visible works are
        those of its category (all of them for the first button). */
    method SelectCategory(k: nat)
      requires k < |Categories|
      modifies this
      ensures activeCategory == Categories[k].id
      ensures Valid()
      ensures forall j :: 0 <= j < |Categories| ==> (IsActive(j) <==> j == k)
      ensures k == 0 ==> Visible() == works
      ensures k > 0 ==> forall i :: 0 <= i < |Visible()| ==> Visible()[i].category == Categories[k].id
    {
      activeCategory := Categories[k].id;
      forall j | 0 <= j < |Categories| && j != k ensures !IsActive(j) {
        CategoryIdsDistinct(j, k);
      }
    }
  }
}
