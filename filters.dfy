/**
 * The candidate filters: which trending videos (MostPopular) to keep, by
 * category or by default audio language. Each is one joined query that
 * either fails with a storage error (`fault`) and answers `False`, or
 * answers the distinct matching video ids.
 */
module Filters {
  import opened Tables
  import opened Readers

  /** Some MostPopular row of `v` has a category outside `categoryList`. */
  predicate PopularOutside(db: Store, categoryList: seq<int>, v: string) {
    exists m :: m in db.mostPopular && m.videoId == v && m.categoryId !in categoryList
  }

  /** `language` occurs in `s` starting at position `i`. */
  predicate MatchesAt(s: string, language: string, i: int) {
    0 <= i && i + |language| <= |s| && s[i..i + |language|] == language
  }

  /** `language` occurs in `s`: SQL `LIKE '%language%'` without wildcards in `language`. */
  predicate Contains(s: string, language: string) {
    exists i :: 0 <= i <= |s| - |language| && MatchesAt(s, language, i)
  }

  /** Some VideoDetail row of `v` has a non-NULL audio language containing `language`. */
  predicate SpeaksLanguage(db: Store, language: string, v: string) {
    exists d :: d in db.videoDetails && d.videoId == v
      && d.defaultAudioLanguage.Some? && Contains(d.defaultAudioLanguage.value, language)
  }

  /**
   * Distinct MostPopular video ids, inner-joined with the playlist items on
   * the video id, whose category is not in `categoryList` (by default `[0]`).
   */
  function ExceptSpecificCategoryVideoId(db: Store, fault: bool, categoryList: seq<int> := [0]): (q: Query<string>)
    ensures q.Failed? <==> fault
    ensures q.Rows? ==> NoDup(q.rows)
    ensures q.Rows? ==> forall v :: v in q.rows <==>
      PopularOutside(db, categoryList, v) && PlaylistVideo(db, v)
  {
    if fault then Failed
    else Rows(Distinct(Select(db.mostPopular,
                              (m: MostPopularRow) => m.categoryId !in categoryList && PlaylistVideo(db, m.videoId),
                              (m: MostPopularRow) => m.videoId)))
  }

  /**
   * Distinct MostPopular video ids, inner-joined with VideoDetail on the
   * video id, whose default audio language contains `language`.
   */
  function SpecificDefaultAudioLanguageVideoId(db: Store, fault: bool, language: string): (q: Query<string>)
    ensures q.Failed? <==> fault
    ensures q.Rows? ==> NoDup(q.rows)
    ensures q.Rows? ==> forall v :: v in q.rows <==>
      (exists m :: m in db.mostPopular && m.videoId == v) && SpeaksLanguage(db, language, v)
  {
    if fault then Failed
    else Rows(Distinct(Select(db.mostPopular,
                              (m: MostPopularRow) => SpeaksLanguage(db, language, m.videoId),
                              (m: MostPopularRow) => m.videoId)))
  }

  /**
   * The exclusion is per row, not per video: a video with one row in an
   * excluded category and another row in an allowed one is still kept.
   */
  lemma MixedCategoryVideoKept(db: Store, categoryList: seq<int>, v: string, excluded: int, allowed: int)
    requires MostPopularRow(v, excluded) in db.mostPopular && excluded in categoryList
    requires MostPopularRow(v, allowed) in db.mostPopular && allowed !in categoryList
    requires PlaylistVideo(db, v)
    ensures v in ExceptSpecificCategoryVideoId(db, false, categoryList).rows
  {}

  /** No kept video has a row in an excluded category unless it also has an allowed one. */
  lemma ExcludedOnlyVideoDropped(db: Store, categoryList: seq<int>, v: string)
    requires forall m :: m in db.mostPopular && m.videoId == v ==> m.categoryId in categoryList
    ensures v !in ExceptSpecificCategoryVideoId(db, false, categoryList).rows
  {}

  /**
   * Trending rows (v1, 1), (v2, 2), (v3, 3) with playlist items for v1 and v2
   * only: excluding category 2 keeps exactly v1. With the default list only
   * videos with playlist items are kept.
   */
  lemma ExceptSpecificCategoryExample(db: Store)
    requires db.mostPopular ==
      [MostPopularRow("v1", 1), MostPopularRow("v2", 2), MostPopularRow("v3", 3)]
    requires db.playlistItems == [PlaylistItemRow("A", "v1"), PlaylistItemRow("B", "v2")]
    ensures forall v :: v in ExceptSpecificCategoryVideoId(db, false, [2]).rows <==> v == "v1"
    ensures forall v :: v in ExceptSpecificCategoryVideoId(db, false).rows <==> v == "v1" || v == "v2"
  {
    assert db.mostPopular[0] in db.mostPopular && db.mostPopular[1] in db.mostPopular;
    assert db.playlistItems[0] in db.playlistItems && db.playlistItems[1] in db.playlistItems;
  }

  /** A language code matches every regional variant written after it. */
  lemma PrefixContains(language: string, region: string)
    ensures Contains(language + region, language)
  {
    assert MatchesAt(language + region, language, 0);
  }

  /** "en" keeps a video whose audio language is "en-US" and drops one in "fr-FR". */
  lemma AudioLanguageExample(db: Store)
    requires db.mostPopular == [MostPopularRow("v1", 1), MostPopularRow("v2", 1)]
    requires db.videoDetails ==
      [VideoDetailRow("v1", Some("en-US")), VideoDetailRow("v2", Some("fr-FR"))]
    ensures "v1" in SpecificDefaultAudioLanguageVideoId(db, false, "en").rows
    ensures "v2" !in SpecificDefaultAudioLanguageVideoId(db, false, "en").rows
  {
    PrefixContains("en", "-US");
    assert "en" + "-US" == "en-US";
    assert db.mostPopular[0] in db.mostPopular && db.videoDetails[0] in db.videoDetails;
    var fr := "fr-FR";
    assert !Contains(fr, "en") by {
      forall i | 0 <= i <= |fr| - 2 ensures !MatchesAt(fr, "en", i) {
        assert fr[i..i + 2][0] == fr[i];
      }
    }
  }
}
