/**
 * The stage readers: one read-only query per pipeline table. Each either
 * fails with a storage error and answers `False`, or answers the list of
 * identifiers present at that stage. `fault` stands for the storage error
 * the database may raise during the call.
 */
module Readers {
  import opened Tables

  // What each query means, stated as membership in the store's tables.

  predicate AssignableCategory(db: Store, regionCode: string, id: string) {
    exists r :: r in db.videoCategory && r.regionCode == regionCode && r.assignable && r.categoryId == id
  }

  predicate ListedChannel(db: Store, c: string) {
    exists r :: r in db.channelList && r.channelId == c
  }

  predicate PlaylistChannel(db: Store, c: string) {
    exists r :: r in db.playlistItems && r.channelId == c
  }

  predicate PlaylistVideo(db: Store, v: string) {
    exists r :: r in db.playlistItems && r.videoId == v
  }

  predicate DetailedVideo(db: Store, v: string) {
    exists r :: r in db.videoDetails && r.videoId == v
  }

  predicate CommentedVideo(db: Store, v: string) {
    exists r :: r in db.comments && r.videoId == v
  }

  /** A channel of the region that has at least one playlist item. */
  predicate RegionChannel(db: Store, regionCode: string, c: string) {
    && (exists s :: s in db.channelSnippets && s.channelId == c && s.channelCountry == regionCode)
    && PlaylistChannel(db, c)
  }

  /** The distinct assignable category ids of a region. */
  function GetDbVideoCategory(db: Store, fault: bool, regionCode: string): (q: Query<string>)
    ensures q.Failed? <==> fault
    ensures q.Rows? ==> NoDup(q.rows)
    ensures q.Rows? ==> forall id :: id in q.rows <==> AssignableCategory(db, regionCode, id)
  {
    if fault then Failed
    else Rows(Distinct(Select(db.videoCategory,
                              (r: VideoCategoryRow) => r.regionCode == regionCode && r.assignable,
                              (r: VideoCategoryRow) => r.categoryId)))
  }

  /**
   * The channel id of every ChannelList row. This is the one reader without
   * DISTINCT: a channel listed twice comes back twice.
   */
  function GetDbChannelListChannelId(db: Store, fault: bool): (q: Query<string>)
    ensures q.Failed? <==> fault
    ensures q.Rows? ==> |q.rows| == |db.channelList|
    ensures q.Rows? ==> forall i :: 0 <= i < |db.channelList| ==> q.rows[i] == db.channelList[i].channelId
    ensures q.Rows? ==> forall c :: c in q.rows <==> ListedChannel(db, c)
  {
    if fault then Failed
    else Rows(Select(db.channelList, (r: ChannelListRow) => true, (r: ChannelListRow) => r.channelId))
  }

  /** The distinct channel ids of the playlist items. */
  function GetDbChannelPlayListItemChannelId(db: Store, fault: bool): (q: Query<string>)
    ensures q.Failed? <==> fault
    ensures q.Rows? ==> NoDup(q.rows)
    ensures q.Rows? ==> forall c :: c in q.rows <==> PlaylistChannel(db, c)
    ensures q.Rows? ==> (q.rows == [] <==> db.playlistItems == [])
  {
    if fault then Failed
    else
      var rows := Distinct(Select(db.playlistItems, (r: PlaylistItemRow) => true, (r: PlaylistItemRow) => r.channelId));
      assert db.playlistItems != [] ==> db.playlistItems[0].channelId in rows;
      Rows(rows)
  }

  /** The distinct video ids of the playlist items. */
  function GetDbChannelPlayListItemVideoId(db: Store, fault: bool): (q: Query<string>)
    ensures q.Failed? <==> fault
    ensures q.Rows? ==> NoDup(q.rows)
    ensures q.Rows? ==> forall v :: v in q.rows <==> PlaylistVideo(db, v)
    ensures q.Rows? ==> (q.rows == [] <==> db.playlistItems == [])
  {
    if fault then Failed
    else
      var rows := Distinct(Select(db.playlistItems, (r: PlaylistItemRow) => true, (r: PlaylistItemRow) => r.videoId));
      assert db.playlistItems != [] ==> db.playlistItems[0].videoId in rows;
      Rows(rows)
  }

  /** The distinct video ids that already have details. */
  function GetDbVideoDetailVideoId(db: Store, fault: bool): (q: Query<string>)
    ensures q.Failed? <==> fault
    ensures q.Rows? ==> NoDup(q.rows)
    ensures q.Rows? ==> forall v :: v in q.rows <==> DetailedVideo(db, v)
    ensures q.Rows? ==> (q.rows == [] <==> db.videoDetails == [])
  {
    if fault then Failed
    else
      var rows := Distinct(Select(db.videoDetails, (r: VideoDetailRow) => true, (r: VideoDetailRow) => r.videoId));
      assert db.videoDetails != [] ==> db.videoDetails[0].videoId in rows;
      Rows(rows)
  }

  /** The distinct video ids that already have top-level comments. */
  function GetDbCommentVideoId(db: Store, fault: bool): (q: Query<string>)
    ensures q.Failed? <==> fault
    ensures q.Rows? ==> NoDup(q.rows)
    ensures q.Rows? ==> forall v :: v in q.rows <==> CommentedVideo(db, v)
  {
    if fault then Failed
    else Rows(Distinct(Select(db.comments, (r: CommentRow) => true, (r: CommentRow) => r.videoId)))
  }

  /**
   * The distinct channel ids of the region's snippets, inner-joined with the
   * playlist items on the channel id.
   */
  function GetDbRegionChannelId(db: Store, fault: bool, regionCode: string): (q: Query<string>)
    ensures q.Failed? <==> fault
    ensures q.Rows? ==> NoDup(q.rows)
    ensures q.Rows? ==> forall c :: c in q.rows <==> RegionChannel(db, regionCode, c)
  {
    if fault then Failed
    else Rows(Distinct(Select(db.channelSnippets,
                              (s: ChannelSnippetRow) => s.channelCountry == regionCode && PlaylistChannel(db, s.channelId),
                              (s: ChannelSnippetRow) => s.channelId)))
  }

  /** Because ChannelList is read without DISTINCT, a channel listed twice is answered twice. */
  lemma ChannelListKeepsDuplicates(db: Store)
    requires db.channelList == [ChannelListRow("UC1"), ChannelListRow("UC1")]
    ensures GetDbChannelListChannelId(db, false).rows == ["UC1", "UC1"]
    ensures !NoDup(GetDbChannelListChannelId(db, false).rows)
  {
    var rows := GetDbChannelListChannelId(db, false).rows;
    assert rows[0] in rows && rows[1] in rows;
  }
}
