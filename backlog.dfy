/**
 * The backlog resolvers: which identifiers have reached one pipeline stage
 * but not the next. Each combines two stage readers with Python's
 * truthiness test and a set difference, exactly as the source does, so the
 * outcomes include the `TypeError` that `set(False)` raises.
 */
module Backlog {
  import opened Tables
  import opened Readers

  /** What a resolver does: return `False`, return a list, or raise `TypeError`. */
  datatype Outcome = ReturnsFalse | ReturnsList(ids: seq<string>) | RaisesTypeError

  /** `list(set(p) - set(l))`, in the order of `p`. */
  function SetDifference(p: seq<string>, l: seq<string>): (r: seq<string>)
    ensures NoDup(r)
    ensures forall x :: x in r <==> x in p && x !in l
  {
    Distinct(Select(p, (x: string) => x !in l, (x: string) => x))
  }

  /**
   * Channels that have playlist items but are not yet in ChannelList.
   * `listFault` and `playlistFault` are the storage errors of the two reads.
   */
  function ChannelListExcept(db: Store, listFault: bool, playlistFault: bool): (r: Outcome)
    ensures r.ReturnsFalse? <==>
      (listFault || db.channelList == []) && (playlistFault || db.playlistItems == [])
    ensures r.RaisesTypeError? <==>
      || (listFault && !playlistFault && db.playlistItems != [])
      || (playlistFault && !listFault && db.channelList != [])
    ensures r.ReturnsList? ==> NoDup(r.ids)
    ensures r.ReturnsList? ==>
      forall c :: c in r.ids <==> PlaylistChannel(db, c) && !ListedChannel(db, c)
  {
    var channelList := GetDbChannelListChannelId(db, listFault);
    var playlistId := GetDbChannelPlayListItemChannelId(db, playlistFault);
    if Truthy(channelList) || Truthy(playlistId) then
      // `set(False)` raises whichever of the two reads failed
      if playlistId.Failed? || channelList.Failed? then RaisesTypeError
      else ReturnsList(SetDifference(playlistId.rows, channelList.rows))
    else ReturnsFalse
  }

  /**
   * Videos that have playlist items but no details yet. `False` unless both
   * reads returned non-empty lists, so an empty VideoDetail table gives `False`.
   */
  function VideoDetailExcept(db: Store, playlistFault: bool, detailFault: bool): (r: Outcome)
    ensures !r.RaisesTypeError?
    ensures r.ReturnsFalse? <==>
      playlistFault || detailFault || db.playlistItems == [] || db.videoDetails == []
    ensures r.ReturnsList? ==> NoDup(r.ids)
    ensures r.ReturnsList? ==>
      forall v :: v in r.ids <==> PlaylistVideo(db, v) && !DetailedVideo(db, v)
  {
    var playlistId := GetDbChannelPlayListItemVideoId(db, playlistFault);
    var videoDetailId := GetDbVideoDetailVideoId(db, detailFault);
    if Truthy(videoDetailId) && Truthy(playlistId) then
      ReturnsList(SetDifference(playlistId.rows, videoDetailId.rows))
    else ReturnsFalse
  }

  /** Playlist channels {A, B, C} against ChannelList {A} leave {B, C} pending. */
  lemma ChannelListExceptExample(db: Store)
    requires db.playlistItems ==
      [PlaylistItemRow("A", "v1"), PlaylistItemRow("B", "v2"), PlaylistItemRow("C", "v3")]
    requires db.channelList == [ChannelListRow("A")]
    ensures ChannelListExcept(db, false, false).ReturnsList?
    ensures forall c :: c in ChannelListExcept(db, false, false).ids <==> c == "B" || c == "C"
  {}

  /** The ChannelList read fails while playlist items exist: the call raises. */
  lemma ChannelListExceptRaises(db: Store)
    requires db.playlistItems == [PlaylistItemRow("A", "v1")]
    ensures ChannelListExcept(db, true, false) == RaisesTypeError
  {}

  /**
   * ChannelListExcept with a failed read counted as no rows, as the `or`
   * guard already counts it: `False` only when neither read has rows,
   * otherwise the playlist channels that the ChannelList read did not return.
   */
  function ChannelListExceptGuarded(db: Store, listFault: bool, playlistFault: bool): (r: Outcome)
    ensures !r.RaisesTypeError?
    ensures r.ReturnsFalse? <==>
      (listFault || db.channelList == []) && (playlistFault || db.playlistItems == [])
    ensures r.ReturnsList? ==> NoDup(r.ids)
    ensures r.ReturnsList? ==>
      forall c :: c in r.ids <==>
        !playlistFault && PlaylistChannel(db, c) && !(!listFault && ListedChannel(db, c))
  {
    var channelList := GetDbChannelListChannelId(db, listFault);
    var playlistId := GetDbChannelPlayListItemChannelId(db, playlistFault);
    if Truthy(channelList) || Truthy(playlistId) then
      ReturnsList(SetDifference(RowsOrEmpty(playlistId), RowsOrEmpty(channelList)))
    else ReturnsFalse
  }

  /**
   * Where the source raises, the guarded resolver answers: every playlist
   * channel when the ChannelList read failed, nothing when the playlist
   * read failed.
   */
  lemma ChannelListExceptGuardedOnFailedRead(db: Store)
    ensures db.playlistItems != [] ==>
      && ChannelListExcept(db, true, false).RaisesTypeError?
      && ChannelListExceptGuarded(db, true, false).ReturnsList?
      && forall c :: c in ChannelListExceptGuarded(db, true, false).ids <==> PlaylistChannel(db, c)
    ensures db.channelList != [] ==>
      && ChannelListExcept(db, false, true).RaisesTypeError?
      && ChannelListExceptGuarded(db, false, true) == ReturnsList([])
  {}

  /** The guarded resolver agrees with the source wherever the source does not raise. */
  lemma ChannelListExceptGuardedAgrees(db: Store, listFault: bool, playlistFault: bool)
    ensures !ChannelListExcept(db, listFault, playlistFault).RaisesTypeError? ==>
      ChannelListExceptGuarded(db, listFault, playlistFault) == ChannelListExcept(db, listFault, playlistFault)
  {}

  /** Every playlist video is pending, yet an empty VideoDetail table answers `False`. */
  lemma VideoDetailExceptEmptyDetails(db: Store)
    requires db.playlistItems == [PlaylistItemRow("A", "v1")]
    requires db.videoDetails == []
    ensures VideoDetailExcept(db, false, false) == ReturnsFalse
  {}

  /**
   * VideoDetailExcept answering `False` only when a read failed: with an
   * empty VideoDetail table every playlist video is pending.
   */
  function VideoDetailExceptGuarded(db: Store, playlistFault: bool, detailFault: bool): (r: Outcome)
    ensures !r.RaisesTypeError?
    ensures r.ReturnsFalse? <==> playlistFault || detailFault
    ensures r.ReturnsList? ==> NoDup(r.ids)
    ensures r.ReturnsList? ==>
      forall v :: v in r.ids <==> PlaylistVideo(db, v) && !DetailedVideo(db, v)
  {
    var playlistId := GetDbChannelPlayListItemVideoId(db, playlistFault);
    var videoDetailId := GetDbVideoDetailVideoId(db, detailFault);
    if playlistId.Rows? && videoDetailId.Rows? then
      ReturnsList(SetDifference(playlistId.rows, videoDetailId.rows))
    else ReturnsFalse
  }
}
