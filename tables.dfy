/**
 * The relational store the crawl pipeline reads and writes: one sequence of
 * rows per table, and the shape of a query's answer.
 */
module Tables {

  datatype Option<T> = None | Some(value: T)

  /** A category YouTube offers in one region (table VideoCategory). */
  datatype VideoCategoryRow = VideoCategoryRow(
    title: string,
    categoryId: string,
    regionCode: string,
    assignable: bool,
    channelId: string)

  /** A channel registered by the channel sync stage (table ChannelList). */
  datatype ChannelListRow = ChannelListRow(channelId: string)

  /** A video found in a channel's upload playlist (table ChannelPlaylistItem). */
  datatype PlaylistItemRow = PlaylistItemRow(channelId: string, videoId: string)

  /** A channel's profile (table ChannelSnippet). */
  datatype ChannelSnippetRow = ChannelSnippetRow(channelId: string, channelCountry: string)

  /** A video's details; the audio language column may be NULL (table VideoDetail). */
  datatype VideoDetailRow = VideoDetailRow(videoId: string, defaultAudioLanguage: Option<string>)

  /** A video on a trending list, with its category (table MostPopular). */
  datatype MostPopularRow = MostPopularRow(videoId: string, categoryId: int)

  /** A top-level comment of a video (table TopLevelComment). */
  datatype CommentRow = CommentRow(videoId: string)

  /** The whole store, one row sequence per table. */
  datatype Store = Store(
    videoCategory: seq<VideoCategoryRow>,
    channelList: seq<ChannelListRow>,
    playlistItems: seq<PlaylistItemRow>,
    channelSnippets: seq<ChannelSnippetRow>,
    videoDetails: seq<VideoDetailRow>,
    mostPopular: seq<MostPopularRow>,
    comments: seq<CommentRow>)

  /**
   * What a reader returns: `False` after a storage error (Failed), otherwise
   * the list of values it selected (Rows).
   */
  datatype Query<T> = Failed | Rows(rows: seq<T>)

  /** Python truthiness of a reader's answer: `False` and `[]` are falsy. */
  predicate Truthy<T>(q: Query<T>) {
    q.Rows? && q.rows != []
  }

  /** The rows of a query, a failed one counting as no rows. */
  function RowsOrEmpty<T>(q: Query<T>): seq<T> {
    if q.Rows? then q.rows else []
  }

  /** No value occurs twice. */
  predicate NoDup<T(==)>(s: seq<T>) {
    forall i, j :: 0 <= i < j < |s| ==> s[i] != s[j]
  }

  /** SQL `DISTINCT` (and Python `set`): each value once, in some order. */
  function Distinct<T(==,!new)>(s: seq<T>): (r: seq<T>)
    ensures NoDup(r)
    ensures forall x :: x in r <==> x in s
    ensures |r| <= |s|
  {
    if s == [] then []
    else if s[0] in s[1..] then Distinct(s[1..])
    else [s[0]] + Distinct(s[1..])
  }

  /**
   * `SELECT col FROM rows WHERE keep`: the column of every kept row, in
   * table order, duplicates included.
   */
  function Select<R, T(!new)>(rows: seq<R>, keep: R -> bool, col: R -> T): (r: seq<T>)
    ensures |r| <= |rows|
    ensures (forall i :: 0 <= i < |rows| ==> keep(rows[i])) ==> |r| == |rows|
    ensures (forall i :: 0 <= i < |rows| ==> keep(rows[i])) ==>
      forall i :: 0 <= i < |rows| ==> r[i] == col(rows[i])
    ensures forall x :: x in r <==> exists i :: 0 <= i < |rows| && keep(rows[i]) && col(rows[i]) == x
  {
    if rows == [] then []
    else
      var rest := Select(rows[1..], keep, col);
      assert forall i :: 1 <= i < |rows| ==> rows[i] == rows[1..][i - 1];
      if keep(rows[0]) then [col(rows[0])] + rest else rest
  }
}
