/**
 * The two-column layout of the video recommendations in pic2plate.py
 * (lines 175-189): results are shown in rows of two, result i on the left
 * and result i + 1 on the right when it exists.
 */
module VideoLayout {
  import opened Optional

  /** One search result: `result['title']` and `result['url']`. */
  datatype Video = Video(title: string, url: string)

  /** One `st.columns(2)` row: what each column shows, if anything. */
  datatype Row = Row(left: Option<Video>, right: Option<Video>)

  /** What the recommendations section shows. */
  datatype Recommendations =
    | NoVideos               // "No YouTube videos found for this recipe."
    | Grid(rows: seq<Row>)

  /** Row k holds result 2k on the left and result 2k + 1, when there is one,
      on the right; there are just enough rows for every result. */
  predicate IsPairing(results: seq<Video>, rows: seq<Row>) {
    && |rows| == (|results| + 1) / 2
    && (forall k :: 0 <= k < |rows| ==> rows[k].left == Some(results[2 * k]))
    && (forall k :: 0 <= k < |rows| ==>
          rows[k].right == if 2 * k + 1 < |results| then Some(results[2 * k + 1]) else None)
  }

  /** The results a row shows, left column first. */
  function Cells(row: Row): seq<Video> {
    (if row.left.Some? then [row.left.value] else []) +
    (if row.right.Some? then [row.right.value] else [])
  }

  /** The results the rows show, top to bottom. */
  function Shown(rows: seq<Row>): seq<Video> {
    if rows == [] then [] else Shown(rows[..|rows| - 1]) + Cells(rows[|rows| - 1])
  }

  /** The pairing shows every result exactly once, in the order of the
      search results. */
  lemma {:induction false} PairingShowsAllInOrder(results: seq<Video>, rows: seq<Row>)
    requires IsPairing(results, rows)
    ensures Shown(rows) == results
  {
    if rows != [] {
      var m := |rows| - 1;
      var init := rows[..m];
      assert IsPairing(results[..2 * m], init);
      PairingShowsAllInOrder(results[..2 * m], init);
      assert Cells(rows[m]) == results[2 * m..];
      assert results == results[..2 * m] + results[2 * m..];
    }
  }

  /** The loop `for i in range(0, n, 2)` that fills the rows. */
  method LayoutRows(results: seq<Video>) returns (rows: seq<Row>)
    ensures IsPairing(results, rows)
    ensures Shown(rows) == results
  {
    var n := |results|;
    rows := [];
    var i := 0;
    while i < n
      invariant i % 2 == 0 && 0 <= i <= n + 1
      invariant |rows| == i / 2
      invariant forall k :: 0 <= k < |rows| ==> rows[k].left == Some(results[2 * k])
      invariant forall k :: 0 <= k < |rows| ==>
        rows[k].right == if 2 * k + 1 < n then Some(results[2 * k + 1]) else None
    {
      var left := if i < n then Some(results[i]) else None;
      var right := if i + 1 < n then Some(results[i + 1]) else None;
      rows := rows + [Row(left, right)];
      i := i + 2;
    }
    PairingShowsAllInOrder(results, rows);
  }

  /** `'results' in video_response and len(...) > 0`: a grid of the results,
      otherwise the "no videos" message. `response` is None when the search
      answer has no 'results' entry. */
  method Recommend(response: Option<seq<Video>>) returns (r: Recommendations)
    ensures r.NoVideos? <==> response.None? || response.value == []
    ensures r.Grid? ==> IsPairing(response.value, r.rows) && Shown(r.rows) == response.value
  {
    if response.Some? && |response.value| > 0 {
      var rows := LayoutRows(response.value);
      return Grid(rows);
    }
    return NoVideos;
  }
}
