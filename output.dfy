/** The output file as `process_urls` uses it: for each URL the records found
    are appended as rows, with a header row only when the file did not exist
    yet; a URL with no records leaves the file alone. */
module Output {
  import opened Extraction

  datatype Row = Header | Data(review: Review)

  /** The output file: whether it exists, and its rows in order. */
  datatype Sink = Sink(present: bool, rows: seq<Row>)

  /** The records stored in a list of rows, in order. */
  function Records(rows: seq<Row>): seq<Review> {
    if rows == [] then []
    else Records(rows[..|rows| - 1]) + match rows[|rows| - 1] {
      case Header => []
      case Data(r) => [r]
    }
  }

  /** The number of header rows in a list of rows. */
  function HeaderCount(rows: seq<Row>): nat {
    if rows == [] then 0
    else HeaderCount(rows[..|rows| - 1]) + if rows[|rows| - 1].Header? then 1 else 0
  }

  function DataRows(reviews: seq<Review>): (rows: seq<Row>)
    ensures |rows| == |reviews|
    ensures forall k | 0 <= k < |rows| :: rows[k] == Data(reviews[k])
  {
    if reviews == [] then []
    else DataRows(reviews[..|reviews| - 1]) + [Data(reviews[|reviews| - 1])]
  }

  function Concat(groups: seq<seq<Review>>): seq<Review> {
    if groups == [] then [] else Concat(groups[..|groups| - 1]) + groups[|groups| - 1]
  }

  lemma {:induction false} RecordsAppend(a: seq<Row>, b: seq<Row>)
    ensures Records(a + b) == Records(a) + Records(b)
    ensures HeaderCount(a + b) == HeaderCount(a) + HeaderCount(b)
    decreases |b|
  {
    if b == [] {
      assert a + b == a;
    } else {
      var b' := b[..|b| - 1];
      assert (a + b)[..|a + b| - 1] == a + b';
      RecordsAppend(a, b');
    }
  }

  lemma {:induction false} DataRowsContent(reviews: seq<Review>)
    ensures Records(DataRows(reviews)) == reviews
    ensures HeaderCount(DataRows(reviews)) == 0
  {
    if reviews != [] {
      var init := reviews[..|reviews| - 1];
      DataRowsContent(init);
      RecordsAppend(DataRows(init), [Data(reviews[|reviews| - 1])]);
      assert [Data(reviews[|reviews| - 1])][..0] == [];
    }
  }

  /** The save step for one URL: nothing when there are no records;
      otherwise rows are appended after the existing ones and the file exists. */
  function Save(sink: Sink, reviews: seq<Review>): (out: Sink)
    ensures reviews == [] ==> out == sink
    ensures out.present == (sink.present || reviews != [])
    ensures |sink.rows| <= |out.rows| && out.rows[..|sink.rows|] == sink.rows
  {
    if reviews == [] then sink
    else
      var rows := sink.rows + (if sink.present then [] else [Header]) + DataRows(reviews);
      assert rows[..|sink.rows|] == sink.rows;
      Sink(true, rows)
  }

  /** The appended rows are the records, in order, preceded by a header
      exactly when the file did not exist. */
  lemma SaveContents(sink: Sink, reviews: seq<Review>)
    ensures Records(Save(sink, reviews).rows) == Records(sink.rows) + reviews
    ensures HeaderCount(Save(sink, reviews).rows)
            == HeaderCount(sink.rows) + if !sink.present && reviews != [] then 1 else 0
    ensures !sink.present && reviews != [] ==>
            |sink.rows| < |Save(sink, reviews).rows| && Save(sink, reviews).rows[|sink.rows|] == Header
  {
    if reviews != [] {
      var header := if sink.present then [] else [Header];
      RecordsAppend(sink.rows + header, DataRows(reviews));
      RecordsAppend(sink.rows, header);
      DataRowsContent(reviews);
      assert header != [] ==> header[..0] == [];
    }
  }

  /** The file after saving the records of each URL in turn. */
  function SaveAll(sink: Sink, fetched: seq<seq<Review>>): Sink {
    if fetched == [] then sink
    else Save(SaveAll(sink, fetched[..|fetched| - 1]), fetched[|fetched| - 1])
  }

  /** What one call of `fetch_reviews` does as `process_urls` sees it: it
      returns its records, or an exception escapes it (the page load at the
      start of `fetch_reviews` is outside its `try`). */
  datatype Visit = Returned(reviews: seq<Review>) | Escaped

  /** The records each visit returned, in URL order; an escaped visit stands
      for no records. */
  function Returns(visits: seq<Visit>): (fetched: seq<seq<Review>>)
    ensures |fetched| == |visits|
    ensures forall k | 0 <= k < |visits| && visits[k].Returned? :: fetched[k] == visits[k].reviews
  {
    if visits == [] then []
    else
      var n := |visits| - 1;
      Returns(visits[..n]) + [if visits[n].Returned? then visits[n].reviews else []]
  }

  /** The position of the first escaped visit, or the number of visits when
      none escaped. */
  function FirstEscape(visits: seq<Visit>): (e: nat)
    ensures e <= |visits|
    ensures forall k | 0 <= k < e :: visits[k].Returned?
    ensures e < |visits| ==> visits[e].Escaped?
  {
    if visits == [] then 0
    else if visits[0].Escaped? then 0
    else FirstEscape(visits[1..]) + 1
  }

  /** The loop over the URLs as written: `visits[i]` is what the i-th call of
      `fetch_reviews` did. An exception that escapes a call is not caught, so
      it ends the run (`aborted`) and the later URLs are never visited.
      Returns the output file after the run. */
  method ProcessUrls(sink: Sink, visits: seq<Visit>) returns (out: Sink, aborted: bool)
    ensures aborted <==> FirstEscape(visits) < |visits|
    ensures out == SaveAll(sink, Returns(visits[..FirstEscape(visits)]))
  {
    out := sink;
    var i := 0;
    while i < |visits| && visits[i].Returned?
      invariant i <= |visits|
      invariant forall k | 0 <= k < i :: visits[k].Returned?
      invariant out == SaveAll(sink, Returns(visits[..i]))
    {
      assert visits[..i + 1][..i] == visits[..i];
      var reviews := visits[i].reviews;
      assert Returns(visits[..i + 1]) == Returns(visits[..i]) + [reviews];
      if reviews != [] {
        out := Save(out, reviews);
      }
      i := i + 1;
    }
    FirstEscapeAt(visits, i);
    aborted := i < |visits|;
  }

  /** The first escape is the position up to which every visit returned and
      at which the visits end or one escaped. */
  lemma {:induction false} FirstEscapeAt(visits: seq<Visit>, i: nat)
    requires i <= |visits| && forall k | 0 <= k < i :: visits[k].Returned?
    requires i < |visits| ==> visits[i].Escaped?
    ensures FirstEscape(visits) == i
  {
  }

  /** The loop over the URLs as evidently intended: an exception on one URL
      is confined to that URL, which then gives no records, and every later
      URL is still visited. */
  method ProcessEachUrl(sink: Sink, visits: seq<Visit>) returns (out: Sink)
    ensures out == SaveAll(sink, Returns(visits))
  {
    out := sink;
    for i := 0 to |visits|
      invariant out == SaveAll(sink, Returns(visits[..i]))
    {
      assert visits[..i + 1][..i] == visits[..i];
      if visits[i].Returned? && visits[i].reviews != [] {
        out := Save(out, visits[i].reviews);
      }
    }
    assert visits[..|visits|] == visits;
  }

  /** A run in which no URL gave records leaves the file as it was. */
  lemma {:induction false} SaveAllNothing(sink: Sink, fetched: seq<seq<Review>>)
    requires Concat(fetched) == []
    ensures SaveAll(sink, fetched) == sink
  {
    if fetched != [] {
      SaveAllNothing(sink, fetched[..|fetched| - 1]);
    }
  }

  /** Over a run the file only grows: its old rows stay in place, and it
      exists afterwards exactly when it existed before or some URL gave records. */
  lemma {:induction false} SaveAllGrows(sink: Sink, fetched: seq<seq<Review>>)
    ensures SaveAll(sink, fetched).present == (sink.present || Concat(fetched) != [])
    ensures |sink.rows| <= |SaveAll(sink, fetched).rows|
    ensures SaveAll(sink, fetched).rows[..|sink.rows|] == sink.rows
  {
    if fetched != [] {
      var init := fetched[..|fetched| - 1];
      var mid := SaveAll(sink, init);
      SaveAllGrows(sink, init);
      var out := Save(mid, fetched[|fetched| - 1]);
      assert out.rows[..|sink.rows|] == out.rows[..|mid.rows|][..|sink.rows|];
    }
  }

  /** The records of every URL follow the file's old records, in URL order. */
  lemma {:induction false} SaveAllRecords(sink: Sink, fetched: seq<seq<Review>>)
    ensures Records(SaveAll(sink, fetched).rows) == Records(sink.rows) + Concat(fetched)
  {
    if fetched != [] {
      var init := fetched[..|fetched| - 1];
      SaveAllRecords(sink, init);
      SaveContents(SaveAll(sink, init), fetched[|fetched| - 1]);
      assert Concat(fetched) == Concat(init) + fetched[|fetched| - 1];
    }
  }

  /** A run adds a header exactly when the file did not exist and some URL
      gave records, and then as the first new row: a run writes at most one header. */
  lemma {:induction false} SaveAllHeader(sink: Sink, fetched: seq<seq<Review>>)
    ensures HeaderCount(SaveAll(sink, fetched).rows)
            == HeaderCount(sink.rows) + if !sink.present && Concat(fetched) != [] then 1 else 0
    ensures !sink.present && Concat(fetched) != [] ==>
            |sink.rows| < |SaveAll(sink, fetched).rows| && SaveAll(sink, fetched).rows[|sink.rows|] == Header
  {
    if fetched != [] {
      var init := fetched[..|fetched| - 1];
      var mid := SaveAll(sink, init);
      SaveAllHeader(sink, init);
      SaveAllGrows(sink, init);
      SaveContents(mid, fetched[|fetched| - 1]);
      if Concat(init) == [] {
        SaveAllNothing(sink, init);
      }
    }
  }

  /** Writing to a fresh file puts a header first; a second append to the
      same file adds its records without another header. */
  lemma HeaderWrittenOnce(first: seq<Review>, second: seq<Review>)
    requires first != [] && second != []
    ensures Save(Sink(false, []), first).rows[0] == Header
    ensures HeaderCount(Save(Save(Sink(false, []), first), second).rows) == 1
    ensures Records(Save(Save(Sink(false, []), first), second).rows) == first + second
  {
    var empty := Sink(false, []);
    SaveContents(empty, first);
    SaveContents(Save(empty, first), second);
  }

  /** The URLs of two consecutive stretches of visits give their records in turn. */
  lemma {:induction false} ReturnsAppend(a: seq<Visit>, b: seq<Visit>)
    ensures Returns(a + b) == Returns(a) + Returns(b)
    decreases |b|
  {
    if b != [] {
      var b' := b[..|b| - 1];
      assert (a + b)[..|a + b| - 1] == a + b';
      ReturnsAppend(a, b');
    } else {
      assert a + b == a;
    }
  }

  lemma {:induction false} ConcatAppend(a: seq<seq<Review>>, b: seq<seq<Review>>)
    ensures Concat(a + b) == Concat(a) + Concat(b)
    decreases |b|
  {
    if b != [] {
      var b' := b[..|b| - 1];
      assert (a + b)[..|a + b| - 1] == a + b';
      ConcatAppend(a, b');
    } else {
      assert a + b == a;
    }
  }

  /** Every URL's records are kept when escapes are confined: the file ends
      with the records of all returned visits, in URL order, an escaped URL
      contributing none. The run as written saves a prefix of those records,
      so confining escapes only adds the records of URLs after the first escape. */
  lemma {:induction false} EachUrlRecords(sink: Sink, visits: seq<Visit>)
    ensures Records(SaveAll(sink, Returns(visits)).rows) == Records(sink.rows) + Concat(Returns(visits))
    ensures Records(SaveAll(sink, Returns(visits[..FirstEscape(visits)])).rows)
            <= Records(SaveAll(sink, Returns(visits)).rows)
  {
    var e := FirstEscape(visits);
    assert visits == visits[..e] + visits[e..];
    ReturnsAppend(visits[..e], visits[e..]);
    ConcatAppend(Returns(visits[..e]), Returns(visits[e..]));
    SaveAllRecords(sink, Returns(visits));
    SaveAllRecords(sink, Returns(visits[..e]));
  }

  /** As written, one page that fails to load loses every later URL: when the
      first visit escapes and the second returns records `r`, the run leaves
      the file unchanged, while confining the escape would have saved `r`. */
  lemma LaterUrlsLost(sink: Sink, visits: seq<Visit>, r: seq<Review>)
    requires r != [] && visits == [Escaped, Returned(r)]
    ensures FirstEscape(visits) == 0
    ensures SaveAll(sink, Returns(visits[..FirstEscape(visits)])) == sink
    ensures Records(SaveAll(sink, Returns(visits)).rows) == Records(sink.rows) + r
  {
    assert visits[..0] == [];
    var none: seq<Review> := [];
    assert visits[..1] == [Escaped] && [Escaped][..0] == [];
    assert Returns(visits[..1]) == [none];
    var fetched := Returns(visits);
    assert fetched == [none, r];
    assert fetched[..1] == [none] && [none][..0] == [];
    assert Concat([none]) == Concat([]) + none == [];
    assert Concat(fetched) == Concat([none]) + r;
    SaveAllRecords(sink, fetched);
  }
}
