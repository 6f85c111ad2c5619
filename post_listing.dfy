/**
 * The `/getPost` handler (server.js lines 156-195): the rows of the page's
 * query are sorted newest first in place and reshaped into display records
 * with a short date label. The query itself is an input: its rows or a failure.
 */
module PostListing {
  import opened Wrappers
  import opened Http
  import opened Text
  import opened JsValues

  /**
   * A `timestamp` column as the driver hands it over: a Date, given by its time
   * value and by the text its `toString()` produces in the server's locale and
   * time zone.
   */
  datatype PublishedDate = PublishedDate(timeValue: int, text: string)

  /** A row of `SELECT * FROM POSTS`; `published` is None for SQL NULL. */
  datatype Row = Row(
    postId: JsValue,
    postPage: JsValue,
    postTitle: JsValue,
    published: Option<PublishedDate>,
    postContent: JsValue,
    postContentType: JsValue,
    postImageUrl: JsValue)

  /** A display record of the response. */
  datatype PostView = PostView(id: JsValue, title: JsValue, date: string, content: JsValue, contentType: JsValue, url: JsValue)

  datatype QueryOutcome = Rows(rows: seq<Row>) | QueryFailed

  datatype ListBody = PostList(posts: seq<PostView>, message: string) | ListMessage(message: string)

  const FetchedMessage: string := "Users fetched successfully"
  const NoPostsMessage: string := "No posts found"
  const FetchFailedMessage: string := "An error occurred while fetching posts"

  // ---------------------------------------------------------------- the order

  /** The number the comparator subtracts: `new Date(row.post_published_date)`, 0 for NULL. */
  function SortKey(r: Row): int
  {
    if r.published.Some? then r.published.value.timeValue else 0
  }

  /** Newest first: publish times never increase along the sequence. */
  ghost predicate NewestFirst(s: seq<Row>)
  {
    forall i, j :: 0 <= i < j < |s| ==> SortKey(s[i]) >= SortKey(s[j])
  }

  /** Places `x` after every row at least as new as it, keeping the rest in order. */
  function InsertByDate(sorted: seq<Row>, x: Row): (r: seq<Row>)
    ensures |r| == |sorted| + 1
  {
    if |sorted| == 0 then [x]
    else if SortKey(sorted[0]) < SortKey(x) then [x] + sorted
    else [sorted[0]] + InsertByDate(sorted[1..], x)
  }

  /**
   * `rows.sort((a, b) => new Date(b.post_published_date) - new Date(a.post_published_date))`:
   * a stable sort, newest first.
   */
  function SortNewestFirst(rows: seq<Row>): (sorted: seq<Row>)
    ensures |sorted| == |rows|
  {
    if |rows| == 0 then [] else InsertByDate(SortNewestFirst(rows[..|rows| - 1]), rows[|rows| - 1])
  }

  /** The rows whose publish time is `key`, in their order. */
  function WithKey(s: seq<Row>, key: int): seq<Row>
  {
    if |s| == 0 then [] else (if SortKey(s[0]) == key then [s[0]] else []) + WithKey(s[1..], key)
  }

  lemma {:induction false} InsertByDatePermutes(sorted: seq<Row>, x: Row)
    ensures multiset(InsertByDate(sorted, x)) == multiset(sorted) + multiset{x}
  {
    if |sorted| > 0 && SortKey(sorted[0]) >= SortKey(x) {
      InsertByDatePermutes(sorted[1..], x);
      assert sorted == [sorted[0]] + sorted[1..];
    }
  }

  lemma {:induction false} InsertByDateKeepsOrder(sorted: seq<Row>, x: Row)
    requires NewestFirst(sorted)
    ensures NewestFirst(InsertByDate(sorted, x))
  {
    if |sorted| == 0 {
    } else if SortKey(sorted[0]) < SortKey(x) {
      NewestFirstCons(x, sorted);
    } else {
      var tail := sorted[1..];
      var rest := InsertByDate(tail, x);
      NewestFirstTail(sorted);
      InsertByDateKeepsOrder(tail, x);
      InsertByDatePermutes(tail, x);
      forall k | 0 <= k < |rest| ensures SortKey(sorted[0]) >= SortKey(rest[k]) {
        assert rest[k] in multiset(rest);
        if rest[k] != x {
          assert rest[k] in multiset(tail);
          var p :| 0 <= p < |tail| && tail[p] == rest[k];
          assert sorted[p + 1] == rest[k];
        }
      }
      NewestFirstCons(sorted[0], rest);
    }
  }

  /** A row at least as new as every row of a newest-first sequence can go in front of it. */
  lemma NewestFirstCons(head: Row, s: seq<Row>)
    requires NewestFirst(s)
    requires forall k :: 0 <= k < |s| ==> SortKey(head) >= SortKey(s[k])
    ensures NewestFirst([head] + s)
  {
    var t := [head] + s;
    forall p, q | 0 <= p < q < |t| ensures SortKey(t[p]) >= SortKey(t[q]) {
      assert t[q] == s[q - 1];
      if p > 0 {
        assert t[p] == s[p - 1];
      }
    }
  }

  lemma {:induction false} WithKeyAppend(a: seq<Row>, b: seq<Row>, key: int)
    ensures WithKey(a + b, key) == WithKey(a, key) + WithKey(b, key)
  {
    if |a| > 0 {
      WithKeyAppend(a[1..], b, key);
      assert (a + b)[1..] == a[1..] + b;
    } else {
      assert a + b == b;
    }
  }

  lemma {:induction false} WithNewerKeyIsEmpty(sorted: seq<Row>, key: int)
    requires NewestFirst(sorted)
    requires |sorted| > 0 ==> SortKey(sorted[0]) < key
    ensures WithKey(sorted, key) == []
  {
    if |sorted| > 0 {
      WithNewerKeyIsEmpty(sorted[1..], key);
    }
  }

  /** Inserting `x` puts it behind every row of its own publish time. */
  lemma {:induction false} InsertByDateIsStable(sorted: seq<Row>, x: Row, key: int)
    requires NewestFirst(sorted)
    ensures WithKey(InsertByDate(sorted, x), key) == WithKey(sorted, key) + WithKey([x], key)
  {
    if |sorted| == 0 {
    } else if SortKey(sorted[0]) < SortKey(x) {
      WithKeyAppend([x], sorted, key);
      if SortKey(x) == key {
        WithNewerKeyIsEmpty(sorted, key);
      }
    } else {
      NewestFirstTail(sorted);
      InsertByDateIsStable(sorted[1..], x, key);
      WithKeyAppend([sorted[0]], InsertByDate(sorted[1..], x), key);
      WithKeyAppend([sorted[0]], sorted[1..], key);
      assert [sorted[0]] + sorted[1..] == sorted;
    }
  }

  lemma {:induction false} SortNewestFirstPermutes(rows: seq<Row>)
    ensures multiset(SortNewestFirst(rows)) == multiset(rows)
  {
    if |rows| > 0 {
      var init, last := rows[..|rows| - 1], rows[|rows| - 1];
      SortNewestFirstPermutes(init);
      InsertByDatePermutes(SortNewestFirst(init), last);
      assert rows == init + [last];
    }
  }

  lemma {:induction false} SortNewestFirstOrders(rows: seq<Row>)
    ensures NewestFirst(SortNewestFirst(rows))
  {
    if |rows| > 0 {
      SortNewestFirstOrders(rows[..|rows| - 1]);
      InsertByDateKeepsOrder(SortNewestFirst(rows[..|rows| - 1]), rows[|rows| - 1]);
    }
  }

  lemma {:induction false} SortNewestFirstIsStable(rows: seq<Row>, key: int)
    ensures WithKey(SortNewestFirst(rows), key) == WithKey(rows, key)
  {
    if |rows| > 0 {
      var init, last := rows[..|rows| - 1], rows[|rows| - 1];
      SortNewestFirstIsStable(init, key);
      SortNewestFirstOrders(init);
      InsertByDateIsStable(SortNewestFirst(init), last, key);
      WithKeyAppend(init, [last], key);
      assert rows == init + [last];
    }
  }

  /**
   * The sort is a permutation, puts the newest rows first, and is stable: rows
   * with equal publish times keep their query order. These three facts fix the
   * result, as they fix the result of JavaScript's stable `Array.prototype.sort`.
   */
  lemma SortNewestFirstIsStableSort(rows: seq<Row>)
    ensures |SortNewestFirst(rows)| == |rows|
    ensures multiset(SortNewestFirst(rows)) == multiset(rows)
    ensures NewestFirst(SortNewestFirst(rows))
    ensures forall key :: WithKey(SortNewestFirst(rows), key) == WithKey(rows, key)
  {
    SortNewestFirstPermutes(rows);
    assert |multiset(SortNewestFirst(rows))| == |multiset(rows)|;
    SortNewestFirstOrders(rows);
    forall key ensures WithKey(SortNewestFirst(rows), key) == WithKey(rows, key) {
      SortNewestFirstIsStable(rows, key);
    }
  }

  /** Where the shifting loop leaves the row it carries: right after the rows at least as new. */
  lemma {:induction false} InsertByDateAt(sorted: seq<Row>, x: Row, j: nat)
    requires j <= |sorted| && NewestFirst(sorted)
    requires j < |sorted| ==> SortKey(sorted[j]) < SortKey(x)
    requires j > 0 ==> SortKey(sorted[j - 1]) >= SortKey(x)
    ensures InsertByDate(sorted, x) == sorted[..j] + [x] + sorted[j..]
  {
    if j > 0 {
      var tail := sorted[1..];
      assert SortKey(sorted[0]) >= SortKey(x);
      assert InsertByDate(sorted, x) == [sorted[0]] + InsertByDate(tail, x);
      NewestFirstTail(sorted);
      InsertByDateAt(tail, x, j - 1);
      SplitAfterHead(sorted, x, j);
    }
  }

  lemma NewestFirstTail(s: seq<Row>)
    requires |s| > 0 && NewestFirst(s)
    ensures NewestFirst(s[1..])
  {
    forall p, q | 0 <= p < q < |s| - 1 ensures SortKey(s[1..][p]) >= SortKey(s[1..][q]) {
      assert s[1..][p] == s[p + 1] && s[1..][q] == s[q + 1];
    }
  }

  lemma SplitAfterHead(s: seq<Row>, x: Row, j: nat)
    requires 0 < j <= |s|
    ensures [s[0]] + (s[1..][..j - 1] + [x] + s[1..][j - 1..]) == s[..j] + [x] + s[j..]
  {
    assert s[1..][..j - 1] == s[1..j];
    assert s[1..][j - 1..] == s[j..];
    assert [s[0]] + s[1..j] == s[..j];
  }

  /** One pass of the insertion sort: carries `a[i]` left past the older rows of the sorted prefix. */
  method InsertIntoPrefix(a: array<Row>, i: nat)
    requires i < a.Length && NewestFirst(a[..i])
    modifies a
    ensures a[..i + 1] == InsertByDate(old(a[..i]), old(a[i]))
    ensures a[i + 1..] == old(a[i + 1..])
  {
    ghost var sorted := a[..i];
    ghost var rest := a[i + 1..];
    var x := a[i];
    var j := ShiftOlderRows(a, i, x);
    a[j] := x;
    assert j < i ==> SortKey(sorted[j]) < SortKey(x);
    assert j > 0 ==> SortKey(sorted[j - 1]) >= SortKey(x);
    InsertByDateAt(sorted, x, j);
    ShiftedInsert(a[..i + 1], sorted, x, j);
    assert a[i + 1..] == rest;
  }

  /**
   * Moves the rows before `i` that are older than `x` one place right, over
   * `a[i]`, and returns the index of the gap they leave.
   */
  method ShiftOlderRows(a: array<Row>, i: nat, x: Row) returns (j: nat)
    requires i < a.Length
    modifies a
    ensures j <= i
    ensures forall k :: 0 <= k < j ==> a[k] == old(a[k])
    ensures forall k :: j < k <= i ==> a[k] == old(a[k - 1])
    ensures forall k :: i < k < a.Length ==> a[k] == old(a[k])
    ensures j < i ==> SortKey(old(a[j])) < SortKey(x)
    ensures j > 0 ==> SortKey(old(a[j - 1])) >= SortKey(x)
  {
    j := i;
    while j > 0 && SortKey(a[j - 1]) < SortKey(x)
      invariant j <= i
      invariant forall k :: 0 <= k < j ==> a[k] == old(a[k])
      invariant forall k :: j < k <= i ==> a[k] == old(a[k - 1])
      invariant forall k :: i < k < a.Length ==> a[k] == old(a[k])
      invariant j < i ==> SortKey(old(a[j])) < SortKey(x)
    {
      a[j] := a[j - 1];
      j := j - 1;
    }
  }

  /** A sequence that agrees with `sorted` before `j`, holds `x` at `j` and `sorted` shifted by one after it. */
  lemma ShiftedInsert(s: seq<Row>, sorted: seq<Row>, x: Row, j: nat)
    requires |s| == |sorted| + 1 && j <= |sorted|
    requires forall k :: 0 <= k < j ==> s[k] == sorted[k]
    requires s[j] == x
    requires forall k :: j < k < |s| ==> s[k] == sorted[k - 1]
    ensures s == sorted[..j] + [x] + sorted[j..]
  {
  }

  /** The in-place sort of line 166: an insertion sort, which is stable like JavaScript's. */
  method SortRowsNewestFirst(a: array<Row>)
    modifies a
    ensures a[..] == SortNewestFirst(old(a[..]))
  {
    ghost var input := a[..];
    var i := 0;
    while i < a.Length
      invariant 0 <= i <= a.Length
      invariant a[..i] == SortNewestFirst(input[..i])
      invariant a[i..] == input[i..]
    {
      SortNewestFirstOrders(input[..i]);
      assert a[i + 1..] == input[i + 1..] by {
        assert a[i + 1..] == a[i..][1..] && input[i + 1..] == input[i..][1..];
      }
      InsertIntoPrefix(a, i);
      SortNewestFirstOfPrefix(input, i);
      i := i + 1;
    }
    assert input[..a.Length] == input;
  }

  /** Sorting one more row of the input inserts it into the sorted shorter prefix. */
  lemma SortNewestFirstOfPrefix(input: seq<Row>, i: nat)
    requires i < |input|
    ensures SortNewestFirst(input[..i + 1]) == InsertByDate(SortNewestFirst(input[..i]), input[i])
  {
    assert input[..i + 1][..i] == input[..i];
  }

  // ---------------------------------------------------------------- the display records

  /** `parts[i]` inside a template literal: the piece, or "undefined" past the end. */
  function PieceText(parts: seq<string>, i: nat): string
  {
    if i < |parts| then parts[i] else "undefined"
  }

  /** Lines 171-175: the second and third space-separated pieces of the date's text. */
  function DateLabel(dateText: string): (monthDay: string)
    ensures |Split(monthDay, ' ')| == 2
  {
    var parts := Split(dateText, ' ');
    var month, day := PieceText(parts, 1), PieceText(parts, 2);
    assert ' ' !in "undefined";
    SplitAfterWord(month, ' ', day);
    SplitHasOnePiece(day, ' ');
    month + " " + day
  }

  /**
   * For text shaped like `Date.prototype.toString` ("Sun Jan 05 2025 10:30:00
   * GMT+0530 (...)"), the label is the month and the day as printed there.
   */
  lemma DateLabelOfDateText(weekday: string, month: string, day: string, rest: string)
    requires ' ' !in weekday && ' ' !in month && ' ' !in day
    ensures DateLabel(weekday + " " + month + " " + day + " " + rest) == month + " " + day
  {
    var afterDay := Split(rest, ' ');
    SplitAfterWord(day, ' ', rest);
    SplitAfterWord(month, ' ', day + [' '] + rest);
    SplitAfterWord(weekday, ' ', month + [' '] + (day + [' '] + rest));
    var text := weekday + [' '] + (month + [' '] + (day + [' '] + rest));
    assert Split(text, ' ') == [weekday, month, day] + afterDay;
    assert weekday + " " + month + " " + day + " " + rest == text;
  }

  /** Text without a space yields "undefined" in both places of the label. */
  lemma DateLabelOfOneWord(first: string)
    requires ' ' !in first
    ensures DateLabel(first) == "undefined undefined"
  {
    SplitHasOnePiece(first, ' ');
  }

  /** Text with two pieces yields the second piece and "undefined". */
  lemma DateLabelOfTwoWords(first: string, second: string)
    requires ' ' !in first && ' ' !in second
    ensures DateLabel(first + " " + second) == second + " undefined"
  {
    SplitAfterWord(first, ' ', second);
    SplitHasOnePiece(second, ' ');
    assert first + " " + second == first + [' '] + second;
  }

  /** Text of exactly three pieces yields the second and the third. */
  lemma DateLabelOfThreeWords(first: string, second: string, third: string)
    requires ' ' !in first && ' ' !in second && ' ' !in third
    ensures DateLabel(first + " " + second + " " + third) == second + " " + third
  {
    SplitHasOnePiece(third, ' ');
    SplitAfterWord(second, ' ', third);
    SplitAfterWord(first, ' ', second + [' '] + third);
    assert first + " " + second + " " + third == first + [' '] + (second + [' '] + third);
  }

  /** Every row carries a date; otherwise `.toString()` of NULL throws inside the map. */
  predicate AllDated(rows: seq<Row>)
  {
    forall i :: 0 <= i < |rows| ==> rows[i].published.Some?
  }

  /** The map callback of lines 170-184 for a row with a date. */
  function ToView(row: Row): (v: PostView)
    requires row.published.Some?
    ensures v.id == row.postId && v.title == row.postTitle && v.content == row.postContent
    ensures v.contentType == row.postContentType && v.url == row.postImageUrl
    ensures |Split(v.date, ' ')| == 2
  {
    PostView(row.postId, row.postTitle, DateLabel(row.published.value.text),
             row.postContent, row.postContentType, row.postImageUrl)
  }

  /** `sortedRows.map(...)` over rows that all carry a date. */
  function Views(rows: seq<Row>): (views: seq<PostView>)
    requires AllDated(rows)
    ensures |views| == |rows|
    ensures forall i :: 0 <= i < |rows| ==> views[i].id == rows[i].postId && |Split(views[i].date, ' ')| == 2
  {
    seq(|rows|, i requires 0 <= i < |rows| => ToView(rows[i]))
  }

  /** Reordering the rows does not change whether some date is NULL. */
  lemma AllDatedPermutation(a: seq<Row>, b: seq<Row>)
    requires multiset(a) == multiset(b)
    ensures AllDated(a) <==> AllDated(b)
  {
    forall i | 0 <= i < |a| ensures a[i] in b {
      assert a[i] in multiset(a);
    }
    forall i | 0 <= i < |b| ensures b[i] in a {
      assert b[i] in multiset(b);
    }
  }

  // ---------------------------------------------------------------- the handler

  /**
   * The `/getPost` handler on the outcome of its query: 500 when the query
   * fails, 400 when it finds nothing, otherwise the rows sorted in place,
   * newest first, and mapped to display records (500 if a date is NULL).
   */
  method GetPost(query: QueryOutcome) returns (r: Response<ListBody>)
    ensures query.QueryFailed? ==> r == Response(500, ListMessage(FetchFailedMessage))
    ensures query.Rows? && |query.rows| == 0 ==> r == Response(400, ListMessage(NoPostsMessage))
    ensures query.Rows? && |query.rows| > 0 && !AllDated(query.rows)
            ==> r == Response(500, ListMessage(FetchFailedMessage))
    ensures query.Rows? && |query.rows| > 0 && AllDated(query.rows)
            ==> AllDated(SortNewestFirst(query.rows))
                && r == Response(200, PostList(Views(SortNewestFirst(query.rows)), FetchedMessage))
  {
    if query.QueryFailed? {
      return Response(500, ListMessage(FetchFailedMessage));
    }
    var rows := query.rows;
    if |rows| == 0 {
      return Response(400, ListMessage(NoPostsMessage));
    }
    var a := new Row[|rows|](i requires 0 <= i < |rows| => rows[i]);
    assert a[..] == rows;
    SortRowsNewestFirst(a);
    var sorted := a[..];
    SortNewestFirstPermutes(rows);
    AllDatedPermutation(sorted, rows);
    if !AllDated(sorted) {
      return Response(500, ListMessage(FetchFailedMessage));
    }
    r := Response(200, PostList(Views(sorted), FetchedMessage));
  }

  /**
   * A successful listing holds one display record per row, in the order of a
   * stable newest-first sort of the rows, each copying its row's id, title,
   * content, content type and image URL and labelling its date.
   */
  lemma ListingIsNewestFirst(rows: seq<Row>)
    requires AllDated(rows)
    ensures var sorted := SortNewestFirst(rows);
            && multiset(sorted) == multiset(rows)
            && NewestFirst(sorted)
            && (forall key :: WithKey(sorted, key) == WithKey(rows, key))
            && AllDated(sorted)
            && var posts := Views(sorted);
               && |posts| == |rows|
               && forall i :: 0 <= i < |posts| ==>
                    && posts[i].id == sorted[i].postId
                    && posts[i].title == sorted[i].postTitle
                    && posts[i].content == sorted[i].postContent
                    && posts[i].contentType == sorted[i].postContentType
                    && posts[i].url == sorted[i].postImageUrl
                    && posts[i].date == DateLabel(sorted[i].published.value.text)
  {
    SortNewestFirstIsStableSort(rows);
    AllDatedPermutation(SortNewestFirst(rows), rows);
  }
}
